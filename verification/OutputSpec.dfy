/**
  What leaves the IP output path, as a function of packet and decision: through the
  broadcast, load-balancing, fragmentation and tunnelling branches, down to the interface.

  Decisions made by code outside the path (filters, rate limits, redirections, interface
  states) are inputs.
*/
module OutputSpec {
  import opened Basics
  import opened Kernel
  import opened Fragmentation
  import opened Journey

  const TTL_UNSET := -1
  const DGRAM_HEADER_BITS := 160

  datatype TunnelMode = Gre | IpIp | V6Manual | V6Auto | V6To4

  /** `endpoints` are the next-hop addresses a multipoint tunnel knows; `fieldsFail` says that
      the addresses of the outer datagram cannot be determined. */
  datatype Tunnel = Tunnel(
    multipoint: bool, endpoints: seq<int>, mode: TunnelMode, headerBits: int, ttl: Option<int>,
    passesV4: bool, passesV6: bool, fieldsFail: bool)

  /** An interface: `usable` as the all-interfaces broadcast sees it, `blocks` the verdict of
      status and filter checks, `rateLimited` that of the outgoing rate policy. */
  datatype Intf = Intf(
    mtu: int, addr: int, broadcastAddr: int, tunnel: Option<Tunnel>, hasStream: bool,
    usable: bool, blocks: bool, rateLimited: bool)
  {
    /** A packet put on the interface gets as far as fragmentation. */
    predicate Open() { !blocks && !rateLimited }
  }

  /** The next address, and whether it is a broadcast or multicast one. */
  datatype NextHop = NextHop(addr: int, group: bool)

  datatype Share = Share(intf: nat, hop: NextHop, ratio: real)

  /** The interface index a decision holds: a particular one, all of them, or none that is
      valid, as it is for some packets that only go up. */
  datatype Output = One(intf: nat) | All | Invalid

  /** The routing decision that comes with a packet. */
  datatype Decision = Decision(
    destroy: bool, mobileIp: bool, manet: bool, higherLayer: bool,
    broadcast: bool, limited: bool, mpls: bool, otherSlot: bool,
    local: bool, received: Output, output: Output, hop: NextHop, shares: seq<Share>)

  datatype Router = Router(intfs: seq<Intf>, compressedSize: int)

  // ----- what is accounted for, and when -----

  /** The MTU is not exactly the header size, at which the source divides by zero. */
  predicate Defined(d: Pkt, mtu: int, comp: int) { Fits(d, mtu, comp) || Room(d, mtu) != 0 }

  /** Fragmentation gives away everything it takes out of the packet: at least one piece is
      made, and what is taken out is put back into the last. */
  predicate LeakFree(d: Pkt, mtu: int, comp: int) {
    Fits(d, mtu, comp) ||
    (NumFrags(d, mtu) >= 1 && if d.frag then d.data.None? else d.carried.None?)
  }

  /** At least one piece is made exactly in these cases: room in every piece, or one of two
      corner cases in which the truncating division still yields something. */
  lemma SomePieceIff(d: Pkt, mtu: int)
    requires d.fragLen >= 0 && Room(d, mtu) != 0
    ensures NumFrags(d, mtu) >= 1 <==>
            if d.fragLen == 0 then Room(d, mtu) < 0 else d.fragLen == 1 || Room(d, mtu) > 0
  {
    var room := Room(d, mtu);
    var n := d.fragLen + room - 1;
    if room > 0 {
      if d.fragLen > 0 { NumFragsBounds(d, mtu); }
    } else if d.fragLen >= 2 {
      assert n < 0 ==> -n < -room;
    }
  }

  /** A packet of 100 payload bytes sent to an interface whose MTU is below the header size
      makes no piece at all: the packet and what was taken out of it are never given away. */
  lemma LeakingExample()
    ensures var d := BlankPkt(960).(fragLen := 100, data := Some(BlankPkt(800)));
            HeaderSize(d) == 20 && Defined(d, 10, 0) && !LeakFree(d, 10, 0) && Frags(d, 10, 0) == []
  {
    var d := BlankPkt(960).(fragLen := 100, data := Some(BlankPkt(800)));
    assert HeaderSize(d) == 20 && NumFrags(d, 10) == -8;
  }

  function BlankPkt(size: int): Pkt {
    Pkt(size, false, 0, 0, NoCompression, 0, 0, false, false, false, [], None, None, None)
  }

  /** The interfaces among `targets` exist, and those open can be asked to fragment `d`. */
  ghost predicate Ready(r: Router, d: Pkt, targets: set<Output>) {
    forall t | t in targets ::
      t.One? && t.intf < |r.intfs| && (r.intfs[t.intf].Open() ==> Defined(d, r.intfs[t.intf].mtu, r.compressedSize))
  }

  /** Fragmentation is free of leaks at every open one of them. */
  ghost predicate Clean(r: Router, d: Pkt, targets: set<Output>)
    requires Ready(r, d, targets)
  {
    forall t | t in targets && r.intfs[t.intf].Open() :: LeakFree(d, r.intfs[t.intf].mtu, r.compressedSize)
  }

  /** Equal in everything fragmentation's accounting depends on. */
  predicate SameShape(d: Pkt, e: Pkt) {
    d.size == e.size && d.fragLen == e.fragLen && d.frag == e.frag && d.v6 == e.v6 &&
    d.compression == e.compression && d.data.None? == e.data.None? && d.carried.None? == e.carried.None?
  }

  lemma ShapeDecides(d: Pkt, e: Pkt, mtu: int, comp: int)
    requires SameShape(d, e)
    ensures Defined(d, mtu, comp) == Defined(e, mtu, comp) && LeakFree(d, mtu, comp) == LeakFree(e, mtu, comp)
  {
  }

  lemma ShapeReady(r: Router, d: Pkt, e: Pkt, targets: set<Output>)
    requires SameShape(d, e)
    ensures Ready(r, d, targets) <==> Ready(r, e, targets)
    ensures Ready(r, d, targets) ==> (Clean(r, d, targets) <==> Clean(r, e, targets))
  {
    forall t | t in targets && t.One? && t.intf < |r.intfs|
      ensures Defined(d, r.intfs[t.intf].mtu, r.compressedSize) == Defined(e, r.intfs[t.intf].mtu, r.compressedSize)
      ensures LeakFree(d, r.intfs[t.intf].mtu, r.compressedSize) == LeakFree(e, r.intfs[t.intf].mtu, r.compressedSize)
    {
      ShapeDecides(d, e, r.intfs[t.intf].mtu, r.compressedSize);
    }
  }

  // ----- what leaves the path -----

  /** Not an IPv4 tunnel packet that this very node has made. */
  predicate LoopFree(d: Pkt) { d.v6 || !d.selfTunnelled }

  /** The tunnel takes the packet. */
  predicate Accepts(t: Tunnel, d: Pkt) {
    LoopFree(d) &&
    match t.mode
    case Gre => if d.v6 then t.passesV6 else t.passesV4
    case IpIp => true
    case _ => !t.fieldsFail
  }

  /** What goes into the outer datagram: the packet, for GRE inside a GRE packet. */
  function Payload(t: Tunnel, d: Pkt): Pkt {
    if t.mode.Gre? then BlankPkt(d.size + t.headerBits).(data := Some(d)) else d
  }

  /** The datagram that encapsulates `d`, inside a GRE packet if need be. */
  function Outer(t: Tunnel, d: Pkt): Pkt {
    var inner := d.size + t.headerBits;
    BlankPkt(DGRAM_HEADER_BITS + inner).(
      fragLen := TruncDiv(inner, 8), originalSize := DGRAM_HEADER_BITS + inner,
      ttl := match t.ttl { case None => d.ttl case Some(x) => x },
      selfTunnelled := true, data := Some(Payload(t, d)))
  }

  /** A packet this node has put into a tunnel does not go into a tunnel here again. */
  lemma TunnelledOnce(t: Tunnel, d: Pkt, t2: Tunnel, hop: NextHop)
    ensures !LoopFree(Outer(t, d)) && TunnelOut(t2, Outer(t, d), hop) == []
  {
    NoneRepeated(OnceTunnelled(t2, Outer(t, d)), |t2.endpoints|);
  }

  lemma {:induction false} NoneRepeated(evs: seq<Out>, n: nat)
    requires evs == []
    ensures Repeated(evs, n) == []
  {
    if n > 0 { NoneRepeated(evs, n - 1); }
  }

  function OnceTunnelled(t: Tunnel, d: Pkt): seq<Out> {
    if Accepts(t, d) then [Tunnelled(Outer(t, d))] else []
  }

  function Repeated(evs: seq<Out>, n: nat): seq<Out> {
    if n == 0 then [] else Repeated(evs, n - 1) + evs
  }

  /** To every endpoint for a group address, else to the endpoint named, if it is one. */
  function TunnelOut(t: Tunnel, d: Pkt, hop: NextHop): seq<Out> {
    if !t.multipoint then OnceTunnelled(t, d)
    else if hop.group then Repeated(OnceTunnelled(t, d), |t.endpoints|)
    else if hop.addr in t.endpoints then OnceTunnelled(t, d)
    else []
  }

  function IntfOut(intf: Intf, i: nat, d: Pkt, hop: NextHop): seq<Out> {
    match intf.tunnel
    case Some(t) => TunnelOut(t, d, hop)
    case None => if intf.hasStream then [Wire(d, i)] else []
  }

  function PiecesOut(intf: Intf, i: nat, pkts: seq<Pkt>, hop: NextHop): seq<Out> {
    if pkts == [] then []
    else PiecesOut(intf, i, pkts[..|pkts| - 1], hop) + IntfOut(intf, i, pkts[|pkts| - 1], hop)
  }

  /** A tracer's traffic volume under a split ratio. */
  function Scaled(d: Pkt, ratio: Option<real>): Pkt {
    match (d.volume, ratio)
    case (Some(v), Some(x)) => d.(volume := Some(v * x))
    case _ => d
  }

  function SingleOut(r: Router, d: Pkt, output: Output, hop: NextHop, ratio: Option<real>): seq<Out> {
    if output.One? && output.intf < |r.intfs| && r.intfs[output.intf].Open() then
      var intf := r.intfs[output.intf];
      PiecesOut(intf, output.intf, Frags(Scaled(d, ratio), intf.mtu, r.compressedSize), hop)
    else []
  }

  /** One copy for each of the first `n` shares. */
  function SharesOut(r: Router, d: Pkt, shares: seq<Share>, n: nat): seq<Out>
    requires n <= |shares|
  {
    if n == 0 then []
    else SharesOut(r, d, shares, n - 1) +
         SingleOut(r, d, One(shares[n - 1].intf), shares[n - 1].hop, Some(shares[n - 1].ratio))
  }

  /** The TTL with which a packet leaves a router, if it leaves at all: packets from above
      keep theirs, others lose one and are dropped at zero. */
  function ForwardedTtl(local: bool, ttl: int): Option<int> {
    if local then Some(ttl) else if ttl == 1 then None else Some(ttl - 1)
  }

  function ForwardOut(r: Router, c: Decision, d: Pkt): seq<Out> {
    match ForwardedTtl(c.local, d.ttl)
    case None => []
    case Some(ttl) =>
      if c.shares == [] then SingleOut(r, d.(ttl := ttl), c.output, c.hop, None)
      else SharesOut(r, d.(ttl := ttl), c.shares, |c.shares|)
  }

  /** The clamp a single-interface broadcast applies beforehand. */
  function ClampedTtl(local: bool, ttl: int): int {
    if local then 1 else if ttl > 2 then 2 else ttl
  }

  /** The TTL a broadcast packet has when it is forwarded: an unset one becomes 1 for all
      interfaces, a directed broadcast is clamped. */
  function BroadcastTtl(c: Decision, ttl: int): int {
    if c.output.All? then (if ttl == TTL_UNSET then 1 else ttl) else ClampedTtl(c.local, ttl)
  }

  /** The decision for the copy on interface `i`: on to its broadcast address. */
  function OnIntf(r: Router, c: Decision, i: nat): Decision
    requires i < |r.intfs|
  {
    c.(output := One(i), hop := NextHop(r.intfs[i].broadcastAddr, true))
  }

  /** A copy on each usable one of the first `n` interfaces, its address recorded. */
  function EverywhereOut(r: Router, c: Decision, d: Pkt, n: nat): seq<Out>
    requires n <= |r.intfs|
  {
    if n == 0 then [] else EverywhereOut(r, c, d, n - 1) + RoundOut(r, c, d, n - 1)
  }

  function RoundOut(r: Router, c: Decision, d: Pkt, i: nat): seq<Out>
    requires i < |r.intfs|
  {
    if r.intfs[i].usable then ForwardOut(r, OnIntf(r, c, i), RecordHop(d, r.intfs[i].addr)) else []
  }

  function BroadcastOut(r: Router, c: Decision, d: Pkt): seq<Out> {
    var e := d.(ttl := BroadcastTtl(c, d.ttl));
    if c.output.All? then EverywhereOut(r, c, e, |r.intfs|) else ForwardOut(r, c, e)
  }

  /** A directed broadcast for another of the node's subnets. */
  predicate RemoteBroadcast(c: Decision) {
    c.broadcast && !c.limited && c.output != c.received
  }

  function SendOut(r: Router, c: Decision, d: Pkt): seq<Out> {
    if c.destroy then []
    else if c.mobileIp || c.manet then [Other(d)]
    else if c.higherLayer then (if RemoteBroadcast(c) then BroadcastOut(r, c, d) else []) + [Up(d)]
    else if c.broadcast then BroadcastOut(r, c, d)
    else if c.mpls || c.otherSlot then [Other(d)]
    else ForwardOut(r, c, d)
  }

  // ----- the interfaces that get to see the packet -----

  function ShareTargets(shares: seq<Share>, n: nat): set<Output>
    requires n <= |shares|
  {
    if n == 0 then {} else ShareTargets(shares, n - 1) + {One(shares[n - 1].intf)}
  }

  /** The packet is forwarded at all only if its TTL lasts. */
  function ForwardTargets(c: Decision, ttl: int): set<Output> {
    if ForwardedTtl(c.local, ttl).None? then {}
    else if c.shares == [] then {c.output}
    else ShareTargets(c.shares, |c.shares|)
  }

  function EverywhereTargets(r: Router, c: Decision, ttl: int, n: nat): set<Output>
    requires n <= |r.intfs|
  {
    if n == 0 then {} else EverywhereTargets(r, c, ttl, n - 1) + RoundTargets(r, c, ttl, n - 1)
  }

  function RoundTargets(r: Router, c: Decision, ttl: int, i: nat): set<Output>
    requires i < |r.intfs|
  {
    if r.intfs[i].usable then ForwardTargets(OnIntf(r, c, i), ttl) else {}
  }

  function BroadcastTargets(r: Router, c: Decision, ttl: int): set<Output> {
    if c.output.All? then EverywhereTargets(r, c, BroadcastTtl(c, ttl), |r.intfs|)
    else ForwardTargets(c, BroadcastTtl(c, ttl))
  }

  /** The interfaces on which the path puts the packet or a copy of it. */
  function SendTargets(r: Router, c: Decision, ttl: int): set<Output> {
    if c.destroy || c.mobileIp || c.manet then {}
    else if c.higherLayer then (if RemoteBroadcast(c) then BroadcastTargets(r, c, ttl) else {})
    else if c.broadcast then BroadcastTargets(r, c, ttl)
    else if c.mpls || c.otherSlot then {}
    else ForwardTargets(c, ttl)
  }

  predicate InTable(r: Router, output: Output) { output.One? && output.intf < |r.intfs| }

  /** A broadcast looks its one interface up beforehand; nothing else needs the index unless
      the packet gets there. */
  predicate Routed(r: Router, c: Decision) {
    if c.destroy || c.mobileIp || c.manet then true
    else if c.higherLayer then RemoteBroadcast(c) ==> InTable(r, c.output)
    else c.broadcast ==> c.output.All? || InTable(r, c.output)
  }

  lemma Assoc(a: seq<Out>, b: seq<Out>, c: seq<Out>)
    ensures a + b + c == a + (b + c)
  {
  }
}
