/**
  What becomes of a packet, read off the fields of its routing decision and off the events
  put out: where it goes, by which interfaces, in what size, and inside which tunnel packets.
*/
module Dispatch {
  import opened Basics
  import opened Kernel
  import opened Fragmentation
  import opened Journey
  import opened OutputSpec

  /** The packets passed up, in order. */
  function Ups(evs: seq<Out>): seq<Pkt> {
    if evs == [] then []
    else Ups(evs[..|evs| - 1]) + if evs[|evs| - 1].Up? then [evs[|evs| - 1].pkt] else []
  }

  /** The packets handed to somebody beside the path, in order. */
  function Asides(evs: seq<Out>): seq<Pkt> {
    if evs == [] then []
    else Asides(evs[..|evs| - 1]) + if evs[|evs| - 1].Other? then [evs[|evs| - 1].pkt] else []
  }

  /** Nothing but frames and tunnel packets. */
  ghost predicate Onward(evs: seq<Out>) { forall e | e in evs :: e.Wire? || e.Tunnelled? }

  /** Mobile IP and MANET come first, then what goes up or is broadcast. */
  predicate GoesAside(c: Decision) {
    c.mobileIp || c.manet || (!c.higherLayer && !c.broadcast && (c.mpls || c.otherSlot))
  }

  /** Of what goes up only a broadcast for another subnet goes on as well. */
  predicate GoesOn(c: Decision) {
    !GoesAside(c) && (c.higherLayer ==> c.broadcast && !c.limited && c.output != c.received)
  }

  /** The packet goes up exactly once, as it is and last of all, if it is for this node and
      not redirected; it is handed aside exactly once if it is redirected; frames and tunnel
      packets come of it only if it goes on; and of a packet to be destroyed comes nothing. */
  ghost predicate Dispatched(c: Decision, d: Pkt, evs: seq<Out>) {
    && (c.destroy ==> evs == [])
    && Ups(evs) == (if c.higherLayer && !c.mobileIp && !c.manet && !c.destroy then [d] else [])
    && Asides(evs) == (if GoesAside(c) && !c.destroy then [d] else [])
    && (Ups(evs) != [] ==> evs[|evs| - 1] == Up(d))
    && (!GoesOn(c) ==> forall e | e in evs :: !e.Wire? && !e.Tunnelled?)
  }

  // ----- who goes where -----

  lemma {:induction false} OnwardOnly(evs: seq<Out>)
    requires Onward(evs)
    ensures Ups(evs) == [] && Asides(evs) == []
  {
    if evs != [] {
      assert evs[|evs| - 1] in evs;
      OnwardOnly(evs[..|evs| - 1]);
    }
  }

  lemma ThenUp(evs: seq<Out>, d: Pkt)
    requires Onward(evs)
    ensures Ups(evs + [Up(d)]) == [d] && Asides(evs + [Up(d)]) == []
  {
    OnwardOnly(evs);
    assert (evs + [Up(d)])[..|evs|] == evs;
  }

  lemma JustAside(d: Pkt)
    ensures Ups([Other(d)]) == [] && Asides([Other(d)]) == [d]
  {
    assert [Other(d)][..0] == [];
  }

  lemma SendDispatched(r: Router, c: Decision, d: Pkt)
    ensures Dispatched(c, d, SendOut(r, c, d))
  {
    var evs := BroadcastOut(r, c, d);
    BroadcastLeaves(r, c, d);
    ForwardLeaves(r, c, d, d);
    OnwardOnly(evs);
    OnwardOnly(ForwardOut(r, c, d));
    ThenUp(evs, d);
    ThenUp([], d);
    JustAside(d);
    assert [] + [Up(d)] == [Up(d)];
  }

  // ----- tunnels -----

  /** `p` is what the tunnel makes of `x`: its TTL is the one configured or that of `x`, it is
      larger by the tunnel header and an IP header of twenty bytes, and `x` is found inside. */
  ghost predicate Encapsulates(t: Tunnel, x: Pkt, p: Pkt) {
    && p.ttl == (if t.ttl.Some? then t.ttl.value else x.ttl)
    && p.size == p.originalSize == x.size + t.headerBits + 160 && p.fragLen == TruncDiv(x.size + t.headerBits, 8)
    && !p.frag && p.offset == 0 && !p.v6 && p.selfTunnelled && p.carried.None? && p.data.Some?
    && if t.mode.Gre? then p.data.value.data == Some(x) && p.data.value.size == x.size + t.headerBits
       else p.data.value == x
  }

  /** A tunnel packet of this node's own making, a protocol the tunnel does not pass, or
      addresses that cannot be determined. */
  predicate TurnedAway(t: Tunnel, x: Pkt) {
    (!x.v6 && x.selfTunnelled) ||
    (t.mode == Gre && !if x.v6 then t.passesV6 else t.passesV4) ||
    (t.mode in {V6Manual, V6Auto, V6To4} && t.fieldsFail)
  }

  /** How many endpoints the packet is for. */
  function Endpoints(t: Tunnel, hop: NextHop): nat {
    if !t.multipoint then 1 else if hop.group then |t.endpoints| else if hop.addr in t.endpoints then 1 else 0
  }

  lemma {:induction false} RepeatedCopies(evs: seq<Out>, n: nat)
    ensures |Repeated(evs, n)| == n * |evs| && forall e | e in Repeated(evs, n) :: e in evs
  {
    if n > 0 {
      RepeatedCopies(evs, n - 1);
      assert n * |evs| == (n - 1) * |evs| + |evs|;
    }
  }

  /** A packet that is not turned away is sent to each of its endpoints, encapsulated. */
  lemma TunnelCopies(t: Tunnel, x: Pkt, hop: NextHop)
    ensures var evs := TunnelOut(t, x, hop);
            |evs| == (if TurnedAway(t, x) then 0 else Endpoints(t, hop)) &&
            forall e | e in evs :: e.Tunnelled? && Encapsulates(t, x, e.pkt)
  {
    RepeatedCopies(OnceTunnelled(t, x), |t.endpoints|);
    assert !TurnedAway(t, x) ==> Encapsulates(t, x, Outer(t, x));
  }

  // ----- by which interface -----

  /** The interface was decided on and lets packets pass. */
  predicate Decided(r: Router, c: Decision, i: nat) {
    i < |r.intfs| && !r.intfs[i].blocks && !r.intfs[i].rateLimited &&
    if c.shares != [] then exists k :: 0 <= k < |c.shares| && c.shares[k].intf == i
    else if c.broadcast && c.output.All? then r.intfs[i].usable
    else c.output == One(i)
  }

  /** A frame leaves by an interface without a tunnel, a tunnel packet by one with; whatever
      leaves by an interface with room for payload fits its MTU, tunnel packets not counting
      what the tunnel adds. */
  ghost predicate LeavesBy(intf: Intf, d: Pkt, e: Out, i: nat) {
    match e
    case Wire(p, j) =>
      i == j && intf.tunnel.None? && intf.hasStream && (HasRoom(d, intf.mtu) ==> ByteSize(p) <= intf.mtu)
    case Tunnelled(p) =>
      intf.tunnel.Some? &&
      exists x :: Encapsulates(intf.tunnel.value, x, p) && (HasRoom(d, intf.mtu) ==> ByteSize(x) <= intf.mtu)
    case _ => false
  }

  ghost predicate LeavesSomewhere(r: Router, c: Decision, d: Pkt, e: Out) {
    exists i: nat :: Decided(r, c, i) && LeavesBy(r.intfs[i], d, e, i)
  }

  /** The events, if every one leaves so. */
  ghost predicate AllLeave(r: Router, c: Decision, d: Pkt, evs: seq<Out>) {
    forall e | e in evs :: LeavesSomewhere(r, c, d, e)
  }

  lemma AllJoin(r: Router, c: Decision, d: Pkt, a: seq<Out>, b: seq<Out>)
    requires AllLeave(r, c, d, a) && AllLeave(r, c, d, b)
    ensures AllLeave(r, c, d, a + b)
  {
    forall e | e in a + b
      ensures LeavesSomewhere(r, c, d, e)
    {
      assert e in a || e in b;
    }
  }

  lemma IntfLeaves(intf: Intf, d: Pkt, i: nat, p: Pkt, hop: NextHop)
    requires HasRoom(d, intf.mtu) ==> ByteSize(p) <= intf.mtu
    ensures forall e | e in IntfOut(intf, i, p, hop) :: LeavesBy(intf, d, e, i)
  {
    if intf.tunnel.Some? { TunnelCopies(intf.tunnel.value, p, hop); }
  }

  lemma {:induction false} PiecesLeave(intf: Intf, d: Pkt, i: nat, pkts: seq<Pkt>, hop: NextHop)
    requires HasRoom(d, intf.mtu) ==> forall p | p in pkts :: ByteSize(p) <= intf.mtu
    ensures forall e | e in PiecesOut(intf, i, pkts, hop) :: LeavesBy(intf, d, e, i)
  {
    if pkts != [] {
      assert pkts[|pkts| - 1] in pkts;
      PiecesLeave(intf, d, i, pkts[..|pkts| - 1], hop);
      IntfLeaves(intf, d, i, pkts[|pkts| - 1], hop);
    }
  }

  /** Whatever fragmentation makes of `d` leaves so. */
  lemma FragsLeave(intf: Intf, d: Pkt, i: nat, comp: int, hop: NextHop)
    ensures forall e | e in PiecesOut(intf, i, Frags(d, intf.mtu, comp), hop) :: LeavesBy(intf, d, e, i)
  {
    NothingOversized(d, intf.mtu, comp);
    PiecesLeave(intf, d, i, Frags(d, intf.mtu, comp), hop);
  }

  /** What `f` is put on the interface, its size that of `d`. */
  lemma SingleLeaves(r: Router, d: Pkt, f: Pkt, output: Output, hop: NextHop, ratio: Option<real>)
    requires SameShape(d, f)
    ensures forall e | e in SingleOut(r, f, output, hop, ratio) ::
              output.One? && output.intf < |r.intfs| && LeavesBy(r.intfs[output.intf], d, e, output.intf) &&
              !r.intfs[output.intf].blocks && !r.intfs[output.intf].rateLimited
  {
    if output.One? && output.intf < |r.intfs| {
      var intf, g := r.intfs[output.intf], Scaled(f, ratio);
      FragsLeave(intf, g, output.intf, r.compressedSize, hop);
      assert HasRoom(d, intf.mtu) == HasRoom(g, intf.mtu);
    }
  }

  lemma {:induction false} SharesLeave(r: Router, c: Decision, d: Pkt, f: Pkt, n: nat)
    requires SameShape(d, f) && n <= |c.shares|
    ensures AllLeave(r, c, d, SharesOut(r, f, c.shares, n))
  {
    if n > 0 {
      var share := c.shares[n - 1];
      SharesLeave(r, c, d, f, n - 1);
      SingleLeaves(r, d, f, One(share.intf), share.hop, Some(share.ratio));
      var last := SingleOut(r, f, One(share.intf), share.hop, Some(share.ratio));
      forall e | e in last
        ensures LeavesSomewhere(r, c, d, e)
      {
        assert Decided(r, c, share.intf) && LeavesBy(r.intfs[share.intf], d, e, share.intf);
      }
      AllJoin(r, c, d, SharesOut(r, f, c.shares, n - 1), last);
    }
  }

  lemma ForwardLeaves(r: Router, c: Decision, d: Pkt, f: Pkt)
    requires SameShape(d, f)
    ensures Onward(ForwardOut(r, c, f))
    ensures !c.output.All? ==> AllLeave(r, c, d, ForwardOut(r, c, f))
    ensures c.output.All? && c.shares == [] ==> ForwardOut(r, c, f) == []
    ensures c.shares != [] ==> AllLeave(r, c, d, ForwardOut(r, c, f))
  {
    match ForwardedTtl(c.local, f.ttl)
    case None =>
    case Some(ttl) =>
      SharesLeave(r, c, d, f.(ttl := ttl), |c.shares|);
      SingleLeaves(r, d, f.(ttl := ttl), c.output, c.hop, None);
  }

  lemma RoundLeaves(r: Router, c: Decision, d: Pkt, f: Pkt, i: nat)
    requires SameShape(d, f) && i < |r.intfs| && c.broadcast && c.output.All?
    ensures AllLeave(r, c, d, RoundOut(r, c, f, i))
  {
    if r.intfs[i].usable {
      ForwardLeaves(r, OnIntf(r, c, i), d, RecordHop(f, r.intfs[i].addr));
      forall e | e in RoundOut(r, c, f, i)
        ensures LeavesSomewhere(r, c, d, e)
      {
        var j: nat :| Decided(r, OnIntf(r, c, i), j) && LeavesBy(r.intfs[j], d, e, j);
        assert Decided(r, c, j);
      }
    }
  }

  lemma {:induction false} EverywhereLeaves(r: Router, c: Decision, d: Pkt, f: Pkt, n: nat)
    requires SameShape(d, f) && n <= |r.intfs| && c.broadcast && c.output.All?
    ensures AllLeave(r, c, d, EverywhereOut(r, c, f, n))
  {
    if n > 0 {
      EverywhereLeaves(r, c, d, f, n - 1);
      RoundLeaves(r, c, d, f, n - 1);
      AllJoin(r, c, d, EverywhereOut(r, c, f, n - 1), RoundOut(r, c, f, n - 1));
    }
  }

  lemma {:induction false} EverywhereOnward(r: Router, c: Decision, f: Pkt, n: nat)
    requires n <= |r.intfs|
    ensures Onward(EverywhereOut(r, c, f, n))
  {
    if n > 0 {
      EverywhereOnward(r, c, f, n - 1);
      ForwardLeaves(r, OnIntf(r, c, n - 1), f, RecordHop(f, r.intfs[n - 1].addr));
    }
  }

  lemma BroadcastLeaves(r: Router, c: Decision, d: Pkt)
    ensures Onward(BroadcastOut(r, c, d))
    ensures c.broadcast ==> AllLeave(r, c, d, BroadcastOut(r, c, d))
  {
    var f := d.(ttl := BroadcastTtl(c, d.ttl));
    EverywhereOnward(r, c, f, |r.intfs|);
    if c.broadcast && c.output.All? { EverywhereLeaves(r, c, d, f, |r.intfs|); }
    ForwardLeaves(r, c, d, f);
  }

  /** Every frame and every tunnel packet leaves by an interface that was decided on and lets
      packets pass. */
  lemma EverythingLeavesByDecision(r: Router, c: Decision, d: Pkt)
    ensures forall e | e in SendOut(r, c, d) && (e.Wire? || e.Tunnelled?) :: LeavesSomewhere(r, c, d, e)
  {
    BroadcastLeaves(r, c, d);
    ForwardLeaves(r, c, d, d);
  }

  // ----- and it does leave -----

  /** The interface sends the packet whole on its link. */
  predicate Passes(r: Router, d: Pkt, i: nat) {
    i < |r.intfs| && !r.intfs[i].blocks && !r.intfs[i].rateLimited &&
    r.intfs[i].tunnel.None? && r.intfs[i].hasStream &&
    ByteSize(d) <= r.intfs[i].mtu && (d.compression.NoCompression? || r.compressedSize <= 8 * r.intfs[i].mtu)
  }

  lemma PassesOut(r: Router, d: Pkt, i: nat, hop: NextHop)
    requires Passes(r, d, i)
    ensures SingleOut(r, d, One(i), hop, None) == [Wire(d, i)]
  {
    var intf := r.intfs[i];
    NothingOversized(d, intf.mtu, r.compressedSize);
    assert Scaled(d, None) == d;
    assert PiecesOut(intf, i, [d][..0], hop) == [];
  }

  /** What is left of the TTL on a link: packets from above keep theirs. */
  function LinkTtl(c: Decision, ttl: int): int { if c.local then ttl else ttl - 1 }

  /** A packet neither broadcast nor split leaves by its interface, unless its TTL runs out. */
  lemma UnicastLeaves(r: Router, c: Decision, d: Pkt, i: nat)
    requires !c.destroy && GoesOn(c) && !c.higherLayer && !c.broadcast && c.shares == []
    requires c.output == One(i) && Passes(r, d, i)
    ensures SendOut(r, c, d) ==
            if !c.local && LinkTtl(c, d.ttl) == 0 then [] else [Wire(d.(ttl := LinkTtl(c, d.ttl)), i)]
  {
    PassesOut(r, d.(ttl := LinkTtl(c, d.ttl)), i, c.hop);
  }

  /** The interface takes the packet whole into its tunnel. */
  predicate TakesIn(r: Router, d: Pkt, i: nat) {
    i < |r.intfs| && !r.intfs[i].blocks && !r.intfs[i].rateLimited && r.intfs[i].tunnel.Some? &&
    ByteSize(d) <= r.intfs[i].mtu && (d.compression.NoCompression? || r.compressedSize <= 8 * r.intfs[i].mtu)
  }

  /** What comes out is one tunnel packet for each endpoint, with `x` inside. */
  ghost predicate TunnelledTo(t: Tunnel, x: Pkt, hop: NextHop, evs: seq<Out>) {
    |evs| == (if TurnedAway(t, x) then 0 else Endpoints(t, hop)) &&
    forall e | e in evs :: e.Tunnelled? && Encapsulates(t, x, e.pkt)
  }

  lemma TakesInOut(r: Router, d: Pkt, i: nat, hop: NextHop)
    requires TakesIn(r, d, i)
    ensures TunnelledTo(r.intfs[i].tunnel.value, d, hop, SingleOut(r, d, One(i), hop, None))
  {
    var intf := r.intfs[i];
    NothingOversized(d, intf.mtu, r.compressedSize);
    assert Scaled(d, None) == d;
    assert PiecesOut(intf, i, [d][..0], hop) == [];
    TunnelCopies(intf.tunnel.value, d, hop);
  }

  /** A packet neither broadcast nor split goes into the tunnel of its interface, to the next
      hop decided on, unless its TTL runs out. */
  lemma UnicastTunnelled(r: Router, c: Decision, d: Pkt, i: nat)
    requires !c.destroy && GoesOn(c) && !c.higherLayer && !c.broadcast && c.shares == []
    requires c.output == One(i) && TakesIn(r, d, i)
    ensures if !c.local && LinkTtl(c, d.ttl) == 0 then SendOut(r, c, d) == []
            else TunnelledTo(r.intfs[i].tunnel.value, d.(ttl := LinkTtl(c, d.ttl)), c.hop, SendOut(r, c, d))
  {
    TakesInOut(r, d.(ttl := LinkTtl(c, d.ttl)), i, c.hop);
  }

  /** The frame is the packet with its part of the volume, on the interface of the share. */
  ghost predicate CarriesPart(d: Pkt, share: Share, e: Out) {
    e.Wire? && e.intf == share.intf && e.pkt.(volume := None) == d.(volume := None) &&
    (d.volume.Some? <==> e.pkt.volume.Some?) &&
    (d.volume.Some? ==> e.pkt.volume.value == d.volume.value * share.ratio)
  }

  lemma ShareLeaves(r: Router, d: Pkt, share: Share)
    requires Passes(r, d, share.intf)
    ensures var evs := SingleOut(r, d, One(share.intf), share.hop, Some(share.ratio));
            |evs| == 1 && CarriesPart(d, share, evs[0])
  {
    var e := Scaled(d, Some(share.ratio));
    PassesOut(r, e, share.intf, share.hop);
    assert SingleOut(r, d, One(share.intf), share.hop, Some(share.ratio)) == [Wire(e, share.intf)];
  }

  /** Each share leaves by its own interface, in order. */
  lemma {:induction false} EachShareLeaves(r: Router, d: Pkt, shares: seq<Share>, n: nat)
    requires n <= |shares| && forall k | 0 <= k < n :: Passes(r, d, shares[k].intf)
    ensures var evs := SharesOut(r, d, shares, n);
            |evs| == n && forall k | 0 <= k < n :: CarriesPart(d, shares[k], evs[k])
  {
    if n > 0 {
      EachShareLeaves(r, d, shares, n - 1);
      ShareLeaves(r, d, shares[n - 1]);
      var before := SharesOut(r, d, shares, n - 1);
      forall k | 0 <= k < n
        ensures CarriesPart(d, shares[k], SharesOut(r, d, shares, n)[k])
      {
        assert k < n - 1 ==> SharesOut(r, d, shares, n)[k] == before[k];
      }
    }
  }

  // ----- several interfaces in turn -----

  /** A packet put on an interface, to a next hop. */
  datatype Stop = Stop(pkt: Pkt, intf: nat, hop: NextHop)

  /** What comes of it: nothing where packets do not pass, one frame on a link that takes it
      whole, one tunnel packet for each endpoint of a tunnel that does. */
  ghost predicate OutAt(r: Router, s: Stop, evs: seq<Out>) {
    && (s.intf >= |r.intfs| || r.intfs[s.intf].blocks || r.intfs[s.intf].rateLimited ==> evs == [])
    && (Passes(r, s.pkt, s.intf) ==> evs == [Wire(s.pkt, s.intf)])
    && (TakesIn(r, s.pkt, s.intf) ==> TunnelledTo(r.intfs[s.intf].tunnel.value, s.pkt, s.hop, evs))
  }

  /** One after the other. */
  ghost predicate InTurn(r: Router, stops: seq<Stop>, evs: seq<Out>)
    decreases |stops|, 1
  {
    if stops == [] then evs == []
    else exists k: nat :: SplitAt(r, stops, evs, k)
  }

  ghost predicate SplitAt(r: Router, stops: seq<Stop>, evs: seq<Out>, k: nat)
    requires stops != []
    decreases |stops|, 0
  {
    k <= |evs| && InTurn(r, stops[..|stops| - 1], evs[..k]) && OutAt(r, stops[|stops| - 1], evs[k..])
  }

  lemma InTurnMore(r: Router, stops: seq<Stop>, evs: seq<Out>, s: Stop, more: seq<Out>)
    requires InTurn(r, stops, evs) && OutAt(r, s, more)
    ensures InTurn(r, stops + [s], evs + more)
  {
    assert (stops + [s])[..|stops|] == stops && (evs + more)[..|evs|] == evs && (evs + more)[|evs|..] == more;
    assert SplitAt(r, stops + [s], evs + more, |evs|);
  }

  lemma SingleAt(r: Router, d: Pkt, i: nat, hop: NextHop)
    ensures OutAt(r, Stop(d, i, hop), SingleOut(r, d, One(i), hop, None))
  {
    if Passes(r, d, i) { PassesOut(r, d, i, hop); }
    if TakesIn(r, d, i) { TakesInOut(r, d, i, hop); }
  }

  /** The shares put the packet, with their part of its volume, on their interfaces, each to its
      own next hop. */
  function ShareStops(d: Pkt, shares: seq<Share>, n: nat): seq<Stop>
    requires n <= |shares|
  {
    if n == 0 then [] else ShareStops(d, shares, n - 1) + [ShareStop(d, shares[n - 1])]
  }

  function ShareStop(d: Pkt, share: Share): Stop { Stop(Scaled(d, Some(share.ratio)), share.intf, share.hop) }

  lemma ScaledBefore(r: Router, d: Pkt, part: Pkt, output: Output, hop: NextHop, ratio: Option<real>)
    requires Scaled(d, ratio) == part
    ensures SingleOut(r, d, output, hop, ratio) == SingleOut(r, part, output, hop, None)
  {
    assert Scaled(part, None) == part;
  }

  lemma ShareAt(r: Router, d: Pkt, share: Share)
    ensures OutAt(r, ShareStop(d, share), SingleOut(r, d, One(share.intf), share.hop, Some(share.ratio)))
  {
    var part := Scaled(d, Some(share.ratio));
    ScaledBefore(r, d, part, One(share.intf), share.hop, Some(share.ratio));
    SingleAt(r, part, share.intf, share.hop);
  }

  lemma {:induction false} SharesInTurn(r: Router, d: Pkt, shares: seq<Share>, n: nat)
    requires n <= |shares|
    ensures InTurn(r, ShareStops(d, shares, n), SharesOut(r, d, shares, n))
  {
    if n > 0 {
      var share := shares[n - 1];
      SharesInTurn(r, d, shares, n - 1);
      ShareAt(r, d, share);
      InTurnMore(r, ShareStops(d, shares, n - 1), SharesOut(r, d, shares, n - 1), ShareStop(d, share),
                 SingleOut(r, d, One(share.intf), share.hop, Some(share.ratio)));
    }
  }

  /** A broadcast is put on each usable interface, its address there recorded, to the broadcast
      address there. */
  function BroadcastStops(r: Router, d: Pkt, n: nat): seq<Stop>
    requires n <= |r.intfs|
  {
    if n == 0 then []
    else if r.intfs[n - 1].usable then BroadcastStops(r, d, n - 1) + [BroadcastStop(r, d, n - 1)]
    else BroadcastStops(r, d, n - 1)
  }

  function BroadcastStop(r: Router, d: Pkt, i: nat): Stop
    requires i < |r.intfs|
  {
    Stop(RecordHop(d, r.intfs[i].addr), i, NextHop(r.intfs[i].broadcastAddr, true))
  }

  lemma ForwardIsSingle(r: Router, c: Decision, d: Pkt)
    requires c.shares == [] && (c.local || d.ttl != 1)
    ensures ForwardOut(r, c, d) == SingleOut(r, d.(ttl := LinkTtl(c, d.ttl)), c.output, c.hop, None)
  {
  }

  lemma RoundIsSingle(r: Router, c: Decision, d: Pkt, i: nat)
    requires i < |r.intfs| && r.intfs[i].usable && c.shares == [] && (c.local || d.ttl != 1)
    ensures var s := BroadcastStop(r, d.(ttl := LinkTtl(c, d.ttl)), i);
            RoundOut(r, c, d, i) == SingleOut(r, s.pkt, One(i), s.hop, None)
  {
    var g := RecordHop(d, r.intfs[i].addr);
    ForwardIsSingle(r, OnIntf(r, c, i), g);
    assert g.(ttl := LinkTtl(c, d.ttl)) == RecordHop(d.(ttl := LinkTtl(c, d.ttl)), r.intfs[i].addr);
  }

  lemma RoundAt(r: Router, c: Decision, d: Pkt, i: nat)
    requires i < |r.intfs| && r.intfs[i].usable && c.shares == [] && (c.local || d.ttl != 1)
    ensures OutAt(r, BroadcastStop(r, d.(ttl := LinkTtl(c, d.ttl)), i), RoundOut(r, c, d, i))
  {
    var s := BroadcastStop(r, d.(ttl := LinkTtl(c, d.ttl)), i);
    RoundIsSingle(r, c, d, i);
    SingleAt(r, s.pkt, i, s.hop);
  }

  lemma {:induction false} EverywhereInTurn(r: Router, c: Decision, d: Pkt, n: nat)
    requires n <= |r.intfs| && c.shares == [] && (c.local || d.ttl != 1)
    ensures InTurn(r, BroadcastStops(r, d.(ttl := LinkTtl(c, d.ttl)), n), EverywhereOut(r, c, d, n))
  {
    if n > 0 {
      var f, i := d.(ttl := LinkTtl(c, d.ttl)), n - 1;
      EverywhereInTurn(r, c, d, i);
      if r.intfs[i].usable {
        RoundAt(r, c, d, i);
        InTurnMore(r, BroadcastStops(r, f, i), EverywhereOut(r, c, d, i), BroadcastStop(r, f, i), RoundOut(r, c, d, i));
      } else {
        assert EverywhereOut(r, c, d, n) == EverywhereOut(r, c, d, i);
      }
    }
  }

  /** The interfaces a broadcast is put on are the usable ones, each once and in order. */
  lemma {:induction false} StopsUsable(r: Router, d: Pkt, n: nat)
    requires n <= |r.intfs|
    ensures var s := BroadcastStops(r, d, n);
            && (forall k | 0 <= k < |s| :: s[k].intf < n && r.intfs[s[k].intf].usable)
            && (forall j, k | 0 <= j < k < |s| :: s[j].intf < s[k].intf)
            && (forall i | 0 <= i < n && r.intfs[i].usable :: BroadcastStop(r, d, i) in s)
  {
    if n > 0 { StopsUsable(r, d, n - 1); }
  }

  /** So a broadcast on all interfaces leaves, whatever they do with it, links and tunnels alike,
      unless its TTL runs out; an unset TTL counts as one.  After that it goes up, if it does. */
  lemma BroadcastInTurn(r: Router, c: Decision, d: Pkt) returns (evs: seq<Out>)
    requires !c.destroy && GoesOn(c) && c.broadcast && c.output.All? && c.shares == []
    ensures SendOut(r, c, d) == evs + if c.higherLayer then [Up(d)] else []
    ensures var ttl := if d.ttl == -1 then 1 else d.ttl;
            if !c.local && ttl == 1 then evs == []
            else InTurn(r, BroadcastStops(r, d.(ttl := LinkTtl(c, ttl)), |r.intfs|), evs)
  {
    var f := d.(ttl := if d.ttl == -1 then 1 else d.ttl);
    evs := EverywhereOut(r, c, f, |r.intfs|);
    if c.local || f.ttl != 1 {
      EverywhereInTurn(r, c, f, |r.intfs|);
    } else {
      SpentEverywhere(r, c, f, |r.intfs|);
    }
  }

  /** A broadcast on one interface leaves there with a TTL of one, if it is this node's own or
      came with two or more; with one it does not leave, and with less it loses one all the same.
      After that it goes up, if it does. */
  lemma SingleBroadcastLeaves(r: Router, c: Decision, d: Pkt, i: nat) returns (evs: seq<Out>)
    requires !c.destroy && GoesOn(c) && c.broadcast && c.output == One(i) && c.shares == []
    ensures SendOut(r, c, d) == evs + if c.higherLayer then [Up(d)] else []
    ensures var ttl := if c.local || d.ttl >= 2 then 1 else d.ttl - 1;
            if ttl == 0 then evs == [] else OutAt(r, Stop(d.(ttl := ttl), i, c.hop), evs)
  {
    var ttl := if c.local || d.ttl >= 2 then 1 else d.ttl - 1;
    evs := BroadcastOut(r, c, d);
    if ttl != 0 {
      var f := d.(ttl := BroadcastTtl(c, d.ttl));
      ForwardIsSingle(r, c, f);
      assert f.(ttl := LinkTtl(c, f.ttl)) == d.(ttl := ttl);
      SingleAt(r, d.(ttl := ttl), i, c.hop);
    }
  }

  /** And so does what is split. */
  lemma SplitInTurn(r: Router, c: Decision, d: Pkt)
    requires !c.destroy && GoesOn(c) && !c.broadcast && !c.higherLayer && c.shares != []
    ensures if !c.local && LinkTtl(c, d.ttl) == 0 then SendOut(r, c, d) == []
            else InTurn(r, ShareStops(d.(ttl := LinkTtl(c, d.ttl)), c.shares, |c.shares|), SendOut(r, c, d))
  {
    SharesInTurn(r, d.(ttl := LinkTtl(c, d.ttl)), c.shares, |c.shares|);
  }

  lemma {:induction false} SpentEverywhere(r: Router, c: Decision, d: Pkt, n: nat)
    requires n <= |r.intfs| && !c.local && d.ttl == 1
    ensures EverywhereOut(r, c, d, n) == []
  {
    if n > 0 { SpentEverywhere(r, c, d, n - 1); }
  }
}
