/**
  A network of relay nodes.  In-flight frames are delivered or lost in any order; what
  every run keeps and how long it can get.

  The kernel's packet copy gives the copy a header of its own, so the frame a node
  relays has the TTL it arrived with (`shared == false`).  `shared == true` is the
  other reading, in which the decrement made on the inspection copy shows up in the
  relayed frame.  Everything below holds under both unless it says otherwise.
*/
module Flooding {
  import opened Basics
  import opened SlidingWindow
  import opened DuplicateTree
  import opened SmfNode

  datatype Topology = Topology(links: set<(nat, nat)>, macs: seq<u32>, ips: seq<u32>, shared: bool) {
    ghost predicate Valid() {
      |macs| == |ips| &&
      (forall i, j | 0 <= i < j < |macs| :: macs[i] != macs[j]) &&
      (forall l | l in links :: l.0 < |macs| && l.1 < |macs| && l.0 != l.1)
    }

    function Size(): nat { |macs| }

    function Neighbours(x: nat): set<nat> { set l | l in links && l.0 == x :: l.1 }
  }

  /** A frame on its way; `via` lists the relays it has been through. */
  datatype Copy = Copy(to: nat, sender: nat, pkt: Header, via: seq<nat>)

  datatype Tx = Tx(node: nat, id: Identity)

  /** `sent` and `up` log what the nodes relayed and which multicast packets they passed to
      their upper layers. */
  datatype Net = Net(nodes: seq<Node>, flight: multiset<Copy>, sent: seq<Tx>, up: seq<Tx>, heard: set<nat>)

  ghost predicate WellFormed(t: Topology, a: Net) {
    t.Valid() && |a.nodes| == t.Size() &&
    (forall i | 0 <= i < |a.nodes| :: a.nodes[i].Valid()) &&
    (forall c | c in a.flight :: c.to < t.Size() && c.sender < t.Size() && c.to != c.sender)
  }

  function Arrival(t: Topology, c: Copy): Reception
    requires c.to < |t.macs| == |t.ips| && c.sender < |t.macs|
  {
    Reception(c.pkt, Inbound, t.macs[c.sender], t.macs[c.to], t.ips[c.to])
  }

  function OnAir(t: Topology, pkt: Header): Header {
    if t.shared then pkt.(ttl := pkt.ttl - 1) else pkt
  }

  ghost function Frames(pkt: Header, sender: nat, via: seq<nat>, receivers: set<nat>): multiset<Copy> {
    multiset(set y | y in receivers :: Copy(y, sender, pkt, via))
  }

  /** Node `c.to` processes `c`; if it relays, the frame goes out towards `receivers`. */
  ghost function Delivered(t: Topology, a: Net, c: Copy, receivers: set<nat>): Net
    requires WellFormed(t, a) && c in a.flight
  {
    var n, r := a.nodes[c.to], Arrival(t, c);
    Net(a.nodes[c.to := n.After(r)],
        a.flight - multiset{c} +
        (if n.Forwards(r) then Frames(OnAir(t, c.pkt), c.to, c.via + [c.to], receivers) else multiset{}),
        if n.Forwards(r) then a.sent + [Tx(c.to, Id(c.pkt))] else a.sent,
        if c.pkt.target == Multicast && !n.Withholds(r) then a.up + [Tx(c.to, Id(c.pkt))] else a.up,
        a.heard + {c.to})
  }

  ghost predicate Deliver(t: Topology, a: Net, c: Copy, receivers: set<nat>, b: Net)
    requires WellFormed(t, a)
  {
    c in a.flight && receivers <= t.Neighbours(c.to) && b == Delivered(t, a, c, receivers)
  }

  ghost predicate Lose(a: Net, c: Copy, b: Net) {
    c in a.flight && b == a.(flight := a.flight - multiset{c})
  }

  ghost predicate Step(t: Topology, a: Net, b: Net)
    requires WellFormed(t, a)
  {
    (exists c, receivers :: Deliver(t, a, c, receivers, b)) || (exists c :: Lose(a, c, b))
  }

  ghost predicate IsRun(t: Topology, run: seq<Net>) {
    |run| > 0 && (forall i | 0 <= i < |run| :: WellFormed(t, run[i])) &&
    forall i | 0 <= i < |run| - 1 :: Step(t, run[i], run[i + 1])
  }

  // ----- finite-set facts -----

  lemma {:induction false} DistinctWithin<T>(s: seq<T>, pool: set<T>)
    requires Distinct(s) && forall x | x in s :: x in pool
    ensures |s| <= |pool|
  {
    if s != [] {
      var last := s[|s| - 1];
      DistinctWithin(s[..|s| - 1], pool - {last});
    }
  }

  ghost function Upto(n: nat): (s: set<nat>)
    ensures |s| == n && forall i: nat :: i in s <==> i < n
  {
    if n == 0 then {} else Upto(n - 1) + {n - 1}
  }

  ghost function AllTx(nodes: set<nat>, ids: set<Identity>): set<Tx> {
    set i, id | i in nodes && id in ids :: Tx(i, id)
  }

  ghost function TxOf(i: nat, ids: set<Identity>): set<Tx> { set id | id in ids :: Tx(i, id) }

  lemma {:induction false} TxOfSize(i: nat, ids: set<Identity>)
    ensures |TxOf(i, ids)| == |ids|
  {
    if ids != {} {
      var id :| id in ids;
      TxOfSize(i, ids - {id});
      assert TxOf(i, ids) == TxOf(i, ids - {id}) + {Tx(i, id)};
    }
  }

  lemma {:induction false} AllTxSize(nodes: set<nat>, ids: set<Identity>)
    ensures |AllTx(nodes, ids)| == |nodes| * |ids|
  {
    if nodes == {} {
      assert AllTx(nodes, ids) == {};
    } else {
      var i :| i in nodes;
      AllTxGrows(nodes, i, ids);
      AllTxSize(nodes - {i}, ids);
      OneMore(|nodes| - 1, |ids|);
    }
  }

  lemma AllTxGrows(nodes: set<nat>, i: nat, ids: set<Identity>)
    requires i in nodes
    ensures |AllTx(nodes, ids)| == |AllTx(nodes - {i}, ids)| + |ids|
  {
    TxOfSize(i, ids);
    assert AllTx(nodes, ids) == AllTx(nodes - {i}, ids) + TxOf(i, ids);
    assert AllTx(nodes - {i}, ids) !! TxOf(i, ids);
  }

  lemma {:induction false} FramesSize(pkt: Header, sender: nat, via: seq<nat>, receivers: set<nat>)
    ensures |Frames(pkt, sender, via, receivers)| == |receivers|
  {
    if receivers != {} {
      var y :| y in receivers;
      FramesSize(pkt, sender, via, receivers - {y});
      var c := Copy(y, sender, pkt, via);
      assert (set z | z in receivers :: Copy(z, sender, pkt, via))
          == (set z | z in receivers - {y} :: Copy(z, sender, pkt, via)) + {c};
    }
  }

  // ----- safety: any topology, any selectors, any loss -----

  /** The identifiers of one source. */
  ghost function Idents(ids: set<Identity>, src: u32): set<u32> { set id | id in ids && id.src == src :: id.ident }

  /** The node's detector can tell the packets of `src` apart: there is but one, or their
      identifiers and the front of the source's window lie within the window's past. */
  ghost predicate TellsApart(n: Node, ids: set<Identity>, src: u32) {
    (forall x, y | x in Idents(ids, src) && y in Idents(ids, src) :: x == y) ||
    Spans(Idents(ids, src) + Front(n, src), n.Past())
  }

  ghost predicate AllTellApart(a: Net, ids: set<Identity>) {
    forall i: nat, src: u32 | i < |a.nodes| :: TellsApart(a.nodes[i], ids, src)
  }

  /** What a node has relayed, or a filtering node has passed up, it refuses; and both
      happened once.  `ids` bounds the identities around. */
  ghost predicate Safe(t: Topology, a: Net, ids: set<Identity>)
  {
    WellFormed(t, a) && Distinct(a.sent) && AllTellApart(a, ids) &&
    (forall x | x in a.sent :: x.node < t.Size() && a.nodes[x.node].Refuses(x.id) && x.id in ids) &&
    (forall x | x in a.up :: x.node < t.Size() && x.id in ids &&
                             (a.nodes[x.node].filtering ==> a.nodes[x.node].Refuses(x.id))) &&
    (forall i, j | 0 <= i < j < |a.up| && a.up[i] == a.up[j] :: !a.nodes[a.up[i].node].filtering) &&
    (forall c | c in a.flight :: Id(c.pkt) in ids)
  }

  /** A packet of `ids` makes the node forget none of them. */
  lemma RefusalLasts(n: Node, r: Reception, ids: set<Identity>, id: Identity)
    requires n.Valid() && TellsApart(n, ids, r.pkt.src) && Id(r.pkt) in ids && id in ids && n.Refuses(id)
    ensures n.After(r).Refuses(id)
  {
    if n.Consults(r) && id.src == r.pkt.src {
      assert id.ident in Idents(ids, id.src) && r.pkt.ident in Idents(ids, id.src);
      if id == Id(r.pkt) {
        ConsultedRefused(n, r);
      } else {
        var base: u32 :| InArc(Idents(ids, id.src) + Front(n, id.src), base, n.Past());
        RefusedStays(MaskOf(n.tree, id.src), n.windowSize, n.Past(), base, n.Past(), r.pkt.ident, id.ident);
      }
    }
  }

  lemma StillTellsApart(n: Node, r: Reception, ids: set<Identity>, src: u32)
    requires n.Valid() && TellsApart(n, ids, src) && Id(r.pkt) in ids
    ensures TellsApart(n.After(r), ids, src)
  {
    if base: u32 :| InArc(Idents(ids, src) + Front(n, src), base, n.Past()) {
      if n.Consults(r) && src == r.pkt.src {
        assert r.pkt.ident in Idents(ids, src);
        TameAfter(MaskOf(n.tree, src), n.windowSize, n.Past(), base, n.Past(), r.pkt.ident);
      }
      assert InArc(Idents(ids, src) + Front(n.After(r), src), base, n.Past());
    }
  }

  lemma SafeAtNode(n: Node, r: Reception, ids: set<Identity>)
    requires n.Valid() && r.direction == Inbound && Id(r.pkt) in ids
    requires forall src: u32 :: TellsApart(n, ids, src)
    ensures forall id | id in ids && n.Refuses(id) :: n.After(r).Refuses(id)
    ensures forall src: u32 :: TellsApart(n.After(r), ids, src)
    ensures n.After(r).Valid() && n.After(r).filtering == n.filtering
    ensures n.Forwards(r) ==> !n.Refuses(Id(r.pkt)) && n.After(r).Refuses(Id(r.pkt))
    ensures n.filtering && r.pkt.target == Multicast && !n.Withholds(r) ==> !n.Refuses(Id(r.pkt))
    ensures n.filtering && r.pkt.target == Multicast ==> n.After(r).Refuses(Id(r.pkt))
  {
    forall id | id in ids && n.Refuses(id)
      ensures n.After(r).Refuses(id)
    {
      RefusalLasts(n, r, ids, id);
    }
    forall src: u32
      ensures TellsApart(n.After(r), ids, src)
    {
      StillTellsApart(n, r, ids, src);
    }
    if n.Consults(r) { ConsultedRefused(n, r); }
  }

  /** One delivery as far as safety is concerned. */
  ghost predicate SafeEffect(a: Net, c: Copy, b: Net, ids: set<Identity>) {
    c in a.flight && c.to < |a.nodes| == |b.nodes| && Id(c.pkt) in ids &&
    (forall i | 0 <= i < |a.nodes| && i != c.to :: b.nodes[i] == a.nodes[i]) &&
    b.nodes[c.to].filtering == a.nodes[c.to].filtering &&
    (forall src: u32 :: TellsApart(b.nodes[c.to], ids, src)) &&
    (forall id | id in ids && a.nodes[c.to].Refuses(id) :: b.nodes[c.to].Refuses(id)) &&
    (b.sent == a.sent || (b.sent == a.sent + [Tx(c.to, Id(c.pkt))] &&
       !a.nodes[c.to].Refuses(Id(c.pkt)) && b.nodes[c.to].Refuses(Id(c.pkt)))) &&
    (b.up == a.up || (b.up == a.up + [Tx(c.to, Id(c.pkt))] &&
       (a.nodes[c.to].filtering ==> !a.nodes[c.to].Refuses(Id(c.pkt)) && b.nodes[c.to].Refuses(Id(c.pkt))))) &&
    (forall d | d in b.flight :: d in a.flight || Id(d.pkt) == Id(c.pkt))
  }

  lemma DeliverSafely(t: Topology, a: Net, c: Copy, receivers: set<nat>, b: Net, ids: set<Identity>)
    requires WellFormed(t, a) && Deliver(t, a, c, receivers, b)
    requires AllTellApart(a, ids) && Id(c.pkt) in ids
    ensures SafeEffect(a, c, b, ids)
  {
    SafeAtNode(a.nodes[c.to], Arrival(t, c), ids);
    forall d | d in b.flight && d !in a.flight
      ensures Id(d.pkt) == Id(c.pkt)
    {
      assert d in Frames(OnAir(t, c.pkt), c.to, c.via + [c.to], receivers);
    }
  }

  lemma SafeAfterEffect(t: Topology, a: Net, c: Copy, b: Net, ids: set<Identity>)
    requires Safe(t, a, ids) && WellFormed(t, b) && SafeEffect(a, c, b, ids)
    ensures Safe(t, b, ids)
  {
    assert Tx(c.to, Id(c.pkt)) in a.sent ==> a.nodes[c.to].Refuses(Id(c.pkt));
    assert Tx(c.to, Id(c.pkt)) in a.up && a.nodes[c.to].filtering ==> a.nodes[c.to].Refuses(Id(c.pkt));
  }

  lemma SafeStep(t: Topology, a: Net, b: Net, ids: set<Identity>)
    requires Safe(t, a, ids) && WellFormed(t, b) && Step(t, a, b)
    ensures Safe(t, b, ids)
  {
    if c, receivers :| Deliver(t, a, c, receivers, b) {
      DeliverSafely(t, a, c, receivers, b, ids);
      SafeAfterEffect(t, a, c, b, ids);
    }
  }

  ghost function IdsIn(a: Net): set<Identity> { set c | c in a.flight :: Id(c.pkt) }

  ghost predicate Quiet(a: Net) { a.sent == [] && a.up == [] }

  /** Nothing sent yet, and every node can tell the packets in flight apart. */
  ghost predicate Orderly(a: Net) { Quiet(a) && AllTellApart(a, IdsIn(a)) }

  lemma {:induction false} SafeRun(t: Topology, run: seq<Net>)
    requires IsRun(t, run) && Orderly(run[0])
    ensures Safe(t, run[|run| - 1], IdsIn(run[0]))
  {
    if |run| > 1 {
      SafeRun(t, run[..|run| - 1]);
      SafeStep(t, run[|run| - 2], run[|run| - 1], IdsIn(run[0]));
    }
  }

  /** If the nodes can tell the packets apart, then in every run no node transmits the same
      identity twice, a filtering node passes it up at most once, and all transmissions
      together are at most nodes times identities. */
  lemma NoIdentityTwice(t: Topology, run: seq<Net>)
    requires IsRun(t, run) && Orderly(run[0])
    ensures var last := run[|run| - 1];
            Distinct(last.sent) && |last.sent| <= t.Size() * |IdsIn(run[0])| &&
            forall i, j | 0 <= i < j < |last.up| && last.up[i] == last.up[j] ::
              last.up[i].node < t.Size() && !last.nodes[last.up[i].node].filtering
  {
    SafeRun(t, run);
    var ids := IdsIn(run[0]);
    AllTxSize(Upto(t.Size()), ids);
    DistinctWithin(run[|run| - 1].sent, AllTx(Upto(t.Size()), ids));
  }

  // ----- termination -----

  ghost function Potential(t: Topology, a: Net, ids: set<Identity>): int {
    |a.flight| + (t.Size() * |ids| - |a.sent|) * t.Size()
  }

  lemma NeighboursBounded(t: Topology, x: nat)
    requires t.Valid()
    ensures |t.Neighbours(x)| <= t.Size()
  {
    assert t.Neighbours(x) <= Upto(t.Size());
    SubsetSize(t.Neighbours(x), Upto(t.Size()));
  }

  lemma {:induction false} SubsetSize<T>(a: set<T>, b: set<T>)
    requires a <= b
    ensures |a| <= |b|
  {
    if a != {} {
      var x :| x in a;
      SubsetSize(a - {x}, b - {x});
    }
  }

  lemma DeliverSpends(t: Topology, a: Net, c: Copy, receivers: set<nat>, b: Net, ids: set<Identity>)
    requires WellFormed(t, a) && Deliver(t, a, c, receivers, b)
    ensures Potential(t, b, ids) < Potential(t, a, ids)
  {
    FramesSize(OnAir(t, c.pkt), c.to, c.via + [c.to], receivers);
    SubsetSize(receivers, t.Neighbours(c.to));
    NeighboursBounded(t, c.to);
    assert |a.flight - multiset{c}| == |a.flight| - 1;
    OneMore(t.Size() * |ids| - |a.sent| - 1, t.Size());
  }

  lemma PotentialDrops(t: Topology, a: Net, b: Net, ids: set<Identity>)
    requires WellFormed(t, a) && Step(t, a, b)
    ensures Potential(t, b, ids) < Potential(t, a, ids)
  {
    if c, receivers :| Deliver(t, a, c, receivers, b) {
      DeliverSpends(t, a, c, receivers, b, ids);
    }
  }

  lemma {:induction false} RunSpendsPotential(t: Topology, run: seq<Net>)
    requires IsRun(t, run) && Quiet(run[0])
    ensures Potential(t, run[|run| - 1], IdsIn(run[0])) <= Potential(t, run[0], IdsIn(run[0])) - (|run| - 1)
  {
    if |run| > 1 {
      var ids, before := IdsIn(run[0]), run[..|run| - 1];
      RunSpendsPotential(t, before);
      PotentialDrops(t, run[|run| - 2], run[|run| - 1], ids);
    }
  }

  /** Then flooding stops: a run makes at most one step for each frame initially in flight
      and, per identity, one for every ordered pair of nodes. */
  lemma RunsAreFinite(t: Topology, run: seq<Net>)
    requires IsRun(t, run) && Orderly(run[0])
    ensures |run| - 1 <= |run[0].flight| + t.Size() * |IdsIn(run[0])| * t.Size()
  {
    RunSpendsPotential(t, run);
    NoIdentityTwice(t, run);
    var slack := t.Size() * |IdsIn(run[0])| - |run[|run| - 1].sent|;
    assert slack * t.Size() >= 0;
  }

  // ----- what spreads -----

  /** The identities of the multicast packets in flight. */
  ghost function MulticastIn(a: Net): set<Identity> {
    set c | c in a.flight && c.pkt.target == Multicast :: Id(c.pkt)
  }

  /** A frame for another target comes to an end where it is delivered: nothing is relayed or
      passed up as multicast, and the node remembers nothing of it. */
  lemma OthersEnd(t: Topology, a: Net, c: Copy, receivers: set<nat>, b: Net)
    requires WellFormed(t, a) && Deliver(t, a, c, receivers, b) && c.pkt.target != Multicast
    ensures b.sent == a.sent && b.up == a.up && b.flight == a.flight - multiset{c}
    ensures b.nodes == a.nodes[c.to := a.nodes[c.to].(recv := Wrap32(a.nodes[c.to].recv + 1))]
  {
    OnlyMulticastIsRelayed(a.nodes[c.to], Arrival(t, c));
  }

  /** What comes of a multicast frame has its identity. */
  lemma MulticastEffect(t: Topology, a: Net, c: Copy, receivers: set<nat>, b: Net)
    requires WellFormed(t, a) && Deliver(t, a, c, receivers, b)
    ensures forall d | d in b.flight ::
              d in a.flight || (Id(d.pkt) == Id(c.pkt) && d.pkt.target == c.pkt.target)
    ensures b.sent == a.sent || b.sent == a.sent + [Tx(c.to, Id(c.pkt))]
    ensures b.up == a.up || b.up == a.up + [Tx(c.to, Id(c.pkt))]
  {
    forall d | d in b.flight && d !in a.flight
      ensures Id(d.pkt) == Id(c.pkt) && d.pkt.target == c.pkt.target
    {
      assert d in Frames(OnAir(t, c.pkt), c.to, c.via + [c.to], receivers);
    }
  }

  /** What a step adds is multicast. */
  ghost predicate AddsMulticast(a: Net, b: Net) {
    (forall d | d in b.flight :: d in a.flight || (d.pkt.target == Multicast && Id(d.pkt) in MulticastIn(a))) &&
    (forall x | x in b.sent :: x in a.sent || x.id in MulticastIn(a)) &&
    (forall x | x in b.up :: x in a.up || x.id in MulticastIn(a))
  }

  lemma OthersAddNothing(a: Net, c: Copy, b: Net)
    requires c in a.flight && b.sent == a.sent && b.up == a.up && b.flight == a.flight - multiset{c}
    ensures AddsMulticast(a, b)
  {
  }

  lemma MulticastAdds(a: Net, c: Copy, b: Net)
    requires c in a.flight && c.pkt.target == Multicast
    requires forall d | d in b.flight :: d in a.flight || (Id(d.pkt) == Id(c.pkt) && d.pkt.target == Multicast)
    requires b.sent == a.sent || b.sent == a.sent + [Tx(c.to, Id(c.pkt))]
    requires b.up == a.up || b.up == a.up + [Tx(c.to, Id(c.pkt))]
    ensures AddsMulticast(a, b)
  {
    assert Id(c.pkt) in MulticastIn(a);
  }

  lemma DeliverAdds(t: Topology, a: Net, c: Copy, receivers: set<nat>, b: Net)
    requires WellFormed(t, a) && Deliver(t, a, c, receivers, b)
    ensures AddsMulticast(a, b)
  {
    if c.pkt.target != Multicast {
      OthersEnd(t, a, c, receivers, b);
      OthersAddNothing(a, c, b);
    } else {
      MulticastEffect(t, a, c, receivers, b);
      MulticastAdds(a, c, b);
    }
  }

  lemma MulticastStep(t: Topology, a: Net, b: Net)
    requires WellFormed(t, a) && Step(t, a, b)
    ensures AddsMulticast(a, b)
  {
    if c, receivers :| Deliver(t, a, c, receivers, b) {
      DeliverAdds(t, a, c, receivers, b);
    } else {
      var c :| Lose(a, c, b);
      OthersAddNothing(a, c, b);
    }
  }

  /** In every run only multicast packets are relayed or passed up as such, and only those
      that were in flight to begin with. */
  lemma {:induction false} OnlyMulticastSpreads(t: Topology, run: seq<Net>)
    requires IsRun(t, run)
    ensures var first, last := run[0], run[|run| - 1];
            && MulticastIn(last) <= MulticastIn(first)
            && (forall d | d in last.flight :: d in first.flight || d.pkt.target == Multicast)
            && (forall x | x in last.sent :: x in first.sent || x.id in MulticastIn(first))
            && (forall x | x in last.up :: x in first.up || x.id in MulticastIn(first))
  {
    if |run| > 1 {
      OnlyMulticastSpreads(t, run[..|run| - 1]);
      MulticastStep(t, run[|run| - 2], run[|run| - 1]);
    }
  }
}
