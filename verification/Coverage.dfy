/**
  One injected packet in a network of relay nodes that loses nothing: whom the flood
  reaches and who relays it.  Every node relays what it hears from the stations that
  selected it, or everything if it relays by default.
*/
module Coverage {
  import opened Basics
  import opened SlidingWindow
  import opened DuplicateTree
  import opened SmfNode
  import opened Flooding

  /** A delivery that reaches every neighbour of a relaying node. */
  ghost predicate LosslessStep(t: Topology, a: Net, b: Net)
    requires WellFormed(t, a)
  {
    exists c: Copy :: Deliver(t, a, c, t.Neighbours(c.to), b)
  }

  ghost predicate IsLosslessRun(t: Topology, run: seq<Net>) {
    |run| > 0 && (forall i | 0 <= i < |run| :: WellFormed(t, run[i])) &&
    forall i | 0 <= i < |run| - 1 :: LosslessStep(t, run[i], run[i + 1])
  }

  lemma LosslessIsRun(t: Topology, run: seq<Net>)
    requires IsLosslessRun(t, run)
    ensures IsRun(t, run)
  {
    forall i | 0 <= i < |run| - 1
      ensures Step(t, run[i], run[i + 1])
    {
      assert LosslessStep(t, run[i], run[i + 1]);
    }
  }

  // ----- reaching over links -----

  ghost predicate IsPath(links: set<(nat, nat)>, p: seq<nat>) {
    |p| > 0 && forall i | 0 <= i < |p| - 1 :: (p[i], p[i + 1]) in links
  }

  ghost predicate Reachable(links: set<(nat, nat)>, o: nat, y: nat) {
    exists p :: IsPath(links, p) && p[0] == o && p[|p| - 1] == y
  }

  lemma ReachesSelf(links: set<(nat, nat)>, o: nat)
    ensures Reachable(links, o, o)
  {
    assert IsPath(links, [o]);
  }

  lemma ReachesFurther(links: set<(nat, nat)>, o: nat, x: nat, y: nat)
    requires Reachable(links, o, x) && (x, y) in links
    ensures Reachable(links, o, y)
  {
    var p :| IsPath(links, p) && p[0] == o && p[|p| - 1] == x;
    assert IsPath(links, p + [y]);
  }

  lemma {:induction false} ClosedReaches(links: set<(nat, nat)>, within: set<nat>, path: seq<nat>)
    requires IsPath(links, path) && path[0] in within
    requires forall x, y | x in within && (x, y) in links :: y in within
    ensures path[|path| - 1] in within
  {
    if |path| > 1 {
      ClosedReaches(links, within, path[..|path| - 1]);
      assert (path[|path| - 2], path[|path| - 1]) in links;
    }
  }

  /** The node relays what it hears from the station `mac`. */
  ghost predicate Picks(n: Node, mac: u32) requires n.Valid() {
    n.defaultForward || Selects(n.selectors, n.selectorLen, mac)
  }

  /** The links whose receiver relays what it hears from the sender. */
  ghost function RelayLinks(t: Topology, a: Net): set<(nat, nat)> requires WellFormed(t, a) {
    set l | l in t.links && Picks(a.nodes[l.1], t.macs[l.0])
  }

  /** `y` is the origin, or next to the origin or to a relay reached over relay links. */
  ghost predicate Served(t: Topology, relay: set<(nat, nat)>, o: nat, y: nat) {
    y == o || exists x: nat :: Reachable(relay, o, x) && (x, y) in t.links
  }

  // ----- the flood of one packet -----

  /** Node `o` has just put its own fresh multicast packet `p` on the air. */
  ghost predicate Injected(t: Topology, a: Net, o: nat, p: Header) {
    WellFormed(t, a) && o < t.Size() && Quiet(a) && a.heard == {o} &&
    p.target == Multicast && p.version == 4 && p.src == t.ips[o] &&
    (forall i | 0 <= i < t.Size() && i != o :: t.ips[i] != p.src) &&
    (forall i | 0 <= i < t.Size() :: !a.nodes[i].Refuses(Id(p))) &&
    a.flight == Frames(p, o, [], t.Neighbours(o))
  }

  /** No node remembers packets it was not asked to relay: a filtering node relays all. */
  ghost predicate Unprejudiced(a: Net) {
    forall i | 0 <= i < |a.nodes| :: a.nodes[i].defaultForward || !a.nodes[i].filtering
  }

  /** The TTL outlasts any path of distinct relays; with private headers one hop is enough. */
  predicate TtlSuffices(t: Topology, p: Header) {
    if t.shared then p.ttl >= t.Size() else p.ttl != 1
  }

  /** `x` has put the packet on the air. */
  ghost predicate Spoken(a: Net, o: nat, id: Identity, x: nat) { x == o || Tx(x, id) in a.sent }

  /** What a frame of the flood looks like. */
  ghost predicate FloodFrame(t: Topology, a: Net, o: nat, p: Header, c: Copy) {
    c.pkt == p.(ttl := p.ttl - if t.shared then |c.via| else 0) &&
    Distinct(c.via) && (forall x | x in c.via :: x < t.Size() && x != o && Spoken(a, o, Id(p), x)) &&
    Spoken(a, o, Id(p), c.sender) && (c.sender, c.to) in t.links
  }

  ghost predicate Pending(a: Net, x: nat, y: nat) {
    exists c :: c in a.flight && c.sender == x && c.to == y
  }

  /** To know the packet is to have relayed it; to have heard it is to have passed it up. */
  ghost predicate HearingState(a: Net, i: nat, id: Identity)
    requires i < |a.nodes|
  {
    (a.nodes[i].Refuses(id) <==> Tx(i, id) in a.sent) && (Tx(i, id) in a.sent ==> i in a.heard) &&
    (i in a.heard ==> Tx(i, id) in a.up)
  }

  /** What `x` said is on its way to `y`, or `y` heard it and has relayed it if it should. */
  ghost predicate Passed(a: Net, relay: set<(nat, nat)>, o: nat, id: Identity, x: nat, y: nat) {
    Pending(a, x, y) || (y in a.heard && ((x, y) in relay ==> Spoken(a, o, id, y)))
  }

  /** What the flood does not change. */
  ghost predicate Setting(t: Topology, a: Net, relay: set<(nat, nat)>, o: nat, p: Header) {
    WellFormed(t, a) && o < t.Size() &&
    p.target == Multicast && p.version == 4 && p.src == t.ips[o] &&
    (forall i | 0 <= i < t.Size() && i != o :: t.ips[i] != p.src) &&
    Unprejudiced(a) && relay == RelayLinks(t, a)
  }

  /** What the nodes know; the origin neither relays its packet nor takes it back. */
  ghost predicate States(a: Net, o: nat, id: Identity) {
    o < |a.nodes| && o in a.heard && Tx(o, id) !in a.sent &&
    (a.nodes[o].filtering ==> Tx(o, id) !in a.up) &&
    forall i | 0 <= i < |a.nodes| && i != o :: HearingState(a, i, id)
  }

  ghost predicate Flood(t: Topology, a: Net, relay: set<(nat, nat)>, o: nat, p: Header) {
    Setting(t, a, relay, o, p) && States(a, o, Id(p)) &&
    (forall x: nat | Spoken(a, o, Id(p), x) :: Reachable(relay, o, x)) &&
    (forall x | x in a.heard :: x < t.Size() && Served(t, relay, o, x)) &&
    (forall c | c in a.flight :: FloodFrame(t, a, o, p, c)) &&
    (forall x: nat, y: nat | Spoken(a, o, Id(p), x) && (x, y) in t.links :: Passed(a, relay, o, Id(p), x, y))
  }

  lemma FirstStates(a: Net, o: nat, id: Identity)
    requires Quiet(a) && o < |a.nodes| && a.heard == {o}
    requires forall i | 0 <= i < |a.nodes| :: !a.nodes[i].Refuses(id)
    ensures States(a, o, id)
  {
  }

  lemma FirstFrames(t: Topology, a: Net, o: nat, p: Header)
    requires Injected(t, a, o, p)
    ensures forall c | c in a.flight :: FloodFrame(t, a, o, p, c)
    ensures forall y: nat | (o, y) in t.links :: Pending(a, o, y)
  {
    forall y: nat | (o, y) in t.links
      ensures Pending(a, o, y)
    {
      assert y in t.Neighbours(o);
      assert Copy(y, o, p, []) in a.flight;
    }
  }

  lemma FloodStarts(t: Topology, a: Net, o: nat, p: Header)
    requires Injected(t, a, o, p) && Unprejudiced(a)
    ensures Flood(t, a, RelayLinks(t, a), o, p)
  {
    FirstStates(a, o, Id(p));
    FirstFrames(t, a, o, p);
    ReachesSelf(RelayLinks(t, a), o);
    assert Served(t, RelayLinks(t, a), o, o);
    assert forall x: nat :: Spoken(a, o, Id(p), x) <==> x == o;
  }

  /** How one node of the flood treats a frame. */
  lemma FloodAtNode(n: Node, r: Reception)
    requires n.Valid() && r.direction == Inbound && r.pkt.target == Multicast
    requires n.defaultForward || !n.filtering
    requires OwnPacket(r) || !Picks(n, r.txAddr) || n.Refuses(Id(r.pkt)) || r.pkt.ttl != 1
    ensures n.Forwards(r) <==> !OwnPacket(r) && Picks(n, r.txAddr) && !n.Refuses(Id(r.pkt))
    ensures n.Withholds(r) <==> n.filtering && (OwnPacket(r) || n.Refuses(Id(r.pkt)))
    ensures SameRole(n, n.After(r))
    ensures !OwnPacket(r) ==>
              (n.After(r).Refuses(Id(r.pkt)) <==> n.Refuses(Id(r.pkt)) || Picks(n, r.txAddr))
  {
    if n.Consults(r) { ConsultedRefused(n, r); }
  }

  ghost predicate SameRole(n: Node, m: Node) {
    m.defaultForward == n.defaultForward && m.filtering == n.filtering &&
    m.selectors == n.selectors && m.selectorLen == n.selectorLen
  }

  /** A node relaying the packet for the first time finds the TTL not yet spent. */
  lemma FirstRelayTtl(t: Topology, a: Net, o: nat, p: Header, c: Copy)
    requires o < t.Size() && TtlSuffices(t, p) && c.to < t.Size() && !Spoken(a, o, Id(p), c.to)
    requires FloodFrame(t, a, o, p, c)
    ensures c.pkt.ttl != 1
  {
    if t.shared {
      var pool := Upto(t.Size()) - {o, c.to};
      assert |pool| == t.Size() - 2 by { assert Upto(t.Size()) == pool + {o, c.to}; }
      DistinctWithin(c.via, pool);
    }
  }

  /** The effect of one delivery of the flood, without the nodes' innards. */
  ghost predicate Effect(t: Topology, a: Net, c: Copy, b: Net, relayed: bool) {
    c in a.flight && b.heard == a.heard + {c.to} &&
    b.flight == if relayed
                then a.flight - multiset{c} + Frames(OnAir(t, c.pkt), c.to, c.via + [c.to], t.Neighbours(c.to))
                else a.flight - multiset{c}
  }

  ghost predicate NodeEffect(a: Net, c: Copy, b: Net, o: nat, id: Identity, relayed: bool) {
    |b.nodes| == |a.nodes| && c.to < |a.nodes| &&
    (forall i | 0 <= i < |a.nodes| && i != c.to :: b.nodes[i] == a.nodes[i]) &&
    SameRole(a.nodes[c.to], b.nodes[c.to]) &&
    (c.to != o ==> (b.nodes[c.to].Refuses(id) <==> relayed || a.nodes[c.to].Refuses(id))) &&
    b.sent == (if relayed then a.sent + [Tx(c.to, id)] else a.sent) &&
    (b.up == a.up || b.up == a.up + [Tx(c.to, id)]) &&
    (c.to != o && c.to !in a.heard ==> b.up != a.up) &&
    (c.to == o && a.nodes[o].filtering ==> b.up == a.up)
  }

  /** The receiver relays the frame. */
  ghost predicate Relays(a: Net, relay: set<(nat, nat)>, o: nat, id: Identity, c: Copy) {
    (c.sender, c.to) in relay && !Spoken(a, o, id, c.to)
  }

  lemma FloodDeliver(t: Topology, a: Net, b: Net, relay: set<(nat, nat)>, o: nat, p: Header, c: Copy)
    requires Flood(t, a, relay, o, p) && TtlSuffices(t, p) && Deliver(t, a, c, t.Neighbours(c.to), b)
    ensures var relayed := Relays(a, relay, o, Id(p), c);
            Effect(t, a, c, b, relayed) && NodeEffect(a, c, b, o, Id(p), relayed)
  {
    assert FloodFrame(t, a, o, p, c) && Id(c.pkt) == Id(p);
    var n, r := a.nodes[c.to], Arrival(t, c);
    assert OwnPacket(r) <==> c.to == o;
    if c.to != o {
      assert HearingState(a, c.to, Id(p));
      assert Picks(n, r.txAddr) <==> (c.sender, c.to) in relay;
      if Tx(c.to, Id(p)) !in a.sent { FirstRelayTtl(t, a, o, p, c); }
    }
    FloodAtNode(n, r);
  }

  lemma FloodNodes(a: Net, c: Copy, b: Net, o: nat, id: Identity, relayed: bool)
    requires b.heard == a.heard + {c.to} && NodeEffect(a, c, b, o, id, relayed)
    requires relayed ==> c.to != o
    requires States(a, o, id)
    ensures States(b, o, id)
  {
    forall i | 0 <= i < |a.nodes| && i != o
      ensures HearingState(b, i, id)
    {
      assert HearingState(a, i, id);
      if i == c.to {
        assert relayed ==> b.sent[|b.sent| - 1] == Tx(i, id);
        assert i !in a.heard ==> b.up[|b.up| - 1] == Tx(i, id);
      }
    }
  }

  lemma SpokenAfter(a: Net, c: Copy, b: Net, o: nat, id: Identity, relayed: bool)
    requires NodeEffect(a, c, b, o, id, relayed)
    ensures forall x: nat :: Spoken(b, o, id, x) <==> Spoken(a, o, id, x) || (relayed && x == c.to)
  {
    assert relayed ==> b.sent[|b.sent| - 1] == Tx(c.to, id);
  }

  lemma FloodFrames(t: Topology, a: Net, b: Net, o: nat, p: Header, c: Copy, relayed: bool)
    requires forall d | d in a.flight :: FloodFrame(t, a, o, p, d)
    requires relayed ==> c.to < t.Size() && !Spoken(a, o, Id(p), c.to)
    requires forall x: nat :: Spoken(b, o, Id(p), x) <==> Spoken(a, o, Id(p), x) || (relayed && x == c.to)
    requires Effect(t, a, c, b, relayed)
    ensures forall d | d in b.flight :: FloodFrame(t, b, o, p, d)
  {
    assert FloodFrame(t, a, o, p, c);
    forall d | d in b.flight
      ensures FloodFrame(t, b, o, p, d)
    {
      if d in a.flight {
        assert FloodFrame(t, a, o, p, d);
      } else {
        assert d in Frames(OnAir(t, c.pkt), c.to, c.via + [c.to], t.Neighbours(c.to));
      }
    }
  }

  lemma FloodFrontier(t: Topology, a: Net, b: Net, relay: set<(nat, nat)>, o: nat, id: Identity, c: Copy)
    requires forall x: nat, y: nat | Spoken(a, o, id, x) && (x, y) in t.links :: Passed(a, relay, o, id, x, y)
    requires var relayed := Relays(a, relay, o, id, c);
             Effect(t, a, c, b, relayed) &&
             forall x: nat :: Spoken(b, o, id, x) <==> Spoken(a, o, id, x) || (relayed && x == c.to)
    ensures forall x: nat, y: nat | Spoken(b, o, id, x) && (x, y) in t.links :: Passed(b, relay, o, id, x, y)
  {
    forall x: nat, y: nat | Spoken(b, o, id, x) && (x, y) in t.links
      ensures Passed(b, relay, o, id, x, y)
    {
      if Spoken(a, o, id, x) {
        assert Passed(a, relay, o, id, x, y);
        if d :| d in a.flight && d.sender == x && d.to == y && d != c {
          assert d in b.flight;
        }
      } else {
        assert y in t.Neighbours(x);
        assert Copy(y, c.to, OnAir(t, c.pkt), c.via + [c.to]) in b.flight;
      }
    }
  }

  lemma RolesStay(t: Topology, a: Net, c: Copy, b: Net, o: nat, id: Identity, relayed: bool)
    requires WellFormed(t, a) && WellFormed(t, b) && NodeEffect(a, c, b, o, id, relayed)
    ensures RelayLinks(t, b) == RelayLinks(t, a) && (Unprejudiced(a) ==> Unprejudiced(b))
  {
    forall l | l in t.links
      ensures Picks(b.nodes[l.1], t.macs[l.0]) <==> Picks(a.nodes[l.1], t.macs[l.0])
    {
      assert l.1 == c.to || b.nodes[l.1] == a.nodes[l.1];
    }
  }

  lemma FloodAfterEffect(t: Topology, a: Net, c: Copy, b: Net, relay: set<(nat, nat)>, o: nat, p: Header)
    requires Flood(t, a, relay, o, p) && WellFormed(t, b)
    requires var relayed := Relays(a, relay, o, Id(p), c);
             Effect(t, a, c, b, relayed) && NodeEffect(a, c, b, o, Id(p), relayed)
    ensures Flood(t, b, relay, o, p)
  {
    var relayed := Relays(a, relay, o, Id(p), c);
    FloodNodes(a, c, b, o, Id(p), relayed);
    SpokenAfter(a, c, b, o, Id(p), relayed);
    FloodFrames(t, a, b, o, p, c, relayed);
    FloodFrontier(t, a, b, relay, o, Id(p), c);
    RolesStay(t, a, c, b, o, Id(p), relayed);
    assert FloodFrame(t, a, o, p, c);
    if relayed { ReachesFurther(relay, o, c.sender, c.to); }
    assert Served(t, relay, o, c.to);
  }

  lemma FloodStep(t: Topology, a: Net, b: Net, relay: set<(nat, nat)>, o: nat, p: Header)
    requires Flood(t, a, relay, o, p) && TtlSuffices(t, p) && WellFormed(t, b) && LosslessStep(t, a, b)
    ensures Flood(t, b, relay, o, p)
  {
    var c: Copy :| Deliver(t, a, c, t.Neighbours(c.to), b);
    FloodDeliver(t, a, b, relay, o, p, c);
    FloodAfterEffect(t, a, c, b, relay, o, p);
  }

  lemma {:induction false} FloodRun(t: Topology, run: seq<Net>, o: nat, p: Header)
    requires IsLosslessRun(t, run) && Injected(t, run[0], o, p)
    requires Unprejudiced(run[0]) && TtlSuffices(t, p)
    ensures Flood(t, run[|run| - 1], RelayLinks(t, run[0]), o, p)
  {
    if |run| == 1 {
      FloodStarts(t, run[0], o, p);
    } else {
      FloodRun(t, run[..|run| - 1], o, p);
      FloodStep(t, run[|run| - 2], run[|run| - 1], RelayLinks(t, run[0]), o, p);
    }
  }

  /** With nothing left in flight, everyone reached over relay links has spoken. */
  lemma AllRelaysSpoke(t: Topology, a: Net, relay: set<(nat, nat)>, o: nat, p: Header, y: nat)
    requires Flood(t, a, relay, o, p) && a.flight == multiset{} && Reachable(relay, o, y)
    ensures Spoken(a, o, Id(p), y)
  {
    var spoken := set x | x in a.heard && Spoken(a, o, Id(p), x);
    forall x: nat, z: nat | x in spoken && (x, z) in relay
      ensures z in spoken
    {
      assert Passed(a, relay, o, Id(p), x, z);
    }
    var path :| IsPath(relay, path) && path[0] == o && path[|path| - 1] == y;
    ClosedReaches(relay, spoken, path);
  }

  /** When the flood of one packet has died down, exactly the nodes next to its origin or to
      a relay reached from there over relay links have received it and passed it up, and
      exactly those relays have relayed it, once each.  A filtering node passes it up once. */
  lemma FloodCovers(t: Topology, run: seq<Net>, o: nat, p: Header)
    requires IsLosslessRun(t, run) && Injected(t, run[0], o, p)
    requires Unprejudiced(run[0]) && TtlSuffices(t, p)
    requires run[|run| - 1].flight == multiset{}
    ensures var last, relay := run[|run| - 1], RelayLinks(t, run[0]);
            && Distinct(last.sent)
            && (forall y: nat :: y in last.heard <==> Served(t, relay, o, y))
            && (forall y: nat | y != o :: Tx(y, Id(p)) in last.sent <==> Reachable(relay, o, y))
            && Tx(o, Id(p)) !in last.sent
            && (forall y: nat | y in last.heard && y != o :: y < t.Size() && Tx(y, Id(p)) in last.up)
            && (forall i: nat, j: nat | i < j < |last.up| && last.up[i] == last.up[j] ::
                  last.up[i].node < t.Size() && !last.nodes[last.up[i].node].filtering)
  {
    FloodRun(t, run, o, p);
    LosslessIsRun(t, run);
    OnePacketOrderly(t, run[0], o, p);
    NoIdentityTwice(t, run);
    var last, relay := run[|run| - 1], RelayLinks(t, run[0]);
    forall y: nat | Reachable(relay, o, y)
      ensures Spoken(last, o, Id(p), y)
    {
      AllRelaysSpoke(t, last, relay, o, p, y);
    }
    forall y: nat | Served(t, relay, o, y)
      ensures y in last.heard
    {
      if x: nat :| Reachable(relay, o, x) && (x, y) in t.links {
        assert Passed(last, relay, o, Id(p), x, y);
      }
    }
    forall y: nat | y in last.heard && y != o
      ensures y < t.Size() && Tx(y, Id(p)) in last.up
    {
      assert HearingState(last, y, Id(p));
    }
  }

  lemma OnePacketOrderly(t: Topology, a: Net, o: nat, p: Header)
    requires Injected(t, a, o, p)
    ensures Orderly(a)
  {
    assert forall c | c in a.flight :: Id(c.pkt) == Id(p);
  }

  /** If every node relays by default, exactly the nodes reachable from the origin receive
      the packet, and all of them but the origin relay it. */
  lemma DefaultFloodCovers(t: Topology, run: seq<Net>, o: nat, p: Header)
    requires IsLosslessRun(t, run) && Injected(t, run[0], o, p) && TtlSuffices(t, p)
    requires forall i | 0 <= i < t.Size() :: run[0].nodes[i].defaultForward
    requires run[|run| - 1].flight == multiset{}
    ensures var last := run[|run| - 1];
            && (forall y: nat :: y in last.heard <==> Reachable(t.links, o, y))
            && (forall y: nat | y != o :: Tx(y, Id(p)) in last.sent <==> Reachable(t.links, o, y))
  {
    FloodCovers(t, run, o, p);
    assert RelayLinks(t, run[0]) == t.links;
    forall y: nat
      ensures Served(t, t.links, o, y) <==> Reachable(t.links, o, y)
    {
      if y == o {
        ReachesSelf(t.links, o);
      } else {
        ServedIsReachable(t.links, o, y);
      }
    }
  }

  lemma ServedIsReachable(links: set<(nat, nat)>, o: nat, y: nat)
    requires y != o
    ensures (exists x: nat :: Reachable(links, o, x) && (x, y) in links) <==> Reachable(links, o, y)
  {
    if x: nat :| Reachable(links, o, x) && (x, y) in links {
      ReachesFurther(links, o, x, y);
    }
    if path :| IsPath(links, path) && path[0] == o && path[|path| - 1] == y {
      var x, before := path[|path| - 2], path[..|path| - 1];
      assert IsPath(links, before);
      assert Reachable(links, o, x) && (x, y) in links;
    }
  }

  /** Why filtering nodes that relay for some stations only are left to the order of
      arrival: having heard a packet from a station that did not select it, the node still
      relays it for one that did exactly if it does not filter. */
  lemma FilteringForestalls(n: Node, first: Reception, later: Reception)
    requires n.Valid() && n.Reaches(first) && !n.Selected(first)
    requires Id(later.pkt) == Id(first.pkt) && n.Eligible(later) && !n.Refuses(Id(later.pkt))
    ensures n.After(first).Forwards(later) <==> !n.filtering
  {
    if n.filtering { ConsultedRefused(n, first); }
  }

  // ----- the one TTL that does not flood -----

  /** With private headers a TTL of one keeps the packet within one hop. */
  ghost predicate OneHop(t: Topology, a: Net, o: nat, p: Header) {
    WellFormed(t, a) && o < t.Size() && o in a.heard && a.sent == [] &&
    (forall x | x in a.heard :: x == o || x in t.Neighbours(o)) &&
    (forall c | c in a.flight :: c.pkt == p && c.sender == o && c.to in t.Neighbours(o)) &&
    (forall y | y in t.Neighbours(o) :: y in a.heard || Pending(a, o, y))
  }

  lemma OneHopDeliver(t: Topology, a: Net, b: Net, c: Copy)
    requires WellFormed(t, a) && c in a.flight && c.pkt.ttl == 1
    requires Deliver(t, a, c, t.Neighbours(c.to), b)
    ensures Effect(t, a, c, b, false) && b.sent == a.sent
  {
  }

  lemma OneHopAfterEffect(t: Topology, a: Net, c: Copy, b: Net, o: nat, p: Header)
    requires OneHop(t, a, o, p) && WellFormed(t, b) && Effect(t, a, c, b, false) && b.sent == a.sent
    ensures OneHop(t, b, o, p)
  {
    forall y | y in t.Neighbours(o)
      ensures y in b.heard || Pending(b, o, y)
    {
      if y !in b.heard {
        var d :| d in a.flight && d.sender == o && d.to == y;
        assert d in b.flight;
      }
    }
  }

  lemma OneHopStep(t: Topology, a: Net, b: Net, o: nat, p: Header)
    requires OneHop(t, a, o, p) && p.ttl == 1 && WellFormed(t, b) && LosslessStep(t, a, b)
    ensures OneHop(t, b, o, p)
  {
    var c: Copy :| Deliver(t, a, c, t.Neighbours(c.to), b);
    OneHopDeliver(t, a, b, c);
    OneHopAfterEffect(t, a, c, b, o, p);
  }

  lemma OneHopStarts(t: Topology, a: Net, o: nat, p: Header)
    requires Injected(t, a, o, p)
    ensures OneHop(t, a, o, p)
  {
    forall y | y in t.Neighbours(o)
      ensures Pending(a, o, y)
    {
      assert Copy(y, o, p, []) in a.flight;
    }
  }

  lemma {:induction false} OneHopRun(t: Topology, run: seq<Net>, o: nat, p: Header)
    requires IsLosslessRun(t, run) && Injected(t, run[0], o, p) && p.ttl == 1
    ensures OneHop(t, run[|run| - 1], o, p)
  {
    if |run| == 1 {
      OneHopStarts(t, run[0], o, p);
    } else {
      OneHopRun(t, run[..|run| - 1], o, p);
      OneHopStep(t, run[|run| - 2], run[|run| - 1], o, p);
    }
  }

  /** As the code stands (private headers) a flood reaches every node exactly if its TTL is
      one and all nodes are neighbours of its origin, or its TTL is not one and all are next
      to the origin or to a relay reached over relay links. */
  lemma CoverageExactly(t: Topology, run: seq<Net>, o: nat, p: Header)
    requires IsLosslessRun(t, run) && Injected(t, run[0], o, p) && Unprejudiced(run[0]) && !t.shared
    requires run[|run| - 1].flight == multiset{}
    ensures var heard := run[|run| - 1].heard;
            (forall y: nat | y < t.Size() :: y in heard) <==>
            if p.ttl == 1
            then forall y: nat | y < t.Size() && y != o :: y in t.Neighbours(o)
            else forall y: nat | y < t.Size() :: Served(t, RelayLinks(t, run[0]), o, y)
  {
    if p.ttl != 1 {
      FloodCovers(t, run, o, p);
    } else {
      OneHopRun(t, run, o, p);
    }
  }
}
