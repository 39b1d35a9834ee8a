/**
  Exactly when flooding is safe and stops.  If the identifiers of some source do not lie within
  the past the windows account for, some of them go round two linked nodes for ever, each
  restarting or pushing on the window the one before has left.
*/
module EndlessFlood {
  import opened Basics
  import opened SlidingWindow
  import opened DuplicateTree
  import opened SmfNode
  import opened Flooding

  /** The identifiers of each source lie within the limit. */
  ghost predicate Compatible(ids: set<Identity>, limit: nat) {
    forall src: u32 :: Spans(Idents(ids, src), limit)
  }

  /** Nothing relayed yet, and nothing heard of any source, at nodes with these windows. */
  ghost predicate Fresh(a: Net, size: nat, pastMax: nat) {
    Quiet(a) &&
    forall i | 0 <= i < |a.nodes| ::
      a.nodes[i].tree == map[] && a.nodes[i].windowSize == size && a.nodes[i].windowPastMax == pastMax
  }

  lemma FreshIsOrderly(t: Topology, a: Net, size: nat, pastMax: nat)
    requires WellFormed(t, a) && Fresh(a, size, pastMax) && Compatible(IdsIn(a), Limit(size, pastMax))
    ensures Orderly(a)
  {
    forall i: nat, src: u32 | i < |a.nodes|
      ensures TellsApart(a.nodes[i], IdsIn(a), src)
    {
      assert Idents(IdsIn(a), src) + Front(a.nodes[i], src) == Idents(IdsIn(a), src);
    }
  }

  // ----- two nodes and a circle of identifiers -----

  /** An address other than `src`. */
  function NotFrom(src: u32): u32 { if src == 0 then 1 else 0 }

  function Pair(src: u32): Topology {
    Topology({(0, 1), (1, 0)}, [1, 2], [NotFrom(src), NotFrom(src)], false)
  }

  function Pkt(id: Identity): Header { Header(id.src, Multicast, id.ident, 5, 4) }

  function Other(x: nat): nat { if x == 0 then 1 else 0 }

  ghost function Frame(x: nat, id: Identity, via: seq<nat>): Copy { Copy(x, Other(x), Pkt(id), via) }

  lemma OneNeighbour(src: u32, x: nat)
    requires x < 2
    ensures Pair(src).Neighbours(x) == {Other(x)} && Pair(src).Valid()
  {
    var ns := Pair(src).Neighbours(x);
    assert (x, Other(x)) in Pair(src).links;
    assert forall y | y in ns :: y == Other(x);
  }

  /** The node relays by default and has nothing of `src` or `front` at the front of its window. */
  ghost predicate Ready(n: Node, size: nat, pastMax: nat, src: u32, front: u32) {
    n.Valid() && n.defaultForward && n.windowSize == size && n.windowPastMax == pastMax &&
    (src in n.tree ==> n.tree[src].mask.last == front)
  }

  lemma ReadyRelays(n: Node, size: nat, pastMax: nat, front: u32, id: Identity, r: Reception)
    requires Ready(n, size, pastMax, id.src, front) && Jumps(front, id.ident, Limit(size, pastMax))
    requires r.direction == Inbound && r.pkt == Pkt(id) && r.txAddr != r.rxAddr && r.ownIp != id.src
    ensures n.Forwards(r) && Ready(n.After(r), size, pastMax, id.src, id.ident)
  {
    JumpAccepted(MaskOf(n.tree, id.src), size, n.Past(), id.ident);
  }

  // ----- one hop -----

  ghost function Running(src: u32, run: seq<Net>): Option<nat> {
    if IsRun(Pair(src), run) then Some(|run|) else None
  }

  lemma Extends(src: u32, run: seq<Net>, c: Copy, b: Net)
    requires Running(src, run).Some? && c in run[|run| - 1].flight && c.to < 2
    requires b == Delivered(Pair(src), run[|run| - 1], c, {Other(c.to)}) && WellFormed(Pair(src), b)
    ensures Running(src, run + [b]).Some?
  {
    OneNeighbour(src, c.to);
    assert Deliver(Pair(src), run[|run| - 1], c, {Other(c.to)}, b);
    var next := run + [b];
    assert forall i | 0 <= i < |run| :: next[i] == run[i];
  }

  /** What is in flight: the frames that go round, in the order they are to be delivered, and
      others nobody delivers. */
  ghost predicate Carries(a: Net, q: seq<Copy>, rest: multiset<Copy>) { a.flight == multiset(q) + rest }

  lemma NextInQueue(q: seq<Copy>, rest: multiset<Copy>, c: Copy)
    requires q != []
    ensures multiset(q) + rest - multiset{q[0]} + multiset{c} == multiset(q[1..] + [c]) + rest
  {
    assert q == [q[0]] + q[1..];
  }

  lemma OneFrame(pkt: Header, x: nat, via: seq<nat>, y: nat)
    ensures Frames(pkt, x, via, {y}) == multiset{Copy(y, x, pkt, via)}
  {
    assert (set z | z in {y} :: Copy(z, x, pkt, via)) == {Copy(y, x, pkt, via)};
  }

  lemma HopEffect(src: u32, a: Net, x: nat, id: Identity, q: seq<Copy>, rest: multiset<Copy>)
    requires WellFormed(Pair(src), a) && x < 2 && Carries(a, q, rest)
    requires q != [] && q[0] == Frame(x, id, q[0].via) && q[0] in a.flight
    requires a.nodes[x].Forwards(Arrival(Pair(src), q[0]))
    ensures var b := Delivered(Pair(src), a, q[0], {Other(x)});
            && Carries(b, q[1..] + [Frame(Other(x), id, q[0].via + [x])], rest)
            && b.sent == a.sent + [Tx(x, id)]
            && b.nodes == a.nodes[x := a.nodes[x].After(Arrival(Pair(src), q[0]))]
  {
    OneFrame(q[0].pkt, x, q[0].via + [x], Other(x));
    NextInQueue(q, rest, Frame(Other(x), id, q[0].via + [x]));
  }

  // ----- the run -----

  /** Who is next: node `x`, and identifier `i` of the circle. */
  datatype Turn = Turn(x: nat, i: nat)

  function NextTurn(turn: Turn, n: nat): Turn {
    if turn.i + 1 < n then Turn(turn.x, turn.i + 1) else Turn(Other(turn.x), 0)
  }

  /** The turn of the frame `j` places behind. */
  function Later(turn: Turn, n: nat, j: nat): Turn {
    if turn.i + j < n then Turn(turn.x, turn.i + j) else Turn(Other(turn.x), turn.i + j - n)
  }

  /** The queue holds the frames in the order of their turns. */
  ghost predicate InOrder(q: seq<Copy>, src: u32, c: seq<u32>, turn: Turn) {
    |q| == |c| && turn.x < 2 && turn.i < |c| &&
    forall j | 0 <= j < |q| ::
      var l := Later(turn, |c|, j); l.i < |c| && q[j] == Frame(l.x, Identity(src, c[l.i]), q[j].via)
  }

  lemma NextInOrder(q: seq<Copy>, src: u32, c: seq<u32>, turn: Turn, via: seq<nat>)
    requires InOrder(q, src, c, turn)
    ensures InOrder(q[1..] + [Frame(Other(turn.x), Identity(src, c[turn.i]), via)], src, c, NextTurn(turn, |c|))
  {
    var next := q[1..] + [Frame(Other(turn.x), Identity(src, c[turn.i]), via)];
    assert forall j | 0 <= j < |c| - 1 :: next[j] == q[j + 1];
  }

  /** Whose turn it is, and that both nodes will relay. */
  ghost predicate AtTurn(a: Net, src: u32, c: seq<u32>, size: nat, pastMax: nat, turn: Turn, q: seq<Copy>) {
    InOrder(q, src, c, turn) && |a.nodes| == 2 &&
    Ready(a.nodes[turn.x], size, pastMax, src, c[Before(turn, |c|)]) &&
    Ready(a.nodes[Other(turn.x)], size, pastMax, src, c[|c| - 1])
  }

  /** The index of the identifier before, around the circle. */
  function Before(turn: Turn, n: nat): int { if turn.i == 0 then n - 1 else turn.i - 1 }

  /** All that was sent so far came from the two nodes and the circle. */
  ghost predicate Logged(sent: seq<Tx>, src: u32, c: seq<u32>, n: nat) {
    |sent| == n && forall x | x in sent :: x.node < 2 && x.id.src == src && x.id.ident in c
  }

  /** The window of the node whose turn it is jumps. */
  lemma TurnJumps(c: seq<u32>, s: set<u32>, limit: nat, turn: Turn)
    requires Circle(c, s, limit) && turn.i < |c|
    ensures Jumps(c[Before(turn, |c|)], c[turn.i], limit)
  {
    assert turn.i > 0 ==> Jumps(c[turn.i - 1], c[turn.i - 1 + 1], limit);
  }

  lemma WellFormedAfter(src: u32, a: Net, x: nat, id: Identity, q: seq<Copy>, rest: multiset<Copy>, b: Net)
    requires WellFormed(Pair(src), a) && Carries(a, q, rest) && x < 2 && q != []
    requires Carries(b, q[1..] + [Frame(Other(x), id, q[0].via + [x])], rest)
    requires |b.nodes| == 2 && forall i | 0 <= i < 2 :: b.nodes[i].Valid()
    ensures WellFormed(Pair(src), b)
  {
    forall c | c in b.flight
      ensures c.to < 2 && c.sender < 2 && c.to != c.sender
    {
      if c in q[1..] {
        assert c in q;
        assert c in a.flight;
      } else if c in rest {
        assert c in a.flight;
      }
    }
  }

  /** The next net of the run, and the queue there. */
  ghost function NextNet(src: u32, a: Net, turn: Turn, q: seq<Copy>): Net
    requires WellFormed(Pair(src), a) && turn.x < 2 && q != [] && q[0] in a.flight
  {
    Delivered(Pair(src), a, q[0], {Other(turn.x)})
  }

  function NextQueue(src: u32, c: seq<u32>, turn: Turn, q: seq<Copy>): seq<Copy>
    requires q != [] && turn.i < |c|
  {
    q[1..] + [Copy(Other(turn.x), Other(Other(turn.x)), Pkt(Identity(src, c[turn.i])), q[0].via + [turn.x])]
  }

  lemma HopNodes(src: u32, c: seq<u32>, s: set<u32>, a: Net, size: nat, pastMax: nat, turn: Turn, q: seq<Copy>)
    requires WellFormed(Pair(src), a) && AtTurn(a, src, c, size, pastMax, turn, q)
    requires Circle(c, s, Limit(size, pastMax))
    ensures q != [] && q[0] == Frame(turn.x, Identity(src, c[turn.i]), q[0].via)
    ensures var n, r := a.nodes[turn.x], Arrival(Pair(src), q[0]);
            n.Forwards(r) && Ready(n.After(r), size, pastMax, src, c[turn.i])
  {
    assert Later(turn, |c|, 0) == turn;
    TurnJumps(c, s, Limit(size, pastMax), turn);
    ReadyRelays(a.nodes[turn.x], size, pastMax, c[Before(turn, |c|)], Identity(src, c[turn.i]),
                Arrival(Pair(src), q[0]));
  }

  lemma NextAtTurn(src: u32, c: seq<u32>, a: Net, b: Net, n: Node, size: nat, pastMax: nat,
                   turn: Turn, q: seq<Copy>, r: seq<Copy>)
    requires AtTurn(a, src, c, size, pastMax, turn, q) && b.nodes == a.nodes[turn.x := n]
    requires Ready(n, size, pastMax, src, c[turn.i]) && InOrder(r, src, c, NextTurn(turn, |c|))
    ensures AtTurn(b, src, c, size, pastMax, NextTurn(turn, |c|), r)
  {
  }

  lemma HopNet(src: u32, c: seq<u32>, s: set<u32>, a: Net, size: nat, pastMax: nat,
               turn: Turn, q: seq<Copy>, rest: multiset<Copy>)
    requires WellFormed(Pair(src), a) && AtTurn(a, src, c, size, pastMax, turn, q) && Carries(a, q, rest)
    requires Circle(c, s, Limit(size, pastMax))
    ensures q != [] && q[0] in a.flight
    ensures var b, r := NextNet(src, a, turn, q), NextQueue(src, c, turn, q);
            && WellFormed(Pair(src), b) && Carries(b, r, rest)
            && AtTurn(b, src, c, size, pastMax, NextTurn(turn, |c|), r)
            && b.sent == a.sent + [Tx(turn.x, Identity(src, c[turn.i]))]
  {
    var id := Identity(src, c[turn.i]);
    HopNodes(src, c, s, a, size, pastMax, turn, q);
    HopEffect(src, a, turn.x, id, q, rest);
    NextInOrder(q, src, c, turn, q[0].via + [turn.x]);
    var b, n := NextNet(src, a, turn, q), a.nodes[turn.x].After(Arrival(Pair(src), q[0]));
    NextAtTurn(src, c, a, b, n, size, pastMax, turn, q, NextQueue(src, c, turn, q));
    WellFormedAfter(src, a, turn.x, id, q, rest, b);
  }

  /** Nodes that know nothing yet and relay by default. */
  function NewNode(size: nat, pastMax: nat): Node {
    Node(true, false, false, 10, 0, seq(SELECTOR_LIST_LEN_MAX, i => 0), 0, size, pastMax, map[], 0, 0, 0, 0)
  }

  /** Frames with the identifiers of the circle, on their way to node 0. */
  ghost function FirstQueue(src: u32, c: seq<u32>): seq<Copy> {
    seq(|c|, j requires 0 <= j < |c| => Frame(0, Identity(src, c[j]), []))
  }

  /** One frame for each identity, never to be delivered. */
  ghost function Idle(ids: set<Identity>): multiset<Copy> { multiset(set id | id in ids :: Frame(0, id, [])) }

  ghost function Start(ids: set<Identity>, src: u32, c: seq<u32>, size: nat, pastMax: nat): Net {
    Net([NewNode(size, pastMax), NewNode(size, pastMax)], multiset(FirstQueue(src, c)) + Idle(ids), [], [], {})
  }

  lemma StartFrames(ids: set<Identity>, src: u32, c: seq<u32>, size: nat, pastMax: nat, limit: nat, f: Copy)
    requires Circle(c, Idents(ids, src), limit) && f in Start(ids, src, c, size, pastMax).flight
    ensures f.to == 0 && f.sender == 1 && Id(f.pkt) in ids
  {
    if f in FirstQueue(src, c) {
      var j :| 0 <= j < |c| && FirstQueue(src, c)[j] == f;
      assert c[j] in Idents(ids, src);
    }
  }

  lemma StartIds(ids: set<Identity>, src: u32, c: seq<u32>, size: nat, pastMax: nat, limit: nat)
    requires Circle(c, Idents(ids, src), limit)
    ensures IdsIn(Start(ids, src, c, size, pastMax)) == ids
  {
    var a := Start(ids, src, c, size, pastMax);
    forall f | f in a.flight
      ensures Id(f.pkt) in ids
    {
      StartFrames(ids, src, c, size, pastMax, limit, f);
    }
    forall id | id in ids
      ensures id in IdsIn(a)
    {
      assert Frame(0, id, []) in Idle(ids);
      assert Frame(0, id, []) in a.flight;
    }
  }

  lemma StartTurn(ids: set<Identity>, src: u32, c: seq<u32>, size: nat, pastMax: nat)
    requires Config(size, pastMax) && c != []
    ensures AtTurn(Start(ids, src, c, size, pastMax), src, c, size, pastMax, Turn(0, 0), FirstQueue(src, c))
  {
  }

  lemma StartWellFormed(ids: set<Identity>, src: u32, c: seq<u32>, size: nat, pastMax: nat)
    requires Config(size, pastMax) && Circle(c, Idents(ids, src), Limit(size, pastMax))
    ensures WellFormed(Pair(src), Start(ids, src, c, size, pastMax))
  {
    OneNeighbour(src, 0);
    forall f | f in Start(ids, src, c, size, pastMax).flight
      ensures f.to == 0 && f.sender == 1
    {
      StartFrames(ids, src, c, size, pastMax, Limit(size, pastMax), f);
    }
  }

  lemma Starts(ids: set<Identity>, src: u32, c: seq<u32>, size: nat, pastMax: nat)
    requires Config(size, pastMax) && Circle(c, Idents(ids, src), Limit(size, pastMax))
    ensures var a := Start(ids, src, c, size, pastMax);
            WellFormed(Pair(src), a) && Fresh(a, size, pastMax) && IdsIn(a) == ids
  {
    StartIds(ids, src, c, size, pastMax, Limit(size, pastMax));
    StartWellFormed(ids, src, c, size, pastMax);
  }

  /** The run so far. */
  ghost function Going(ids: set<Identity>, src: u32, c: seq<u32>, size: nat, pastMax: nat,
                       run: seq<Net>, turn: Turn, q: seq<Copy>): Option<nat> {
    if Running(src, run).Some? && run[0] == Start(ids, src, c, size, pastMax) &&
       AtTurn(run[|run| - 1], src, c, size, pastMax, turn, q) && Carries(run[|run| - 1], q, Idle(ids)) &&
       Logged(run[|run| - 1].sent, src, c, |run| - 1)
    then Some(|run|) else None
  }

  lemma GoesFirst(ids: set<Identity>, src: u32, c: seq<u32>, size: nat, pastMax: nat)
    requires Config(size, pastMax) && Circle(c, Idents(ids, src), Limit(size, pastMax))
    ensures Going(ids, src, c, size, pastMax, [Start(ids, src, c, size, pastMax)], Turn(0, 0), FirstQueue(src, c)).Some?
  {
    Starts(ids, src, c, size, pastMax);
    StartTurn(ids, src, c, size, pastMax);
  }

  lemma LoggedMore(sent: seq<Tx>, src: u32, c: seq<u32>, n: nat, turn: Turn)
    requires Logged(sent, src, c, n) && turn.x < 2 && turn.i < |c|
    ensures Logged(sent + [Tx(turn.x, Identity(src, c[turn.i]))], src, c, n + 1)
  {
  }

  lemma StillGoing(ids: set<Identity>, src: u32, c: seq<u32>, size: nat, pastMax: nat,
                   run: seq<Net>, b: Net, turn: Turn, q: seq<Copy>)
    requires run != [] && run[0] == Start(ids, src, c, size, pastMax) && Running(src, run + [b]).Some?
    requires AtTurn(b, src, c, size, pastMax, turn, q) && Carries(b, q, Idle(ids)) && Logged(b.sent, src, c, |run|)
    ensures Going(ids, src, c, size, pastMax, run + [b], turn, q).Some?
  {
    assert (run + [b])[|run|] == b;
  }

  lemma GoesOneOn(ids: set<Identity>, src: u32, c: seq<u32>, size: nat, pastMax: nat,
                  run: seq<Net>, turn: Turn, q: seq<Copy>) returns (b: Net)
    requires Circle(c, Idents(ids, src), Limit(size, pastMax))
    requires Going(ids, src, c, size, pastMax, run, turn, q).Some?
    ensures q != [] && turn.i < |c|
    ensures Going(ids, src, c, size, pastMax, run + [b], NextTurn(turn, |c|), NextQueue(src, c, turn, q)).Some?
  {
    var a, s := run[|run| - 1], Idents(ids, src);
    HopNodes(src, c, s, a, size, pastMax, turn, q);
    HopNet(src, c, s, a, size, pastMax, turn, q, Idle(ids));
    b := NextNet(src, a, turn, q);
    Extends(src, run, q[0], b);
    LoggedMore(a.sent, src, c, |run| - 1, turn);
    StillGoing(ids, src, c, size, pastMax, run, b, NextTurn(turn, |c|), NextQueue(src, c, turn, q));
  }

  /** A run of any length. */
  lemma {:induction false} GoesOn(ids: set<Identity>, src: u32, c: seq<u32>, size: nat, pastMax: nat, k: nat)
      returns (run: seq<Net>, turn: Turn, q: seq<Copy>)
    requires Config(size, pastMax) && Circle(c, Idents(ids, src), Limit(size, pastMax))
    ensures Going(ids, src, c, size, pastMax, run, turn, q).Some? && |run| == k + 1
  {
    if k == 0 {
      GoesFirst(ids, src, c, size, pastMax);
      run, turn, q := [Start(ids, src, c, size, pastMax)], Turn(0, 0), FirstQueue(src, c);
    } else {
      run, turn, q := GoesOn(ids, src, c, size, pastMax, k - 1);
      var b := GoesOneOn(ids, src, c, size, pastMax, run, turn, q);
      run, turn, q := run + [b], NextTurn(turn, |c|), NextQueue(src, c, turn, q);
    }
  }

  /** Whatever identities do not get along: from two nodes that have heard nothing, with just
      these identities in flight, there is a run of any length, each step a transmission. */
  lemma FloodsWithoutEnd(ids: set<Identity>, src: u32, c: seq<u32>, size: nat, pastMax: nat, k: nat)
      returns (run: seq<Net>)
    requires Config(size, pastMax) && Circle(c, Idents(ids, src), Limit(size, pastMax))
    ensures IsRun(Pair(src), run) && |run| == k + 1 && run[0] == Start(ids, src, c, size, pastMax)
    ensures Fresh(run[0], size, pastMax) && IdsIn(run[0]) == ids && Logged(run[k].sent, src, c, k)
  {
    Starts(ids, src, c, size, pastMax);
    var turn, q;
    run, turn, q := GoesOn(ids, src, c, size, pastMax, k);
  }

  // ----- exactly when -----

  /** No node has transmitted an identity twice, no filtering node has passed one up twice. */
  ghost predicate OncePerNode(a: Net) {
    Distinct(a.sent) &&
    forall i, j | 0 <= i < j < |a.up| && a.up[i] == a.up[j] ::
      a.up[i].node < |a.nodes| && !a.nodes[a.up[i].node].filtering
  }

  /** So it is in every run of every network that starts with these identities in flight at
      nodes that have heard nothing. */
  ghost predicate AlwaysOnce(ids: set<Identity>, size: nat, pastMax: nat) {
    forall t, run | IsRun(t, run) && Fresh(run[0], size, pastMax) && IdsIn(run[0]) == ids ::
      OncePerNode(run[|run| - 1])
  }

  ghost predicate Bounded(t: Topology, a: Net, bound: nat) {
    forall run | IsRun(t, run) && run[0] == a :: |run| <= bound
  }

  /** From every such start there is a bound on how long a run can get. */
  ghost predicate AlwaysEnds(ids: set<Identity>, size: nat, pastMax: nat) {
    forall t, a | WellFormed(t, a) && Fresh(a, size, pastMax) && IdsIn(a) == ids ::
      exists bound: nat :: Bounded(t, a, bound)
  }

  /** Identities that do not get along have a source with a circle of identifiers. */
  lemma CircleOf(ids: set<Identity>, limit: nat) returns (src: u32, c: seq<u32>)
    requires 0 < limit < HALF_RANGE && !Compatible(ids, limit)
    ensures Circle(c, Idents(ids, src), limit)
  {
    src :| !Spans(Idents(ids, src), limit);
    c := NoArcCircle(Idents(ids, src), limit);
  }

  /** No node transmits an identity twice, in any network and any run, exactly if the
      identifiers of each source lie within the past. */
  lemma OnceIff(ids: set<Identity>, size: nat, pastMax: nat)
    requires Config(size, pastMax)
    ensures AlwaysOnce(ids, size, pastMax) <==> Compatible(ids, Limit(size, pastMax))
    ensures pastMax < HALF_RANGE ==> (AlwaysOnce(ids, size, pastMax) <==> Compatible(ids, pastMax))
    ensures pastMax == HALF_RANGE ==> (AlwaysOnce(ids, size, pastMax) <==> Compatible(ids, size))
  {
    if Compatible(ids, Limit(size, pastMax)) {
      forall t, run | IsRun(t, run) && Fresh(run[0], size, pastMax) && IdsIn(run[0]) == ids
        ensures OncePerNode(run[|run| - 1])
      {
        FreshIsOrderly(t, run[0], size, pastMax);
        NoIdentityTwice(t, run);
      }
    } else {
      var src, c := CircleOf(ids, Limit(size, pastMax));
      TwiceSoon(ids, src, c, size, pastMax);
    }
  }

  lemma LoggedWithin(sent: seq<Tx>, ids: set<Identity>, src: u32, c: seq<u32>, n: nat)
    requires Logged(sent, src, c, n) && Over(c, Idents(ids, src))
    ensures forall x | x in sent :: x in AllTx(Upto(2), ids)
  {
    forall x | x in sent
      ensures x.id in ids
    {
      assert x.id.ident in Idents(ids, src);
    }
  }

  /** Two nodes cannot send more often than there are identities for both without repeating
      themselves. */
  lemma TwiceSoon(ids: set<Identity>, src: u32, c: seq<u32>, size: nat, pastMax: nat)
    requires Config(size, pastMax) && Circle(c, Idents(ids, src), Limit(size, pastMax))
    ensures !AlwaysOnce(ids, size, pastMax)
  {
    var k := |AllTx(Upto(2), ids)| + 1;
    var run := FloodsWithoutEnd(ids, src, c, size, pastMax, k);
    if AlwaysOnce(ids, size, pastMax) {
      assert OncePerNode(run[|run| - 1]);
      LoggedWithin(run[k].sent, ids, src, c, k);
      DistinctWithin(run[k].sent, AllTx(Upto(2), ids));
    }
  }

  /** Flooding stops, in any network, exactly under the same condition. */
  lemma EndsIff(ids: set<Identity>, size: nat, pastMax: nat)
    requires Config(size, pastMax)
    ensures AlwaysEnds(ids, size, pastMax) <==> Compatible(ids, Limit(size, pastMax))
    ensures pastMax < HALF_RANGE ==> (AlwaysEnds(ids, size, pastMax) <==> Compatible(ids, pastMax))
    ensures pastMax == HALF_RANGE ==> (AlwaysEnds(ids, size, pastMax) <==> Compatible(ids, size))
  {
    if Compatible(ids, Limit(size, pastMax)) {
      forall t, a | WellFormed(t, a) && Fresh(a, size, pastMax) && IdsIn(a) == ids
        ensures exists bound: nat :: Bounded(t, a, bound)
      {
        FreshIsOrderly(t, a, size, pastMax);
        BoundedFrom(t, a);
      }
    } else {
      var src, c := CircleOf(ids, Limit(size, pastMax));
      Unbounded(ids, src, c, size, pastMax);
    }
  }

  lemma BoundedFrom(t: Topology, a: Net)
    requires WellFormed(t, a) && Orderly(a)
    ensures exists bound: nat :: Bounded(t, a, bound)
  {
    var bound: nat := 1 + |a.flight| + t.Size() * |IdsIn(a)| * t.Size();
    forall run | IsRun(t, run) && run[0] == a
      ensures |run| <= bound
    {
      RunsAreFinite(t, run);
    }
    assert Bounded(t, a, bound);
  }

  lemma Unbounded(ids: set<Identity>, src: u32, c: seq<u32>, size: nat, pastMax: nat)
    requires Config(size, pastMax) && Circle(c, Idents(ids, src), Limit(size, pastMax))
    ensures !AlwaysEnds(ids, size, pastMax)
  {
    var a := Start(ids, src, c, size, pastMax);
    Starts(ids, src, c, size, pastMax);
    if bound: nat :| Bounded(Pair(src), a, bound) {
      var run := FloodsWithoutEnd(ids, src, c, size, pastMax, bound);
    }
  }
}
