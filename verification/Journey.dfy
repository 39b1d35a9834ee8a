/**
  One datagram on its way through any number of routers: at each hop a fragment has the
  outgoing interface recorded and is fragmented again for whatever MTU that interface has.

  The pieces in flight are listed by offset; any of them may be the next to move, so the
  listing order says nothing about the order in which they travel or arrive.
*/
module Journey {
  import opened Basics
  import opened Kernel
  import opened Fragmentation

  /** The record-route option at one hop: a fragment records on the datagram it carries,
      a fragment that carries none records nothing. */
  function RecordHop(d: Pkt, addr: int): Pkt {
    if !d.recordRoute then d
    else if d.frag then
      match d.carried
      case Some(o) => d.(carried := Some(o.(route := o.route + [addr])))
      case None => d
    else d.(route := d.route + [addr])
  }

  /** `trail` logs the interfaces crossed by the piece covering the last byte, `cuts` counts
      how often a piece had to be fragmented. */
  datatype State = State(pieces: seq<Pkt>, trail: seq<int>, cuts: nat)

  ghost predicate Hop(a: State, b: State, i: nat, addr: int, mtu: int, comp: int) {
    i < |a.pieces| && Divisible(RecordHop(a.pieces[i], addr), mtu, comp) &&
    b == State(a.pieces[..i] + Frags(RecordHop(a.pieces[i], addr), mtu, comp) + a.pieces[i + 1..],
               if i == |a.pieces| - 1 then a.trail + [addr] else a.trail,
               a.cuts + if Fits(RecordHop(a.pieces[i], addr), mtu, comp) then 0 else 1)
  }

  ghost predicate Step(a: State, b: State) {
    exists i: nat, addr, mtu, comp :: Hop(a, b, i, addr, mtu, comp)
  }

  ghost predicate IsRun(run: seq<State>) {
    |run| > 0 && forall i | 0 <= i < |run| - 1 :: Step(run[i], run[i + 1])
  }

  /** A whole datagram as IP accepts it: payload, not a fragment, carrying none. */
  predicate Whole(d: Pkt) { d.fragLen > 0 && !d.frag && d.carried.None? }

  // ----- what every run keeps -----

  lemma {:induction false} ChainJoin(s: seq<Pkt>, t: seq<Pkt>, lo: int, mid: int, hi: int)
    requires Chain(s, lo, mid) && Chain(t, mid, hi)
    ensures Chain(s + t, lo, hi)
  {
    if s == [] {
      assert s + t == t;
    } else {
      ChainJoin(s[1..], t, lo + s[0].fragLen, mid, hi);
      assert (s + t)[1..] == s[1..] + t;
    }
  }

  lemma {:induction false} ChainCut(s: seq<Pkt>, i: nat, lo: int, hi: int)
    requires Chain(s, lo, hi) && i < |s|
    ensures Chain(s[..i], lo, s[i].offset) && s[i].fragLen > 0
    ensures Chain(s[i + 1..], s[i].offset + s[i].fragLen, hi)
  {
    if i > 0 {
      ChainCut(s[1..], i - 1, lo + s[0].fragLen, hi);
      assert s[..i][1..] == s[1..][..i - 1];
      assert s[i + 1..] == s[1..][i..];
    }
  }

  /** Only the last piece has a passenger, and it is the original with the trail recorded;
      an unfragmented datagram is itself the original. */
  ghost predicate Riding(d: Pkt, a: State) {
    var n := |a.pieces|;
    n > 0 &&
    (if !a.pieces[0].frag
     then n == 1 && a.pieces[0] == WithTrail(d, a.trail)
     else (forall i | 0 <= i < n :: a.pieces[i].frag && a.pieces[i].data.None? &&
                                    a.pieces[i].recordRoute == d.recordRoute) &&
          (forall i | 0 <= i < n - 1 :: a.pieces[i].carried.None?) &&
          a.pieces[n - 1].carried == Some(WithTrail(d, a.trail)))
  }

  function WithTrail(d: Pkt, trail: seq<int>): Pkt {
    if d.recordRoute then d.(route := d.route + trail) else d
  }

  lemma TrailGrows(d: Pkt, trail: seq<int>, addr: int)
    ensures RecordHop(WithTrail(d.(frag := false), trail), addr) == WithTrail(d.(frag := false), trail + [addr])
  {
    assert d.route + trail + [addr] == d.route + (trail + [addr]);
  }

  /** The pieces made of one packet: bare fragments, the passenger in the last. */
  lemma PiecesRiding(d: Pkt, mtu: int, comp: int, i: nat)
    requires Divisible(d, mtu, comp) && !Fits(d, mtu, comp) && i < |Frags(d, mtu, comp)|
    ensures var p := Frags(d, mtu, comp)[i];
            p.frag && p.data.None? && p.recordRoute == d.recordRoute &&
            p.carried == if i == |Frags(d, mtu, comp)| - 1 then Passenger(d) else None
  {
    NumFragsBounds(d, mtu);
  }

  lemma Spliced(s: seq<Pkt>, i: nat, f: seq<Pkt>, j: nat)
    requires i < |s| && j < |s| - 1 + |f|
    ensures (s[..i] + f + s[i + 1..])[j]
         == if j < i then s[j] else if j < i + |f| then f[j - i] else s[j - |f| + 1]
  {
  }

  /** Cutting the piece `i`, whose passenger is `o`, leaves only the last piece with one. */
  lemma CutRiding(d: Pkt, a: State, b: State, i: nat, x: Pkt, mtu: int, comp: int)
    requires Riding(d, a) && i < |a.pieces| && Divisible(x, mtu, comp) && !Fits(x, mtu, comp)
    requires b.pieces == a.pieces[..i] + Frags(x, mtu, comp) + a.pieces[i + 1..]
    requires x.recordRoute == d.recordRoute
    requires Passenger(x) == if i == |a.pieces| - 1 then Some(WithTrail(d, b.trail)) else None
    requires i < |a.pieces| - 1 ==> b.trail == a.trail
    ensures Riding(d, b)
  {
    FragsChain(x, mtu, comp);
    var f := Frags(x, mtu, comp);
    forall j | 0 <= j < |b.pieces|
      ensures b.pieces[j].frag && b.pieces[j].data.None? && b.pieces[j].recordRoute == d.recordRoute
      ensures b.pieces[j].carried == if j == |b.pieces| - 1 then Some(WithTrail(d, b.trail)) else None
    {
      Spliced(a.pieces, i, f, j);
      if i <= j < i + |f| {
        PiecesRiding(x, mtu, comp, j - i);
      }
    }
  }

  lemma FitRiding(d: Pkt, a: State, b: State, i: nat, x: Pkt)
    requires Riding(d, a) && i < |a.pieces| && b.pieces == a.pieces[i := x]
    requires x.frag == a.pieces[i].frag && x.data == a.pieces[i].data && x.recordRoute == a.pieces[i].recordRoute
    requires if i < |a.pieces| - 1 then b.trail == a.trail && x == a.pieces[i]
             else if x.frag then x.carried == Some(WithTrail(d, b.trail)) else x == WithTrail(d, b.trail)
    ensures Riding(d, b)
  {
  }

  lemma RecordedPassenger(d: Pkt, a: State, i: nat, addr: int)
    requires Whole(d) && Riding(d, a) && i < |a.pieces|
    ensures var x := RecordHop(a.pieces[i], addr);
            var trail := if i == |a.pieces| - 1 then a.trail + [addr] else a.trail;
            && x.frag == a.pieces[i].frag && x.data == a.pieces[i].data
            && x.recordRoute == d.recordRoute == a.pieces[i].recordRoute
            && Passenger(x) == (if i == |a.pieces| - 1 then Some(WithTrail(d, trail)) else None)
            && (i < |a.pieces| - 1 ==> x == a.pieces[i])
            && (!x.frag ==> x == WithTrail(d, trail))
  {
    TrailGrows(d, a.trail, addr);
    assert d.(frag := false) == d;
    assert WithTrail(d, a.trail + [addr]).(carried := None) == WithTrail(d, a.trail + [addr]);
  }

  lemma RidingStep(d: Pkt, a: State, b: State, i: nat, addr: int, mtu: int, comp: int)
    requires Whole(d) && Riding(d, a) && Hop(a, b, i, addr, mtu, comp)
    ensures Riding(d, b)
  {
    RecordedPassenger(d, a, i, addr);
    var x := RecordHop(a.pieces[i], addr);
    if Fits(x, mtu, comp) {
      assert b.pieces == a.pieces[i := x];
      FitRiding(d, a, b, i, x);
    } else {
      CutRiding(d, a, b, i, x, mtu, comp);
    }
  }

  lemma ChainStep(a: State, b: State, i: nat, addr: int, mtu: int, comp: int, lo: int, hi: int)
    requires Chain(a.pieces, lo, hi) && Hop(a, b, i, addr, mtu, comp)
    ensures Chain(b.pieces, lo, hi)
  {
    ChainCut(a.pieces, i, lo, hi);
    var x := RecordHop(a.pieces[i], addr);
    FragsChain(x, mtu, comp);
    var f := Frags(x, mtu, comp);
    ChainJoin(a.pieces[..i], f, lo, x.offset, x.offset + x.fragLen);
    ChainJoin(a.pieces[..i] + f, a.pieces[i + 1..], lo, x.offset + x.fragLen, hi);
  }

  ghost predicate Starts(d: Pkt, run: seq<State>) {
    IsRun(run) && Whole(d) && run[0] == State([d], [], 0)
  }

  lemma {:induction false} JourneyInvariant(d: Pkt, run: seq<State>)
    requires Starts(d, run)
    ensures var a := run[|run| - 1];
            Chain(a.pieces, d.offset, d.offset + d.fragLen) && Riding(d, a)
  {
    if |run| == 1 {
      assert [d][1..] == [];
      assert d.route + [] == d.route;
      assert WithTrail(d, []) == d;
    } else {
      JourneyInvariant(d, run[..|run| - 1]);
      var a, b := run[|run| - 2], run[|run| - 1];
      var i: nat, addr, mtu, comp :| Hop(a, b, i, addr, mtu, comp);
      ChainStep(a, b, i, addr, mtu, comp, d.offset, d.offset + d.fragLen);
      RidingStep(d, a, b, i, addr, mtu, comp);
    }
  }

  // ----- the main results -----

  predicate Covers(p: Pkt, b: int) { p.offset <= b < p.offset + p.fragLen }

  lemma {:induction false} ChainCoversOnce(s: seq<Pkt>, lo: int, hi: int, b: int)
    requires Chain(s, lo, hi)
    ensures (exists i | 0 <= i < |s| :: Covers(s[i], b)) <==> lo <= b < hi
    ensures forall i, j | 0 <= i < j < |s| :: !(Covers(s[i], b) && Covers(s[j], b))
    ensures lo <= hi
  {
    if s != [] {
      var rest := s[1..];
      ChainCoversOnce(rest, lo + s[0].fragLen, hi, b);
      assert forall i | 1 <= i < |s| :: s[i] == rest[i - 1];
      if lo <= b < lo + s[0].fragLen {
        assert Covers(s[0], b);
      } else if i :| 0 <= i < |rest| && Covers(rest[i], b) {
        assert Covers(s[i + 1], b);
      }
    }
  }

  /** However often the fragments are fragmented again, every byte of the original payload
      lies in exactly one of them, no other byte in any, and none is empty. */
  lemma FragmentsPartition(d: Pkt, run: seq<State>, b: int)
    requires Starts(d, run)
    ensures var s := run[|run| - 1].pieces;
            && ((exists i | 0 <= i < |s| :: Covers(s[i], b)) <==> d.offset <= b < d.offset + d.fragLen)
            && (forall i, j | 0 <= i < j < |s| :: !(Covers(s[i], b) && Covers(s[j], b)))
            && (forall i | 0 <= i < |s| :: s[i].fragLen > 0)
  {
    JourneyInvariant(d, run);
    var s := run[|run| - 1].pieces;
    ChainCoversOnce(s, d.offset, d.offset + d.fragLen, b);
    forall i | 0 <= i < |s|
      ensures s[i].fragLen > 0
    {
      ChainCut(s, i, d.offset, d.offset + d.fragLen);
    }
  }

  /** Exactly one fragment carries a datagram: the one covering the last byte.  It is the
      original, data and all, with one route entry for each hop this carrier made, in
      order; no fragment has the data field itself. */
  lemma UniqueCarrier(d: Pkt, run: seq<State>, i: nat)
    requires Starts(d, run) && i < |run[|run| - 1].pieces| && run[|run| - 1].pieces[i].frag
    ensures var a := run[|run| - 1];
            var p := a.pieces[i];
            && p.data.None?
            && (p.carried.Some? <==> Covers(p, d.offset + d.fragLen - 1))
            && (p.carried.Some? ==> p.carried.value == WithTrail(d, a.trail))
            && a.pieces[|a.pieces| - 1].carried.Some?
  {
    JourneyInvariant(d, run);
    var s, hi := run[|run| - 1].pieces, d.offset + d.fragLen;
    ChainCoversOnce(s, d.offset, hi, hi - 1);
    ChainCut(s, |s| - 1, d.offset, hi);
    assert Covers(s[|s| - 1], hi - 1);
  }

  /** A datagram that was never cut still records every hop itself. */
  lemma UncutRecordsRoute(d: Pkt, run: seq<State>, i: nat)
    requires Starts(d, run) && i < |run[|run| - 1].pieces| && !run[|run| - 1].pieces[i].frag
    ensures run[|run| - 1].pieces == [WithTrail(d, run[|run| - 1].trail)]
  {
    JourneyInvariant(d, run);
  }

  /** The bytes a fragment stands for. */
  function Bytes(p: Pkt, base: int, payload: seq<int>): seq<int> {
    if 0 <= p.offset - base <= p.offset - base + p.fragLen <= |payload|
    then payload[p.offset - base..p.offset - base + p.fragLen]
    else []
  }

  function Concatenated(s: seq<Pkt>, base: int, payload: seq<int>): seq<int> {
    if s == [] then [] else Bytes(s[0], base, payload) + Concatenated(s[1..], base, payload)
  }

  lemma {:induction false} ChainReassembles(s: seq<Pkt>, lo: int, base: int, payload: seq<int>)
    requires Chain(s, lo, base + |payload|) && base <= lo <= base + |payload|
    ensures Concatenated(s, base, payload) == payload[lo - base..]
  {
    if s != [] {
      var mid := lo + s[0].fragLen;
      ChainCoversOnce(s[1..], mid, base + |payload|, 0);
      ChainReassembles(s[1..], mid, base, payload);
      SplitTail(payload, lo - base, mid - base);
    }
  }

  lemma SplitTail(payload: seq<int>, i: nat, j: nat)
    requires i <= j <= |payload|
    ensures payload[i..] == payload[i..j] + payload[j..]
  {
  }

  /** Put together in offset order, the fragments of any run are the original payload. */
  lemma ReassemblyRestoresPayload(d: Pkt, run: seq<State>, payload: seq<int>)
    requires Starts(d, run) && |payload| == d.fragLen
    ensures Concatenated(run[|run| - 1].pieces, d.offset, payload) == payload
  {
    JourneyInvariant(d, run);
    ChainReassembles(run[|run| - 1].pieces, d.offset, d.offset, payload);
  }

  // ----- uncompressed sizes over a whole journey -----

  ghost predicate Uniform(s: seq<Pkt>, v6: bool) {
    forall i | 0 <= i < |s| :: s[i].compression.PerVirtualCircuit? && s[i].v6 == v6
  }

  /** The load that goes missing with each cut: that of the fragment header of IPv6. */
  function LostPerCut(v6: bool): nat { if v6 then 8 * FRAG_HEADER_V6 else 0 }

  /** Replacing the piece `i` by others. */
  lemma LoadsSpliced(s: seq<Pkt>, i: nat, f: seq<Pkt>)
    requires i < |s|
    ensures Loads(s[..i] + f + s[i + 1..]) == Loads(s) - Load(s[i]) + Loads(f)
  {
    var before, after := s[..i], s[i + 1..];
    LoadsJoin(before + f, after);
    LoadsJoin(before, f);
    LoadsJoin(before, s[i..]);
    assert before + s[i..] == s;
    assert s[i..][1..] == after;
  }

  lemma LoadStep(a: State, b: State, v6: bool, i: nat, addr: int, mtu: int, comp: int)
    requires Hop(a, b, i, addr, mtu, comp) && Uniform(a.pieces, v6)
    ensures Loads(b.pieces) == Loads(a.pieces) - if b.cuts == a.cuts then 0 else LostPerCut(v6)
    ensures Uniform(b.pieces, v6)
    ensures b.cuts == a.cuts || b.cuts == a.cuts + 1
  {
    var x := RecordHop(a.pieces[i], addr);
    LoadsOfFrags(x, mtu, comp);
    LoadsSpliced(a.pieces, i, Frags(x, mtu, comp));
    assert Load(x) == Load(a.pieces[i]);
  }

  /** Under per-circuit compression a journey neither gains nor loses load, but for the
      fragment header of IPv6, which each cut takes from it once. */
  lemma {:induction false} JourneyConservesLoad(d: Pkt, run: seq<State>)
    requires Starts(d, run) && d.compression.PerVirtualCircuit?
    ensures Loads(run[|run| - 1].pieces) == Load(d) - run[|run| - 1].cuts * LostPerCut(d.v6)
    ensures Uniform(run[|run| - 1].pieces, d.v6)
  {
    if |run| == 1 {
      assert Loads([d]) == Load(d) + Loads([d][1..]);
    } else {
      JourneyConservesLoad(d, run[..|run| - 1]);
      var a, b := run[|run| - 2], run[|run| - 1];
      var i: nat, addr, mtu, comp :| Hop(a, b, i, addr, mtu, comp);
      LoadStep(a, b, d.v6, i, addr, mtu, comp);
      OneMore(a.cuts, LostPerCut(d.v6));
    }
  }

  lemma LoadsOfFrags(x: Pkt, mtu: int, comp: int)
    requires Divisible(x, mtu, comp) && x.compression.PerVirtualCircuit?
    ensures Loads(Frags(x, mtu, comp)) == Load(x) - if Fits(x, mtu, comp) then 0 else LostPerCut(x.v6)
    ensures Uniform(Frags(x, mtu, comp), x.v6)
  {
    if Fits(x, mtu, comp) {
      assert Loads([x]) == Load(x) + Loads([x][1..]);
    } else {
      LoadsConserved(x, mtu, comp);
    }
  }

  lemma {:induction false} LoadsJoin(s: seq<Pkt>, t: seq<Pkt>)
    ensures Loads(s + t) == Loads(s) + Loads(t)
  {
    if s == [] {
      assert s + t == t;
    } else {
      LoadsJoin(s[1..], t);
      assert (s + t)[1..] == s[1..] + t;
    }
  }

  // ----- loads that stay non-negative -----

  ghost predicate NoneOwing(s: seq<Pkt>) { forall i | 0 <= i < |s| :: Load(s[i]) >= 0 }

  ghost predicate Headed(s: seq<Pkt>) { forall i | 0 <= i < |s| :: HeaderOf(s[i]) >= 0 }

  /** A piece that is cut has at least the load the cut takes. */
  ghost predicate CutAffordable(a: State, b: State, v6: bool) {
    forall i: nat, addr, mtu, comp | Hop(a, b, i, addr, mtu, comp) ::
      b.cuts == a.cuts || Load(a.pieces[i]) >= LostPerCut(v6)
  }

  lemma FragsOwing(x: Pkt, mtu: int, comp: int)
    requires Divisible(x, mtu, comp) && x.compression.PerVirtualCircuit? && HeaderOf(x) >= 0 && Load(x) >= 0
    ensures Headed(Frags(x, mtu, comp))
    ensures NoneOwing(Frags(x, mtu, comp)) <==> Fits(x, mtu, comp) || Load(x) >= LostPerCut(x.v6)
  {
    if !Fits(x, mtu, comp) {
      LoadsNonNegativeIff(x, mtu, comp);
      forall i | 0 <= i < |Frags(x, mtu, comp)|
        ensures HeaderOf(Frags(x, mtu, comp)[i]) >= 0
      {
        EightTimes(mtu);
        EightTimes(HeaderSize(x) + x.fragLen - i * Room(x, mtu));
      }
    }
  }

  lemma HopOwing(a: State, b: State, v6: bool, i: nat, addr: int, mtu: int, comp: int)
    requires Hop(a, b, i, addr, mtu, comp) && Uniform(a.pieces, v6) && Headed(a.pieces) && NoneOwing(a.pieces)
    ensures Headed(b.pieces)
    ensures NoneOwing(b.pieces) <==> b.cuts == a.cuts || Load(a.pieces[i]) >= LostPerCut(v6)
  {
    var x := RecordHop(a.pieces[i], addr);
    var f := Frags(x, mtu, comp);
    FragsOwing(x, mtu, comp);
    forall j | 0 <= j < |b.pieces|
      ensures HeaderOf(b.pieces[j]) >= 0
      ensures !(i <= j < i + |f|) ==> Load(b.pieces[j]) >= 0
      ensures i <= j < i + |f| ==> b.pieces[j] == f[j - i]
    {
      Spliced(a.pieces, i, f, j);
    }
    forall k | 0 <= k < |f|
      ensures b.pieces[i + k] == f[k]
    {
      Spliced(a.pieces, i, f, i + k);
    }
  }

  lemma StepOwing(a: State, b: State, v6: bool)
    requires Step(a, b) && Uniform(a.pieces, v6) && Headed(a.pieces) && NoneOwing(a.pieces)
    ensures Headed(b.pieces)
    ensures NoneOwing(b.pieces) <==> CutAffordable(a, b, v6)
  {
    forall i: nat, addr, mtu, comp | Hop(a, b, i, addr, mtu, comp)
      ensures Headed(b.pieces)
      ensures NoneOwing(b.pieces) <==> b.cuts == a.cuts || Load(a.pieces[i]) >= LostPerCut(v6)
    {
      HopOwing(a, b, v6, i, addr, mtu, comp);
    }
  }

  ghost predicate NeverOwing(run: seq<State>) { forall k | 0 <= k < |run| :: NoneOwing(run[k].pieces) }

  ghost predicate CutsAffordable(run: seq<State>, v6: bool) {
    forall k | 0 <= k < |run| - 1 :: CutAffordable(run[k], run[k + 1], v6)
  }

  /** One more state. */
  lemma OneMoreState(before: seq<State>, b: State, v6: bool)
    requires |before| > 0
    ensures var a := before[|before| - 1];
            && (NeverOwing(before + [b]) <==> NeverOwing(before) && NoneOwing(b.pieces))
            && (CutsAffordable(before + [b], v6) <==> CutsAffordable(before, v6) && CutAffordable(a, b, v6))
  {
    var run := before + [b];
    assert run[|before|] == b && forall k | 0 <= k < |before| :: run[k] == before[k];
  }

  lemma RunOwing(before: seq<State>, b: State, v6: bool)
    requires |before| > 0 && Step(before[|before| - 1], b) && Uniform(before[|before| - 1].pieces, v6)
    requires NeverOwing(before) ==> Headed(before[|before| - 1].pieces)
    ensures NeverOwing(before + [b]) <==> NeverOwing(before) && CutAffordable(before[|before| - 1], b, v6)
    ensures NeverOwing(before + [b]) ==> Headed(b.pieces)
  {
    OneMoreState(before, b, v6);
    if NeverOwing(before) {
      StepOwing(before[|before| - 1], b, v6);
    }
  }

  lemma StartOwing(d: Pkt, a: State, v6: bool)
    requires a == State([d], [], 0)
    ensures NeverOwing([a]) <==> Load(d) >= 0
    ensures HeaderOf(d) >= 0 ==> Headed(a.pieces)
    ensures CutsAffordable([a], v6)
  {
    assert [a][0] == a;
    assert NoneOwing(a.pieces) <==> Load(a.pieces[0]) >= 0;
  }

  /** Under per-circuit compression no piece ever has a negative load exactly if the datagram
      has none and every piece that is cut can spare what the cut takes. */
  lemma {:induction false} JourneyLoadsIff(d: Pkt, run: seq<State>)
    requires Starts(d, run) && d.compression.PerVirtualCircuit? && HeaderOf(d) >= 0
    ensures NeverOwing(run) <==> Load(d) >= 0 && CutsAffordable(run, d.v6)
    ensures NeverOwing(run) ==> Headed(run[|run| - 1].pieces)
  {
    if |run| == 1 {
      StartOwing(d, run[0], d.v6);
      assert run == [run[0]];
    } else {
      var before, b := run[..|run| - 1], run[|run| - 1];
      assert run == before + [b];
      JourneyLoadsIff(d, before);
      JourneyConservesLoad(d, before);
      RunOwing(before, b, d.v6);
      OneMoreState(before, b, d.v6);
    }
  }

  /** With IPv4 a cut takes nothing, so no load ever turns negative. */
  lemma {:induction false} JourneyLoadsV4(d: Pkt, run: seq<State>)
    requires Starts(d, run) && d.compression.PerVirtualCircuit? && HeaderOf(d) >= 0 && !d.v6
    ensures NeverOwing(run) <==> Load(d) >= 0
  {
    JourneyLoadsIff(d, run);
    if |run| > 1 && Load(d) >= 0 {
      var before, b := run[..|run| - 1], run[|run| - 1];
      assert run == before + [b];
      JourneyLoadsV4(d, before);
      assert NoneOwing(before[|before| - 1].pieces);
      OneMoreState(before, b, false);
      JourneyLoadsIff(d, before);
    }
  }
}
