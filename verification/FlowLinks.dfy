/**
  Doubly linked flows and chains of them: what it takes for links to form a chain, what
  removing one flow leaves, and the order of the update times.
*/
module FlowLinks {
  import opened Basics

  // ----- sequences -----

  ghost function IndexIn<T>(s: seq<T>, x: T): (k: nat)
    requires x in s
    ensures k < |s| && s[k] == x
  {
    var k: nat :| k < |s| && s[k] == x;
    k
  }

  ghost function Without<T>(s: seq<T>, x: T): seq<T> {
    if x in s then s[..IndexIn(s, x)] + s[IndexIn(s, x) + 1..] else s
  }

  lemma WithoutAt<T>(s: seq<T>, k: nat)
    requires k < |s| && Distinct(s)
    ensures Without(s, s[k]) == s[..k] + s[k + 1..]
  {
    assert s[k] in s && IndexIn(s, s[k]) == k;
  }

  /** The sequence without its element `k`, by index. */
  lemma WithoutEach<T>(s: seq<T>, k: nat)
    requires k < |s| && Distinct(s)
    ensures var t := Without(s, s[k]);
            |t| == |s| - 1 && forall i | 0 <= i < |t| :: t[i] == s[if i < k then i else i + 1]
  {
    WithoutAt(s, k);
  }

  lemma WithoutHead<T>(s: seq<T>)
    requires s != [] && Distinct(s)
    ensures Without(s, s[0]) == s[1..]
  {
    WithoutAt(s, 0);
    assert s[..0] + s[1..] == s[1..];
  }

  // ----- links -----

  /** A flow as the lists see it.  Its other fields are kept by the owner under its key. */
  class Flow {
    const key: int
    var prev: Flow?
    var next: Flow?

    constructor (key: int)
      ensures this.key == key && Detached()
    {
      this.key := key;
      prev, next := null, null;
    }

    predicate Detached() reads this { prev == null && next == null }
  }

  ghost function Only(f: Flow?): set<Flow> { if f == null then {} else {f} }

  ghost predicate Backward(s: seq<Flow>)
    reads s`prev
  {
    (s != [] ==> s[0].prev == null) &&
    forall i {:trigger s[i].prev} | 1 <= i < |s| :: s[i].prev == s[i - 1]
  }

  ghost predicate Forward(s: seq<Flow>)
    reads s`next
  {
    (s != [] ==> s[|s| - 1].next == null) &&
    forall i {:trigger s[i].next} | 0 <= i < |s| - 1 :: s[i].next == s[i + 1]
  }

  /** `s` is a chain but for `s[k]`, whose neighbours are linked to each other. */
  ghost predicate Bridged(s: seq<Flow>, k: nat)
    requires k < |s|
    reads s
  {
    (k > 0 ==> s[0].prev == null) && (k < |s| - 1 ==> s[|s| - 1].next == null) &&
    (forall i {:trigger s[i].prev} | 1 <= i < |s| && i != k && i != k + 1 :: s[i].prev == s[i - 1]) &&
    (forall i {:trigger s[i].next} | 0 <= i < |s| - 1 && i != k && i != k - 1 :: s[i].next == s[i + 1]) &&
    (k < |s| - 1 ==> s[k + 1].prev == if k == 0 then null else s[k - 1]) &&
    (k > 0 ==> s[k - 1].next == if k == |s| - 1 then null else s[k + 1])
  }

  lemma BridgedBackward(s: seq<Flow>, k: nat)
    requires k < |s| && Bridged(s, k) && Distinct(s)
    ensures Backward(Without(s, s[k]))
  {
    WithoutAt(s, k);
    var t := s[..k] + s[k + 1..];
    forall i | 1 <= i < |t|
      ensures t[i].prev == t[i - 1]
    {
      if i < k {
        assert t[i] == s[i] && t[i - 1] == s[i - 1];
      } else {
        assert t[i] == s[i + 1] && t[i - 1] == s[if i == k then k - 1 else i];
      }
    }
  }

  lemma BridgedForward(s: seq<Flow>, k: nat)
    requires k < |s| && Bridged(s, k) && Distinct(s)
    ensures Forward(Without(s, s[k]))
  {
    WithoutAt(s, k);
    var t := s[..k] + s[k + 1..];
    forall i | 0 <= i < |t| - 1
      ensures t[i].next == t[i + 1]
    {
      if i < k {
        assert t[i] == s[i] && t[i + 1] == s[if i == k - 1 then k + 1 else i + 1];
      } else {
        assert t[i] == s[i + 1] && t[i + 1] == s[i + 2];
      }
    }
  }

  lemma RestOf(s: seq<Flow>, k: nat)
    requires k < |s| && Distinct(s)
    ensures var t := Without(s, s[k]);
            && |t| == |s| - 1
            && (t != [] ==> t[0] == (if k > 0 then s[0] else s[1]) &&
                            t[|t| - 1] == (if k < |s| - 1 then s[|s| - 1] else s[|s| - 2]))
  {
    WithoutAt(s, k);
    var t := s[..k] + s[k + 1..];
    assert t[..k] == s[..k] && t[k..] == s[k + 1..];
  }

  lemma RestDistinct(s: seq<Flow>, k: nat)
    requires k < |s| && Distinct(s)
    ensures Distinct(Without(s, s[k]))
  {
    WithoutEach(s, k);
  }

  lemma RestMembers(s: seq<Flow>, k: nat)
    requires k < |s| && Distinct(s)
    ensures var t := Without(s, s[k]);
            && (forall i | 0 <= i < |t| :: t[i] in s && t[i] != s[k])
            && (forall i | 0 <= i < |s| && i != k :: s[i] in t)
  {
    WithoutEach(s, k);
    var t := Without(s, s[k]);
    forall i | 0 <= i < |s| && i != k
      ensures s[i] in t
    {
      assert t[if i < k then i else i - 1] == s[i];
    }
  }

  /** Bridging over `s[k]` leaves a chain of the others. */
  lemma BridgedChain(s: seq<Flow>, k: nat)
    requires k < |s| && Bridged(s, k) && Distinct(s)
    ensures var t := Without(s, s[k]);
            && |t| == |s| - 1 && Distinct(t) && Backward(t) && Forward(t)
            && (t != [] ==> t[0] == (if k > 0 then s[0] else s[1]) &&
                            t[|t| - 1] == (if k < |s| - 1 then s[|s| - 1] else s[|s| - 2]))
            && forall i | 0 <= i < |t| :: t[i] in s && t[i] != s[k]
  {
    RestOf(s, k);
    RestDistinct(s, k);
    RestMembers(s, k);
    BridgedBackward(s, k);
    BridgedForward(s, k);
  }

  // ----- order -----

  /** The unwrapped times at which the flows were last updated, by key. */
  type Times = map<int, nat>

  function TimeOf(times: Times, f: Flow): nat { if f.key in times then times[f.key] else 0 }

  /** Freshest first. */
  ghost predicate Freshest(s: seq<Flow>, times: Times) {
    forall i, j | 0 <= i < j < |s| :: TimeOf(times, s[i]) >= TimeOf(times, s[j])
  }

  lemma WithoutMembers(s: seq<Flow>, x: Flow)
    requires Distinct(s) && x in s
    ensures var t := Without(s, x);
            && |t| == |s| - 1 && Distinct(t)
            && (forall i | 0 <= i < |t| :: t[i] in s && t[i] != x)
            && (forall i | 0 <= i < |s| && s[i] != x :: s[i] in t)
  {
    var k: nat :| k < |s| && s[k] == x;
    RestOf(s, k);
    RestDistinct(s, k);
    RestMembers(s, k);
  }

  lemma FreshestWithout(s: seq<Flow>, x: Flow, times: Times)
    requires Distinct(s) && x in s && Freshest(s, times)
    ensures Freshest(Without(s, x), times)
  {
    var k: nat :| k < |s| && s[k] == x;
    WithoutEach(s, k);
  }
}
