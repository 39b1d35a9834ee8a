/**
  The sliding window that decides whether a sequence number is a duplicate, and for which
  sets of numbers its decisions are right whatever order they come in.

  Numbers are 32 bits wide and compared around the circle.  The window remembers the numbers
  seen that are less than its size behind the last one; a number further behind is refused,
  unless it is so far behind that the window starts over from it.
*/
module SlidingWindow {
  import opened Basics

  /** Contract of the sliding bit mask: the numbers set, and the foremost of them. */
  datatype Mask = Mask(bits: set<u32>, last: u32)
  {
    predicate IsSet() { bits != {} }

    function Clear(): Mask { Mask({}, last) }

    /** Setting a number ahead of the foremost one moves the front there. */
    function Set(seq_: u32): Mask {
      Mask(bits + {seq_}, if IsSet() && Signed32(Minus(seq_, last)) <= 0 then last else seq_)
    }

    function UnsetBits(first: u32, count: nat): Mask {
      Mask((set b | b in bits && Minus(b, first) >= count), last)
    }
  }

  const EMPTY := Mask({}, 0)

  /** As initialisation checks it; a window of half the range has no signed size. */
  predicate Config(size: nat, pastMax: nat) {
    0 < size <= pastMax <= HALF_RANGE && size < HALF_RANGE
  }

  /** From how far behind a number restarts the window.  Half the range reads as a negative
      number in the signed comparison, so then nothing is refused for being old. */
  function Limit(size: nat, pastMax: nat): nat {
    if pastMax < HALF_RANGE then pastMax else size
  }

  /** The foremost number is set, and the others are less than `size` behind it. */
  ghost predicate ValidMask(m: Mask, size: nat) {
    m.IsSet() ==> m.last in m.bits && forall b | b in m.bits :: Minus(m.last, b) < size
  }

  // ----- the decision -----

  /** A number counts as new if it is the first, ahead, inside the window but not seen, or
      far enough behind to restart the window. */
  predicate Accepts(m: Mask, size: nat, limit: nat, seq_: u32) {
    m.IsSet() ==>
      var delta := Signed32(Minus(seq_, m.last));
      delta > 0 || (-delta < size && seq_ !in m.bits) || -delta >= limit
  }

  /** The mask after a number was looked at. */
  function After(m: Mask, size: nat, limit: nat, seq_: u32): Mask {
    var delta := Signed32(Minus(seq_, m.last));
    if !Accepts(m, size, limit, seq_) then m
    else if !m.IsSet() || delta >= size || (delta < 0 && -delta >= size) then Mask({seq_}, seq_)
    else if delta > 0 then
      Mask((set b | b in m.bits && Minus(m.last, b) < size - delta) + {seq_}, seq_)
    else Mask(m.bits + {seq_}, m.last)
  }

  /** The rule, by how far the number lies ahead of the front or behind it: ahead is less than
      half the circle.  What is behind but inside the window is refused if it was seen; what is
      further behind is refused up to the past maximum, and from there on restarts the window.
      A past maximum of half the range refuses nothing for its age. */
  ghost predicate WindowRule(m: Mask, size: nat, pastMax: nat, x: u32, dup: bool, after: Mask) {
    var ahead, behind := Minus(x, m.last), Minus(m.last, x);
    if m.bits == {} then !dup && after == Mask({x}, x)
    else if behind == 0 then dup && after == m
    else if ahead < HALF_RANGE then
      !dup && after == Mask((set b | b in m.bits && Minus(x, b) < size) + {x}, x)
    else if behind < size then dup == (x in m.bits) && after == Mask(m.bits + {x}, m.last)
    else if behind < pastMax < HALF_RANGE then dup && after == m
    else !dup && after == Mask({x}, x)
  }

  lemma AheadOfBoth(m: Mask, x: u32, b: u32, size: nat)
    requires 0 < Minus(x, m.last) < HALF_RANGE && Minus(m.last, b) < size < HALF_RANGE
    ensures Minus(x, b) == Minus(x, m.last) + Minus(m.last, b)
  {
  }

  lemma RuleHolds(m: Mask, size: nat, pastMax: nat, x: u32)
    requires Config(size, pastMax) && ValidMask(m, size)
    ensures WindowRule(m, size, pastMax, x, !Accepts(m, size, Limit(size, pastMax), x),
                       After(m, size, Limit(size, pastMax), x))
  {
    var ahead := Minus(x, m.last);
    if m.IsSet() && 0 < ahead < HALF_RANGE {
      forall b | b in m.bits
        ensures Minus(x, b) == ahead + Minus(m.last, b)
      {
        AheadOfBoth(m, x, b, size);
      }
    }
    if m.IsSet() && x in m.bits { assert m.bits + {x} == m.bits; }
  }

  lemma UnsetSlides(m: Mask, size: nat, delta: nat, b: u32)
    requires Minus(m.last, b) < size < HALF_RANGE && 0 < delta < size
    ensures Minus(b, Minus(m.last, size - 1)) >= delta <==> Minus(m.last, b) < size - delta
  {
  }

  /** The decision as the source makes it. */
  method IsDuplicate(mask: Mask, size: nat, pastMax: nat, seq_: u32) returns (dup: bool, after: Mask)
    requires Config(size, pastMax) && ValidMask(mask, size)
    ensures dup == !Accepts(mask, size, Limit(size, pastMax), seq_)
    ensures after == After(mask, size, Limit(size, pastMax), seq_) && ValidMask(after, size)
    ensures WindowRule(mask, size, pastMax, seq_, dup, after)
  {
    RuleHolds(mask, size, pastMax, seq_);
    after := mask;
    if mask.IsSet() {
      var lastSet := mask.last;
      var delta := Signed32(Minus(seq_, lastSet));
      if delta > 0 {
        if delta < size {
          forall b | b in mask.bits
            ensures Minus(b, Minus(lastSet, size - 1)) >= delta <==> Minus(lastSet, b) < size - delta
          {
            UnsetSlides(mask, size, delta, b);
          }
          after := after.UnsetBits(Minus(lastSet, size - 1), delta);
        } else {
          after := after.Clear();
        }
        after := after.Set(seq_);
        dup := false;
      } else if delta < 0 {
        delta := -delta;
        if delta < size {
          if seq_ in mask.bits {
            return true, mask;
          }
          after := after.Set(seq_);
          dup := false;
        } else if delta < Signed32(pastMax) {
          dup := true;
        } else {
          after := after.Clear();
          after := after.Set(seq_);
          dup := false;
        }
      } else {
        dup := true;
      }
    } else {
      after := after.Set(seq_);
      dup := false;
    }
  }

  // ----- numbers within an arc -----

  /** How far around the circle a number lies past `base`. */
  function Pos(x: u32, base: u32): u32 { Minus(x, base) }

  ghost predicate InArc(s: set<u32>, base: u32, span: nat) {
    forall x | x in s :: Pos(x, base) < span
  }

  /** The numbers lie within an arc shorter than half the circle and `span` long. */
  ghost predicate Spans(s: set<u32>, span: nat) {
    exists base: u32 :: InArc(s, base, span)
  }

  /** The window is where the arc is. */
  ghost predicate Tame(m: Mask, base: u32, span: nat) {
    m.IsSet() ==> Pos(m.last, base) < span
  }

  lemma DeltaInArc(x: u32, y: u32, base: u32, span: nat)
    requires span <= HALF_RANGE && Pos(x, base) < span && Pos(y, base) < span
    ensures Signed32(Minus(x, y)) == Pos(x, base) - Pos(y, base)
  {
  }

  lemma TameAfter(m: Mask, size: nat, limit: nat, base: u32, span: nat, seq_: u32)
    requires Tame(m, base, span) && Pos(seq_, base) < span
    ensures Tame(After(m, size, limit, seq_), base, span)
  {
  }

  /** What was just looked at is refused. */
  lemma SelfRefused(m: Mask, size: nat, limit: nat, seq_: u32)
    requires 0 < size <= limit
    ensures !Accepts(After(m, size, limit, seq_), size, limit, seq_)
  {
  }

  /** Inside an arc no longer than the limit, what is refused stays refused. */
  lemma RefusedStays(m: Mask, size: nat, limit: nat, base: u32, span: nat, seq_: u32, x: u32)
    requires ValidMask(m, size) && 0 < size <= limit && span <= limit <= HALF_RANGE && Tame(m, base, span)
    requires Pos(seq_, base) < span && Pos(x, base) < span && !Accepts(m, size, limit, x)
    ensures !Accepts(After(m, size, limit, seq_), size, limit, x)
  {
    DeltaInArc(seq_, m.last, base, span);
    DeltaInArc(x, m.last, base, span);
    DeltaInArc(x, seq_, base, span);
  }

  /** Inside an arc no longer than the window, nothing else gets refused by looking at a number. */
  lemma OnlyItGetsRefused(m: Mask, size: nat, limit: nat, base: u32, span: nat, seq_: u32, x: u32)
    requires ValidMask(m, size) && 0 < size <= limit && span <= size < HALF_RANGE && Tame(m, base, span)
    requires Pos(seq_, base) < span && Pos(x, base) < span && Accepts(m, size, limit, x) && x != seq_
    ensures Accepts(After(m, size, limit, seq_), size, limit, x)
  {
    if m.IsSet() {
      DeltaInArc(seq_, m.last, base, span);
      DeltaInArc(x, m.last, base, span);
    }
    DeltaInArc(x, seq_, base, span);
  }

  // ----- whole histories -----

  /** The mask after the first `k` numbers. */
  ghost function MaskAt(m: Mask, size: nat, limit: nat, h: seq<u32>, k: nat): Mask
    requires k <= |h|
  {
    if k == 0 then m else After(MaskAt(m, size, limit, h, k - 1), size, limit, h[k - 1])
  }

  ghost predicate AcceptedAt(m: Mask, size: nat, limit: nat, h: seq<u32>, k: nat)
    requires k < |h|
  {
    Accepts(MaskAt(m, size, limit, h, k), size, limit, h[k])
  }

  lemma AfterValid(m: Mask, size: nat, limit: nat, seq_: u32)
    requires ValidMask(m, size) && 0 < size <= limit
    ensures ValidMask(After(m, size, limit, seq_), size)
  {
  }

  ghost predicate Over(h: seq<u32>, s: set<u32>) { forall x | x in h :: x in s }

  lemma {:induction false} MaskAtTame(size: nat, limit: nat, h: seq<u32>, k: nat, s: set<u32>, base: u32, span: nat)
    requires k <= |h| && Over(h, s) && InArc(s, base, span) && 0 < size <= limit
    ensures var m := MaskAt(EMPTY, size, limit, h, k); ValidMask(m, size) && Tame(m, base, span)
  {
    if k > 0 {
      MaskAtTame(size, limit, h, k - 1, s, base, span);
      var m := MaskAt(EMPTY, size, limit, h, k - 1);
      assert h[k - 1] in h;
      AfterValid(m, size, limit, h[k - 1]);
      TameAfter(m, size, limit, base, span, h[k - 1]);
    }
  }

  /** A number looked at is refused from then on. */
  lemma {:induction false} RefusedFromThenOn(size: nat, limit: nat, h: seq<u32>, i: nat, k: nat, s: set<u32>, base: u32)
    requires i < k <= |h| && Over(h, s) && InArc(s, base, limit) && 0 < size <= limit < HALF_RANGE
    ensures !Accepts(MaskAt(EMPTY, size, limit, h, k), size, limit, h[i])
    decreases k
  {
    var m := MaskAt(EMPTY, size, limit, h, k - 1);
    assert h[i] in h && h[k - 1] in h;
    MaskAtTame(size, limit, h, k - 1, s, base, limit);
    if k == i + 1 {
      SelfRefused(m, size, limit, h[i]);
    } else {
      RefusedFromThenOn(size, limit, h, i, k - 1, s, base);
      RefusedStays(m, size, limit, base, limit, h[k - 1], h[i]);
    }
  }

  /** A number not looked at yet is not refused. */
  lemma {:induction false} AcceptedUntilThen(size: nat, limit: nat, h: seq<u32>, k: nat, x: u32, s: set<u32>, base: u32)
    requires k <= |h| && Over(h, s) && x in s && InArc(s, base, size) && 0 < size <= limit < HALF_RANGE
    requires x !in h[..k]
    ensures Accepts(MaskAt(EMPTY, size, limit, h, k), size, limit, x)
    decreases k
  {
    if k > 0 {
      assert h[k - 1] in h && h[..k] == h[..k - 1] + [h[k - 1]];
      MaskAtTame(size, limit, h, k - 1, s, base, size);
      AcceptedUntilThen(size, limit, h, k - 1, x, s, base);
      OnlyItGetsRefused(MaskAt(EMPTY, size, limit, h, k - 1), size, limit, base, size, h[k - 1], x);
    }
  }

  // ----- exactly when -----

  /** However the numbers of `s` come in, none counts as new twice. */
  ghost predicate NoneTwice(s: set<u32>, size: nat, limit: nat) {
    forall h: seq<u32>, i: nat, j: nat | Over(h, s) && i < j < |h| && h[i] == h[j] ::
      !(AcceptedAt(EMPTY, size, limit, h, i) && AcceptedAt(EMPTY, size, limit, h, j))
  }

  /** However the numbers of `s` come in, each counts as new at its first occurrence only. */
  ghost predicate FirstOnly(s: set<u32>, size: nat, limit: nat) {
    forall h: seq<u32>, k: nat | Over(h, s) && k < |h| ::
      AcceptedAt(EMPTY, size, limit, h, k) <==> h[k] !in h[..k]
  }

  /** Numbers that no arc of the span holds: two that far apart, or three that each lie
      ahead of the next around the circle. */
  ghost predicate Apart(s: set<u32>, span: nat, x: u32, y: u32) {
    x in s && y in s && Signed32(Minus(y, x)) + span <= 0
  }

  ghost predicate Around(s: set<u32>, x: u32, y: u32, z: u32) {
    x in s && y in s && z in s &&
    Signed32(Minus(y, x)) > 0 && Signed32(Minus(z, y)) > 0 && Signed32(Minus(x, z)) > 0
  }

  /** The element of `s` furthest behind `o`. */
  lemma {:induction false} Hindmost(s: set<u32>, o: u32) returns (m: u32)
    requires s != {}
    ensures m in s && forall x | x in s :: Signed32(Minus(m, o)) <= Signed32(Minus(x, o))
  {
    var x :| x in s;
    var rest := s - {x};
    if rest == {} {
      assert s == {x};
      m := x;
    } else {
      m := Hindmost(rest, o);
      if Signed32(Minus(x, o)) < Signed32(Minus(m, o)) { m := x; }
      forall z | z in s
        ensures Signed32(Minus(m, o)) <= Signed32(Minus(z, o))
      {
        assert z == x || z in rest;
      }
    }
  }

  lemma NoArc(s: set<u32>, span: nat)
    requires 0 < span < HALF_RANGE && !Spans(s, span)
    ensures (exists x: u32, y: u32 :: Apart(s, span, x, y)) || (exists x: u32, y: u32, z: u32 :: Around(s, x, y, z))
  {
    assert s != {} by {
      if s == {} { assert InArc(s, 0, span); }
    }
    var o :| o in s;
    var m := Hindmost(s, o);
    assert !InArc(s, m, span);
    var x :| x in s && Pos(x, m) >= span;
    ThreePoints(s, span, o, m, x);
  }

  lemma ThreePoints(s: set<u32>, span: nat, o: u32, m: u32, x: u32)
    requires 0 < span < HALF_RANGE && o in s && m in s && x in s
    requires Signed32(Minus(m, o)) <= Signed32(Minus(x, o)) && Pos(x, m) >= span
    ensures Apart(s, span, x, m) || Apart(s, span, m, x) || Apart(s, span, x, o) || Apart(s, span, m, o)
            || Apart(s, span, o, m) || Around(s, o, x, m)
  {
  }

  /** With `x` in front, `y` counts as new whatever else the window holds, and comes to the
      front in turn. */
  predicate Jumps(x: u32, y: u32, limit: nat) {
    var delta := Signed32(Minus(y, x));
    delta > 0 || delta + limit <= 0
  }

  lemma JumpAccepted(m: Mask, size: nat, limit: nat, y: u32)
    requires m.IsSet() ==> Jumps(m.last, y, limit)
    requires 0 < size <= limit
    ensures Accepts(m, size, limit, y)
    ensures After(m, size, limit, y).IsSet() && After(m, size, limit, y).last == y
  {
  }

  /** Numbers of `s` of which each jumps to the next, and the last to the first. */
  ghost predicate Circle(c: seq<u32>, s: set<u32>, limit: nat) {
    c != [] && Over(c, s) && Jumps(c[|c| - 1], c[0], limit) &&
    forall i | 0 <= i < |c| - 1 :: Jumps(c[i], c[i + 1], limit)
  }

  /** Whatever no arc holds has such a circle. */
  lemma NoArcCircle(s: set<u32>, limit: nat) returns (c: seq<u32>)
    requires 0 < limit < HALF_RANGE && !Spans(s, limit)
    ensures Circle(c, s, limit)
  {
    NoArc(s, limit);
    if x: u32, y: u32 :| Apart(s, limit, x, y) {
      c := [x, y];
    } else {
      var x: u32, y: u32, z: u32 :| Around(s, x, y, z);
      c := [x, y, z];
    }
  }

  lemma ApartIsAcceptedAgain(size: nat, limit: nat, x: u32, y: u32)
    requires 0 < size <= limit < HALF_RANGE && Signed32(Minus(y, x)) + limit <= 0
    ensures var h := [y, x, y]; AcceptedAt(EMPTY, size, limit, h, 0) && AcceptedAt(EMPTY, size, limit, h, 2)
  {
    var h := [y, x, y];
    assert MaskAt(EMPTY, size, limit, h, 1) == Mask({y}, y);
    assert MaskAt(EMPTY, size, limit, h, 2) == Mask({x}, x);
  }

  lemma AroundIsAcceptedAgain(size: nat, limit: nat, x: u32, y: u32, z: u32)
    requires 0 < size <= limit < HALF_RANGE
    requires Signed32(Minus(y, x)) > 0 && Signed32(Minus(z, y)) > 0 && Signed32(Minus(x, z)) > 0
    ensures var h := [x, y, z, x]; AcceptedAt(EMPTY, size, limit, h, 0) && AcceptedAt(EMPTY, size, limit, h, 3)
  {
    var h := [x, y, z, x];
    assert MaskAt(EMPTY, size, limit, h, 1).last == x && MaskAt(EMPTY, size, limit, h, 1).IsSet();
    assert MaskAt(EMPTY, size, limit, h, 2).last == y && MaskAt(EMPTY, size, limit, h, 2).IsSet();
    assert MaskAt(EMPTY, size, limit, h, 3).last == z && MaskAt(EMPTY, size, limit, h, 3).IsSet();
  }

  lemma ApartIsRefused(size: nat, limit: nat, x: u32, y: u32)
    requires 0 < size <= limit < HALF_RANGE && 0 < Signed32(Minus(y, x)) + limit && Signed32(Minus(y, x)) + size <= 0
    ensures !AcceptedAt(EMPTY, size, limit, [x, y], 1)
  {
    assert MaskAt(EMPTY, size, limit, [x, y], 1) == Mask({x}, x);
  }

  /** No number of `s` counts as new twice, in whatever order and how often they come, exactly
      if they lie within an arc as long as the limit. */
  lemma NoneTwiceIff(s: set<u32>, size: nat, limit: nat)
    requires 0 < size <= limit < HALF_RANGE
    ensures NoneTwice(s, size, limit) <==> Spans(s, limit)
  {
    if base: u32 :| InArc(s, base, limit) {
      forall h: seq<u32>, i: nat, j: nat | Over(h, s) && i < j < |h| && h[i] == h[j]
        ensures !(AcceptedAt(EMPTY, size, limit, h, i) && AcceptedAt(EMPTY, size, limit, h, j))
      {
        RefusedFromThenOn(size, limit, h, i, j, s, base);
      }
    } else {
      NoArc(s, limit);
      if x: u32, y: u32 :| Apart(s, limit, x, y) {
        ApartIsAcceptedAgain(size, limit, x, y);
        var h := [y, x, y];
        assert Over(h, s) && h[0] == h[2];
      } else {
        var x: u32, y: u32, z: u32 :| Around(s, x, y, z);
        AroundIsAcceptedAgain(size, limit, x, y, z);
        var h := [x, y, z, x];
        assert Over(h, s) && h[0] == h[3];
      }
    }
  }

  /** Each number of `s` counts as new at its first occurrence and at no other exactly if
      they lie within an arc as long as the window. */
  lemma FirstOnlyIff(s: set<u32>, size: nat, limit: nat)
    requires 0 < size <= limit < HALF_RANGE
    ensures FirstOnly(s, size, limit) <==> Spans(s, size)
  {
    if base: u32 :| InArc(s, base, size) {
      assert InArc(s, base, limit);
      forall h: seq<u32>, k: nat | Over(h, s) && k < |h|
        ensures AcceptedAt(EMPTY, size, limit, h, k) <==> h[k] !in h[..k]
      {
        assert h[k] in h;
        if h[k] in h[..k] {
          var i: nat :| i < k && h[i] == h[k];
          RefusedFromThenOn(size, limit, h, i, k, s, base);
        } else {
          AcceptedUntilThen(size, limit, h, k, h[k], s, base);
        }
      }
    } else {
      NotFirstOnly(s, size, limit);
    }
  }

  lemma NotFirstOnly(s: set<u32>, size: nat, limit: nat)
    requires 0 < size <= limit < HALF_RANGE && !Spans(s, size)
    ensures !FirstOnly(s, size, limit)
  {
    NoArc(s, size);
    if x: u32, y: u32 :| Apart(s, size, x, y) {
      if Signed32(Minus(y, x)) + limit <= 0 {
        ApartIsAcceptedAgain(size, limit, x, y);
        var h := [y, x, y];
        assert Over(h, s) && h[..2] == [y, x] && h[2] in h[..2];
      } else {
        ApartIsRefused(size, limit, x, y);
        var h := [x, y];
        assert Over(h, s) && h[..1] == [x] && h[1] !in h[..1];
      }
    } else {
      var x: u32, y: u32, z: u32 :| Around(s, x, y, z);
      AroundIsAcceptedAgain(size, limit, x, y, z);
      var h := [x, y, z, x];
      assert Over(h, s) && h[..3] == [x, y, z] && h[3] in h[..3];
    }
  }
}
