/**
  The windows of the window based duplicate detector and the order its flow list is kept in,
  from the stalest flow to the freshest.  A number too old for its window restarts it, however
  old, so nothing is refused for its age.
*/
module DpdWindow {
  import opened Basics
  import opened FlowLinks
  import opened SlidingWindow
  import opened DuplicateTree

  /** The decision of one window. */
  method WindowIsDuplicate(bitmask: Mask, size: nat, seq_: u32) returns (dup: bool, after: Mask)
    requires Config(size, size) && ValidMask(bitmask, size)
    ensures dup == !Accepts(bitmask, size, size, seq_)
    ensures after == After(bitmask, size, size, seq_) && ValidMask(after, size)
    ensures WindowRule(bitmask, size, size, seq_, dup, after)
  {
    RuleHolds(bitmask, size, size, seq_);
    after := bitmask;
    dup := false;
    if bitmask.IsSet() {
      var lastSet := bitmask.last;
      var delta := Signed32(Minus(seq_, lastSet));
      if delta > 0 {
        if delta < size {
          forall b | b in bitmask.bits
            ensures Minus(b, Minus(lastSet, size - 1)) >= delta <==> Minus(lastSet, b) < size - delta
          {
            UnsetSlides(bitmask, size, delta, b);
          }
          after := after.UnsetBits(Minus(lastSet, size - 1), delta);
        } else {
          after := after.Clear();
        }
        after := after.Set(seq_);
      } else if delta < 0 {
        if -delta < size {
          if seq_ in bitmask.bits {
            dup := true;
          } else {
            after := after.Set(seq_);
          }
        } else {
          after := after.Clear();
          after := after.Set(seq_);
        }
      } else {
        dup := true;
      }
    } else {
      after := after.Set(seq_);
    }
  }

  /** The windows decide rightly, whatever order the numbers of a flow come in, exactly if the
      numbers lie within the window size of each other; and then each is accepted just once. */
  lemma RightIff(s: set<u32>, size: nat)
    requires 0 < size < HALF_RANGE
    ensures FirstOnly(s, size, size) <==> NoneTwice(s, size, size)
    ensures FirstOnly(s, size, size) <==> Spans(s, size)
  {
    FirstOnlyIff(s, size, size);
    NoneTwiceIff(s, size, size);
  }

  // ----- records and the order of the list -----

  /** Stalest first. */
  ghost predicate Stalest(s: seq<Flow>, times: Times) {
    forall i, j | 0 <= i < j < |s| :: TimeOf(times, s[i]) <= TimeOf(times, s[j])
  }

  /** Every window is in use, and every stamp is that of a time neither before `oldest` nor
      after `now`. */
  ghost predicate Dated(records: Records, times: Times, size: nat, oldest: nat, now: nat) {
    ValidRecords(records, size) &&
    forall k | k in records ::
      k in times && records[k].updated == Wrap32(times[k]) && oldest <= times[k] <= now
  }

  ghost predicate Listed(records: Records, s: seq<Flow>) {
    (forall i | 0 <= i < |s| :: s[i].key in records) &&
    (forall i, j | 0 <= i < j < |s| :: s[i].key != s[j].key) &&
    forall k | k in records :: exists i :: 0 <= i < |s| && s[i].key == k
  }

  /** The records, if the list is in the order of their times. */
  ghost function Ordered(records: Records, times: Times, size: nat, oldest: nat, now: nat,
                         s: seq<Flow>): Option<Records> {
    if Listed(records, s) && Dated(records, times, size, oldest, now) && Stalest(s, times) then Some(records) else None
  }

  lemma OrderedAtEnd(records: Records, times: Times, size: nat, oldest: nat, now: nat, s: seq<Flow>, f: Flow,
                     r: FlowRecord)
    requires Ordered(records, times, size, oldest, now, s).Some? && oldest <= now && f.key !in records
    requires r.mask.IsSet() && ValidMask(r.mask, size) && r.updated == Wrap32(now)
    ensures Ordered(records[f.key := r], times[f.key := now], size, oldest, now, s + [f]).Some?
  {
    var u := s + [f];
    assert forall i | 0 <= i < |s| :: u[i] == s[i];
    forall k | k in records
      ensures exists i :: 0 <= i < |u| && u[i].key == k
    {
      var i :| 0 <= i < |s| && s[i].key == k;
      assert u[i].key == k;
    }
    assert u[|s|].key == f.key;
  }

  lemma ListedWithout(records: Records, s: seq<Flow>, f: Flow)
    requires Listed(records, s) && Distinct(s) && f in s
    ensures Listed(Forgotten(records, f.key), Without(s, f))
  {
    var j: nat :| j < |s| && s[j] == f;
    WithoutEach(s, j);
    var t := Without(s, f);
    forall k | k in records && k != f.key
      ensures exists i :: 0 <= i < |t| && t[i].key == k
    {
      var i :| 0 <= i < |s| && s[i].key == k;
      assert t[if i < j then i else i - 1].key == k;
    }
  }

  lemma StalestWithout(s: seq<Flow>, times: Times, f: Flow)
    requires Stalest(s, times) && Distinct(s) && f in s
    ensures Stalest(Without(s, f), times)
  {
    var j: nat :| j < |s| && s[j] == f;
    WithoutEach(s, j);
  }

  lemma OrderedWithout(records: Records, times: Times, size: nat, oldest: nat, now: nat, s: seq<Flow>, f: Flow)
    requires Ordered(records, times, size, oldest, now, s).Some? && Distinct(s) && f in s
    ensures Ordered(Forgotten(records, f.key), times, size, oldest, now, Without(s, f)).Some?
  {
    ListedWithout(records, s, f);
    StalestWithout(s, times, f);
  }

  lemma OrderedTail(records: Records, times: Times, size: nat, oldest: nat, now: nat, s: seq<Flow>)
    requires Ordered(records, times, size, oldest, now, s).Some? && Distinct(s) && s != []
    ensures Ordered(Forgotten(records, s[0].key), times, size, oldest, now, s[1..]).Some?
  {
    WithoutHead(s);
    OrderedWithout(records, times, size, oldest, now, s, s[0]);
  }

  lemma OrderedMoved(records: Records, times: Times, size: nat, oldest: nat, now: nat, s: seq<Flow>, f: Flow,
                     r: FlowRecord)
    requires Ordered(records, times, size, oldest, now, s).Some? && oldest <= now && Distinct(s) && f in s
    requires r.mask.IsSet() && ValidMask(r.mask, size) && r.updated == Wrap32(now)
    ensures Ordered(records[f.key := r], times[f.key := now], size, oldest, now, Without(s, f) + [f]).Some?
  {
    OrderedWithout(records, times, size, oldest, now, s, f);
    OrderedAtEnd(Forgotten(records, f.key), times, size, oldest, now, Without(s, f), f, r);
    assert Forgotten(records, f.key)[f.key := r] == records[f.key := r];
  }

  lemma OrderedLater(records: Records, times: Times, size: nat, oldest: nat, now: nat, s: seq<Flow>, then_: nat)
    requires Ordered(records, times, size, oldest, now, s).Some? && now <= then_
    ensures Ordered(records, times, size, oldest, then_, s).Some?
  {
  }

  /** If the flow at the head is fresh, all are. */
  lemma HeadDecides(records: Records, times: Times, size: nat, oldest: nat, now: nat, s: seq<Flow>, ageMax: u32)
    requires Ordered(records, times, size, oldest, now, s).Some? && now < oldest + U32_RANGE
    requires s != [] ==> s[0].key in records && Age(Wrap32(now), records[s[0].key].updated) <= ageMax
    ensures NoneStale(records, times, now, ageMax)
  {
    forall k | k in records
      ensures Age(Wrap32(now), records[k].updated) <= ageMax && k in times && now <= times[k] + ageMax
    {
      var i :| 0 <= i < |s| && s[i].key == k;
      AgeIsElapsed(now, times[s[0].key]);
      AgeIsElapsed(now, times[k]);
      assert TimeOf(times, s[0]) <= TimeOf(times, s[i]);
    }
  }
}
