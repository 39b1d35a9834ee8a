/**
  The duplicate tree: per source a sliding window, found through a tree by its key and
  kept in a list with the most current flow at the head, so that pruning can stop at the
  first flow that is still fresh.

  A removed flow keeps its links and so still points into the list; this does no harm, as
  putting a flow in overwrites both of them.
*/
module DuplicateTree {
  import opened Basics
  import opened FlowLinks
  import opened SlidingWindow

  // ----- what the detector knows -----

  /** One flow: its window, and when it last saw a new number. */
  datatype FlowRecord = FlowRecord(mask: Mask, updated: u32)

  type Records = map<int, FlowRecord>

  function MaskOf(records: Records, src: int): Mask {
    if src in records then records[src].mask else EMPTY
  }

  /** The number is a duplicate. */
  predicate Refused(records: Records, size: nat, limit: nat, src: int, seq_: u32) {
    !Accepts(MaskOf(records, src), size, limit, seq_)
  }

  /** A new number is remembered and stamps its flow; a duplicate changes nothing. */
  function Recorded(records: Records, size: nat, limit: nat, now: u32, src: int, seq_: u32): Records {
    if Refused(records, size, limit, src, seq_) then records
    else records[src := FlowRecord(After(MaskOf(records, src), size, limit, seq_), now)]
  }

  /** What is left of the flows if those not updated for longer than `ageMax` go. */
  function Pruned(records: Records, now: u32, ageMax: u32): Records {
    map src | src in records && Age(now, records[src].updated) <= ageMax :: records[src]
  }

  ghost predicate ValidRecords(records: Records, size: nat) {
    forall src | src in records :: records[src].mask.IsSet() && ValidMask(records[src].mask, size)
  }

  lemma RecordedValid(records: Records, size: nat, limit: nat, now: u32, src: int, seq_: u32)
    requires ValidRecords(records, size) && 0 < size <= limit
    ensures ValidRecords(Recorded(records, size, limit, now, src, seq_), size)
  {
    AfterValid(MaskOf(records, src), size, limit, seq_);
  }

  // ----- pruning -----

  function Forgotten(records: Records, key: int): Records { map k | k in records && k != key :: records[k] }

  /** Nothing but stale records have gone from `before`. */
  ghost predicate StaleGone(before: Records, after: Records, now: u32, ageMax: u32) {
    (forall k | k in after :: k in before) &&
    forall k | k in before :: if k in after then after[k] == before[k] else Age(now, before[k].updated) > ageMax
  }

  /** And none is left. */
  ghost predicate NoneStale(records: Records, times: Times, now: nat, ageMax: u32) {
    forall k | k in records :: Age(Wrap32(now), records[k].updated) <= ageMax && k in times && now <= times[k] + ageMax
  }

  /** Then just what is stale has gone. */
  lemma ExactlyPruned(before: Records, after: Records, times: Times, now: nat, ageMax: u32)
    requires StaleGone(before, after, Wrap32(now), ageMax) && NoneStale(after, times, now, ageMax)
    ensures after == Pruned(before, Wrap32(now), ageMax)
  {
    var p := Pruned(before, Wrap32(now), ageMax);
    forall k: int
      ensures k in after <==> k in p
    {
      if k in after { assert k in before && after[k] == before[k]; }
      if k in before && k !in after { assert Age(Wrap32(now), before[k].updated) > ageMax; }
    }
    assert after.Keys == p.Keys;
    forall k | k in after
      ensures after[k] == p[k]
    {
      assert k in before && after[k] == before[k];
    }
    SameMap(after, p);
  }

  // ----- the list -----

  class FlowList {
    var count: nat
    var head: Flow?
    var tail: Flow?
    ghost var flows: seq<Flow>

    /** The links form one chain through distinct flows in both directions. */
    ghost predicate Linked()
      reads this, flows`prev, flows`next
    {
      count == |flows| && Distinct(flows) && Backward(flows) && Forward(flows) &&
      head == (if flows == [] then null else flows[0]) &&
      tail == (if flows == [] then null else flows[|flows| - 1])
    }

    /** The flows in the list, if it is sound. */
    ghost function Chain(): Option<seq<Flow>>
      reads this, flows`prev, flows`next
    {
      if Linked() then Some(flows) else None
    }

    ghost predicate Valid()
      reads this, flows`prev, flows`next
    {
      Chain().Some?
    }

    constructor ()
      ensures Valid() && flows == []
    {
      count, head, tail, flows := 0, null, null, [];
    }

    method Prepend(flow: Flow)
      requires Valid() && flow !in flows
      modifies this, Only(head)`prev, flow`prev, flow`next
      ensures Valid() && flows == [flow] + old(flows)
    {
      ghost var s := flows;
      if head != null {
        head.prev := flow;
      } else {
        tail := flow;
      }
      flow.prev := null;
      flow.next := head;
      head := flow;
      count := count + 1;
      flows := [flow] + s;
      assert forall i | 1 <= i < |flows| :: flows[i] == s[i - 1];
    }

    method Remove(flow: Flow)
      requires Valid() && flow in flows
      modifies this, Only(flow.prev)`next, Only(flow.next)`prev
      ensures Valid() && flows == Without(old(flows), flow)
      ensures |flows| == |old(flows)| - 1 && forall i | 0 <= i < |flows| :: flows[i] in old(flows) && flows[i] != flow
      ensures flow.prev == old(flow.prev) && flow.next == old(flow.next)
    {
      ghost var k: nat :| k < |flows| && flows[k] == flow;
      ghost var s := flows;
      Unlink(flow, s, k);
      BridgedChain(s, k);
    }

    /** The pointer surgery of `Remove`. */
    method Unlink(flow: Flow, ghost s: seq<Flow>, ghost k: nat)
      requires Valid() && s == flows && k < |s| && s[k] == flow
      modifies this, Only(flow.prev)`next, Only(flow.next)`prev
      ensures Bridged(s, k) && count == |s| - 1 && flows == Without(s, flow)
      ensures flow.prev == old(flow.prev) && flow.next == old(flow.next)
      ensures head == if k > 0 then s[0] else if |s| > 1 then s[1] else null
      ensures tail == if k < |s| - 1 then s[|s| - 1] else if |s| > 1 then s[|s| - 2] else null
    {
      flows := Without(s, flow);
      var prev := flow.prev;
      var next := flow.next;
      assert prev == if k == 0 then null else s[k - 1];
      assert next == if k == |s| - 1 then null else s[k + 1];
      if next != null {
        next.prev := prev;
      } else {
        tail := prev;
      }
      if prev != null {
        prev.next := next;
      } else {
        head := next;
      }
      count := count - 1;
    }

    method MoveToHead(flow: Flow)
      requires Valid() && flow in flows
      modifies this, flows`prev, flows`next
      ensures Valid() && flows == [flow] + Without(old(flows), flow)
      ensures forall i | 0 <= i < |flows| :: flows[i] in old(flows)
    {
      Remove(flow);
      Prepend(flow);
    }
  }

  // ----- tree and list together -----

  /** What the tree finds under a key: the flow and its fields. */
  datatype Entry = Entry(flow: Flow, record: FlowRecord)

  type Tree = map<int, Entry>

  function Dropped(tree: Tree, key: int): Tree { map k | k in tree && k != key :: tree[k] }

  function RecordsOf(tree: Tree): Records { map k | k in tree :: tree[k].record }

  /** The tree finds exactly the flows of `s`, each under its key. */
  ghost predicate Indexed(tree: Tree, s: seq<Flow>) {
    (forall i | 0 <= i < |s| :: s[i].key in tree && tree[s[i].key].flow == s[i]) &&
    forall k | k in tree :: tree[k].flow in s && tree[k].flow.key == k
  }

  /** Every window is in use, and every stamp is that of a time neither before `oldest` nor
      after `now`. */
  ghost predicate OnRecord(tree: Tree, times: Times, size: nat, oldest: nat, now: nat) {
    forall k | k in tree ::
      tree[k].record.mask.IsSet() && ValidMask(tree[k].record.mask, size) &&
      k in times && tree[k].record.updated == Wrap32(times[k]) && oldest <= times[k] <= now
  }

  /** Tree, times and the list, most current flow first, agree. */
  ghost predicate Agree(tree: Tree, times: Times, size: nat, oldest: nat, now: nat, s: seq<Flow>) {
    Indexed(tree, s) && OnRecord(tree, times, size, oldest, now) && Freshest(s, times)
  }

  lemma IndexedInFront(tree: Tree, s: seq<Flow>, e: Entry)
    requires Indexed(tree, s) && e.flow.key !in tree
    ensures Indexed(tree[e.flow.key := e], [e.flow] + s)
  {
    var u := [e.flow] + s;
    assert forall i | 1 <= i < |u| :: u[i] == s[i - 1];
  }

  lemma IndexedWithout(tree: Tree, s: seq<Flow>, flow: Flow)
    requires Indexed(tree, s) && Distinct(s) && flow in s
    ensures Indexed(Dropped(tree, flow.key), Without(s, flow))
    ensures forall i | 0 <= i < |Without(s, flow)| :: Without(s, flow)[i].key != flow.key
  {
    WithoutMembers(s, flow);
    var t := Without(s, flow);
    forall k | k in tree && k != flow.key
      ensures tree[k].flow in t
    {
      var i :| 0 <= i < |s| && s[i] == tree[k].flow;
    }
    forall i | 0 <= i < |t|
      ensures t[i].key in tree && tree[t[i].key].flow == t[i] && t[i].key != flow.key
    {
      var j :| 0 <= j < |s| && s[j] == t[i];
    }
  }

  /** A flow stamped now belongs in front. */
  lemma FreshestInFront(s: seq<Flow>, times: Times, flow: Flow, now: nat)
    requires Freshest(s, times) && forall i | 0 <= i < |s| :: TimeOf(times, s[i]) <= now && s[i].key != flow.key
    ensures Freshest([flow] + s, times[flow.key := now])
  {
    var u := [flow] + s;
    assert forall i | 1 <= i < |u| :: u[i] == s[i - 1];
  }

  /** A stamp of now on a flow new to the list, or taken out of it before. */
  lemma AgreeInFront(tree: Tree, times: Times, size: nat, oldest: nat, now: nat, s: seq<Flow>, e: Entry)
    requires Agree(tree, times, size, oldest, now, s) && oldest <= now && e.flow.key !in tree
    requires e.record.mask.IsSet() && ValidMask(e.record.mask, size) && e.record.updated == Wrap32(now)
    ensures Agree(tree[e.flow.key := e], times[e.flow.key := now], size, oldest, now, [e.flow] + s)
  {
    IndexedInFront(tree, s, e);
    FreshestInFront(s, times, e.flow, now);
  }

  lemma AgreeWithout(tree: Tree, times: Times, size: nat, oldest: nat, now: nat, s: seq<Flow>, flow: Flow)
    requires Agree(tree, times, size, oldest, now, s) && Distinct(s) && flow in s
    ensures Agree(Dropped(tree, flow.key), times, size, oldest, now, Without(s, flow))
  {
    IndexedWithout(tree, s, flow);
    FreshestWithout(s, flow, times);
  }

  lemma AgreeMoved(tree: Tree, times: Times, size: nat, oldest: nat, now: nat, s: seq<Flow>, e: Entry)
    requires Agree(tree, times, size, oldest, now, s) && oldest <= now && Distinct(s) && e.flow in s
    requires e.record.mask.IsSet() && ValidMask(e.record.mask, size) && e.record.updated == Wrap32(now)
    ensures Agree(tree[e.flow.key := e], times[e.flow.key := now], size, oldest, now, [e.flow] + Without(s, e.flow))
  {
    AgreeWithout(tree, times, size, oldest, now, s, e.flow);
    AgreeInFront(Dropped(tree, e.flow.key), times, size, oldest, now, Without(s, e.flow), e);
    assert Dropped(tree, e.flow.key)[e.flow.key := e] == tree[e.flow.key := e];
  }

  lemma RecordsUpdated(tree: Tree, e: Entry)
    ensures RecordsOf(tree[e.flow.key := e]) == RecordsOf(tree)[e.flow.key := e.record]
  {
  }

  class DupTree {
    const windowSize: nat
    const windowPastMax: nat
    const flowList: FlowList
    var flowTree: Tree      // contract of the keyed tree
    ghost var times: Times
    ghost var now: nat      // the unwrapped time of the latest call
    ghost var oldest: nat   // no flow was updated before

    /** What the tree knows, if tree and list are sound and agree. */
    ghost function Knows(): Option<Records>
      reads this, flowList, flowList.flows
    {
      if forall k: nat {:trigger Shown(1, k)} | Shown(1, k) :: Sound() then Some(RecordsOf(flowTree)) else None
    }

    ghost predicate Valid()
      reads this, flowList, flowList.flows
    {
      Knows().Some?
    }

    ghost predicate Sound()
      reads this, flowList, flowList.flows
    {
      Config(windowSize, windowPastMax) && oldest <= now && flowList.Valid() &&
      Agree(flowTree, times, windowSize, oldest, now, flowList.flows)
    }

    constructor (size: nat, pastMax: nat)
      requires Config(size, pastMax)
      ensures Valid() && flowTree == map[] && now == 0 && oldest == 0
      ensures windowSize == size && windowPastMax == pastMax && fresh(flowList) && flowList.flows == []
    {
      windowSize, windowPastMax := size, pastMax;
      flowList := new FlowList();
      flowTree, times, now, oldest := map[], map[], 0, 0;
    }

    function Past(): nat { Limit(windowSize, windowPastMax) }

    function Records(): (r: Records)
      reads this
    {
      RecordsOf(flowTree)
    }

    /** Test a number and remember it if it is new. */
    method IsDuplicate(currentTime: u32, ghost time: nat, seqNum: u32, src: int) returns (dup: bool)
      requires Valid() && now <= time && currentTime == Wrap32(time)
      modifies this, flowList, flowList.flows
      ensures now == time && oldest == old(oldest)
      ensures dup == Refused(old(Knows()).value, windowSize, Past(), src, seqNum)
      ensures Knows() == Some(Recorded(old(Knows()).value, windowSize, Past(), currentTime, src, seqNum))
      ensures forall i | 0 <= i < |flowList.flows| ::
              flowList.flows[i] in old(flowList.flows) || fresh(flowList.flows[i])
    {
      assert Shown(1, 0);
      SetTime(time);
      var mask;
      if src !in flowTree {
        dup, mask := SlidingWindow.IsDuplicate(EMPTY, windowSize, windowPastMax, seqNum);
        AddFlow(src, FlowRecord(mask, currentTime));
        dup := false;
      } else {
        dup, mask := SlidingWindow.IsDuplicate(flowTree[src].record.mask, windowSize, windowPastMax, seqNum);
        if !dup {
          BubbleUp(src, FlowRecord(mask, currentTime));
        }
      }
    }

    ghost method SetTime(time: nat)
      requires Valid() && now <= time
      modifies `now
      ensures Knows() == old(Knows()) && now == time
    {
      assert Shown(1, 0);
      now := time;
    }

    /** A flow not known so far. */
    method AddFlow(src: int, record: FlowRecord)
      requires Valid() && record.updated == Wrap32(now) && src !in flowTree
      requires record.mask.IsSet() && ValidMask(record.mask, windowSize)
      modifies this`flowTree, this`times, flowList, Only(flowList.head)`prev
      ensures Knows() == Some(old(Knows()).value[src := record])
      ensures forall i | 0 <= i < |flowList.flows| ::
              flowList.flows[i] in old(flowList.flows) || fresh(flowList.flows[i])
    {
      assert Shown(1, 0);
      var flow := new Flow(src);
      AgreeInFront(flowTree, times, windowSize, oldest, now, flowList.flows, Entry(flow, record));
      RecordsUpdated(flowTree, Entry(flow, record));
      flowList.Prepend(flow);
      Put(Entry(flow, record));
    }

    /** A flow that saw a new number goes to the head, freshly stamped. */
    method BubbleUp(src: int, record: FlowRecord)
      requires Valid() && src in flowTree && record.updated == Wrap32(now)
      requires record.mask.IsSet() && ValidMask(record.mask, windowSize)
      modifies this`flowTree, this`times, flowList, flowList.flows
      ensures Knows() == Some(old(Knows()).value[src := record])
      ensures forall i | 0 <= i < |flowList.flows| :: flowList.flows[i] in old(flowList.flows)
    {
      assert Shown(1, 0);
      RecordsUpdated(flowTree, Entry(flowTree[src].flow, record));
      MoveToHead(Entry(flowTree[src].flow, record));
    }

    method MoveToHead(e: Entry)
      requires Valid() && e.flow.key in flowTree && flowTree[e.flow.key].flow == e.flow
      requires e.record.mask.IsSet() && ValidMask(e.record.mask, windowSize) && e.record.updated == Wrap32(now)
      modifies this`flowTree, this`times, flowList, flowList.flows
      ensures Valid() && flowTree == old(flowTree)[e.flow.key := e]
      ensures forall i | 0 <= i < |flowList.flows| :: flowList.flows[i] in old(flowList.flows)
    {
      assert Shown(1, 0);
      AgreeMoved(flowTree, times, windowSize, oldest, now, flowList.flows, e);
      flowList.MoveToHead(e.flow);
      Put(e);
    }

    /** An entry stamped now, once the list is as it should be. */
    method Put(e: Entry)
      requires Config(windowSize, windowPastMax) && oldest <= now && flowList.Valid()
      requires Agree(flowTree[e.flow.key := e], times[e.flow.key := now], windowSize, oldest, now, flowList.flows)
      modifies this`flowTree, this`times
      ensures Valid() && flowTree == old(flowTree)[e.flow.key := e]
    {
      flowTree, times := flowTree[e.flow.key := e], times[e.flow.key := now];
    }

    /** Drop flows from the tail of the list up to the first one still fresh: exactly the flows
        not updated for longer than `ageMax` go, if no age has gone once around. */
    method Prune(currentTime: u32, ghost time: nat, ageMax: u32)
      requires Valid() && now <= time < oldest + U32_RANGE && currentTime == Wrap32(time)
      modifies this, flowList, flowList.flows
      ensures now == time && old(oldest) <= oldest && time <= oldest + ageMax
      ensures Knows() == Some(Pruned(old(Knows()).value, currentTime, ageMax))
      ensures forall i | 0 <= i < |flowList.flows| :: flowList.flows[i] in old(flowList.flows)
    {
      assert Shown(1, 0);
      SetTime(time);
      PruneTails(currentTime, ageMax);
      ExactlyPruned(RecordsOf(old(flowTree)), RecordsOf(flowTree), times, now, ageMax);
      Raise(if oldest + ageMax < now then now - ageMax else oldest);
    }

    method PruneTails(currentTime: u32, ageMax: u32)
      requires Valid() && currentTime == Wrap32(now) && now < oldest + U32_RANGE
      modifies this`flowTree, flowList, flowList.flows
      ensures Valid() && StaleGone(RecordsOf(old(flowTree)), RecordsOf(flowTree), currentTime, ageMax)
      ensures NoneStale(RecordsOf(flowTree), times, now, ageMax)
      ensures forall i | 0 <= i < |flowList.flows| :: flowList.flows[i] in old(flowList.flows)
    {
      assert Shown(1, 0);
      var done := false;
      while flowList.tail != null && !done
        invariant Valid()
        invariant forall i | 0 <= i < |flowList.flows| :: flowList.flows[i] in old(flowList.flows)
        invariant StaleGone(RecordsOf(old(flowTree)), RecordsOf(flowTree), currentTime, ageMax)
        invariant done ==> NoneStale(RecordsOf(flowTree), times, now, ageMax)
        decreases |flowList.flows|, !done
      {
        done := PruneTail(currentTime, ageMax, RecordsOf(old(flowTree)));
      }
    }

    /** One round of pruning: drop the flow at the tail, or find that it is fresh. */
    method PruneTail(currentTime: u32, ageMax: u32, ghost before: Records) returns (done: bool)
      requires Valid() && flowList.tail != null && currentTime == Wrap32(now) && now < oldest + U32_RANGE
      requires StaleGone(before, RecordsOf(flowTree), currentTime, ageMax)
      modifies this`flowTree, flowList, flowList.flows
      ensures Valid() && StaleGone(before, RecordsOf(flowTree), currentTime, ageMax)
      ensures done ==> NoneStale(RecordsOf(flowTree), times, now, ageMax) && flowList.flows == old(flowList.flows)
      ensures !done ==> |flowList.flows| < |old(flowList.flows)|
      ensures forall i | 0 <= i < |flowList.flows| :: flowList.flows[i] in old(flowList.flows)
    {
      assert Shown(1, 0);
      var oldestFlow := flowList.tail;
      done := Age(currentTime, flowTree[oldestFlow.key].record.updated) <= ageMax;
      if done {
        TailDecides(flowTree, times, windowSize, oldest, now, flowList.flows, ageMax);
      } else {
        RemoveFlow(oldestFlow);
      }
    }

    /** No flow is older than `bound`. */
    ghost method Raise(bound: nat)
      requires Valid() && oldest <= bound <= now && forall k | k in flowTree :: k in times && bound <= times[k]
      modifies `oldest
      ensures Knows() == old(Knows()) && oldest == bound
    {
      assert Shown(1, 0);
      oldest := bound;
    }

    /** What will be left without `flow` is in order. */
    lemma RemoveReady(flow: Flow) returns (tree: Tree, rest: seq<Flow>)
      requires Valid() && flow in flowList.flows
      ensures Config(windowSize, windowPastMax) && oldest <= now && flowList.Valid()
      ensures tree == Dropped(flowTree, flow.key) && rest == Without(flowList.flows, flow)
      ensures Agree(tree, times, windowSize, oldest, now, rest) && |rest| == |flowList.flows| - 1
    {
      assert Shown(1, 0);
      tree, rest := Dropped(flowTree, flow.key), Without(flowList.flows, flow);
      AgreeWithout(flowTree, times, windowSize, oldest, now, flowList.flows, flow);
    }

    lemma Settled(tree: Tree, rest: seq<Flow>)
      requires Config(windowSize, windowPastMax) && oldest <= now && flowList.Valid()
      requires flowTree == tree && flowList.flows == rest && Agree(tree, times, windowSize, oldest, now, rest)
      ensures Valid()
    {
    }

    method RemoveFlow(flow: Flow)
      requires Valid() && flow in flowList.flows
      modifies this`flowTree, flowList, flowList.flows
      ensures Valid() && flowTree == Dropped(old(flowTree), flow.key)
      ensures |flowList.flows| == |old(flowList.flows)| - 1
      ensures forall i | 0 <= i < |flowList.flows| :: flowList.flows[i] in old(flowList.flows)
    {
      ghost var tree, rest := RemoveReady(flow);
      flowTree := Dropped(flowTree, flow.key);
      flowList.Remove(flow);
      Settled(tree, rest);
    }
  }

  /** If the flow at the tail is fresh, all are. */
  lemma TailDecides(tree: Tree, times: Times, size: nat, oldest: nat, now: nat, s: seq<Flow>, ageMax: u32)
    requires Agree(tree, times, size, oldest, now, s) && now < oldest + U32_RANGE && s != []
    requires s[|s| - 1].key in tree && Age(Wrap32(now), tree[s[|s| - 1].key].record.updated) <= ageMax
    ensures NoneStale(RecordsOf(tree), times, now, ageMax)
  {
    var last := s[|s| - 1].key;
    AgeIsElapsed(now, times[last]);
    forall k | k in tree
      ensures Age(Wrap32(now), tree[k].record.updated) <= ageMax && k in times && now <= times[k] + ageMax
    {
      var i :| 0 <= i < |s| && s[i] == tree[k].flow;
      assert TimeOf(times, s[i]) >= TimeOf(times, s[|s| - 1]);
      AgeIsElapsed(now, times[k]);
    }
  }
}
