/**
  The window based duplicate detector: per flow a sliding window, found through the flow
  list, and pruning from the head of that list.
*/
module DpdDetector {
  import opened Basics
  import opened FlowLinks
  import opened SlidingWindow
  import opened DuplicateTree
  import opened DpdWindow
  import Dpd = DpdFlowList

  class Detector {
    const windowSize: nat
    const flowList: Dpd.List
    var records: Records    // the fields of the flows, under their identifiers
    ghost var times: Times
    ghost var now: nat      // the unwrapped time of the latest call
    ghost var oldest: nat   // no flow was updated before

    /** What the detector knows, if all is sound. */
    ghost function Knows(): Option<Records>
      reads this, flowList, flowList.flows
    {
      if forall k: nat {:trigger Shown(5, k)} | Shown(5, k) :: InOrder() then Some(records) else None
    }

    /** List, lookup tree and records belong together, and the list is in order of time. */
    ghost predicate InOrder()
      reads this, flowList, flowList.flows
    {
      Config(windowSize, windowSize) && oldest <= now && flowList.Valid() && flowList.tree.Keys == records.Keys &&
      Ordered(records, times, windowSize, oldest, now, flowList.flows).Some?
    }

    lemma Details()
      requires Valid()
      ensures InOrder()
    {
      assert Shown(5, 0);
    }

    ghost predicate Valid()
      reads this, flowList, flowList.flows
    {
      Knows().Some?
    }

    constructor (size: nat)
      requires Config(size, size)
      ensures Valid() && Knows() == Some(map[]) && now == 0 && oldest == 0
      ensures windowSize == size && fresh(flowList) && flowList.flows == []
    {
      windowSize := size;
      flowList := new Dpd.List();
      records, times, now, oldest := map[], map[], 0, 0;
    }

    /** Test a number and remember it if it is new. */
    method IsDuplicate(currentTime: u32, ghost time: nat, flowId: int, pktId: u32) returns (dup: bool)
      requires Valid() && now <= time && currentTime == Wrap32(time)
      modifies this, flowList, flowList.flows
      ensures now == time && oldest == old(oldest)
      ensures dup == Refused(old(Knows()).value, windowSize, windowSize, flowId, pktId)
      ensures Knows() == Some(Recorded(old(Knows()).value, windowSize, windowSize, currentTime, flowId, pktId))
      ensures forall i | 0 <= i < |flowList.flows| ::
              flowList.flows[i] in old(flowList.flows) || fresh(flowList.flows[i])
    {
      SetTime(time);
      var theFlow := Find(flowId);
      if theFlow == null {
        FirstOfFlow(currentTime, flowId, pktId);
        dup := false;
      } else {
        dup := Again(theFlow, currentTime, pktId);
      }
    }

    /** The first number of a flow. */
    method FirstOfFlow(currentTime: u32, flowId: int, pktId: u32)
      requires Valid() && flowId !in Knows().value && currentTime == Wrap32(now)
      modifies this`records, this`times, flowList, flowList.flows
      ensures !Refused(old(Knows()).value, windowSize, windowSize, flowId, pktId)
      ensures Knows() == Some(Recorded(old(Knows()).value, windowSize, windowSize, currentTime, flowId, pktId))
      ensures forall i | 0 <= i < |flowList.flows| ::
              flowList.flows[i] in old(flowList.flows) || fresh(flowList.flows[i])
    {
      Details();
      var dup, mask := WindowIsDuplicate(EMPTY, windowSize, pktId);
      AddFlow(flowId, FlowRecord(mask, currentTime));
    }

    /** A number of a flow known: only a new one stamps the flow and moves it to the tail. */
    method Again(theFlow: Flow, currentTime: u32, pktId: u32) returns (dup: bool)
      requires Valid() && theFlow in flowList.flows && theFlow.key in Knows().value && currentTime == Wrap32(now)
      modifies this`records, this`times, flowList, flowList.flows
      ensures dup == Refused(old(Knows()).value, windowSize, windowSize, theFlow.key, pktId)
      ensures Knows() == Some(Recorded(old(Knows()).value, windowSize, windowSize, currentTime, theFlow.key, pktId))
      ensures forall i | 0 <= i < |flowList.flows| :: flowList.flows[i] in old(flowList.flows)
    {
      Details();
      var mask;
      dup, mask := WindowIsDuplicate(records[theFlow.key].mask, windowSize, pktId);
      if !dup {
        MoveToTail(theFlow, FlowRecord(mask, currentTime));
      }
    }

    method Find(flowId: int) returns (theFlow: Flow?)
      requires Valid()
      ensures theFlow == null <==> flowId !in Knows().value
      ensures theFlow != null ==> theFlow in flowList.flows && theFlow.key == flowId
      ensures flowId in Knows().value ==> flowId in records && Knows().value[flowId] == records[flowId]
      ensures ValidRecords(Knows().value, windowSize) && Config(windowSize, windowSize)
    {
      Details();
      theFlow := flowList.Find(flowId);
    }

    ghost method SetTime(time: nat)
      requires Valid() && now <= time
      modifies `now
      ensures Knows() == old(Knows()) && now == time
    {
      Details();
      OrderedLater(records, times, windowSize, oldest, now, flowList.flows, time);
      now := time;
    }

    lemma AddReady(theFlow: Flow, r: FlowRecord)
      requires Valid() && theFlow.key !in records && r.updated == Wrap32(now)
      requires r.mask.IsSet() && ValidMask(r.mask, windowSize)
      ensures Config(windowSize, windowSize) && oldest <= now && flowList.Valid() && Knows() == Some(records)
      ensures flowList.tree.Keys == records.Keys
      ensures Ordered(records[theFlow.key := r], times[theFlow.key := now], windowSize, oldest, now,
                      flowList.flows + [theFlow]).Some?
    {
      Details();
      OrderedAtEnd(records, times, windowSize, oldest, now, flowList.flows, theFlow, r);
    }

    method AddFlow(flowId: int, r: FlowRecord)
      requires Valid() && flowId !in records && r.updated == Wrap32(now)
      requires r.mask.IsSet() && ValidMask(r.mask, windowSize)
      modifies this`records, this`times, flowList, flowList.flows
      ensures Knows() == Some(old(Knows()).value[flowId := r])
      ensures forall i | 0 <= i < |flowList.flows| ::
              flowList.flows[i] in old(flowList.flows) || fresh(flowList.flows[i])
    {
      var theFlow := new Flow(flowId);
      AddReady(theFlow, r);
      flowList.Append(theFlow);
      assert flowList.tree.Keys == records.Keys + {flowId};
      Put(flowId, r);
    }

    lemma MoveReady(theFlow: Flow, r: FlowRecord)
      requires Valid() && theFlow in flowList.flows && r.updated == Wrap32(now)
      requires r.mask.IsSet() && ValidMask(r.mask, windowSize)
      ensures Config(windowSize, windowSize) && oldest <= now && flowList.Valid() && Knows() == Some(records)
      ensures flowList.tree.Keys == records.Keys + {theFlow.key}
      ensures Ordered(records[theFlow.key := r], times[theFlow.key := now], windowSize, oldest, now,
                      Without(flowList.flows, theFlow) + [theFlow]).Some?
    {
      Details();
      OrderedMoved(records, times, windowSize, oldest, now, flowList.flows, theFlow, r);
    }

    method MoveToTail(theFlow: Flow, r: FlowRecord)
      requires Valid() && theFlow in flowList.flows && r.updated == Wrap32(now)
      requires r.mask.IsSet() && ValidMask(r.mask, windowSize)
      modifies this`records, this`times, flowList, flowList.flows
      ensures Knows() == Some(old(Knows()).value[theFlow.key := r])
      ensures forall i | 0 <= i < |flowList.flows| :: flowList.flows[i] in old(flowList.flows)
    {
      MoveReady(theFlow, r);
      flowList.MoveToTail(theFlow);
      Put(theFlow.key, r);
    }

    /** A flow stamped now, once the list is as it should be. */
    method Put(flowId: int, r: FlowRecord)
      requires Config(windowSize, windowSize) && oldest <= now && flowList.Valid()
      requires flowList.tree.Keys == records.Keys + {flowId}
      requires Ordered(records[flowId := r], times[flowId := now], windowSize, oldest, now, flowList.flows).Some?
      modifies this`records, this`times
      ensures Knows() == Some(old(records)[flowId := r])
    {
      records, times := records[flowId := r], times[flowId := now];
    }

    /** Remove flows from the head of the list up to the first one still fresh: exactly the
        flows not updated for longer than `ageMax` go, if no age has gone once around. */
    method Prune(currentTime: u32, ghost time: nat, ageMax: u32)
      requires Valid() && now <= time < oldest + U32_RANGE && currentTime == Wrap32(time)
      modifies this, flowList, flowList.flows
      ensures now == time && old(oldest) <= oldest && time <= oldest + ageMax
      ensures Knows() == Some(Pruned(old(Knows()).value, currentTime, ageMax))
      ensures forall i | 0 <= i < |flowList.flows| :: flowList.flows[i] in old(flowList.flows)
    {
      SetTime(time);
      PruneHeads(currentTime, ageMax);
      ExactlyPruned(old(records), records, times, now, ageMax);
      Details();
      Raise(if oldest + ageMax < now then now - ageMax else oldest);
    }

    method PruneHeads(currentTime: u32, ageMax: u32)
      requires Valid() && currentTime == Wrap32(now) && now < oldest + U32_RANGE
      modifies this`records, flowList, flowList.flows
      ensures Valid() && StaleGone(old(records), records, currentTime, ageMax)
      ensures NoneStale(records, times, now, ageMax)
      ensures forall i | 0 <= i < |flowList.flows| :: flowList.flows[i] in old(flowList.flows)
    {
      var nextFlow := flowList.head;
      var done := false;
      while nextFlow != null && !done
        invariant Valid() && nextFlow == flowList.head
        invariant forall i | 0 <= i < |flowList.flows| :: flowList.flows[i] in old(flowList.flows)
        invariant StaleGone(old(records), records, currentTime, ageMax)
        invariant done ==> NoneStale(records, times, now, ageMax)
        decreases |flowList.flows|, !done
      {
        HeadsAreMembers();
        var flow := nextFlow;
        if Age(currentTime, records[flow.key].updated) > ageMax {
          nextFlow := RemoveHead(flow, currentTime, ageMax, old(records));
        } else {
          HeadDecides(records, times, windowSize, oldest, now, flowList.flows, ageMax);
          done := true;
        }
      }
      if nextFlow == null {
        HeadsAreMembers();
        HeadDecides(records, times, windowSize, oldest, now, flowList.flows, ageMax);
      }
    }

    lemma HeadsAreMembers()
      requires Valid()
      ensures flowList.head == null <==> flowList.flows == []
      ensures flowList.head != null ==>
                flowList.head == flowList.flows[0] && Distinct(flowList.flows) &&
                flowList.head.key in records && flowList.head.key in flowList.tree
      ensures Ordered(records, times, windowSize, oldest, now, flowList.flows).Some?
    {
      Details();
    }

    /** Remove the flow at the head, and give back the one the iterator goes to. */
    method RemoveHead(flow: Flow, currentTime: u32, ageMax: u32, ghost before: Records) returns (nextFlow: Flow?)
      requires Valid() && flow == flowList.head && flow.key in records &&
               StaleGone(before, records, currentTime, ageMax)
      requires Age(currentTime, records[flow.key].updated) > ageMax
      modifies this`records, flowList, flowList.flows
      ensures Valid() && nextFlow == flowList.head && StaleGone(before, records, currentTime, ageMax)
      ensures |flowList.flows| < |old(flowList.flows)|
      ensures forall i | 0 <= i < |flowList.flows| :: flowList.flows[i] in old(flowList.flows)
    {
      Details();
      ghost var s := flowList.flows;
      HeadsAreMembers();
      OrderedTail(records, times, windowSize, oldest, now, s);
      nextFlow := flowList.RemoveHead(flow);
      Forget(flow.key);
    }

    method Forget(flowId: int)
      requires Config(windowSize, windowSize) && oldest <= now && flowList.Valid()
      requires flowList.tree.Keys == records.Keys - {flowId}
      requires Ordered(Forgotten(records, flowId), times, windowSize, oldest, now, flowList.flows).Some?
      modifies this`records
      ensures Knows() == Some(Forgotten(old(records), flowId)) && records == Forgotten(old(records), flowId)
    {
      records := Forgotten(records, flowId);
    }

    /** No flow is older than `bound`. */
    ghost method Raise(bound: nat)
      requires Valid() && oldest <= bound <= now && forall k | k in records :: k in times && bound <= times[k]
      modifies `oldest
      ensures Knows() == old(Knows()) && oldest == bound
    {
      Details();
      oldest := bound;
    }
  }
}
