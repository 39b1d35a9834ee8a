/**
  The forwarding table on the heap: entries move between the list of active flows and the
  list of idle ones, and pruning works through both from their tails.
*/
module ForwardingTable {
  import opened Basics
  import opened FlowLinks
  import opened FlowLists
  import opened FibTable

  lemma SetTwice(table: Table, key: int, e: Entry, then_: Entry)
    ensures table[key := e][key := then_] == table[key := then_]
  {
  }

  class MulticastFib {
    const activeList: ActiveList
    const idleList: ActiveList
    var table: Table              // contract of the flow table
    ghost var strays: set<Flow>   // the flows stranded
    ghost var times: Times
    ghost var now: nat            // the unwrapped time of the latest call

    /** The lists share no flow, and a stranded flow is in neither and has no links. */
    ghost predicate Linked()
      reads this`strays, strays, activeList, idleList, activeList.flows, idleList.flows
    {
      Apart(activeList, idleList) &&
      forall f | f in strays :: f.Detached() && f !in activeList.flows && f !in idleList.flows
    }

    /** The stranded flows, if the links are sound. */
    ghost function Layout(): Option<set<Flow>>
      reads this`strays, strays, activeList, idleList, activeList.flows, idleList.flows
    {
      if forall k: nat {:trigger Shown(4, k)} | Shown(4, k) :: Linked() then Some(strays) else None
    }

    /** The table, if it agrees with the lists. */
    ghost function Known(): Option<Table>
      reads this, strays, activeList, idleList, activeList.flows, idleList.flows
    {
      if forall k: nat {:trigger Shown(3, k)} | Shown(3, k) :: Agreed() then Some(table) else None
    }

    ghost predicate Agreed()
      reads this, strays, activeList, idleList, activeList.flows, idleList.flows
    {
      Layout().Some? && Agree(table, times, now, activeList.flows, idleList.flows, strays)
    }

    ghost predicate Sound()
      reads this, strays, activeList, idleList, activeList.flows, idleList.flows
    {
      Known().Some?
    }

    /** Sound, and the idle flag tells the idle list. */
    ghost predicate Valid()
      reads this, strays, activeList, idleList, activeList.flows, idleList.flows
    {
      Sound() && strays == {}
    }

    constructor ()
      ensures Valid() && table == map[] && now == 0 && fresh(activeList) && fresh(idleList)
      ensures activeList.flows == [] && idleList.flows == []
    {
      activeList := new ActiveList();
      idleList := new ActiveList();
      table, strays, times, now := map[], {}, map[], 0;
    }

    lemma LaidOut()
      requires Sound()
      ensures Layout().Some? && Agree(table, times, now, activeList.flows, idleList.flows, strays)
    {
      assert Shown(3, 0);
    }

    lemma LinksShown()
      requires Layout().Some?
      ensures Linked()
    {
      assert Shown(4, 0);
    }

    lemma TailsAreMembers()
      requires Sound()
      ensures (activeList.tail == null <==> activeList.flows == []) && (idleList.tail == null <==> idleList.flows == [])
      ensures activeList.tail != null ==>
                var s := activeList.flows;
                s != [] && activeList.tail == s[|s| - 1] && Distinct(s) && s[|s| - 1].key in table &&
                table[s[|s| - 1].key].flow == s[|s| - 1] && table[s[|s| - 1].key].active &&
                Stamped(table[s[|s| - 1].key], times, now)
      ensures idleList.tail != null ==>
                var s := idleList.flows;
                s != [] && idleList.tail == s[|s| - 1] && Distinct(s) && s[|s| - 1].key in table &&
                table[s[|s| - 1].key].flow == s[|s| - 1] && table[s[|s| - 1].key].idle &&
                Stamped(table[s[|s| - 1].key], times, now)
    {
      LaidOut();
      LinksShown();
    }

    // ----- links -----

    method LeaveActive(flow: Flow)
      requires Layout().Some? && flow in activeList.flows
      modifies activeList, activeList.flows`prev, activeList.flows`next
      ensures Layout().Some? && activeList.flows == Without(old(activeList.flows), flow) &&
              idleList.flows == old(idleList.flows)
      ensures flow !in activeList.flows && flow !in idleList.flows && flow !in strays
      ensures forall i | 0 <= i < |activeList.flows| :: activeList.flows[i] in old(activeList.flows)
    {
      LinksShown();
      MoveOut(activeList, idleList, flow);
    }

    method EnterActive(flow: Flow)
      requires Layout().Some? && flow !in activeList.flows && flow !in idleList.flows && flow !in strays
      modifies activeList, activeList.flows`prev, flow`prev, flow`next
      ensures Layout().Some? && activeList.flows == [flow] + old(activeList.flows) &&
              idleList.flows == old(idleList.flows)
    {
      LinksShown();
      MoveIn(activeList, idleList, flow);
    }

    method LeaveIdle(flow: Flow)
      requires Layout().Some? && flow in idleList.flows
      modifies idleList, idleList.flows`prev, idleList.flows`next
      ensures Layout().Some? && activeList.flows == old(activeList.flows) &&
              idleList.flows == Without(old(idleList.flows), flow)
      ensures flow !in activeList.flows && flow !in idleList.flows && flow !in strays && flow.Detached()
      ensures forall i | 0 <= i < |idleList.flows| :: idleList.flows[i] in old(idleList.flows)
    {
      LinksShown();
      MoveOut(idleList, activeList, flow);
    }

    method EnterIdle(flow: Flow)
      requires Layout().Some? && flow !in activeList.flows && flow !in idleList.flows && flow !in strays
      modifies idleList, idleList.flows`prev, flow`prev, flow`next
      ensures Layout().Some? && activeList.flows == old(activeList.flows) &&
              idleList.flows == [flow] + old(idleList.flows)
    {
      LinksShown();
      MoveIn(idleList, activeList, flow);
    }

    method Bump(flow: Flow)
      requires Layout().Some? && flow in activeList.flows
      modifies activeList, activeList.flows`prev, activeList.flows`next
      ensures Layout().Some? && activeList.flows == [flow] + Without(old(activeList.flows), flow) &&
              idleList.flows == old(idleList.flows)
    {
      LeaveActive(flow);
      EnterActive(flow);
    }

    method GoIdle(flow: Flow)
      requires Layout().Some? && flow in activeList.flows
      modifies activeList, activeList.flows`prev, activeList.flows`next, idleList, idleList.flows`prev
      ensures Layout().Some? && activeList.flows == Without(old(activeList.flows), flow) &&
              idleList.flows == [flow] + old(idleList.flows)
    {
      LeaveActive(flow);
      EnterIdle(flow);
    }

    // ----- operations -----

    /** A new flow enters the table, in neither list. */
    method InsertEntry(flow: Flow, managed: bool)
      requires Sound() && flow.key !in table
      modifies this`table
      ensures Sound() && table == old(table)[flow.key := Entry(flow, managed, false, false, 0, true)]
    {
      LaidOut();
      table := table[flow.key := Entry(flow, managed, false, false, 0, true)];
    }

    /** The entry as it is now, once the lists are as they should be. */
    method Put(key: int, e: Entry, ghost at: Times, ghost time: nat)
      modifies this`table, this`times, this`now
      ensures table == old(table)[key := e] && times == at && now == time
      ensures Layout() == old(Layout())
      ensures Layout().Some? && Agree(table, times, now, activeList.flows, idleList.flows, strays) ==> Sound()
    {
      table, times, now := table[key := e], at, time;
    }

    method ClearFlag(key: int)
      requires key in table
      modifies this`table
      ensures table == old(table)[key := old(table[key]).(idle := false)]
      ensures Layout() == old(Layout()) && activeList.Chain() == old(activeList.Chain())
      ensures Layout().Some? && Agree(table, times, now, activeList.flows, idleList.flows, strays) ==> Sound()
    {
      table := table[key := table[key].(idle := false)];
    }

    /** Refresh an active flow and bump it to the front. */
    method RefreshFlow(key: int, ghost time: nat, currentTick: u32)
      requires Sound() && key in table && table[key].active && now <= time && currentTick == Wrap32(time)
      modifies this`table, this`times, this`now, activeList, activeList.flows`prev, activeList.flows`next
      ensures Sound() && now == time && idleList.flows == old(idleList.flows)
      ensures activeList.flows == [old(table[key].flow)] + Without(old(activeList.flows), old(table[key].flow))
      ensures table == old(table)[key := old(table[key]).Refresh(currentTick)] && times == old(times)[key := time]
    {
      ghost var a, b := activeList.flows, idleList.flows;
      LaidOut();
      Bump(table[key].flow);
      AgreeRefreshed(table, times, now, a, b, strays, key, time);
      Put(key, table[key].Refresh(currentTick), times[key := time], time);
    }

    method PutFront(flow: Flow)
      requires activeList.Valid() && flow !in activeList.flows
      modifies activeList, activeList.flows`prev, flow`prev, flow`next
      ensures activeList.Valid() && activeList.flows == [flow] + old(activeList.flows)
      ensures old(Layout().Some? && flow !in idleList.flows && flow !in strays) ==>
                Layout().Some? && idleList.flows == old(idleList.flows)
    {
      ghost var fits := Layout().Some? && flow !in idleList.flows && flow !in strays;
      if fits {
        LinksShown();
      }
      ghost var u := idleList.flows;
      assert fits ==> forall i | 0 <= i < |u| :: u[i] !in activeList.flows && u[i] != flow;
      activeList.Prepend(flow);
      assert fits ==> idleList.flows == u && Backward(u) && Forward(u);
    }

    /** Refresh a flow that is in neither list and put it in front of the active ones. */
    method ActivateFlow(key: int, ghost time: nat, currentTick: u32)
      requires activeList.Valid() && key in table && table[key].flow !in activeList.flows
      requires now <= time && currentTick == Wrap32(time)
      modifies this`table, this`times, this`now, activeList, activeList.flows`prev, table[key].flow`prev,
               table[key].flow`next
      ensures activeList.Valid() && activeList.flows == [old(table[key].flow)] + old(activeList.flows)
      ensures table == old(table)[key := old(table[key]).Activate(currentTick)]
      ensures now == time && times == old(times)[key := time]
      ensures old(Sound() && !table[key].active && !table[key].idle) ==>
              Sound() && idleList.flows == old(idleList.flows)
    {
      ghost var fits := Sound() && !table[key].active && !table[key].idle;
      ghost var a, b := activeList.flows, idleList.flows;
      if fits {
        LaidOut();
      }
      PutFront(table[key].flow);
      if fits {
        AgreeActivated(table, times, now, a, b, strays, key, time);
      }
      Put(key, table[key].Activate(currentTick), times[key := time], time);
    }

    /** Move an active flow to the idle list, with the current tick. */
    method DeactivateFlow(key: int, ghost time: nat, currentTick: u32)
      requires Sound() && key in table && table[key].active && now <= time && currentTick == Wrap32(time)
      modifies this`table, this`times, this`now, activeList, activeList.flows`prev, activeList.flows`next
      modifies idleList, idleList.flows`prev
      ensures Sound() && now == time
      ensures activeList.flows == Without(old(activeList.flows), old(table[key].flow))
      ensures idleList.flows == [old(table[key].flow)] + old(idleList.flows)
      ensures table == old(table)[key := old(table[key]).Demote(currentTick)]
      ensures times == old(times)[key := time]
    {
      ghost var a, b := activeList.flows, idleList.flows;
      LaidOut();
      GoIdle(table[key].flow);
      AgreeDemoted(table, times, now, a, b, strays, key, time);
      Put(key, table[key].Demote(currentTick), times[key := time], time);
    }

    /** Take an idle flow out of the idle list, where a stranded one is not. */
    method TakeIdle(flow: Flow)
      requires Layout().Some? && (flow in idleList.flows || flow in strays)
      modifies idleList, idleList.flows`prev, idleList.flows`next, flow`prev, flow`next
      ensures activeList.Valid() && activeList.flows == old(activeList.flows) && flow !in activeList.flows
      ensures flow in strays ==>
                idleList.head == null && idleList.tail == null && idleList.count == Decrement(old(idleList.count))
      ensures flow !in strays ==> Layout().Some? && idleList.flows == Without(old(idleList.flows), flow)
    {
      LinksShown();
      TakeOut(idleList, activeList, flow);
    }

    method ClearIdle(key: int)
      requires Sound() && key in table && table[key].idle
      modifies this`table, idleList, idleList.flows`prev, idleList.flows`next, table[key].flow`prev,
               table[key].flow`next
      ensures activeList.Valid() && activeList.flows == old(activeList.flows)
      ensures table == old(table)[key := old(table[key]).(idle := false)] && table[key].flow !in activeList.flows
      ensures old(table[key].flow !in strays) ==>
                Sound() && idleList.flows == Without(old(idleList.flows), table[key].flow)
      ensures old(table[key].flow in strays) ==>
                idleList.head == null && idleList.tail == null && idleList.count == Decrement(old(idleList.count))
    {
      ghost var a, b := activeList.flows, idleList.flows;
      LaidOut();
      TakeIdle(table[key].flow);
      if table[key].flow !in strays {
        AgreeTaken(table, times, now, a, b, strays, key);
      }
      ClearFlag(key);
    }

    /** The first step of `ReactivateFlow`. */
    method EndIdle(key: int)
      requires Sound() && key in table && !table[key].active
      modifies this`table, idleList, idleList.flows`prev, idleList.flows`next, table[key].flow`prev,
               table[key].flow`next
      ensures activeList != idleList && activeList.Valid() && activeList.flows == old(activeList.flows)
      ensures table == old(table)[key := old(table[key]).(idle := false)] && table[key].flow !in activeList.flows
      ensures old(table[key].flow !in strays) ==>
                Sound() && idleList.flows == if old(table[key].idle) then Without(old(idleList.flows), table[key].flow)
                                  else old(idleList.flows)
      ensures old(table[key].flow in strays) ==>
                idleList.head == null && idleList.tail == null && idleList.count == Decrement(old(idleList.count))
    {
      LaidOut();
      LinksShown();
      if table[key].idle {
        ClearIdle(key);
      } else {
        assert table == table[key := table[key].(idle := false)];
      }
    }

    /** Bring a flow that is not active, idle or not, back to the front.  A stranded one
        empties the idle list, whatever else is in it. */
    method ReactivateFlow(key: int, ghost time: nat, currentTick: u32)
      requires Sound() && key in table && !table[key].active && now <= time && currentTick == Wrap32(time)
      modifies this`table, this`times, this`now, activeList, activeList.flows`prev
      modifies idleList, idleList.flows`prev, idleList.flows`next, table[key].flow`prev, table[key].flow`next
      ensures now == time && activeList.Valid() && activeList.flows == [old(table[key].flow)] + old(activeList.flows)
      ensures table == old(table)[key := old(table[key]).(idle := false).Activate(currentTick)]
      ensures times == old(times)[key := time]
      ensures old(table[key].flow !in strays) ==>
                Sound() &&
                idleList.flows == if old(table[key].idle)
                                  then Without(old(idleList.flows), old(table[key].flow))
                                  else old(idleList.flows)
      ensures old(table[key].flow in strays) ==>
                idleList.head == null && idleList.tail == null && idleList.count == Decrement(old(idleList.count))
    {
      SetTwice(table, key, table[key].(idle := false), table[key].(idle := false).Activate(currentTick));
      EndIdle(key);
      ActivateFlow(key, time, currentTick);
    }

    // ----- pruning -----

    /** What follows once a stale idle entry is out of the list: an entry that is not managed
        is removed from the table, a managed one stays, flagged idle. */
    method Drop(key: int, currentTick: u32)
      requires Layout().Some? && key in table && table[key].flow.Detached()
      requires table[key].flow !in activeList.flows && table[key].flow !in idleList.flows
      requires Agree(Pruned(table, key, currentTick), times, now, activeList.flows, idleList.flows,
                     if table[key].managed then strays + {table[key].flow} else strays)
      modifies this`table, this`strays
      ensures Sound() && table == Pruned(old(table), key, currentTick)
      ensures strays == old(if table[key].managed then strays + {table[key].flow} else strays)
    {
      LinksShown();
      if table[key].managed {
        strays := strays + {table[key].flow};
      }
      table := Pruned(table, key, currentTick);
    }

    ghost method Advance(time: nat)
      requires Sound() && now <= time
      modifies this`now
      ensures Sound() && now == time
    {
      LaidOut();
      AgreeLater(table, times, now, activeList.flows, idleList.flows, strays, time);
      now := time;
    }

    /** The entry at the tail of the list has reached the age of `timeout`. */
    predicate StaleTail(list: ActiveList, currentTick: u32, timeout: nat)
      reads this`table, list
    {
      list.tail != null && list.tail.key in table && table[list.tail.key].Age(currentTick) >= timeout
    }

    lemma StaleTailExactly(timeout: nat)
      requires Sound() && timeout <= TICK_AGE_MAX
      ensures var s := activeList.flows;
              InReach(s, times, now) ==>
                (StaleTail(activeList, Wrap32(now), timeout) <==> s != [] && now - TimeOf(times, s[|s| - 1]) >= timeout)
      ensures var s := idleList.flows;
              InReach(s, times, now) ==>
                (StaleTail(idleList, Wrap32(now), timeout) <==> s != [] && now - TimeOf(times, s[|s| - 1]) >= timeout)
    {
      TailsAreMembers();
      if activeList.tail != null && InReach(activeList.flows, times, now) {
        AgeExactly(table[activeList.tail.key], times, now);
      }
      if idleList.tail != null && InReach(idleList.flows, times, now) {
        AgeExactly(table[idleList.tail.key], times, now);
      }
    }

    method DropIdle(flow: Flow, currentTick: u32)
      requires Sound() && flow in idleList.flows && flow.key in table && table[flow.key].flow == flow
      modifies this`table, this`strays, idleList, idleList.flows`prev, idleList.flows`next
      ensures Sound() && activeList.flows == old(activeList.flows) &&
              idleList.flows == Without(old(idleList.flows), flow)
      ensures table == Pruned(old(table), flow.key, currentTick)
      ensures strays == old(if table[flow.key].managed then strays + {flow} else strays)
    {
      ghost var a, b := activeList.flows, idleList.flows;
      LaidOut();
      LeaveIdle(flow);
      AgreeDropped(table, times, now, a, b, strays, flow.key, currentTick);
      Drop(flow.key, currentTick);
    }

    ghost function Now(): Made
      reads this, activeList, idleList
    {
      Made(table, times, activeList.flows, idleList.flows)
    }

    ghost function Rest(): Left
      reads this, idleList
    {
      Left(table, idleList.flows, strays)
    }

    /** Pruning has got this far with the active list of `was`, if all is sound. */
    ghost function Demoting(was: Made, currentTick: u32): Option<nat>
      reads this, strays, activeList, idleList, activeList.flows, idleList.flows
    {
      if Sound() && currentTick == Wrap32(now)
      then Now().Progress(was, strays, now, currentTick, |activeList.flows|) else None
    }

    /** And this far with the idle list. */
    ghost function Dropping(was: Left, currentTick: u32): Option<nat>
      reads this, strays, activeList, idleList, activeList.flows, idleList.flows
    {
      if Sound() && currentTick == Wrap32(now)
      then Rest().Progress(was, activeList.flows, times, now, currentTick, |idleList.flows|) else None
    }

    /** What one round will leave. */
    lemma DemoteReady(currentTick: u32, was: Made) returns (next: Made)
      requires Demoting(was, currentTick).Some? && StaleTail(activeList, currentTick, FLOW_ACTIVE_TIMEOUT)
      ensures var s, f := activeList.flows, activeList.tail;
              && s != [] && f.key in table && table[f.key].flow == f && table[f.key].active
              && |next.active| == |s| - 1 && currentTick == Wrap32(now)
              && next.table == table[f.key := table[f.key].Demote(currentTick)] && next.times == times[f.key := now]
              && next.active == Without(s, f) && next.idle == [f] + idleList.flows
      ensures next.Progress(was, strays, now, currentTick, |next.active|).Some?
      ensures var s := activeList.flows; forall i | 0 <= i < |s| :: s[i] in was.active
      ensures var s := idleList.flows; forall i | 0 <= i < |s| :: s[i] in was.active || s[i] in was.idle
    {
      MadeSofar(was, Now(), strays, now, |activeList.flows|, currentTick);
      StaleTailExactly(FLOW_ACTIVE_TIMEOUT);
      TailsAreMembers();
      MadeStep(was, Now(), strays, now, |activeList.flows|, currentTick);
      WithoutLast(activeList.flows);
      var s, f := activeList.flows, activeList.tail;
      next := Made(table[f.key := table[f.key].Demote(currentTick)], times[f.key := now], Without(s, f),
                   [f] + idleList.flows);
    }

    lemma DemoteSettled(next: Made, currentTick: u32, was: Made)
      requires Sound() && currentTick == Wrap32(now)
      requires table == next.table && times == next.times
      requires activeList.flows == next.active && idleList.flows == next.idle
      requires next.Progress(was, strays, now, currentTick, |next.active|).Some?
      ensures Demoting(was, currentTick).Some?
    {
      assert Now() == next;
    }

    /** One round of pruning the active list. */
    method DemoteTail(currentTick: u32, ghost was: Made)
      requires Demoting(was, currentTick).Some? && StaleTail(activeList, currentTick, FLOW_ACTIVE_TIMEOUT)
      modifies this`table, this`times, this`now, activeList, idleList
      modifies was.active`prev, was.active`next, was.idle`prev
      ensures Demoting(was, currentTick).Some? && now == old(now) && |activeList.flows| < |old(activeList.flows)|
    {
      ghost var next := DemoteReady(currentTick, was);
      DeactivateFlow(activeList.tail.key, now, currentTick);
      DemoteSettled(next, currentTick, was);
    }

    /** Demote the stale entries of the active list. */
    method PruneActive(currentTick: u32, ghost was: Made)
      requires Demoting(was, currentTick).Some?
      modifies this`table, this`times, this`now, activeList, idleList
      modifies was.active`prev, was.active`next, was.idle`prev
      ensures Demoting(was, currentTick).Some? && now == old(now)
      ensures !StaleTail(activeList, currentTick, FLOW_ACTIVE_TIMEOUT)
    {
      while StaleTail(activeList, currentTick, FLOW_ACTIVE_TIMEOUT)
        invariant Demoting(was, currentTick).Some? && now == old(now)
        decreases |activeList.flows|
      {
        DemoteTail(currentTick, was);
      }
    }

    /** What one round will leave. */
    lemma DropReady(currentTick: u32, was: Left) returns (next: Left)
      requires Dropping(was, currentTick).Some? && StaleTail(idleList, currentTick, FLOW_IDLE_TIMEOUT)
      ensures var s, f := idleList.flows, idleList.tail;
              && f in s && f.key in table && table[f.key].flow == f && |next.idle| == |s| - 1
              && next.table == Pruned(table, f.key, currentTick) && next.idle == Without(s, f)
              && next.strays == if table[f.key].managed then strays + {f} else strays
      ensures next.Progress(was, activeList.flows, times, now, currentTick, |next.idle|).Some?
      ensures forall i | 0 <= i < |idleList.flows| :: idleList.flows[i] in was.idle
    {
      LeftSofar(was, Rest(), activeList.flows, times, now, |idleList.flows|, currentTick);
      StaleTailExactly(FLOW_IDLE_TIMEOUT);
      TailsAreMembers();
      LeftStep(was, Rest(), activeList.flows, times, now, |idleList.flows|, currentTick);
      WithoutLast(idleList.flows);
      var s, f := idleList.flows, idleList.tail;
      next := Left(Pruned(table, f.key, currentTick), Without(s, f),
                   if table[f.key].managed then strays + {f} else strays);
    }

    lemma DropSettled(next: Left, active: seq<Flow>, currentTick: u32, was: Left)
      requires Sound() && currentTick == Wrap32(now) && activeList.flows == active
      requires table == next.table && idleList.flows == next.idle && strays == next.strays
      requires next.Progress(was, active, times, now, currentTick, |next.idle|).Some?
      ensures Dropping(was, currentTick).Some?
    {
      assert Rest() == next;
    }

    /** One round of pruning the idle list. */
    method DropTail(currentTick: u32, ghost was: Left)
      requires Dropping(was, currentTick).Some? && StaleTail(idleList, currentTick, FLOW_IDLE_TIMEOUT)
      modifies this`table, this`strays, idleList, was.idle`prev, was.idle`next
      ensures Dropping(was, currentTick).Some? && |idleList.flows| < |old(idleList.flows)|
    {
      ghost var next := DropReady(currentTick, was);
      DropIdle(idleList.tail, currentTick);
      DropSettled(next, activeList.flows, currentTick, was);
    }

    /** Take the stale entries out of the idle list. */
    method PruneIdle(currentTick: u32, ghost was: Left)
      requires Dropping(was, currentTick).Some?
      modifies this`table, this`strays, idleList, was.idle`prev, was.idle`next
      ensures Dropping(was, currentTick).Some? && !StaleTail(idleList, currentTick, FLOW_IDLE_TIMEOUT)
    {
      while StaleTail(idleList, currentTick, FLOW_IDLE_TIMEOUT)
        invariant Dropping(was, currentTick).Some?
        decreases |idleList.flows|
      {
        DropTail(currentTick, was);
      }
    }

    lemma DemotingStarts(currentTick: u32)
      requires Sound() && currentTick == Wrap32(now)
      requires InReach(activeList.flows, times, now) && InReach(idleList.flows, times, now)
      ensures Demoting(Now(), currentTick).Some?
    {
      LaidOut();
    }

    lemma DemotingEnds(was: Made, currentTick: u32)
      requires Demoting(was, currentTick).Some? && !StaleTail(activeList, currentTick, FLOW_ACTIVE_TIMEOUT)
      ensures Now().Halfway(was, strays, now, currentTick).Some? && Dropping(Rest(), currentTick).Some?
    {
      MadeSofar(was, Now(), strays, now, |activeList.flows|, currentTick);
      StaleTailExactly(FLOW_ACTIVE_TIMEOUT);
      MadeWhole(was, Now(), strays, now, |activeList.flows|, currentTick);
      LaidOut();
      LeftStarts(Rest(), activeList.flows, times, now, currentTick);
    }

    lemma DroppingEnds(was: Made, mid: Made, left: Left, currentTick: u32) returns (m: nat)
      requires Dropping(left, currentTick).Some? && !StaleTail(idleList, currentTick, FLOW_IDLE_TIMEOUT)
      requires left.table == mid.table && left.idle == mid.idle && times == mid.times && activeList.flows == mid.active
      requires mid.Halfway(was, left.strays, now, currentTick).Some?
      ensures Sound()
      ensures Outcome(was, left.strays, Rest(), activeList.flows, times, now, currentTick, |activeList.flows|, m).Some?
    {
      IdleIsCut(left, currentTick);
      m := BothCut(was, mid, left.strays, Rest(), now, currentTick, |mid.active|, |idleList.flows|);
    }

    lemma IdleIsCut(left: Left, currentTick: u32)
      requires Dropping(left, currentTick).Some? && !StaleTail(idleList, currentTick, FLOW_IDLE_TIMEOUT)
      ensures Sound() && Rest().Progress(left, activeList.flows, times, now, currentTick, |idleList.flows|).Some?
      ensures CutAt(left.idle, times, now, FLOW_IDLE_TIMEOUT, |idleList.flows|)
    {
      var cut := |idleList.flows|;
      LeftSofar(left, Rest(), activeList.flows, times, now, cut, currentTick);
      StaleTailExactly(FLOW_IDLE_TIMEOUT);
      LeftWhole(left, Rest(), activeList.flows, times, now, cut, currentTick);
    }

    method DemoteStale(currentTick: u32, ghost was: Made)
      requires Demoting(was, currentTick).Some?
      modifies this`table, this`times, this`now, activeList, idleList
      modifies was.active`prev, was.active`next, was.idle`prev
      ensures now == old(now) && Now().Halfway(was, strays, now, currentTick).Some? &&
              Dropping(Rest(), currentTick).Some?
    {
      PruneActive(currentTick, was);
      DemotingEnds(was, currentTick);
    }

    method DropStale(currentTick: u32, ghost was: Made) returns (ghost m: nat)
      requires Now().Halfway(was, strays, now, currentTick).Some? && Dropping(Rest(), currentTick).Some?
      modifies this`table, this`strays, idleList, was.active`prev, was.active`next, was.idle`prev, was.idle`next
      ensures Sound()
      ensures Outcome(was, old(strays), Rest(), activeList.flows, times, now, currentTick, |activeList.flows|, m).Some?
    {
      ghost var mid, left := Now(), Rest();
      MadeSofar(was, mid, strays, now, |activeList.flows|, currentTick);
      PruneIdle(currentTick, left);
      m := DroppingEnds(was, mid, left, currentTick);
    }

    /** Both lists, with the cuts each of them got. */
    method PruneBoth(currentTick: u32, ghost was: Made) returns (ghost m: nat)
      requires Demoting(was, currentTick).Some?
      modifies this`table, this`times, this`now, this`strays, activeList, idleList
      modifies was.active`prev, was.active`next, was.idle`prev, was.idle`next
      ensures Sound() && now == old(now)
      ensures Outcome(was, old(strays), Rest(), activeList.flows, times, now, currentTick, |activeList.flows|, m).Some?
    {
      DemoteStale(currentTick, was);
      m := DropStale(currentTick, was);
    }

    /** Demote the stale active entries and take the stale idle ones out, each list from its
        tail: exactly those not refreshed for the timeout.  A managed entry taken out is
        stranded. */
    method PruneFlowList(currentTick: u32, ghost time: nat) returns (ghost k: nat, ghost m: nat)
      requires Sound() && now <= time && currentTick == Wrap32(time)
      requires InReach(activeList.flows, times, time) && InReach(idleList.flows, times, time)
      modifies this`table, this`times, this`now, this`strays, activeList, idleList
      modifies activeList.flows`prev, activeList.flows`next, idleList.flows`prev, idleList.flows`next
      ensures Sound() && now == time
      ensures CutAt(old(activeList.flows), old(times), time, 60_000_000, k)
      ensures CutAt(old(idleList.flows), old(times), time, 120_000_000, m)
      ensures DemotedFrom(old(times), times, time, old(activeList.flows), old(idleList.flows), k)
      ensures activeList.flows == old(activeList.flows)[..k]
      ensures idleList.flows == old(activeList.flows)[k..] + old(idleList.flows)[..m]
      ensures table == PrunedAll(DemotedAll(old(table), old(activeList.flows)[k..], currentTick),
                                old(idleList.flows)[m..], currentTick)
      ensures strays == old(strays) + ManagedIn(old(table), old(idleList.flows)[m..])
      ensures Valid() <==> old(Valid()) && NoStaleManaged(old(table), old(idleList.flows), m)
    {
      Advance(time);
      DemotingStarts(currentTick);
      NoneManaged(table, idleList.flows);
      m := PruneBoth(currentTick, Now());
      k := |activeList.flows|;
    }

    /** A prune that strands the managed entry under `key`. */
    method StrandByPruning(key: int, currentTick: u32, ghost time: nat)
      requires Sound() && now <= time && currentTick == Wrap32(time)
      requires InReach(activeList.flows, times, time) && InReach(idleList.flows, times, time)
      requires key in table && table[key].managed && table[key].flow in idleList.flows
      requires time - TimeOf(times, table[key].flow) >= FLOW_IDLE_TIMEOUT
      modifies this`table, this`times, this`now, this`strays, activeList, idleList
      modifies activeList.flows`prev, activeList.flows`next, idleList.flows`prev, idleList.flows`next
      ensures Sound() && now == time && key in table && table[key].flow == old(table)[key].flow
      ensures table[key].flow in strays && !table[key].active
      ensures StillIdle(old(table), table, old(times), time, old(activeList.flows), old(idleList.flows),
                        currentTick, key)
      ensures var s := activeList.flows; forall i | 0 <= i < |s| :: s[i] in old(activeList.flows)
      ensures var s := idleList.flows;
              forall i | 0 <= i < |s| :: s[i] in old(activeList.flows) || s[i] in old(idleList.flows)
    {
      ghost var was, at, a, b, before, then_ := table, times, activeList.flows, idleList.flows, strays, now;
      LaidOut();
      var k, m := PruneFlowList(currentTick, time);
      ResultMembers(a, b, k, m);
      StrandedByPruning(was, at, then_, time, a, b, before, currentTick, k, m, key);
    }

    /** A managed flow stays idle until a prune strands it, and then sends again: the idle list
        is empty afterwards, although all the other entries in it are still flagged idle. */
    method LoseIdle(key: int, currentTick: u32, ghost time: nat, nextTick: u32, ghost then_: nat)
      requires Sound() && now <= time <= then_ && currentTick == Wrap32(time) && nextTick == Wrap32(then_)
      requires InReach(activeList.flows, times, time) && InReach(idleList.flows, times, time)
      requires key in table && table[key].managed && table[key].flow in idleList.flows
      requires time - TimeOf(times, table[key].flow) >= FLOW_IDLE_TIMEOUT
      modifies this`table, this`times, this`now, this`strays, activeList, idleList
      modifies activeList.flows`prev, activeList.flows`next, idleList.flows`prev, idleList.flows`next
      ensures idleList.head == null && idleList.tail == null
      ensures StillIdle(old(table), table, old(times), time, old(activeList.flows), old(idleList.flows),
                        currentTick, key)
    {
      StrandByPruning(key, currentTick, time);
      StillIdleBesides(old(table), table, old(times), time, old(activeList.flows), old(idleList.flows),
                       currentTick, key, table[key].(idle := false).Activate(nextTick));
      ReactivateFlow(key, then_, nextTick);
    }

    /** A flow seen for the first time. */
    method NewFlow(flow: Flow, managed: bool, ghost time: nat, currentTick: u32)
      requires Sound() && flow.key !in table && flow !in activeList.flows && now <= time && currentTick == Wrap32(time)
      modifies this`table, this`times, this`now, activeList, activeList.flows`prev, flow`prev, flow`next
      ensures Sound() && now == time && times == old(times)[flow.key := time]
      ensures activeList.flows == [flow] + old(activeList.flows) && idleList.flows == old(idleList.flows)
      ensures table == old(table)[flow.key := Entry(flow, managed, false, false, 0, true).Activate(currentTick)]
    {
      InsertEntry(flow, managed);
      LaidOut();
      LinksShown();
      ActivateFlow(flow.key, time, currentTick);
    }
  }

  /** A managed flow that has just sent something. */
  method ManagedActive() returns (fib: MulticastFib, kept: Flow)
    ensures fib.Valid() && fib.now == 0 && kept.key == 1 && TimeOf(fib.times, kept) == 0
    ensures fresh(fib) && fresh(fib.activeList) && fresh(fib.idleList) && fresh(kept)
    ensures fib.activeList.flows == [kept] && fib.idleList.flows == []
    ensures fib.table == map[1 := Entry(kept, true, true, false, 0, false)]
  {
    fib := new MulticastFib();
    kept := new Flow(1);
    fib.NewFlow(kept, true, 0, 0);
  }

  /** The same flow, gone idle. */
  method ManagedIdle() returns (fib: MulticastFib, kept: Flow)
    ensures fib.Valid() && fib.now == 60_000_000 && kept.key == 1 && TimeOf(fib.times, kept) == 60_000_000
    ensures fresh(fib) && fresh(fib.activeList) && fresh(fib.idleList) && fresh(kept)
    ensures fib.activeList.flows == [] && fib.idleList.flows == [kept]
    ensures 1 in fib.table && fib.table[1] == Entry(kept, true, false, true, 60_000_000, false) && 2 !in fib.table
  {
    fib, kept := ManagedActive();
    ghost var times := fib.times;
    var k, m := fib.PruneFlowList(60_000_000, 60_000_000);
    CutOfOne([kept], times, 60_000_000, FLOW_ACTIVE_TIMEOUT, k);
  }

  /** A second flow, which is not managed, while the first is idle. */
  method SecondActive() returns (fib: MulticastFib, kept: Flow, lost: Flow)
    ensures fib.Valid() && fib.now == 120_000_000 && kept.key == 1 && lost.key == 2
    ensures TimeOf(fib.times, kept) == 60_000_000 && TimeOf(fib.times, lost) == 120_000_000
    ensures fresh(fib) && fresh(fib.activeList) && fresh(fib.idleList) && fresh(kept) && fresh(lost)
    ensures fib.activeList.flows == [lost] && fib.idleList.flows == [kept]
    ensures 1 in fib.table && fib.table[1] == Entry(kept, true, false, true, 60_000_000, false)
    ensures 2 in fib.table && fib.table[2] == Entry(lost, false, true, false, 120_000_000, false)
  {
    fib, kept := ManagedIdle();
    lost := new Flow(2);
    fib.NewFlow(lost, false, 120_000_000, 120_000_000);
  }

  /** A minute later the second flow goes idle, too, and the first, by then stranded, sends
      again: the second is flagged idle and in no list. */
  method LosingRun() returns (fib: MulticastFib)
    ensures fib.idleList.head == null && fib.idleList.tail == null
    ensures 2 in fib.table && fib.table[2].idle && !fib.table[2].managed && !fib.table[2].active
  {
    var kept, lost;
    fib, kept, lost := SecondActive();
    ghost var before := fib.activeList.flows;
    assert before[0] == lost;
    fib.LoseIdle(1, 180_000_000, 180_000_000, 181_000_000, 181_000_000);
  }
}
