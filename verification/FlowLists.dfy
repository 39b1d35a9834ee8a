/**
  The list on which the forwarding table ages its entries, and two such lists sharing the
  link fields: an entry sits in the list of active flows, in the list of idle flows, or in
  neither.
*/
module FlowLists {
  import opened Basics
  import opened FlowLinks

  // ----- one list -----

  class ActiveList {
    var count: u32
    var head: Flow?
    var tail: Flow?
    ghost var flows: seq<Flow>

    /** The links form one chain through distinct flows in both directions. */
    ghost predicate Linked()
      reads this, flows`prev, flows`next
    {
      count == Wrap32(|flows|) && Distinct(flows) && Backward(flows) && Forward(flows) &&
      head == (if flows == [] then null else flows[0]) &&
      tail == (if flows == [] then null else flows[|flows| - 1])
    }

    /** The flows in the list, if it is sound. */
    ghost function Chain(): Option<seq<Flow>>
      reads this, flows`prev, flows`next
    {
      if Linked() then Some(flows) else None
    }

    ghost predicate Valid()
      reads this, flows`prev, flows`next
    {
      Chain().Some?
    }

    constructor ()
      ensures Valid() && flows == []
    {
      count, head, tail, flows := 0, null, null, [];
    }

    method Prepend(flow: Flow)
      requires Valid() && flow !in flows
      modifies this, flows`prev, flow`prev, flow`next
      ensures Valid() && flows == [flow] + old(flows)
    {
      ghost var s := flows;
      CountsOn(|s|);
      if head != null {
        head.prev := flow;
      } else {
        tail := flow;
      }
      flow.prev := null;
      flow.next := head;
      head := flow;
      count := Wrap32(count + 1);
      flows := [flow] + s;
      assert forall i | 1 <= i < |flows| :: flows[i] == s[i - 1];
    }

    /** A flow of the list leaves it with both links null.  A flow that is in no list and has
        no links takes all others with it. */
    method Remove(flow: Flow)
      requires Valid() && (flow in flows || flow.Detached())
      modifies this, flows`prev, flows`next, flow`prev, flow`next
      ensures flow.Detached()
      ensures flow in old(flows) ==> Valid() && flows == Without(old(flows), flow)
      ensures flow !in old(flows) ==> head == null && tail == null && count == Decrement(old(count))
    {
      ghost var s := flows;
      ghost var k := if flow in s then IndexIn(s, flow) else 0;
      Unlink(flow, s, k);
      if flow in s {
        BridgedChain(s, k);
        CountsBack(|s|);
      }
    }

    /** The pointer surgery of `Remove`. */
    method Unlink(flow: Flow, ghost s: seq<Flow>, ghost k: nat)
      requires flow in s || flow.Detached()
      requires flow in s ==> Valid() && s == flows && k < |s| && s[k] == flow
      modifies this, s`prev, s`next, flow`prev, flow`next
      ensures flow.Detached() && count == Decrement(old(count)) && flows == Without(s, flow)
      ensures flow in s ==> Bridged(s, k)
      ensures head == if flow in s && k > 0 then s[0] else if flow in s && |s| > 1 then s[1] else null
      ensures tail == if flow in s && k < |s| - 1 then s[|s| - 1] else if flow in s && |s| > 1 then s[|s| - 2] else null
    {
      flows := Without(s, flow);
      var prev := flow.prev;
      var next := flow.next;
      assert flow in s ==> prev == if k == 0 then null else s[k - 1];
      assert flow in s ==> next == if k == |s| - 1 then null else s[k + 1];
      if next != null {
        next.prev := prev;
        flow.next := null;
      } else {
        tail := prev;
      }
      if prev != null {
        prev.next := next;
        flow.prev := null;
      } else {
        head := next;
      }
      count := Decrement(count);
    }
  }

  // ----- two lists -----

  /** Two sound lists without a common flow. */
  ghost predicate Apart(a: ActiveList, b: ActiveList)
    reads a, b, a.flows`prev, a.flows`next, b.flows`prev, b.flows`next
  {
    a != b && a.Valid() && b.Valid() &&
    forall i, j | 0 <= i < |a.flows| && 0 <= j < |b.flows| :: a.flows[i] != b.flows[j]
  }

  method MoveOut(a: ActiveList, b: ActiveList, flow: Flow)
    requires Apart(a, b) && flow in a.flows
    modifies a, a.flows`prev, a.flows`next
    ensures Apart(a, b) && b.flows == old(b.flows)
    ensures a.flows == Without(old(a.flows), flow) && flow.Detached() && flow !in a.flows && flow !in b.flows
    ensures forall i | 0 <= i < |a.flows| :: a.flows[i] in old(a.flows)
  {
    ghost var s, u := a.flows, b.flows;
    WithoutMembers(s, flow);
    assert forall i | 0 <= i < |u| :: u[i] !in s;
    a.Remove(flow);
    assert b.flows == u && Backward(u) && Forward(u);
  }

  /** Taking out of `a` what is in neither list leaves nothing in it. */
  method TakeOut(a: ActiveList, b: ActiveList, flow: Flow)
    requires Apart(a, b) && flow !in b.flows && (flow in a.flows || flow.Detached())
    modifies a, a.flows`prev, a.flows`next, flow`prev, flow`next
    ensures b.Valid() && b.flows == old(b.flows)
    ensures flow !in old(a.flows) ==> a.head == null && a.tail == null && a.count == Decrement(old(a.count))
    ensures flow in old(a.flows) ==> Apart(a, b) && a.flows == Without(old(a.flows), flow)
  {
    ghost var s, u := a.flows, b.flows;
    if flow in s {
      WithoutMembers(s, flow);
    }
    assert forall i | 0 <= i < |u| :: u[i] !in s && u[i] != flow;
    a.Remove(flow);
    assert b.flows == u && Backward(u) && Forward(u);
  }

  method MoveIn(a: ActiveList, b: ActiveList, flow: Flow)
    requires Apart(a, b) && flow !in a.flows && flow !in b.flows
    modifies a, a.flows`prev, flow`prev, flow`next
    ensures Apart(a, b) && b.flows == old(b.flows)
    ensures a.flows == [flow] + old(a.flows)
  {
    ghost var u := b.flows;
    assert forall i | 0 <= i < |u| :: u[i] !in a.flows && u[i] != flow;
    a.Prepend(flow);
    assert b.flows == u && Backward(u) && Forward(u);
  }
}
