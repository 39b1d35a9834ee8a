/**
  The flow list of the window based duplicate detector: a tree that finds a flow by its
  identifier and a list with the stalest flow at the head, which must agree with each other,
  and the detector that keeps a window for each flow.

  A flow taken out of the list keeps its links; this does no harm, as putting it in again
  overwrites both of them.
*/
module DpdFlowList {
  import opened Basics
  import opened FlowLinks

  /** The tree finds exactly the flows of `s`, each under its identifier. */
  ghost predicate Found(tree: map<int, Flow>, s: seq<Flow>) {
    (forall i | 0 <= i < |s| :: s[i].key in tree && tree[s[i].key] == s[i]) &&
    forall k | k in tree :: tree[k] in s && tree[k].key == k
  }

  function Dropped(tree: map<int, Flow>, key: int): map<int, Flow> { map k | k in tree && k != key :: tree[k] }

  lemma DroppedKeys(tree: map<int, Flow>, key: int)
    ensures Dropped(tree, key).Keys == tree.Keys - {key}
  {
  }

  lemma FoundAtEnd(tree: map<int, Flow>, s: seq<Flow>, f: Flow)
    requires Found(tree, s) && f.key !in tree
    ensures Found(tree[f.key := f], s + [f])
  {
    var u := s + [f];
    assert forall i | 0 <= i < |s| :: u[i] == s[i];
    assert u[|s|] == f;
  }

  lemma FoundWithout(tree: map<int, Flow>, s: seq<Flow>, f: Flow)
    requires Found(tree, s) && Distinct(s) && f in s
    ensures Found(Dropped(tree, f.key), Without(s, f))
  {
    WithoutMembers(s, f);
    var t := Without(s, f);
    forall k | k in tree && k != f.key
      ensures tree[k] in t
    {
      var i :| 0 <= i < |s| && s[i] == tree[k];
    }
    forall i | 0 <= i < |t|
      ensures t[i].key in tree && tree[t[i].key] == t[i] && t[i].key != f.key
    {
      var j :| 0 <= j < |s| && s[j] == t[i];
    }
  }

  lemma FoundMoved(tree: map<int, Flow>, s: seq<Flow>, f: Flow)
    requires Found(tree, s) && Distinct(s) && f in s
    ensures Found(tree, Without(s, f) + [f]) && |Without(s, f) + [f]| == |s|
  {
    WithoutMembers(s, f);
    FoundWithout(tree, s, f);
    FoundAtEnd(Dropped(tree, f.key), Without(s, f), f);
    assert Dropped(tree, f.key)[f.key := f] == tree;
  }

  class List {
    var count: u32
    var tree: map<int, Flow>   // contract of the keyed tree
    var head: Flow?
    var tail: Flow?
    ghost var flows: seq<Flow>

    /** The links form one chain through distinct flows in both directions. */
    ghost predicate Linked()
      reads `head, `tail, `flows, flows`prev, flows`next
    {
      Distinct(flows) && Backward(flows) && Forward(flows) &&
      head == (if flows == [] then null else flows[0]) &&
      tail == (if flows == [] then null else flows[|flows| - 1])
    }

    /** The flows in the list, if it is sound. */
    ghost function Chain(): Option<seq<Flow>>
      reads `head, `tail, `flows, flows`prev, flows`next
    {
      if Linked() then Some(flows) else None
    }

    /** Tree, list and count agree. */
    ghost function Content(): Option<seq<Flow>>
      reads this, flows`prev, flows`next
    {
      if Chain().Some? && count == Wrap32(|flows|) && Found(tree, flows) then Some(flows) else None
    }

    ghost predicate Valid()
      reads this, flows`prev, flows`next
    {
      Content().Some?
    }

    constructor ()
      ensures Valid() && flows == [] && tree == map[]
    {
      count, tree, head, tail, flows := 0, map[], null, null, [];
    }

    lemma HeadNext()
      requires Chain().Some? && flows != []
      ensures head == flows[0] && head.next == (if |flows| > 1 then flows[1] else null)
      ensures Without(flows, flows[0]) == flows[1..]
    {
      WithoutHead(flows);
    }

    lemma HeadIsFirst()
      requires Valid()
      ensures Chain().Some? && Distinct(flows) && Found(tree, flows)
      ensures head == if flows == [] then null else flows[0]
    {
    }

    /** The tree finds an identifier exactly if a flow of the list has it, and then that flow. */
    method Find(key: int) returns (flow: Flow?)
      requires Valid()
      ensures flow != null ==> flow in flows && flow.key == key
      ensures flow == null ==> forall i | 0 <= i < |flows| :: flows[i].key != key
    {
      flow := if key in tree then tree[key] else null;
    }

    method AppendToList(flow: Flow)
      requires Chain().Some? && flow !in flows
      modifies `head, `tail, `flows, Only(tail)`next, flow`prev, flow`next
      ensures Chain().Some? && flows == old(flows) + [flow]
    {
      ghost var s := flows;
      if tail != null {
        flow.prev := tail;
        tail.next := flow;
        tail := flow;
      } else {
        flow.prev := null;
        head := flow;
        tail := flow;
      }
      flow.next := null;
      flows := s + [flow];
      assert forall i | 0 <= i < |s| :: flows[i] == s[i];
    }

    method RemoveFromList(flow: Flow)
      requires Chain().Some? && flow in flows
      modifies `head, `tail, `flows, Only(flow.prev)`next, Only(flow.next)`prev
      ensures Chain().Some? && flows == Without(old(flows), flow)
      ensures |flows| == |old(flows)| - 1 && forall i | 0 <= i < |flows| :: flows[i] in old(flows) && flows[i] != flow
    {
      ghost var s := flows;
      ghost var k := IndexIn(s, flow);
      Unlink(flow, s, k);
      BridgedChain(s, k);
    }

    /** The pointer surgery of `RemoveFromList`. */
    method Unlink(flow: Flow, ghost s: seq<Flow>, ghost k: nat)
      requires Chain().Some? && s == flows && k < |s| && s[k] == flow
      modifies `head, `tail, `flows, Only(flow.prev)`next, Only(flow.next)`prev
      ensures Bridged(s, k) && flows == Without(s, flow)
      ensures head == if k > 0 then s[0] else if |s| > 1 then s[1] else null
      ensures tail == if k < |s| - 1 then s[|s| - 1] else if |s| > 1 then s[|s| - 2] else null
    {
      flows := Without(s, flow);
      var prevFlow := flow.prev;
      var nextFlow := flow.next;
      assert prevFlow == if k == 0 then null else s[k - 1];
      assert nextFlow == if k == |s| - 1 then null else s[k + 1];
      if prevFlow != null {
        prevFlow.next := nextFlow;
      } else {
        head := nextFlow;
      }
      if nextFlow != null {
        nextFlow.prev := prevFlow;
      } else {
        tail := prevFlow;
      }
    }

    method Append(flow: Flow)
      requires Valid() && flow.key !in tree
      modifies this, Only(tail)`next, flow`prev, flow`next
      ensures Valid() && flows == old(flows) + [flow] && tree == old(tree)[flow.key := flow]
      ensures forall i | 0 <= i < |flows| :: flows[i] in old(flows) || flows[i] == flow
    {
      FoundAtEnd(tree, flows, flow);
      CountsOn(|flows|);
      AppendToList(flow);
      tree := tree[flow.key := flow];
      count := Wrap32(count + 1);
    }

    method MoveToTail(flow: Flow)
      requires Valid() && flow in flows
      modifies `head, `tail, `flows, flows`prev, flows`next
      ensures Valid() && flows == Without(old(flows), flow) + [flow]
      ensures forall i | 0 <= i < |flows| :: flows[i] in old(flows)
    {
      ghost var s := flows;
      WithoutMembers(s, flow);
      Shift(flow);
      FoundMoved(tree, s, flow);
    }

    method Shift(flow: Flow)
      requires Chain().Some? && flow in flows
      modifies `head, `tail, `flows, flows`prev, flows`next
      ensures Chain().Some? && flows == Without(old(flows), flow) + [flow]
    {
      RemoveFromList(flow);
      AppendToList(flow);
    }

    method Remove(flow: Flow)
      requires Valid() && flow in flows
      modifies this, flows`prev, flows`next
      ensures Valid() && flows == Without(old(flows), flow) && tree == Dropped(old(tree), flow.key)
      ensures |flows| == |old(flows)| - 1 && forall i | 0 <= i < |flows| :: flows[i] in old(flows)
    {
      ghost var s := flows;
      RemoveFromList(flow);
      FoundWithout(tree, s, flow);
      Forget(flow.key);
    }

    /** Remove the flow at the head. */
    method RemoveHead(flow: Flow) returns (nextFlow: Flow?)
      requires Valid() && flow == head
      modifies this, flows`prev, flows`next
      ensures Valid() && old(flows) != [] && old(flows)[0] == flow && flows == old(flows)[1..] && nextFlow == head
      ensures tree == Dropped(old(tree), flow.key) && tree.Keys == old(tree).Keys - {flow.key}
      ensures forall i | 0 <= i < |flows| :: flows[i] in old(flows)
    {
      HeadIsFirst();
      HeadNext();
      DroppedKeys(tree, flow.key);
      nextFlow := flow.next;
      Remove(flow);
      HeadIsFirst();
    }

    method Forget(key: int)
      requires Chain().Some? && Found(Dropped(tree, key), flows) && count == Wrap32(|flows| + 1)
      modifies `tree, `count
      ensures Valid() && tree == Dropped(old(tree), key)
    {
      CountsBack(|flows| + 1);
      tree := Dropped(tree, key);
      count := Decrement(count);
    }
  }
}
