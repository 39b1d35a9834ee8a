/**
  Renaming the flow ids of tracer packets: per outgoing interface, a sorted list maps the
  incoming id and next hop to an id of this node's own.
*/
module FlowIds {
  import opened Basics

  datatype Key = Key(inFlow: real, nextHop: int)

  datatype FlowPair = FlowPair(key: Key, outFlow: int)

  /** Contract of the address comparison: a total order, zero exactly on equal addresses. */
  function AddressCompare(a: int, b: int): int { if a < b then -1 else if a > b then 1 else 0 }

  /** The criterion for inserting: positive if `a` belongs before `b`. */
  function MapInsert(a: Key, b: Key): int {
    if a.inFlow < b.inFlow then 1
    else if a.inFlow > b.inFlow then -1
    else AddressCompare(a.nextHop, b.nextHop)
  }

  /** The criterion for searching, which looks at the addresses first. */
  function MapSearch(a: Key, b: Key): int {
    if a.nextHop == b.nextHop then
      (if a.inFlow < b.inFlow then 1 else if a.inFlow > b.inFlow then -1 else 0)
    else
      (if a.inFlow < b.inFlow then 1
       else if a.inFlow > b.inFlow then -1
       else AddressCompare(a.nextHop, b.nextHop))
  }

  /** The two criteria agree on every pair, and what they agree on is a total order. */
  lemma ComparatorsAgree(a: Key, b: Key, c: Key)
    ensures MapInsert(a, b) == MapSearch(a, b)
    ensures MapInsert(a, b) == 0 <==> a == b
    ensures MapInsert(a, b) > 0 <==> MapInsert(b, a) < 0
    ensures MapInsert(a, b) > 0 && MapInsert(b, c) > 0 ==> MapInsert(a, c) > 0
  {
  }

  // ----- one list -----

  ghost predicate Sorted(list: seq<FlowPair>) {
    forall i, j | 0 <= i < j < |list| :: MapInsert(list[i].key, list[j].key) > 0
  }

  /** Contract of the list search. */
  function ElemFind(list: seq<FlowPair>, key: Key): (r: Option<FlowPair>)
    ensures r.Some? ==> r.value in list && r.value.key == key
    ensures r.None? ==> forall p | p in list :: p.key != key
  {
    if list == [] then None
    else if MapSearch(list[0].key, key) == 0 then Some(list[0])
    else ElemFind(list[1..], key)
  }

  /** Contract of the sorted insertion: before the first element the new one precedes. */
  function InsertSorted(list: seq<FlowPair>, e: FlowPair): (r: seq<FlowPair>)
    ensures forall p :: p in r <==> p in list || p == e
  {
    if list == [] || MapInsert(e.key, list[0].key) > 0 then [e] + list
    else
      var r := [list[0]] + InsertSorted(list[1..], e);
      assert forall p :: p in list <==> p == list[0] || p in list[1..];
      r
  }

  lemma {:induction false} InsertKeepsSorted(list: seq<FlowPair>, e: FlowPair)
    requires Sorted(list) && forall p | p in list :: p.key != e.key
    ensures Sorted(InsertSorted(list, e))
  {
    if list != [] {
      var rest := InsertSorted(list[1..], e);
      if MapInsert(e.key, list[0].key) > 0 {
        forall j | 1 <= j < |list|
          ensures MapInsert(e.key, list[j].key) > 0
        {
          ComparatorsAgree(e.key, list[0].key, list[j].key);
        }
      } else {
        InsertKeepsSorted(list[1..], e);
        forall j | 0 <= j < |rest|
          ensures MapInsert(list[0].key, rest[j].key) > 0
        {
          assert rest[j] in rest && list[0] in list;
          if rest[j] in list[1..] {
            var i :| 0 <= i < |list[1..]| && list[1..][i] == rest[j];
            assert list[i + 1] == rest[j];
          } else {
            ComparatorsAgree(e.key, list[0].key, e.key);
          }
        }
      }
    }
  }

  lemma SortedIsDistinct(list: seq<FlowPair>, i: nat, j: nat)
    requires Sorted(list) && i < j < |list|
    ensures list[i].key != list[j].key
  {
    ComparatorsAgree(list[i].key, list[j].key, list[i].key);
  }

  // ----- all interfaces and the id source -----

  datatype Call = Call(intf: nat, key: Key)

  datatype Table = Table(lists: map<nat, seq<FlowPair>>, nextId: int)

  function ListOf(t: Table, intf: nat): seq<FlowPair> {
    if intf in t.lists then t.lists[intf] else []
  }

  /** The outgoing id a call gets. */
  function OutFlow(t: Table, c: Call): int {
    match ElemFind(ListOf(t, c.intf), c.key)
    case Some(p) => p.outFlow
    case None => t.nextId
  }

  function After(t: Table, c: Call): Table {
    match ElemFind(ListOf(t, c.intf), c.key)
    case Some(_) => t.(lists := t.lists[c.intf := ListOf(t, c.intf)])
    case None =>
      Table(t.lists[c.intf := InsertSorted(ListOf(t, c.intf), FlowPair(c.key, t.nextId))], t.nextId + 1)
  }

  class Node {
    var lists: map<nat, seq<FlowPair>>
    var nextId: int

    function View(): Table reads this { Table(lists, nextId) }

    constructor (firstId: int)
      ensures View() == Table(map[], firstId)
    {
      lists, nextId := map[], firstId;
    }

    /** Contract of the id source: never the same id twice. */
    method GetFlowIndex() returns (id: int)
      modifies `nextId
      ensures id == old(nextId) && nextId == old(nextId) + 1
    {
      id := nextId;
      nextId := nextId + 1;
    }

    method FlowIdSwap(inFlow: real, intf: nat, nextHop: int) returns (outFlow: int)
      modifies this
      ensures outFlow == OutFlow(old(View()), Call(intf, Key(inFlow, nextHop)))
      ensures View() == After(old(View()), Call(intf, Key(inFlow, nextHop)))
    {
      if intf !in lists {
        lists := lists[intf := []];
      }
      var key := Key(inFlow, nextHop);
      match ElemFind(lists[intf], key)
      case Some(p) =>
        outFlow := p.outFlow;
      case None =>
        outFlow := GetFlowIndex();
        lists := lists[intf := InsertSorted(lists[intf], FlowPair(key, outFlow))];
    }
  }

  // ----- whole runs -----

  ghost predicate Holds(t: Table, c: Call, out: int) {
    c.intf in t.lists && FlowPair(c.key, out) in t.lists[c.intf]
  }

  /** Sorted lists, ids from the past only, and no id for two different calls. */
  ghost predicate Good(t: Table) {
    (forall i | i in t.lists :: Sorted(t.lists[i])) &&
    (forall c, out | Holds(t, c, out) :: out < t.nextId) &&
    (forall c, d, out | Holds(t, c, out) && Holds(t, d, out) :: c == d)
  }

  /** A call adds at most its own mapping, under the next id. */
  lemma HoldsAfter(t: Table, c: Call, d: Call, out: int)
    ensures Holds(After(t, c), d, out) <==>
            Holds(t, d, out) || (d == c && out == OutFlow(t, c))
  {
    var list := ListOf(t, c.intf);
    match ElemFind(list, c.key)
    case Some(p) =>
      assert p == FlowPair(c.key, p.outFlow);
    case None =>
  }

  lemma GoodAfter(t: Table, c: Call)
    requires Good(t)
    ensures Good(After(t, c)) && Holds(After(t, c), c, OutFlow(t, c))
    ensures forall d, out | Holds(t, d, out) :: Holds(After(t, c), d, out)
  {
    var list, u := ListOf(t, c.intf), After(t, c);
    forall d, out
      ensures Holds(u, d, out) <==> Holds(t, d, out) || (d == c && out == OutFlow(t, c))
    {
      HoldsAfter(t, c, d, out);
    }
    match ElemFind(list, c.key)
    case Some(p) =>
      assert Holds(t, c, p.outFlow);
    case None =>
      InsertKeepsSorted(list, FlowPair(c.key, t.nextId));
  }

  lemma HoldsOnce(t: Table, c: Call, x: int, y: int)
    requires Good(t) && Holds(t, c, x) && Holds(t, c, y)
    ensures x == y
  {
    var list := t.lists[c.intf];
    var i :| 0 <= i < |list| && list[i] == FlowPair(c.key, x);
    var j :| 0 <= j < |list| && list[j] == FlowPair(c.key, y);
    assert MapInsert(c.key, c.key) == 0 && i == j;
  }

  ghost function TableAt(first: int, calls: seq<Call>, k: nat): Table
    requires k <= |calls|
  {
    if k == 0 then Table(map[], first) else After(TableAt(first, calls, k - 1), calls[k - 1])
  }

  ghost function ResultAt(first: int, calls: seq<Call>, k: nat): int
    requires k < |calls|
  {
    OutFlow(TableAt(first, calls, k), calls[k])
  }

  lemma {:induction false} GoodAt(first: int, calls: seq<Call>, k: nat)
    requires k <= |calls|
    ensures Good(TableAt(first, calls, k))
  {
    if k > 0 {
      GoodAt(first, calls, k - 1);
      GoodAfter(TableAt(first, calls, k - 1), calls[k - 1]);
    }
  }

  lemma ResultHolds(first: int, calls: seq<Call>, k: nat)
    requires k < |calls|
    ensures Holds(TableAt(first, calls, k + 1), calls[k], ResultAt(first, calls, k))
  {
    GoodAt(first, calls, k);
    GoodAfter(TableAt(first, calls, k), calls[k]);
  }

  lemma StillHolds(first: int, calls: seq<Call>, k: nat, c: Call, out: int)
    requires k < |calls| && Holds(TableAt(first, calls, k), c, out)
    ensures Holds(TableAt(first, calls, k + 1), c, out)
  {
    GoodAt(first, calls, k);
    GoodAfter(TableAt(first, calls, k), calls[k]);
  }

  lemma {:induction false} ResultRemembered(first: int, calls: seq<Call>, i: nat, k: nat)
    requires i < k <= |calls|
    ensures Holds(TableAt(first, calls, k), calls[i], ResultAt(first, calls, i))
    decreases k
  {
    if i == k - 1 {
      ResultHolds(first, calls, i);
    } else {
      ResultRemembered(first, calls, i, k - 1);
      StillHolds(first, calls, k - 1, calls[i], ResultAt(first, calls, i));
    }
  }

  /** Over a whole run two calls get the same outgoing id exactly if they agree in
      interface, incoming id and next hop; and every list stays sorted without duplicates. */
  lemma MappingStableAndInjective(first: int, calls: seq<Call>, i: nat, j: nat)
    requires i < |calls| && j < |calls|
    ensures ResultAt(first, calls, i) == ResultAt(first, calls, j) <==> calls[i] == calls[j]
  {
    var n := |calls|;
    var last := TableAt(first, calls, n);
    GoodAt(first, calls, n);
    ResultRemembered(first, calls, i, n);
    ResultRemembered(first, calls, j, n);
    if calls[i] == calls[j] {
      HoldsOnce(last, calls[i], ResultAt(first, calls, i), ResultAt(first, calls, j));
    }
  }

  lemma ListsStaySorted(first: int, calls: seq<Call>, k: nat, intf: nat)
    requires k <= |calls|
    ensures var list := ListOf(TableAt(first, calls, k), intf);
            Sorted(list) && forall i, j | 0 <= i < j < |list| :: list[i].key != list[j].key
  {
    GoodAt(first, calls, k);
    var list := ListOf(TableAt(first, calls, k), intf);
    forall i, j | 0 <= i < j < |list|
      ensures list[i].key != list[j].key
    {
      SortedIsDistinct(list, i, j);
    }
  }
}
