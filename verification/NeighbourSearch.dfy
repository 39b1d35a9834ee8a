/**
  Finding the one neighbour on a point-to-point subnet: starting from the interface's own
  address in the global sorted table, look outwards in both directions.
*/
module NeighbourSearch {
  import opened Basics

  /** `size` addresses make up the interface's one subnet range. */
  datatype Interface = NoAddress | Unnumbered(addr: int) | Numbered(addr: int, size: int)

  /** The address lies in the same block of `size` addresses as `own`. */
  predicate InSubnet(own: int, size: int, a: int)
    requires size > 0
  {
    a / size == own / size
  }

  /** These are the `size` addresses from the last multiple of the size on. */
  lemma SubnetRange(own: int, size: int, a: int)
    requires size > 0
    ensures InSubnet(own, size, a) <==> own - own % size <= a < own - own % size + size
  {
    var p, q := a / size, own / size;
    assert a == p * size + a % size && own == q * size + own % size;
    assert (p - q) * size == p * size - q * size && (q - p) * size == q * size - p * size;
    if p > q {
      AtLeastOnce(p - q, size);
    } else if p < q {
      AtLeastOnce(q - p, size);
    }
  }

  ghost predicate Ascending(table: seq<int>) {
    forall i, j | 0 <= i < j < |table| :: table[i] < table[j]
  }

  lemma DivMonotone(a: int, b: int, size: int)
    requires size > 0 && a <= b
    ensures a / size <= b / size
  {
    var p, q := a / size, b / size;
    assert a == p * size + a % size && b == q * size + b % size;
    assert (p - q) * size == p * size - q * size;
    if p > q {
      AtLeastOnce(p - q, size);
    }
  }

  /** Beyond an address outside the subnet there is none inside. */
  lemma NoneBeyond(table: seq<int>, self: nat, size: int, i: nat, j: nat)
    requires Ascending(table) && self < |table| && i < |table| && j < |table| && size > 0
    requires !InSubnet(table[self], size, table[i])
    requires (self < i <= j) || (j <= i < self)
    ensures !InSubnet(table[self], size, table[j])
  {
    var own, ith, jth := table[self], table[i], table[j];
    if self < i {
      DivMonotone(own, ith, size);
      DivMonotone(ith, jth, size);
    } else {
      DivMonotone(ith, own, size);
      DivMonotone(jth, ith, size);
    }
  }

  /** Position `i` holds another address of the subnet. */
  predicate IsOther(table: seq<int>, self: nat, size: int, i: nat)
    requires self < |table| && size > 0
  {
    i < |table| && i != self && InSubnet(table[self], size, table[i])
  }

  ghost predicate OnlyOther(table: seq<int>, self: nat, size: int, i: nat)
    requires self < |table| && size > 0
  {
    IsOther(table, self, size, i) && forall j: nat | IsOther(table, self, size, j) :: j == i
  }

  /** Contract of the global table: an address's position, if it is registered. */
  function AddrConvert(table: seq<int>, addr: int): (r: Option<nat>)
    ensures r.Some? ==> r.value < |table| && table[r.value] == addr
    ensures r.None? ==> addr !in table
  {
    if table == [] then None
    else if table[|table| - 1] == addr then Some(|table| - 1)
    else AddrConvert(table[..|table| - 1], addr)
  }

  /** The next hop on the interface: its own address if it is unnumbered, else the only
      other address of its subnet, if there is exactly one. */
  method NextHopAddress(table: seq<int>, intf: Interface) returns (hop: Option<int>)
    requires Ascending(table) && (intf.Numbered? ==> intf.size > 0)
    ensures intf.NoAddress? ==> hop.None?
    ensures intf.Unnumbered? ==> hop == Some(intf.addr)
    ensures intf.Numbered? ==>
              match AddrConvert(table, intf.addr)
              case None => hop.None?
              case Some(self) =>
                forall x :: hop == Some(x) <==>
                            exists i: nat :: OnlyOther(table, self, intf.size, i) && table[i] == x
  {
    if intf.NoAddress? {
      return None;
    }
    if intf.Unnumbered? {
      return Some(intf.addr);
    }
    var selfIndex := AddrConvert(table, intf.addr);
    if selfIndex.None? {
      return None;
    }
    var self := selfIndex.value;
    var numAddrs, found := 0, 0;
    var index: int := self + 1;
    while index < |table| && InSubnet(intf.addr, intf.size, table[index])
      invariant self < index <= |table| && numAddrs == index - self - 1
      invariant forall i: nat | self < i < index :: IsOther(table, self, intf.size, i)
      invariant numAddrs > 0 ==> found == table[index - 1]
    {
      numAddrs, found := numAddrs + 1, table[index];
      index := index + 1;
    }
    ghost var top: nat := index;
    forall j: nat | top <= j < |table|
      ensures !IsOther(table, self, intf.size, j)
    {
      NoneBeyond(table, self, intf.size, top, j);
    }

    index := self - 1;
    while 0 <= index && InSubnet(intf.addr, intf.size, table[index])
      invariant -1 <= index < self && numAddrs == (top - self - 1) + (self - 1 - index)
      invariant forall i: nat | index < i < top && i != self :: IsOther(table, self, intf.size, i)
      invariant numAddrs > 0 ==> found == if index == self - 1 then table[top - 1] else table[index + 1]
    {
      numAddrs, found := numAddrs + 1, table[index];
      index := index - 1;
    }
    forall j: nat | j <= index
      ensures !IsOther(table, self, intf.size, j)
    {
      NoneBeyond(table, self, intf.size, index, j);
    }

    ghost var bottom := index;
    if numAddrs == 1 {
      ghost var only: nat := if top == self + 1 then self - 1 else self + 1;
      assert OnlyOther(table, self, intf.size, only);
      return Some(found);
    }
    if numAddrs > 1 {
      ghost var one: nat := if top > self + 1 then self + 1 else self - 1;
      ghost var two: nat := if top > self + 2 then self + 2 else if top > self + 1 then self - 1 else self - 2;
      assert IsOther(table, self, intf.size, one) && IsOther(table, self, intf.size, two) && one != two;
    }
    return None;
  }
}
