/**
  The packet kernel underneath the IP output path: packet contents, and a registry that
  says of every packet object whether it is still in somebody's hands and, if not, what
  became of it.  Every operation demands a packet that is still in hand, so code written
  against this class can neither use a packet after giving it away nor give it away twice.
*/
module Kernel {
  import opened Basics

  datatype Compression = NoCompression | TcpIpHeader | PerVirtualCircuit

  /** A packet's contents: the IP fields the output path reads or writes, and the packets
      nested in it.  Sizes are in bits, `offset` and `fragLen` in bytes. */
  datatype Pkt = Pkt(
    size: int, frag: bool, offset: int, fragLen: int,
    compression: Compression, originalSize: int,
    ttl: int, v6: bool, selfTunnelled: bool,
    recordRoute: bool, route: seq<int>,
    volume: Option<real>,
    data: Option<Pkt>,      // the "data" field: the transport packet or a tunnelled packet
    carried: Option<Pkt>)   // the "ip_dgram" field: the datagram a fragment carries for reassembly

  datatype Fate = Sent | Delivered | Encapsulated(into: nat) | Destroyed

  /** What leaves the output path, in order. */
  datatype Out =
    | Wire(pkt: Pkt, intf: nat)     // to the lower layer (or its queue) of an interface
    | Tunnelled(pkt: Pkt)           // an encapsulating packet, back into this node's IP
    | Up(pkt: Pkt)                  // to the process above
    | Other(pkt: Pkt)               // to mobile IP, MANET, MPLS or another slot

  /** Everything in `before` but what is `gone` is in `after`, too, and unchanged. */
  ghost predicate Extends(after: map<nat, Pkt>, before: map<nat, Pkt>, gone: set<nat>) {
    forall id | id in before && id !in gone :: id in after && after[id] == before[id]
  }

  /** Leftovers of a first step, in which nothing was given away, show after a second. */
  lemma LeftoversStay(before: map<nat, Pkt>, between: map<nat, Pkt>, after: map<nat, Pkt>, gone: set<nat>)
    requires Extends(between, before, {}) && Extends(after, between, gone) && gone <= before.Keys
    ensures Extends(after, before, gone)
    ensures after == before - gone <==> between == before && after == between - gone
  {
    if after == before - gone {
      assert forall id | id in between && id !in gone :: id in after;
      assert between.Keys == before.Keys;
    }
  }

  /** The same where nothing is given away. */
  lemma LeftoversAdd(before: map<nat, Pkt>, between: map<nat, Pkt>, after: map<nat, Pkt>)
    requires Extends(between, before, {}) && Extends(after, between, {})
    ensures Extends(after, before, {})
    ensures after == before <==> between == before && after == between
  {
    LeftoversStay(before, between, after, {});
    assert before - {} == before && between - {} == between;
  }

  class Registry {
    var live: map<nat, Pkt>
    var fate: map<nat, Fate>
    var next: nat
    var out: seq<Out>

    ghost predicate Valid()
      reads this
    {
      live.Keys !! fate.Keys && forall id: nat :: id < next <==> id in live || id in fate
    }

    /** The one packet `pk` is accounted for and nothing else in hand has changed.  As no
        number is ever used again, every packet made since is accounted for, too. */
    twostate predicate Consumes(pk: nat)
      reads this
    {
      Valid() && old(next) <= next && live == old(live) - {pk}
    }

    /** Nothing in hand but what is in `gone` has been touched. */
    twostate predicate Keeps(gone: set<nat>)
      reads this
    {
      Valid() && old(next) <= next && Extends(live, old(live), gone)
    }

    constructor ()
      ensures Valid() && live == map[] && out == []
    {
      live, fate, next, out := map[], map[], 0, [];
    }

    method Create(content: Pkt) returns (pk: nat)
      requires Valid()
      modifies this
      ensures Valid() && old(next) <= next && out == old(out)
      ensures pk !in old(live) && live == old(live)[pk := content]
    {
      pk := next;
      live := live[pk := content];
      next := next + 1;
    }

    method Copy(pk: nat) returns (c: nat)
      requires Valid() && pk in live
      modifies this
      ensures Valid() && old(next) <= next && out == old(out)
      ensures c !in old(live) && live == old(live)[c := old(live)[pk]]
    {
      c := Create(live[pk]);
    }

    /** In-place update of header fields. */
    method Write(pk: nat, content: Pkt)
      requires Valid() && pk in live
      requires content.data == live[pk].data && content.carried == live[pk].carried
      modifies this
      ensures Valid() && old(next) <= next && out == old(out)
      ensures live == old(live)[pk := content]
    {
      live := live[pk := content];
    }

    method TakeData(pk: nat) returns (inner: nat)
      requires Valid() && pk in live && live[pk].data.Some?
      modifies this
      ensures Valid() && old(next) <= next && out == old(out) && inner !in old(live)
      ensures live == old(live)[pk := old(live)[pk].(data := None)][inner := old(live)[pk].data.value]
    {
      inner := Create(live[pk].data.value);
      live := live[pk := live[pk].(data := None)];
    }

    method TakeCarried(pk: nat) returns (inner: nat)
      requires Valid() && pk in live && live[pk].carried.Some?
      modifies this
      ensures Valid() && old(next) <= next && out == old(out) && inner !in old(live)
      ensures live == old(live)[pk := old(live)[pk].(carried := None)][inner := old(live)[pk].carried.value]
    {
      inner := Create(live[pk].carried.value);
      live := live[pk := live[pk].(carried := None)];
    }

    method PutData(pk: nat, inner: nat)
      requires Valid() && pk in live && inner in live && pk != inner && live[pk].data.None?
      modifies this
      ensures Valid() && old(next) <= next && out == old(out)
      ensures live == old(live)[pk := old(live)[pk].(data := Some(old(live)[inner]))] - {inner}
    {
      live := live[pk := live[pk].(data := Some(live[inner]))] - {inner};
      fate := fate[inner := Encapsulated(pk)];
    }

    method PutCarried(pk: nat, inner: nat)
      requires Valid() && pk in live && inner in live && pk != inner && live[pk].carried.None?
      modifies this
      ensures Valid() && old(next) <= next && out == old(out)
      ensures live == old(live)[pk := old(live)[pk].(carried := Some(old(live)[inner]))] - {inner}
    {
      live := live[pk := live[pk].(carried := Some(live[inner]))] - {inner};
      fate := fate[inner := Encapsulated(pk)];
    }

    method Destroy(pk: nat)
      requires Valid() && pk in live
      modifies this
      ensures Consumes(pk) && out == old(out)
    {
      live := live - {pk};
      fate := fate[pk := Destroyed];
    }

    method Send(pk: nat, intf: nat)
      requires Valid() && pk in live
      modifies this
      ensures Consumes(pk) && out == old(out) + [Wire(old(live)[pk], intf)]
    {
      out := out + [Wire(live[pk], intf)];
      live := live - {pk};
      fate := fate[pk := Sent];
    }

    method Redeliver(pk: nat)
      requires Valid() && pk in live
      modifies this
      ensures Consumes(pk) && out == old(out) + [Tunnelled(old(live)[pk])]
    {
      out := out + [Tunnelled(live[pk])];
      live := live - {pk};
      fate := fate[pk := Delivered];
    }

    method DeliverUp(pk: nat)
      requires Valid() && pk in live
      modifies this
      ensures Consumes(pk) && out == old(out) + [Up(old(live)[pk])]
    {
      out := out + [Up(live[pk])];
      live := live - {pk};
      fate := fate[pk := Delivered];
    }

    method HandOver(pk: nat)
      requires Valid() && pk in live
      modifies this
      ensures Consumes(pk) && out == old(out) + [Other(old(live)[pk])]
    {
      out := out + [Other(live[pk])];
      live := live - {pk};
      fate := fate[pk := Delivered];
    }
  }
}
