/**
  Whole runs of one relay node: which arrivals are relayed, and what ageing the
  duplicate detector can and cannot undo.
*/
module SmfRuns {
  import opened Basics
  import opened SlidingWindow
  import opened DuplicateTree
  import opened SmfNode

  datatype Event =
    | Arrive(r: Reception)
    | PruneTimeout
    | ForwardMac(arg: seq<byte>)
    | DefaultForward(on: bool)

  /** What no event changes. */
  predicate SameSettings(n: Node, m: Node) {
    m.filtering == n.filtering && m.ageMax == n.ageMax &&
    m.windowSize == n.windowSize && m.windowPastMax == n.windowPastMax
  }

  ghost function Next(n: Node, e: Event): (m: Node)
    requires n.Valid()
    ensures m.Valid() && SameSettings(n, m)
  {
    match e
    case Arrive(r) => n.After(r)
    case PruneTimeout => n.AfterTimeout()
    case ForwardMac(arg) => n.AfterForwardMac(arg)
    case DefaultForward(on) => n.(defaultForward := on)
  }

  /** The node after the first `k` events. */
  ghost function At(n: Node, evs: seq<Event>, k: nat): (m: Node)
    requires n.Valid() && k <= |evs|
    ensures m.Valid() && SameSettings(n, m)
  {
    if k == 0 then n else Next(At(n, evs, k - 1), evs[k - 1])
  }

  ghost predicate Arrives(evs: seq<Event>, k: nat, id: Identity) {
    k < |evs| && evs[k].Arrive? && Id(evs[k].r.pkt) == id
  }

  ghost predicate ReachesAt(n: Node, evs: seq<Event>, k: nat, id: Identity)
    requires n.Valid()
  {
    Arrives(evs, k, id) && At(n, evs, k).Reaches(evs[k].r)
  }

  ghost predicate EligibleAt(n: Node, evs: seq<Event>, k: nat, id: Identity)
    requires n.Valid()
  {
    Arrives(evs, k, id) && At(n, evs, k).Eligible(evs[k].r)
  }

  ghost predicate ConsultsAt(n: Node, evs: seq<Event>, k: nat, id: Identity)
    requires n.Valid()
  {
    Arrives(evs, k, id) && At(n, evs, k).Consults(evs[k].r)
  }

  ghost predicate ForwardsAt(n: Node, evs: seq<Event>, k: nat, id: Identity)
    requires n.Valid()
  {
    Arrives(evs, k, id) && At(n, evs, k).Forwards(evs[k].r)
  }

  ghost predicate PruneFree(evs: seq<Event>) {
    forall k | 0 <= k < |evs| :: !evs[k].PruneTimeout?
  }

  // ----- identifiers within an arc -----

  /** The identifiers that arrive from a source. */
  ghost function OfSource(evs: seq<Event>, src: u32): set<u32> {
    set k | 0 <= k < |evs| && evs[k].Arrive? && evs[k].r.pkt.src == src :: evs[k].r.pkt.ident
  }

  ghost predicate WithinArc(n: Node, evs: seq<Event>, src: u32, base: u32, span: nat) {
    InArc(OfSource(evs, src) + Front(n, src), base, span)
  }

  /** What arrives from the source, and the front of its window, lie within `span` numbers. */
  ghost predicate Near(n: Node, evs: seq<Event>, src: u32, span: nat) {
    Spans(OfSource(evs, src) + Front(n, src), span)
  }

  /** The event, if it brings a packet from `src`, brings one of the arc. */
  ghost predicate Brings(e: Event, src: u32, base: u32, span: nat) {
    e.Arrive? && e.r.pkt.src == src ==> Pos(e.r.pkt.ident, base) < span
  }

  lemma ArrivalInArc(n: Node, evs: seq<Event>, src: u32, base: u32, span: nat, k: nat)
    requires WithinArc(n, evs, src, base, span) && k < |evs|
    ensures Brings(evs[k], src, base, span)
  {
    if evs[k].Arrive? && evs[k].r.pkt.src == src {
      assert evs[k].r.pkt.ident in OfSource(evs, src);
    }
  }

  ghost predicate TameFlow(n: Node, src: u32, base: u32, span: nat) {
    Tame(MaskOf(n.tree, src), base, span)
  }

  lemma TameNext(n: Node, e: Event, src: u32, base: u32, span: nat)
    requires n.Valid() && TameFlow(n, src, base, span) && Brings(e, src, base, span)
    ensures TameFlow(Next(n, e), src, base, span)
  {
    if e.Arrive? && e.r.pkt.src == src {
      TameAfter(MaskOf(n.tree, src), n.windowSize, n.Past(), base, span, e.r.pkt.ident);
    }
  }

  lemma {:induction false} TameAt(n: Node, evs: seq<Event>, k: nat, src: u32, base: u32, span: nat)
    requires n.Valid() && k <= |evs| && WithinArc(n, evs, src, base, span)
    ensures TameFlow(At(n, evs, k), src, base, span)
  {
    if k > 0 {
      TameAt(n, evs, k - 1, src, base, span);
      ArrivalInArc(n, evs, src, base, span, k - 1);
      TameNext(At(n, evs, k - 1), evs[k - 1], src, base, span);
    }
  }

  /** Within an arc no longer than the window's past, what is refused stays refused, until
      its flow is pruned. */
  lemma RefusedNext(n: Node, e: Event, id: Identity, base: u32)
    requires n.Valid() && TameFlow(n, id.src, base, n.Past()) && Brings(e, id.src, base, n.Past())
    requires Pos(id.ident, base) < n.Past() && n.Refuses(id)
    ensures Next(n, e).Refuses(id) || (e.PruneTimeout? && id.src !in Next(n, e).tree)
  {
    if e.Arrive? && e.r.pkt.src == id.src {
      RefusedStays(MaskOf(n.tree, id.src), n.windowSize, n.Past(), base, n.Past(), e.r.pkt.ident, id.ident);
    }
  }

  /** Within an arc no longer than the window nothing else gets refused. */
  lemma AcceptedNext(n: Node, e: Event, id: Identity, base: u32)
    requires n.Valid() && TameFlow(n, id.src, base, n.windowSize) && Brings(e, id.src, base, n.windowSize)
    requires Pos(id.ident, base) < n.windowSize && !n.Refuses(id) && !e.PruneTimeout?
    ensures Next(n, e).Refuses(id) <==> e.Arrive? && Id(e.r.pkt) == id && n.Consults(e.r)
  {
    if e.Arrive? {
      if Id(e.r.pkt) == id {
        if n.Consults(e.r) { ConsultedRefused(n, e.r); }
      } else if e.r.pkt.src == id.src {
        OnlyItGetsRefused(MaskOf(n.tree, id.src), n.windowSize, n.Past(), base, n.windowSize, e.r.pkt.ident, id.ident);
      }
    }
  }

  // ----- without pruning -----

  lemma RefusedStep(n: Node, evs: seq<Event>, k: nat, id: Identity, base: u32)
    requires n.Valid() && k < |evs| && PruneFree(evs)
    requires WithinArc(n, evs, id.src, base, n.windowSize) && Pos(id.ident, base) < n.windowSize
    ensures At(n, evs, k + 1).Refuses(id) <==> At(n, evs, k).Refuses(id) || ConsultsAt(n, evs, k, id)
  {
    var m := At(n, evs, k);
    TameAt(n, evs, k, id.src, base, n.windowSize);
    ArrivalInArc(n, evs, id.src, base, n.windowSize, k);
    if m.Refuses(id) {
      RefusedNext(m, evs[k], id, base);
    } else {
      AcceptedNext(m, evs[k], id, base);
    }
  }

  /** The detector was consulted for the identity within the first `k` events. */
  ghost predicate ConsultedBy(n: Node, evs: seq<Event>, k: nat, id: Identity)
    requires n.Valid() && k <= |evs|
  {
    k > 0 && (ConsultedBy(n, evs, k - 1, id) || ConsultsAt(n, evs, k - 1, id))
  }

  lemma {:induction false} ConsultedSometime(n: Node, evs: seq<Event>, k: nat, id: Identity)
    requires n.Valid() && k <= |evs|
    ensures ConsultedBy(n, evs, k, id) <==> exists j | 0 <= j < k :: ConsultsAt(n, evs, j, id)
  {
    if k > 0 { ConsultedSometime(n, evs, k - 1, id); }
  }

  lemma {:induction false} RefusedIffConsultedBy(n: Node, evs: seq<Event>, k: nat, id: Identity, base: u32)
    requires n.Valid() && k <= |evs| && PruneFree(evs)
    requires WithinArc(n, evs, id.src, base, n.windowSize) && Pos(id.ident, base) < n.windowSize
    ensures At(n, evs, k).Refuses(id) <==> n.Refuses(id) || ConsultedBy(n, evs, k, id)
  {
    if k > 0 {
      RefusedIffConsultedBy(n, evs, k - 1, id, base);
      RefusedStep(n, evs, k - 1, id, base);
    }
  }

  /** An identity is refused exactly when it was at the start or has been consulted for since. */
  lemma RefusedIffConsulted(n: Node, evs: seq<Event>, k: nat, id: Identity, base: u32)
    requires n.Valid() && k <= |evs| && PruneFree(evs)
    requires WithinArc(n, evs, id.src, base, n.windowSize) && Pos(id.ident, base) < n.windowSize
    ensures At(n, evs, k).Refuses(id) <==> n.Refuses(id) || exists j | 0 <= j < k :: ConsultsAt(n, evs, j, id)
  {
    RefusedIffConsultedBy(n, evs, k, id, base);
    ConsultedSometime(n, evs, k, id);
  }

  /** An arrival is relayed exactly when it is eligible and nothing consulted the detector
      for its identity before it. */
  lemma ForwardsIff(n: Node, evs: seq<Event>, k: nat, id: Identity)
    requires n.Valid() && PruneFree(evs) && !n.Refuses(id) && k < |evs|
    requires Near(n, evs, id.src, n.windowSize)
    ensures ForwardsAt(n, evs, k, id) <==>
            EligibleAt(n, evs, k, id) && forall j | 0 <= j < k :: !ConsultsAt(n, evs, j, id)
  {
    var base: u32 :| InArc(OfSource(evs, id.src) + Front(n, id.src), base, n.windowSize);
    if Arrives(evs, k, id) {
      ArrivalInArc(n, evs, id.src, base, n.windowSize, k);
      RefusedIffConsulted(n, evs, k, id, base);
    }
  }

  /** A packet is relayed at its first eligible arrival and at no other. */
  ghost predicate RelayedAtFirstEligible(n: Node, evs: seq<Event>, id: Identity)
    requires n.Valid()
  {
    forall k: nat | k < |evs| ::
      ForwardsAt(n, evs, k, id) <==> EligibleAt(n, evs, k, id) && forall j | 0 <= j < k :: !EligibleAt(n, evs, j, id)
  }

  /** Filtering off: if the source's identifiers fit the window, a packet is relayed at its
      first eligible arrival and at no other, so exactly once if it is ever eligible. */
  lemma FirstEligibleForwards(n: Node, evs: seq<Event>, id: Identity)
    requires n.Valid() && PruneFree(evs) && !n.Refuses(id) && !n.filtering
    requires Near(n, evs, id.src, n.windowSize)
    ensures RelayedAtFirstEligible(n, evs, id)
    ensures (exists k: nat :: ForwardsAt(n, evs, k, id)) <==> (exists k: nat :: EligibleAt(n, evs, k, id))
    ensures forall i: nat, k: nat | ForwardsAt(n, evs, i, id) && ForwardsAt(n, evs, k, id) :: i == k
  {
    forall k: nat | k < |evs|
      ensures ForwardsAt(n, evs, k, id) <==>
              EligibleAt(n, evs, k, id) && forall j | 0 <= j < k :: !EligibleAt(n, evs, j, id)
    {
      ForwardsIff(n, evs, k, id);
      assert forall j | 0 <= j < k :: ConsultsAt(n, evs, j, id) <==> EligibleAt(n, evs, j, id);
    }
    if k: nat :| EligibleAt(n, evs, k, id) {
      var first := FirstEligible(n, evs, k, id);
      assert ForwardsAt(n, evs, first, id);
    }
  }

  lemma {:induction false} FirstEligible(n: Node, evs: seq<Event>, k: nat, id: Identity) returns (first: nat)
    requires n.Valid() && EligibleAt(n, evs, k, id)
    ensures first <= k && EligibleAt(n, evs, first, id)
    ensures forall j | 0 <= j < first :: !EligibleAt(n, evs, j, id)
  {
    if j: nat :| j < k && EligibleAt(n, evs, j, id) {
      first := FirstEligible(n, evs, j, id);
    } else {
      first := k;
    }
  }

  /** Filtering on: only the first multicast arrival can be relayed, and it is exactly
      if that very arrival is eligible. */
  lemma FirstMulticastForwards(n: Node, evs: seq<Event>, k: nat, id: Identity)
    requires n.Valid() && PruneFree(evs) && !n.Refuses(id) && n.filtering && k < |evs|
    requires Near(n, evs, id.src, n.windowSize)
    ensures ForwardsAt(n, evs, k, id) <==>
            EligibleAt(n, evs, k, id) && forall j | 0 <= j < k :: !ReachesAt(n, evs, j, id)
  {
    ForwardsIff(n, evs, k, id);
    assert forall j | 0 <= j < k :: ConsultsAt(n, evs, j, id) <==> ReachesAt(n, evs, j, id);
  }

  predicate SamePolicy(a: Node, b: Node) {
    a.defaultForward == b.defaultForward && a.resequence == b.resequence &&
    a.selectors == b.selectors && a.selectorLen == b.selectorLen
  }

  lemma NextSamePolicy(a: Node, b: Node, e: Event)
    requires a.Valid() && b.Valid() && SamePolicy(a, b)
    ensures SamePolicy(Next(a, e), Next(b, e))
  {
    match e
    case Arrive(r) =>
    case PruneTimeout =>
    case ForwardMac(arg) =>
    case DefaultForward(on) =>
  }

  /** Apart from the detector and the counters, filtering does not influence the node. */
  lemma {:induction false} FilteringKeepsPolicy(n: Node, evs: seq<Event>, k: nat)
    requires n.Valid() && k <= |evs|
    ensures SamePolicy(At(n.(filtering := true), evs, k), At(n.(filtering := false), evs, k))
  {
    if k > 0 {
      FilteringKeepsPolicy(n, evs, k - 1);
      NextSamePolicy(At(n.(filtering := true), evs, k - 1), At(n.(filtering := false), evs, k - 1), evs[k - 1]);
    }
  }

  /** On the same events, whatever a filtering node relays a non-filtering node relays
      too; the converse fails exactly for packets whose first multicast arrival was
      not itself eligible. */
  lemma FilteringOnlySuppresses(n: Node, evs: seq<Event>, k: nat, id: Identity)
    requires n.Valid() && PruneFree(evs) && !n.Refuses(id) && k < |evs|
    requires Near(n, evs, id.src, n.windowSize)
    ensures var on, off := n.(filtering := true), n.(filtering := false);
            ForwardsAt(on, evs, k, id) <==>
            ForwardsAt(off, evs, k, id) && forall j | 0 <= j < k :: !ReachesAt(off, evs, j, id)
  {
    var on, off := n.(filtering := true), n.(filtering := false);
    FirstMulticastForwards(on, evs, k, id);
    FirstEligibleForwards(off, evs, id);
    forall j: nat | j <= k
      ensures ReachesAt(on, evs, j, id) == ReachesAt(off, evs, j, id)
      ensures EligibleAt(on, evs, j, id) == EligibleAt(off, evs, j, id)
    {
      FilteringKeepsPolicy(n, evs, j);
    }
    assert forall j: nat | j < k :: EligibleAt(off, evs, j, id) ==> ReachesAt(off, evs, j, id);
  }

  // ----- exactly when: which identifiers a source may use -----

  /** A relay that forwards what it can, filtering or not, and has not heard of the source yet. */
  ghost predicate Unbiased(n: Node, src: u32) {
    n.Valid() && n.defaultForward && src !in n.tree
  }

  /** A neighbour's frame with a packet from `src`. */
  function Heard(src: u32, ident: u32): Reception {
    Reception(Header(src, Multicast, ident, 64, 4), Inbound, 1, 2, if src == 0 then 1 else 0)
  }

  function HearAll(src: u32, h: seq<u32>): (evs: seq<Event>)
    ensures |evs| == |h|
  {
    seq(|h|, k requires 0 <= k < |h| => Arrive(Heard(src, h[k])))
  }

  lemma HeardNext(n: Node, src: u32, x: u32)
    requires n.Valid() && n.defaultForward
    ensures var m := n.After(Heard(src, x));
            && m.defaultForward && MaskOf(m.tree, src) == After(MaskOf(n.tree, src), n.windowSize, n.Past(), x)
            && n.Reaches(Heard(src, x)) && n.Eligible(Heard(src, x)) && n.Consults(Heard(src, x))
  {
    var r := Heard(src, x);
    assert !OwnPacket(r);
  }

  ghost predicate HearsAll(evs: seq<Event>, src: u32, h: seq<u32>) {
    |evs| == |h| && forall j | 0 <= j < |h| :: evs[j] == Arrive(Heard(src, h[j]))
  }

  lemma HearOne(n: Node, evs: seq<Event>, k: nat, src: u32, x: u32, m: Mask)
    requires n.Valid() && k < |evs| && evs[k] == Arrive(Heard(src, x))
    requires At(n, evs, k).defaultForward && MaskOf(At(n, evs, k).tree, src) == m
    ensures var next := At(n, evs, k + 1);
            next.defaultForward && MaskOf(next.tree, src) == After(m, n.windowSize, n.Past(), x)
  {
    HeardNext(At(n, evs, k), src, x);
  }

  lemma {:induction false} HearAllAt(n: Node, src: u32, h: seq<u32>, evs: seq<Event>, k: nat)
    requires Unbiased(n, src) && HearsAll(evs, src, h) && k <= |h|
    ensures At(n, evs, k).defaultForward
    ensures MaskOf(At(n, evs, k).tree, src) == MaskAt(EMPTY, n.windowSize, n.Past(), h, k)
  {
    if k > 0 {
      HearAllAt(n, src, h, evs, k - 1);
      HearOne(n, evs, k - 1, src, h[k - 1], MaskAt(EMPTY, n.windowSize, n.Past(), h, k - 1));
    }
  }

  lemma HearAllForwards(n: Node, src: u32, h: seq<u32>, k: nat)
    requires Unbiased(n, src) && k < |h|
    ensures ForwardsAt(n, HearAll(src, h), k, Identity(src, h[k])) <==> AcceptedAt(EMPTY, n.windowSize, n.Past(), h, k)
    ensures forall j: nat | j < |h| :: EligibleAt(n, HearAll(src, h), j, Identity(src, h[k])) <==> h[j] == h[k]
    ensures forall j: nat | j < |h| :: ReachesAt(n, HearAll(src, h), j, Identity(src, h[k])) <==> h[j] == h[k]
  {
    var evs := HearAll(src, h);
    assert HearsAll(evs, src, h);
    forall j: nat | j < |h|
      ensures EligibleAt(n, evs, j, Identity(src, h[k])) <==> h[j] == h[k]
      ensures ReachesAt(n, evs, j, Identity(src, h[k])) <==> h[j] == h[k]
      ensures ForwardsAt(n, evs, j, Identity(src, h[j])) <==> AcceptedAt(EMPTY, n.windowSize, n.Past(), h, j)
    {
      HearAllAt(n, src, h, evs, j);
      EligibleHeard(n, src, h, evs, j);
    }
  }

  lemma EligibleHeard(n: Node, src: u32, h: seq<u32>, evs: seq<Event>, j: nat)
    requires Unbiased(n, src) && HearsAll(evs, src, h) && j < |h| && At(n, evs, j).defaultForward
    requires MaskOf(At(n, evs, j).tree, src) == MaskAt(EMPTY, n.windowSize, n.Past(), h, j)
    ensures EligibleAt(n, evs, j, Identity(src, h[j])) && ReachesAt(n, evs, j, Identity(src, h[j]))
    ensures ForwardsAt(n, evs, j, Identity(src, h[j])) <==> AcceptedAt(EMPTY, n.windowSize, n.Past(), h, j)
  {
    HeardNext(At(n, evs, j), src, h[j]);
  }

  /** A packet is relayed at its first multicast arrival if that is eligible, and at no other. */
  ghost predicate RelayedAtFirstMulticast(n: Node, evs: seq<Event>, id: Identity)
    requires n.Valid()
  {
    forall k: nat | k < |evs| ::
      ForwardsAt(n, evs, k, id) <==> EligibleAt(n, evs, k, id) && forall j | 0 <= j < k :: !ReachesAt(n, evs, j, id)
  }

  /** In whatever order, how often and for whom packets of `src` with identifiers from `s`
      arrive, each is relayed at its first eligible arrival only, or by a filtering node at its
      first multicast arrival only. */
  ghost predicate RelaysRight(n: Node, src: u32, s: set<u32>)
    requires n.Valid()
  {
    forall evs, id: Identity | PruneFree(evs) && OfSource(evs, src) <= s && id.src == src ::
      if n.filtering then RelayedAtFirstMulticast(n, evs, id) else RelayedAtFirstEligible(n, evs, id)
  }

  /** No packet of `src` with an identifier from `s` is ever relayed twice. */
  ghost predicate RelaysOnce(n: Node, src: u32, s: set<u32>)
    requires n.Valid()
  {
    forall evs, id: Identity, i: nat, j: nat | PruneFree(evs) && OfSource(evs, src) <= s && id.src == src && i < j ::
      !(ForwardsAt(n, evs, i, id) && ForwardsAt(n, evs, j, id))
  }

  lemma HearAllOfSource(src: u32, h: seq<u32>, s: set<u32>)
    requires Over(h, s)
    ensures PruneFree(HearAll(src, h)) && OfSource(HearAll(src, h), src) <= s
  {
    forall x | x in OfSource(HearAll(src, h), src)
      ensures x in s
    {
      var k :| 0 <= k < |h| && h[k] == x;
    }
  }

  /** The window decides right for a source, whatever arrives when, exactly if the source
      uses identifiers that fit the window. */
  lemma RelaysRightIff(n: Node, src: u32, s: set<u32>)
    requires Unbiased(n, src)
    ensures RelaysRight(n, src, s) <==> Spans(s, n.windowSize)
  {
    if base: u32 :| InArc(s, base, n.windowSize) {
      forall evs, id: Identity | PruneFree(evs) && OfSource(evs, src) <= s && id.src == src
        ensures if n.filtering then RelayedAtFirstMulticast(n, evs, id) else RelayedAtFirstEligible(n, evs, id)
      {
        assert InArc(OfSource(evs, src) + Front(n, src), base, n.windowSize);
        RightWithin(n, evs, id);
      }
    } else {
      NotFirstOnly(s, n.windowSize, n.Past());
      var h: seq<u32>, k: nat :| Over(h, s) && k < |h| &&
        !(AcceptedAt(EMPTY, n.windowSize, n.Past(), h, k) <==> h[k] !in h[..k]);
      HearAllForwards(n, src, h, k);
      HearAllOfSource(src, h, s);
      WrongAt(n, src, h, k);
    }
  }

  lemma RightWithin(n: Node, evs: seq<Event>, id: Identity)
    requires Unbiased(n, id.src) && PruneFree(evs) && Near(n, evs, id.src, n.windowSize)
    ensures if n.filtering then RelayedAtFirstMulticast(n, evs, id) else RelayedAtFirstEligible(n, evs, id)
  {
    if n.filtering {
      forall k: nat | k < |evs|
        ensures ForwardsAt(n, evs, k, id) <==>
                EligibleAt(n, evs, k, id) && forall j | 0 <= j < k :: !ReachesAt(n, evs, j, id)
      {
        FirstMulticastForwards(n, evs, k, id);
      }
    } else {
      FirstEligibleForwards(n, evs, id);
    }
  }

  lemma WrongAt(n: Node, src: u32, h: seq<u32>, k: nat)
    requires Unbiased(n, src) && k < |h|
    requires !(AcceptedAt(EMPTY, n.windowSize, n.Past(), h, k) <==> h[k] !in h[..k])
    ensures !RelayedAtFirstEligible(n, HearAll(src, h), Identity(src, h[k]))
    ensures !RelayedAtFirstMulticast(n, HearAll(src, h), Identity(src, h[k]))
  {
    HearAllForwards(n, src, h, k);
    var evs, id := HearAll(src, h), Identity(src, h[k]);
    assert (forall j | 0 <= j < k :: !EligibleAt(n, evs, j, id)) <==> h[k] !in h[..k];
    assert (forall j | 0 <= j < k :: !ReachesAt(n, evs, j, id)) <==> h[k] !in h[..k];
  }

  /** No packet of a source is relayed twice, whatever arrives when, exactly if its
      identifiers lie within the past the window accounts for. */
  lemma RelaysOnceIff(n: Node, src: u32, s: set<u32>)
    requires Unbiased(n, src)
    ensures RelaysOnce(n, src, s) <==> Spans(s, n.Past())
    ensures n.windowPastMax < HALF_RANGE ==> (RelaysOnce(n, src, s) <==> Spans(s, n.windowPastMax))
    ensures n.windowPastMax == HALF_RANGE ==> (RelaysOnce(n, src, s) <==> Spans(s, n.windowSize))
  {
    if base: u32 :| InArc(s, base, n.Past()) {
      forall evs, id: Identity, i: nat, j: nat | PruneFree(evs) && OfSource(evs, src) <= s && id.src == src && i < j
        ensures !(ForwardsAt(n, evs, i, id) && ForwardsAt(n, evs, j, id))
      {
        assert WithinArc(n, evs, src, base, n.Past());
        if ForwardsAt(n, evs, i, id) && ForwardsAt(n, evs, j, id) {
          RefusedUntilPruned(n, evs, i, j, id, base);
        }
      }
    } else {
      var evs, id, i, j := RelayedTwice(n, src, s);
    }
  }

  /** Otherwise some packet is relayed twice, without a prune. */
  lemma RelayedTwice(n: Node, src: u32, s: set<u32>) returns (evs: seq<Event>, id: Identity, i: nat, j: nat)
    requires Unbiased(n, src) && !Spans(s, n.Past())
    ensures PruneFree(evs) && OfSource(evs, src) <= s && id.src == src && i < j
    ensures ForwardsAt(n, evs, i, id) && ForwardsAt(n, evs, j, id)
  {
    NoneTwiceIff(s, n.windowSize, n.Past());
    var h: seq<u32>;
    h, i, j :| Over(h, s) && i < j < |h| && h[i] == h[j] &&
      AcceptedAt(EMPTY, n.windowSize, n.Past(), h, i) && AcceptedAt(EMPTY, n.windowSize, n.Past(), h, j);
    HearAllForwards(n, src, h, i);
    HearAllForwards(n, src, h, j);
    HearAllOfSource(src, h, s);
    evs, id := HearAll(src, h), Identity(src, h[i]);
  }

  /** From a consultation on, without a prune, an identity stays refused. */
  lemma {:induction false} RefusedUntilPruned(n: Node, evs: seq<Event>, i: nat, k: nat, id: Identity, base: u32)
    requires n.Valid() && i < k <= |evs| && PruneFree(evs) && ConsultsAt(n, evs, i, id)
    requires WithinArc(n, evs, id.src, base, n.Past())
    ensures At(n, evs, k).Refuses(id)
    decreases k
  {
    ArrivalInArc(n, evs, id.src, base, n.Past(), i);
    if k == i + 1 {
      ConsultedRefused(At(n, evs, i), evs[i].r);
    } else {
      RefusedUntilPruned(n, evs, i, k - 1, id, base);
      TameAt(n, evs, k - 1, id.src, base, n.Past());
      ArrivalInArc(n, evs, id.src, base, n.Past(), k - 1);
      RefusedNext(At(n, evs, k - 1), evs[k - 1], id, base);
    }
  }

  /** With a window of 16 and a past of 1000, after packet 100 packet 50 is never relayed. */
  lemma OldPacketIsNeverRelayed(n: Node, src: u32)
    requires Unbiased(n, src) && n.windowSize == 16 && n.windowPastMax == 1000
    ensures var evs := HearAll(src, [100, 50]);
            EligibleAt(n, evs, 1, Identity(src, 50)) && !ForwardsAt(n, evs, 1, Identity(src, 50))
  {
    HearAllForwards(n, src, [100, 50], 1);
    ApartIsRefused(16, 1000, 100, 50);
  }

  /** With the same window, packet 5 is relayed again after packet 5005, without any prune. */
  lemma RestartRelaysAgain(n: Node, src: u32)
    requires Unbiased(n, src) && n.windowSize == 16 && n.windowPastMax == 1000
    ensures var evs := HearAll(src, [5, 5005, 5]);
            ForwardsAt(n, evs, 0, Identity(src, 5)) && ForwardsAt(n, evs, 2, Identity(src, 5))
  {
    var h: seq<u32> := [5, 5005, 5];
    HearAllForwards(n, src, h, 0);
    HearAllForwards(n, src, h, 2);
    ApartIsAcceptedAgain(16, 1000, 5005, 5);
  }

  // ----- with pruning -----

  /** The detector is consulted for some packet of this source. */
  ghost predicate TouchesAt(n: Node, evs: seq<Event>, k: nat, src: u32)
    requires n.Valid()
  {
    k < |evs| && evs[k].Arrive? && evs[k].r.pkt.src == src && At(n, evs, k).Consults(evs[k].r)
  }

  /** And finds it new; only this refreshes the source's flow. */
  ghost predicate NewAt(n: Node, evs: seq<Event>, k: nat, src: u32)
    requires n.Valid()
  {
    TouchesAt(n, evs, k, src) && !At(n, evs, k).Refuses(Id(evs[k].r.pkt))
  }

  ghost predicate NoneNew(n: Node, evs: seq<Event>, first: nat, last: nat, src: u32)
    requires n.Valid()
  {
    forall k: nat | first <= k < last :: !NewAt(n, evs, k, src)
  }

  /** Number of prune timeouts among events `first` up to but excluding `last`. */
  function Timeouts(evs: seq<Event>, first: nat, last: nat): nat
    requires first <= last <= |evs|
    decreases last
  {
    if first == last then 0
    else Timeouts(evs, first, last - 1) + if evs[last - 1].PruneTimeout? then 1 else 0
  }

  /** `u` brought the latest new packet from `src` before `k`, and the flow carries its stamp. */
  ghost predicate StampedBy(n: Node, evs: seq<Event>, u: nat, k: nat, src: u32)
    requires n.Valid() && k <= |evs|
  {
    u < k && NewAt(n, evs, u, src) && NoneNew(n, evs, u + 1, k, src) &&
    src in At(n, evs, k).tree && At(n, evs, k).tree[src].updated == At(n, evs, u).now
  }

  /** Between `u` and the prune at `k` nothing new came from the source for longer than the
      maximum age. */
  ghost predicate DryGap(n: Node, evs: seq<Event>, u: nat, k: nat, src: u32)
    requires n.Valid() && k < |evs|
  {
    u < k && evs[k].PruneTimeout? && NewAt(n, evs, u, src) && NoneNew(n, evs, u + 1, k, src) &&
    PRUNE_INTERVAL * Timeouts(evs, u + 1, k + 1) > n.ageMax
  }

  lemma WrapAdd(a: int, b: int)
    ensures Wrap32(Wrap32(a) + b) == Wrap32(a + b)
  {
    assert a == U32_RANGE * (a / U32_RANGE) + Wrap32(a);
    var q := a / U32_RANGE;
    WrapShift(Wrap32(a) + b, q);
  }

  lemma {:induction false} WrapShift(x: int, q: int)
    ensures Wrap32(x + U32_RANGE * q) == Wrap32(x)
    decreases if q < 0 then -q else q
  {
    if q > 0 {
      WrapShift(x, q - 1);
      assert x + U32_RANGE * q == x + U32_RANGE * (q - 1) + U32_RANGE;
    } else if q < 0 {
      WrapShift(x, q + 1);
      assert x + U32_RANGE * q == x + U32_RANGE * (q + 1) - U32_RANGE;
    }
  }

  lemma NextNow(n: Node, evs: seq<Event>, k: nat)
    requires n.Valid() && k < |evs|
    ensures At(n, evs, k + 1).now ==
            if evs[k].PruneTimeout? then Wrap32(At(n, evs, k).now + PRUNE_INTERVAL) else At(n, evs, k).now
  {
  }

  lemma {:induction false} Clock(n: Node, evs: seq<Event>, u: nat, k: nat)
    requires n.Valid() && u < k <= |evs| && !evs[u].PruneTimeout?
    ensures At(n, evs, k).now == Wrap32(At(n, evs, u).now + PRUNE_INTERVAL * Timeouts(evs, u + 1, k))
    decreases k
  {
    NextNow(n, evs, k - 1);
    if k > u + 1 {
      Clock(n, evs, u, k - 1);
      WrapAdd(At(n, evs, u).now + PRUNE_INTERVAL * Timeouts(evs, u + 1, k - 1), PRUNE_INTERVAL);
    }
  }

  /** The wrapped age never overstates the time that passed. */
  lemma AgeAtMostElapsed(stamp: u32, elapsed: nat)
    ensures Age(Wrap32(stamp + elapsed), stamp) <= elapsed
  {
    var t := stamp + elapsed;
    assert t == U32_RANGE * (t / U32_RANGE) + Wrap32(t);
  }

  /** If a flow is dropped by the prune at `k`, nothing new came from its source for long. */
  lemma DroppedMeansDry(n: Node, evs: seq<Event>, u: nat, k: nat, src: u32)
    requires n.Valid() && k < |evs| && StampedBy(n, evs, u, k, src)
    requires src !in At(n, evs, k + 1).tree
    ensures DryGap(n, evs, u, k, src)
  {
    assert evs[k].PruneTimeout?;
    Clock(n, evs, u, k + 1);
    AgeAtMostElapsed(At(n, evs, u).now, PRUNE_INTERVAL * Timeouts(evs, u + 1, k + 1));
  }

  lemma AgeWithinWrap(stamp: u32, elapsed: nat)
    requires elapsed < U32_RANGE
    ensures Age(Wrap32(stamp + elapsed), stamp) == elapsed
  {
    AgeIsElapsed(stamp + elapsed, stamp);
  }

  /** A flow goes only at a prune, and by its age. */
  lemma GoesAtPrune(n: Node, evs: seq<Event>, k: nat, src: u32)
    requires n.Valid() && k < |evs| && src in At(n, evs, k).tree
    ensures src !in At(n, evs, k + 1).tree <==>
            evs[k].PruneTimeout? && Age(At(n, evs, k + 1).now, At(n, evs, k).tree[src].updated) > n.ageMax
  {
  }

  /** And the other way round, while the ages have not gone once around: at a prune a flow goes
      exactly if at five seconds a timeout, counting this one, its latest new packet lies longer
      back than the maximum age. */
  lemma DroppedIffDry(n: Node, evs: seq<Event>, u: nat, k: nat, src: u32)
    requires n.Valid() && k < |evs| && StampedBy(n, evs, u, k, src)
    requires 5 * Timeouts(evs, u + 1, k + 1) < U32_RANGE
    ensures src !in At(n, evs, k + 1).tree <==> evs[k].PruneTimeout? && 5 * Timeouts(evs, u + 1, k + 1) > n.ageMax
  {
    GoesAtPrune(n, evs, k, src);
    Clock(n, evs, u, k + 1);
    AgeWithinWrap(At(n, evs, u).now, 5 * Timeouts(evs, u + 1, k + 1));
  }

  /** From its first sight on an identity stays refused until a dry gap of its source. */
  lemma {:induction false} RefusedUntilDry(n: Node, evs: seq<Event>, i: nat, k: nat, id: Identity, base: u32)
    requires n.Valid() && i < k <= |evs| && Arrives(evs, i, id) && NewAt(n, evs, i, id.src)
    requires WithinArc(n, evs, id.src, base, n.Past())
    ensures (exists u: nat, p: nat | i <= u < p < k :: DryGap(n, evs, u, p, id.src))
            || (At(n, evs, k).Refuses(id) && exists u: nat | i <= u < k :: StampedBy(n, evs, u, k, id.src))
    decreases k
  {
    if k == i + 1 {
      ConsultedRefused(At(n, evs, i), evs[i].r);
      assert StampedBy(n, evs, i, k, id.src);
    } else {
      RefusedUntilDry(n, evs, i, k - 1, id, base);
      if !exists u: nat, p: nat | i <= u < p < k - 1 :: DryGap(n, evs, u, p, id.src) {
        var u: nat :| i <= u < k - 1 && StampedBy(n, evs, u, k - 1, id.src);
        StampedStep(n, evs, u, k - 1, id, base, i);
        if id.src !in At(n, evs, k).tree {
          DroppedMeansDry(n, evs, u, k - 1, id.src);
        }
      }
    }
  }

  lemma RefusalStep(n: Node, evs: seq<Event>, k: nat, id: Identity, base: u32, i: nat)
    requires n.Valid() && k < |evs| && At(n, evs, k).Refuses(id)
    requires Arrives(evs, i, id) && WithinArc(n, evs, id.src, base, n.Past())
    ensures id.src !in At(n, evs, k + 1).tree || At(n, evs, k + 1).Refuses(id)
  {
    ArrivalInArc(n, evs, id.src, base, n.Past(), i);
    ArrivalInArc(n, evs, id.src, base, n.Past(), k);
    TameAt(n, evs, k, id.src, base, n.Past());
    RefusedNext(At(n, evs, k), evs[k], id, base);
  }

  lemma StampStep(n: Node, evs: seq<Event>, u: nat, k: nat, src: u32)
    requires n.Valid() && k < |evs| && StampedBy(n, evs, u, k, src)
    ensures src !in At(n, evs, k + 1).tree || StampedBy(n, evs, u, k + 1, src) || StampedBy(n, evs, k, k + 1, src)
  {
  }

  lemma StampedStep(n: Node, evs: seq<Event>, u: nat, k: nat, id: Identity, base: u32, i: nat)
    requires n.Valid() && k < |evs| && StampedBy(n, evs, u, k, id.src) && At(n, evs, k).Refuses(id)
    requires Arrives(evs, i, id) && WithinArc(n, evs, id.src, base, n.Past())
    ensures id.src !in At(n, evs, k + 1).tree
            || (At(n, evs, k + 1).Refuses(id) &&
                (StampedBy(n, evs, u, k + 1, id.src) || StampedBy(n, evs, k, k + 1, id.src)))
  {
    RefusalStep(n, evs, k, id, base, i);
    StampStep(n, evs, u, k, id.src);
  }

  /** Two relays of one identity by one node are always separated by a prune before which
      nothing new came from the source for longer than the maximum age, for any mix of
      events, if the source's identifiers lie within the past. */
  lemma AtMostOncePerDryGap(n: Node, evs: seq<Event>, i: nat, j: nat, id: Identity)
    requires n.Valid() && i < j && Near(n, evs, id.src, n.Past())
    requires ForwardsAt(n, evs, i, id) && ForwardsAt(n, evs, j, id)
    ensures exists u: nat, p: nat | i <= u < p < j :: DryGap(n, evs, u, p, id.src)
  {
    var base: u32 :| InArc(OfSource(evs, id.src) + Front(n, id.src), base, n.Past());
    RefusedUntilDry(n, evs, i, j, id, base);
  }

  /** Any two relays of a packet of `src` with an identifier from `s` are so separated. */
  ghost predicate DryBetweenRelays(n: Node, src: u32, s: set<u32>)
    requires n.Valid()
  {
    forall evs, id: Identity, i: nat, j: nat | OfSource(evs, src) <= s && id.src == src && i < j ::
      ForwardsAt(n, evs, i, id) && ForwardsAt(n, evs, j, id) ==>
        exists u: nat, p: nat | i <= u < p < j :: DryGap(n, evs, u, p, src)
  }

  /** So it is for every mix of events exactly if the identifiers lie within the past. */
  lemma DryBetweenRelaysIff(n: Node, src: u32, s: set<u32>)
    requires Unbiased(n, src)
    ensures DryBetweenRelays(n, src, s) <==> Spans(s, n.Past())
    ensures n.windowPastMax < HALF_RANGE ==> (DryBetweenRelays(n, src, s) <==> Spans(s, n.windowPastMax))
  {
    if base: u32 :| InArc(s, base, n.Past()) {
      forall evs, id: Identity, i: nat, j: nat | OfSource(evs, src) <= s && id.src == src && i < j &&
                                                 ForwardsAt(n, evs, i, id) && ForwardsAt(n, evs, j, id)
        ensures exists u: nat, p: nat | i <= u < p < j :: DryGap(n, evs, u, p, src)
      {
        assert InArc(OfSource(evs, src) + Front(n, src), base, n.Past());
        AtMostOncePerDryGap(n, evs, i, j, id);
      }
    } else {
      var evs, id, i, j := RelayedTwice(n, src, s);
      assert forall u: nat, p: nat | p < |evs| :: !DryGap(n, evs, u, p, src);
    }
  }

  /** With the constructor's settings the gap spans at least three timeouts. */
  lemma ThreeTimeoutsApart(n: Node, evs: seq<Event>, i: nat, j: nat, id: Identity)
    requires n.Valid() && n.ageMax == 10 && i < j && Near(n, evs, id.src, n.Past())
    requires ForwardsAt(n, evs, i, id) && ForwardsAt(n, evs, j, id)
    ensures Timeouts(evs, i + 1, j) >= 3
  {
    AtMostOncePerDryGap(n, evs, i, j, id);
    var u: nat, p: nat :| i <= u < p < j && DryGap(n, evs, u, p, id.src);
    TimeoutsMonotone(evs, i + 1, u + 1, p + 1, j);
  }

  lemma {:induction false} TimeoutsMonotone(evs: seq<Event>, a: nat, b: nat, c: nat, d: nat)
    requires a <= b <= c <= d <= |evs|
    ensures Timeouts(evs, a, d) >= Timeouts(evs, b, c)
    decreases d
  {
    if c < d {
      TimeoutsMonotone(evs, a, b, c, d - 1);
    } else if b < c {
      TimeoutsMonotone(evs, a, b, c - 1, d - 1);
    }
  }

  // ----- a source that is merely repeating itself -----

  /** Between `u` and the prune at `k` the detector was not consulted for the source at all
      for longer than the maximum age. */
  ghost predicate QuietGap(n: Node, evs: seq<Event>, u: nat, k: nat, src: u32)
    requires n.Valid() && k < |evs|
  {
    u < k && evs[k].PruneTimeout? && TouchesAt(n, evs, u, src) &&
    (forall j: nat | u < j < k :: !TouchesAt(n, evs, j, src)) &&
    PRUNE_INTERVAL * Timeouts(evs, u + 1, k + 1) > n.ageMax
  }

  /** A dry gap is a quiet one exactly if every duplicate in it came more than the maximum
      age before the prune. */
  lemma QuietIff(n: Node, evs: seq<Event>, u: nat, p: nat, src: u32)
    requires n.Valid() && p < |evs| && DryGap(n, evs, u, p, src)
    ensures (exists c: nat :: QuietGap(n, evs, c, p, src)) <==>
            forall k: nat | u < k < p && TouchesAt(n, evs, k, src) ::
              PRUNE_INTERVAL * Timeouts(evs, k + 1, p + 1) > n.ageMax
  {
    var last := LastTouch(n, evs, u, p, src);
    if c: nat :| QuietGap(n, evs, c, p, src) {
      assert c == last;
      forall k: nat | u < k < p && TouchesAt(n, evs, k, src)
        ensures PRUNE_INTERVAL * Timeouts(evs, k + 1, p + 1) > n.ageMax
      {
        assert k <= last;
        TimeoutsMonotone(evs, k + 1, last + 1, p + 1, p + 1);
      }
    } else if forall k: nat | u < k < p && TouchesAt(n, evs, k, src) ::
                PRUNE_INTERVAL * Timeouts(evs, k + 1, p + 1) > n.ageMax {
      assert QuietGap(n, evs, last, p, src);
    }
  }

  /** Every duplicate between `u` and the prune at `p` came more than the maximum age before it. */
  ghost predicate EarlyOnly(n: Node, evs: seq<Event>, u: nat, p: nat, src: u32)
    requires n.Valid() && p < |evs|
  {
    forall k: nat | u < k < p && TouchesAt(n, evs, k, src) :: PRUNE_INTERVAL * Timeouts(evs, k + 1, p + 1) > n.ageMax
  }

  /** Between two relays of a packet the source was silent for longer than the maximum age before
      some prune, exactly if before some prune it brought nothing new for that long and its
      duplicates all came early. */
  lemma QuietBetweenIff(n: Node, evs: seq<Event>, i: nat, j: nat, id: Identity)
    requires n.Valid() && i < j <= |evs| && ForwardsAt(n, evs, i, id)
    ensures (exists c: nat, p: nat | i <= c < p < j :: QuietGap(n, evs, c, p, id.src)) <==>
            exists u: nat, p: nat | i <= u < p < j :: DryGap(n, evs, u, p, id.src) && EarlyOnly(n, evs, u, p, id.src)
  {
    var src := id.src;
    if c: nat, p: nat :| i <= c < p < j && QuietGap(n, evs, c, p, src) {
      var u := LastNew(n, evs, i, c, src);
      DryBeforeQuiet(n, evs, u, c, p, src);
    } else if u: nat, p: nat :| i <= u < p < j && DryGap(n, evs, u, p, src) && EarlyOnly(n, evs, u, p, src) {
      var last := LastTouch(n, evs, u, p, src);
      assert QuietGap(n, evs, last, p, src);
    }
  }

  lemma DryBeforeQuiet(n: Node, evs: seq<Event>, u: nat, c: nat, p: nat, src: u32)
    requires n.Valid() && u <= c < p < |evs| && QuietGap(n, evs, c, p, src)
    requires NewAt(n, evs, u, src) && NoneNew(n, evs, u + 1, c + 1, src)
    ensures DryGap(n, evs, u, p, src) && EarlyOnly(n, evs, u, p, src)
  {
    TimeoutsMonotone(evs, u + 1, c + 1, p + 1, p + 1);
    forall k: nat | u < k < p && TouchesAt(n, evs, k, src)
      ensures PRUNE_INTERVAL * Timeouts(evs, k + 1, p + 1) > n.ageMax
    {
      assert k <= c;
      TimeoutsMonotone(evs, k + 1, c + 1, p + 1, p + 1);
    }
  }

  /** The latest new packet up to `c`. */
  lemma {:induction false} LastNew(n: Node, evs: seq<Event>, i: nat, c: nat, src: u32) returns (u: nat)
    requires n.Valid() && i <= c < |evs| && NewAt(n, evs, i, src)
    ensures i <= u <= c && NewAt(n, evs, u, src) && NoneNew(n, evs, u + 1, c + 1, src)
    decreases c - i
  {
    if k: nat :| i < k <= c && NewAt(n, evs, k, src) {
      u := LastNew(n, evs, k, c, src);
    } else {
      u := i;
    }
  }

  lemma {:induction false} LastTouch(n: Node, evs: seq<Event>, u: nat, p: nat, src: u32) returns (last: nat)
    requires n.Valid() && u < p < |evs| && TouchesAt(n, evs, u, src)
    ensures u <= last < p && TouchesAt(n, evs, last, src)
    ensures forall j: nat | last < j < p :: !TouchesAt(n, evs, j, src)
    decreases p - u
  {
    if j: nat :| u < j < p && TouchesAt(n, evs, j, src) {
      last := LastTouch(n, evs, j, p, src);
    } else {
      last := u;
    }
  }

  /** One packet, heard again just before its flow gets too old. */
  function Repeating(src: u32): seq<Event> {
    var a := Arrive(Heard(src, 7));
    [a, PruneTimeout, PruneTimeout, a, PruneTimeout, a]
  }

  /** A duplicate does not refresh the flow: the packet is relayed twice, although the
      detector was consulted for its source within the maximum age before every prune. */
  lemma DuplicatesDoNotRefresh(n: Node, src: u32)
    requires Unbiased(n, src) && n.ageMax == 10
    ensures var evs, id := Repeating(src), Identity(src, 7);
            && ForwardsAt(n, evs, 0, id) && TouchesAt(n, evs, 3, src) && ForwardsAt(n, evs, 5, id)
            && forall u: nat, p: nat | p < |evs| :: !QuietGap(n, evs, u, p, src)
  {
    var evs := Repeating(src);
    FirstHalf(n, evs, src);
    SecondHalf(n, evs, src);
    HeardNext(At(n, evs, 0), src, 7);
    HeardNext(At(n, evs, 3), src, 7);
    HeardNext(At(n, evs, 5), src, 7);
    assert Timeouts(evs, 1, 2) == 1 && Timeouts(evs, 1, 3) == 2 && Timeouts(evs, 4, 5) == 1;
    forall u: nat, p: nat | p < |evs|
      ensures !QuietGap(n, evs, u, p, src)
    {
      if p == 4 && u < 3 { assert TouchesAt(n, evs, 3, src); }
    }
  }

  /** The flow of `src` has seen 7 at `stamp` and nothing else. */
  ghost predicate SawSeven(n: Node, src: u32, stamp: u32) {
    n.Valid() && n.defaultForward && src in n.tree && n.tree[src] == FlowRecord(Mask({7}, 7), stamp)
  }

  lemma SeeSeven(n: Node, evs: seq<Event>, k: nat, src: u32)
    requires n.Valid() && k < |evs| && evs[k] == Arrive(Heard(src, 7)) && Unbiased(At(n, evs, k), src)
    ensures SawSeven(At(n, evs, k + 1), src, At(n, evs, k).now) && At(n, evs, k + 1).now == At(n, evs, k).now
  {
    HeardNext(At(n, evs, k), src, 7);
  }

  lemma SevenAgain(n: Node, evs: seq<Event>, k: nat, src: u32, stamp: u32)
    requires n.Valid() && k < |evs| && evs[k] == Arrive(Heard(src, 7)) && SawSeven(At(n, evs, k), src, stamp)
    ensures SawSeven(At(n, evs, k + 1), src, stamp) && At(n, evs, k + 1).now == At(n, evs, k).now
  {
    HeardNext(At(n, evs, k), src, 7);
  }

  lemma SevenAges(n: Node, evs: seq<Event>, k: nat, src: u32, stamp: u32)
    requires n.Valid() && k < |evs| && evs[k] == PruneTimeout && SawSeven(At(n, evs, k), src, stamp)
    ensures var m := At(n, evs, k + 1);
            m.now == Wrap32(At(n, evs, k).now + PRUNE_INTERVAL) &&
            if Age(m.now, stamp) <= n.ageMax then SawSeven(m, src, stamp) else Unbiased(m, src)
  {
  }

  lemma FirstHalf(n: Node, evs: seq<Event>, src: u32)
    requires Unbiased(n, src) && n.ageMax == 10 && evs == Repeating(src)
    ensures SawSeven(At(n, evs, 3), src, n.now) && At(n, evs, 3).now == Wrap32(Wrap32(n.now + 5) + 5)
  {
    AgesOfRepeating(n.now);
    SeeSeven(n, evs, 0, src);
    SevenAges(n, evs, 1, src, n.now);
    SevenAges(n, evs, 2, src, n.now);
  }

  lemma SecondHalf(n: Node, evs: seq<Event>, src: u32)
    requires Unbiased(n, src) && n.ageMax == 10 && evs == Repeating(src)
    requires SawSeven(At(n, evs, 3), src, n.now) && At(n, evs, 3).now == Wrap32(Wrap32(n.now + 5) + 5)
    ensures Unbiased(At(n, evs, 5), src)
  {
    AgesOfRepeating(n.now);
    SevenAgain(n, evs, 3, src, n.now);
    SevenAges(n, evs, 4, src, n.now);
  }

  lemma AgesOfRepeating(now: u32)
    ensures var a := Wrap32(now + 5);
            var b := Wrap32(a + 5);
            Age(a, now) == 5 && Age(b, now) == 10 && Age(Wrap32(b + 5), now) == 15
  {
  }

  // ----- the counters -----

  /** What happened in a run: packets captured, multicast packets among them, packets relayed,
      and packets not relayed only because they had been seen. */
  datatype Tally = Tally(captured: nat, multicast: nat, relayed: nat, seen: nat)

  /** One more of each that happened. */
  function Bump(t: Tally, captured: bool, multicast: bool, relayed: bool, seen: bool): Tally {
    Tally(t.captured + if captured then 1 else 0, t.multicast + if multicast then 1 else 0,
          t.relayed + if relayed then 1 else 0, t.seen + if seen then 1 else 0)
  }

  ghost function TallyNext(m: Node, e: Event, t: Tally): Tally
    requires m.Valid()
  {
    if !e.Arrive? then t
    else
      var captured := e.r.direction == Inbound || m.resequence;
      Bump(t, captured, captured && e.r.pkt.target == Multicast, m.Forwards(e.r),
           m.Eligible(e.r) && m.Refuses(Id(e.r.pkt)))
  }

  ghost function TallyOf(n: Node, evs: seq<Event>, k: nat): Tally
    requires n.Valid() && k <= |evs|
  {
    if k == 0 then Tally(0, 0, 0, 0)
    else TallyNext(At(n, evs, k - 1), evs[k - 1], TallyOf(n, evs, k - 1))
  }

  predicate Counts(n: Node, m: Node, t: Tally) {
    m.recv == Wrap32(n.recv + t.captured) && m.mrcv == Wrap32(n.mrcv + t.multicast) &&
    m.sent == Wrap32(n.sent + t.relayed) && m.dups == Wrap32(n.dups + t.seen)
  }

  lemma OneMoreCounted(a: nat)
    ensures Wrap32(Wrap32(a) + 1) == Wrap32(a + 1)
  {
    WrapAdd(a, 1);
  }

  lemma CountsNext(n: Node, m: Node, e: Event, t: Tally)
    requires m.Valid() && Counts(n, m, t)
    ensures Counts(n, Next(m, e), TallyNext(m, e, t))
  {
    OneMoreCounted(n.recv + t.captured);
    OneMoreCounted(n.mrcv + t.multicast);
    OneMoreCounted(n.sent + t.relayed);
    OneMoreCounted(n.dups + t.seen);
  }

  lemma NoMoreThanCame(m: Node, e: Event, t: Tally)
    requires m.Valid() && t.relayed + t.seen <= t.multicast <= t.captured
    ensures var u := TallyNext(m, e, t); u.relayed + u.seen <= u.multicast <= u.captured
  {
  }

  /** The four counters count just these, around their 32 bits; and of the multicast packets no
      more are relayed or recognised than came. */
  lemma {:induction false} CountersTell(n: Node, evs: seq<Event>, k: nat)
    requires n.Valid() && k <= |evs|
    ensures var t := TallyOf(n, evs, k);
            Counts(n, At(n, evs, k), t) && t.relayed + t.seen <= t.multicast <= t.captured
  {
    if k > 0 {
      CountersTell(n, evs, k - 1);
      CountsNext(n, At(n, evs, k - 1), evs[k - 1], TallyOf(n, evs, k - 1));
      NoMoreThanCame(At(n, evs, k - 1), evs[k - 1], TallyOf(n, evs, k - 1));
    }
  }
}
