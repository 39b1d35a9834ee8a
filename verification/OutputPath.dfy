/**
  The IP output path: from the routing decision down to the interface.  The procedures are
  run on the packet registry, whose operations reject a packet that has already been given
  away, and are proved to put out exactly what `SendOut` says and to leave no packet object
  unaccounted for.
*/
module OutputPath {
  import opened Basics
  import opened Kernel
  import opened Fragmentation
  import opened Journey
  import opened OutputSpec
  import opened Dispatch

  lemma AddedEvents(before: seq<Out>, evs: seq<Out>)
    ensures (before + evs)[|before|..] == evs
  {
  }

  // ----- tunnels -----

  method DgramDiscard(k: Registry, pk: nat)
    requires k.Valid() && pk in k.live
    modifies k
    ensures k.Consumes(pk) && k.out == old(k.out)
  {
    k.Destroy(pk);
  }

  /** Wrap `inner` into a new packet whose other contents are `shell`. */
  method Wrap(k: Registry, inner: nat, shell: Pkt) returns (pk: nat)
    requires k.Valid() && inner in k.live && shell.data.None?
    modifies k
    ensures k.Valid() && old(k.next) <= k.next && k.out == old(k.out)
    ensures pk !in old(k.live)
    ensures k.live == (old(k.live) - {inner})[pk := shell.(data := Some(old(k.live)[inner]))]
  {
    pk := k.Create(shell);
    k.PutData(pk, inner);
  }

  method Unwrap(k: Registry, pk: nat) returns (inner: nat)
    requires k.Valid() && pk in k.live && k.live[pk].data.Some?
    modifies k
    ensures k.Valid() && old(k.next) <= k.next && k.out == old(k.out)
    ensures inner !in old(k.live)
    ensures k.live == (old(k.live) - {pk})[inner := old(k.live)[pk].data.value]
  {
    inner := k.TakeData(pk);
    k.Destroy(pk);
  }

  method MakePayload(k: Registry, inner: nat, t: Tunnel) returns (payload: nat)
    requires k.Valid() && inner in k.live
    modifies k
    ensures k.Valid() && old(k.next) <= k.next && k.out == old(k.out)
    ensures payload in k.live && k.live[payload] == Payload(t, old(k.live)[inner])
    ensures k.live - {payload} == old(k.live) - {inner}
  {
    payload := inner;
    if t.mode.Gre? {
      payload := Wrap(k, inner, BlankPkt(k.live[inner].size + t.headerBits));
    }
  }

  /** Give up: take the packet out of the GRE packet, if it is in one, and drop it. */
  method DropPayload(k: Registry, payload: nat, t: Tunnel)
    requires k.Valid() && payload in k.live && (t.mode.Gre? ==> k.live[payload].data.Some?)
    modifies k
    ensures k.Consumes(payload) && k.out == old(k.out)
  {
    if t.mode.Gre? {
      var inner := Unwrap(k, payload);
      DgramDiscard(k, inner);
      assert k.live == old(k.live) - {payload};
    } else {
      DgramDiscard(k, payload);
    }
  }

  method PacketTunnel(k: Registry, inner: nat, t: Tunnel)
    requires k.Valid() && inner in k.live
    modifies k
    ensures k.Consumes(inner)
    ensures k.out == old(k.out) + OnceTunnelled(t, old(k.live)[inner])
    ensures if TurnedAway(t, old(k.live)[inner]) then k.out == old(k.out)
            else exists p :: Encapsulates(t, old(k.live)[inner], p) && k.out == old(k.out) + [Tunnelled(p)]
  {
    assert !TurnedAway(t, k.live[inner]) ==> Encapsulates(t, k.live[inner], Outer(t, k.live[inner]));
    var d := k.live[inner];
    if !d.v6 && d.selfTunnelled {
      DgramDiscard(k, inner);
      return;
    }
    var innerSize := d.size + t.headerBits;
    var ttl := match t.ttl case None => d.ttl case Some(x) => x;
    var payload := MakePayload(k, inner, t);
    var enabled := !t.mode.Gre? || if d.v6 then t.passesV6 else t.passesV4;
    var failed := (t.mode.V6Manual? || t.mode.V6Auto? || t.mode.V6To4?) && t.fieldsFail;
    if failed || !enabled {
      DropPayload(k, payload, t);
    } else {
      var total := DGRAM_HEADER_BITS + innerSize;
      var shell := BlankPkt(total).(
        fragLen := TruncDiv(innerSize, 8), originalSize := total, ttl := ttl, selfTunnelled := true);
      ghost var others := k.live - {payload};
      var outer := Wrap(k, payload, shell);
      assert k.live - {outer} == others;
      k.Redeliver(outer);
    }
  }

  method PacketTunnelProc(k: Registry, inner: nat, hop: NextHop, t: Tunnel)
    requires k.Valid() && inner in k.live
    modifies k
    ensures k.Consumes(inner)
    ensures k.out == old(k.out) + TunnelOut(t, old(k.live)[inner], hop)
    ensures var d, evs := old(k.live)[inner], k.out[|old(k.out)|..];
            |evs| == (if TurnedAway(t, d) then 0 else Endpoints(t, hop)) &&
            forall e | e in evs :: e.Tunnelled? && Encapsulates(t, d, e.pkt)
  {
    TunnelCopies(t, k.live[inner], hop);
    AddedEvents(k.out, TunnelOut(t, k.live[inner], hop));
    if t.multipoint {
      if hop.group {
        for index := 0 to |t.endpoints|
          invariant k.Valid() && old(k.next) <= k.next && k.live == old(k.live)
          invariant k.out == old(k.out) + Repeated(OnceTunnelled(t, old(k.live)[inner]), index)
        {
          var copy := k.Copy(inner);
          PacketTunnel(k, copy, t);
          assert k.live == old(k.live);
          Assoc(old(k.out), Repeated(OnceTunnelled(t, old(k.live)[inner]), index),
                OnceTunnelled(t, old(k.live)[inner]));
        }
        k.Destroy(inner);
      } else {
        var found := false;
        var index := 0;
        while index < |t.endpoints| && !found
          invariant 0 <= index <= |t.endpoints|
          invariant !found ==> k.Valid() && old(k.next) <= k.next && k.live == old(k.live) && k.out == old(k.out)
          invariant !found ==> hop.addr !in t.endpoints[..index]
          invariant found ==> hop.addr in t.endpoints && k.Consumes(inner)
          invariant found ==> k.out == old(k.out) + OnceTunnelled(t, old(k.live)[inner])
        {
          if hop.addr == t.endpoints[index] {
            PacketTunnel(k, inner, t);
            found := true;
          }
          index := index + 1;
        }
        if !found {
          DgramDiscard(k, inner);
        }
      }
    } else {
      PacketTunnel(k, inner, t);
    }
  }

  // ----- interface -----

  /** Hand one fragment to the interface: through its tunnel, to nowhere if it has no
      stream, or to the lower layer. */
  method FragSend(k: Registry, pk: nat, i: nat, intf: Intf, hop: NextHop)
    requires k.Valid() && pk in k.live
    modifies k
    ensures k.Consumes(pk)
    ensures k.out == old(k.out) + IntfOut(intf, i, old(k.live)[pk], hop)
  {
    match intf.tunnel
    case Some(t) =>
      PacketTunnelProc(k, pk, hop, t);
    case None =>
      if intf.hasStream {
        k.Send(pk, i);
      } else {
        DgramDiscard(k, pk);
      }
  }

  /** The packet stripped of what only one piece may hold. */
  function Stripped(d: Pkt): Pkt { d.(data := None, carried := None) }

  /** `pk` is what is left of `d` after its nested packets were taken out as `ip` and `data`. */
  ghost predicate Opened(k: Registry, pk: nat, d: Pkt, ip: Option<nat>, data: Option<nat>)
    reads k
  {
    pk in k.live && k.live[pk] == Stripped(d) && pk !in Held(ip) && pk !in Held(data) &&
    (ip.Some? <==> d.carried.Some?) && (data.Some? <==> d.data.Some?) &&
    (ip.Some? ==> ip.value in k.live && k.live[ip.value] == d.carried.value) &&
    (data.Some? ==> data.value in k.live && k.live[data.value] == d.data.value)
  }

  method TakeOut(k: Registry, pk: nat) returns (ip: Option<nat>, data: Option<nat>)
    requires k.Valid() && pk in k.live
    modifies k
    ensures k.Valid() && old(k.next) <= k.next && k.out == old(k.out)
    ensures Opened(k, pk, old(k.live)[pk], ip, data)
    ensures Held(ip) !! old(k.live).Keys && Held(data) !! old(k.live).Keys && Held(ip) !! Held(data)
    ensures k.live - Held(ip) - Held(data) - {pk} == old(k.live) - {pk}
  {
    ip, data := None, None;
    if k.live[pk].carried.Some? {
      var handle := k.TakeCarried(pk);
      ip := Some(handle);
    }
    assert k.live - Held(ip) - {pk} == old(k.live) - {pk};
    if k.live[pk].data.Some? {
      var handle := k.TakeData(pk);
      data := Some(handle);
    }
  }

  function Held(h: Option<nat>): set<nat> { match h case None => {} case Some(x) => {x} }

  /** The pieces with indices below `n`. */
  function Pieces(d: Pkt, mtu: int, n: nat): seq<Pkt> {
    seq(n, i requires 0 <= i => Piece(d, mtu, i))
  }

  /** The header fields of one piece of `s`, as the fragmentation loop fills them in. */
  function Filled(s: Pkt, mtu: int, last: bool, fragAccum: int, originalSizeAccum: int): Pkt {
    var headerSize := HeaderSize(s);
    var f := s.(frag := true, offset := s.offset + fragAccum);
    if !last then
      f.(fragLen := mtu - headerSize, size := 8 * mtu,
         originalSize := if s.compression.PerVirtualCircuit? then ShareOf(s, mtu) else s.originalSize)
    else
      var len := s.fragLen - fragAccum;
      f.(fragLen := len, size := 8 * (headerSize + len),
         originalSize := if s.compression.PerVirtualCircuit? then s.originalSize - originalSizeAccum
                         else s.originalSize)
  }

  /** The loop's running totals before piece `index`. */
  ghost predicate Totals(d: Pkt, mtu: int, index: nat, fragAccum: int, originalSizeAccum: int) {
    fragAccum == index * Room(d, mtu) &&
    (d.compression.PerVirtualCircuit? ==>
       originalSizeAccum == index * (ShareOf(d, mtu) - HeaderSize(d) * 8))
  }

  lemma FilledIsPiece(d: Pkt, mtu: int, index: nat, fragAccum: int, originalSizeAccum: int)
    requires Totals(d, mtu, index, fragAccum, originalSizeAccum)
    ensures Filled(Stripped(d), mtu, index >= NumFrags(d, mtu) - 1, fragAccum, originalSizeAccum)
         == Piece(d, mtu, index).(carried := None)
  {
    assert HeaderSize(Stripped(d)) == HeaderSize(d);
    assert ShareOf(Stripped(d), mtu) == ShareOf(d, mtu);
  }

  /** Copy `pk` and give the copy the fields of one piece. */
  method CopyPiece(k: Registry, pk: nat, mtu: int, last: bool, fragAccum: int, originalSizeAccum: int)
    returns (frag: nat)
    requires k.Valid() && pk in k.live
    modifies k
    ensures k.Valid() && old(k.next) <= k.next && k.out == old(k.out)
    ensures frag !in old(k.live)
    ensures k.live == old(k.live)[frag := Filled(old(k.live)[pk], mtu, last, fragAccum, originalSizeAccum)]
  {
    frag := k.Copy(pk);
    var f := k.live[frag];
    var headerSize := HeaderSize(f);
    f := f.(frag := true);
    f := f.(offset := f.offset + fragAccum);
    if !last {
      f := f.(fragLen := mtu - headerSize);
      f := f.(size := 8 * mtu);
      if f.compression.PerVirtualCircuit? {
        f := f.(originalSize := ShareOf(k.live[pk], mtu));
      }
    } else {
      var len := f.fragLen - fragAccum;
      f := f.(fragLen := len);
      f := f.(size := 8 * (headerSize + len));
      if f.compression.PerVirtualCircuit? {
        f := f.(originalSize := f.originalSize - originalSizeAccum);
      }
    }
    k.Write(frag, f);
  }

  /** Dispose of the original: into the last piece, or its passenger in its place. */
  method Encapsulate(k: Registry, frag: nat, pk: nat, ghost d: Pkt, ip: Option<nat>, data: Option<nat>)
    requires k.Valid() && Opened(k, pk, d, ip, data)
    requires frag in k.live && frag != pk && k.live[frag].carried.None?
    requires frag !in Held(ip) && frag !in Held(data)
    modifies k
    ensures k.Valid() && old(k.next) <= k.next && k.out == old(k.out)
    ensures frag in k.live && k.live[frag] == old(k.live)[frag].(carried := Passenger(d))
    ensures k.live - {frag} == old(k.live) - {frag} - {pk} - if d.frag then Held(ip) else Held(data)
  {
    if !k.live[pk].frag {
      if data.Some? {
        k.PutData(pk, data.value);
      }
      assert k.live[pk] == d.(carried := None);
      k.PutCarried(frag, pk);
    } else {
      k.Destroy(pk);
      if ip.Some? {
        k.PutCarried(frag, ip.value);
      }
    }
  }

  /** One round of the fragmentation loop: make the piece `p` and send it. */
  method SendPiece(k: Registry, pk: nat, ghost d: Pkt, ghost p: Pkt, last: bool, fragAccum: int, originalSizeAccum: int,
                   ip: Option<nat>, data: Option<nat>, i: nat, intf: Intf, hop: NextHop)
    returns (originalSize: int)
    requires k.Valid() && Opened(k, pk, d, ip, data)
    requires Filled(Stripped(d), intf.mtu, last, fragAccum, originalSizeAccum) == p.(carried := None)
    requires p.carried == if last then Passenger(d) else None
    modifies k
    ensures k.Valid() && old(k.next) <= k.next
    ensures k.live == if last then old(k.live) - {pk} - (if d.frag then Held(ip) else Held(data)) else old(k.live)
    ensures originalSize == p.originalSize
    ensures k.out == old(k.out) + IntfOut(intf, i, p, hop)
  {
    ghost var base := k.live;
    var frag := CopyPiece(k, pk, intf.mtu, last, fragAccum, originalSizeAccum);
    originalSize := k.live[frag].originalSize;
    if last {
      Encapsulate(k, frag, pk, d, ip, data);
      assert k.live - {frag} == base - {pk} - if d.frag then Held(ip) else Held(data);
    } else {
      assert k.live - {frag} == base;
    }
    FragSend(k, frag, i, intf, hop);
  }

  /** What is left in hand once `pk` and one of the handles are gone. */
  lemma Leftovers(before: map<nat, Pkt>, base: map<nat, Pkt>, pk: nat, d: Pkt, ip: Option<nat>, data: Option<nat>)
    requires pk in base && pk in before
    requires base - Held(ip) - Held(data) - {pk} == before - {pk}
    requires Held(ip) + Held(data) <= base.Keys && Held(ip) !! before.Keys && Held(data) !! before.Keys
    requires Held(ip) !! Held(data)
    requires (ip.Some? <==> d.carried.Some?) && (data.Some? <==> d.data.Some?)
    ensures base != before - {pk}
    ensures Extends(base, before, {pk})
    ensures Extends(base - {pk} - (if d.frag then Held(ip) else Held(data)), before, {pk})
    ensures base - {pk} - (if d.frag then Held(ip) else Held(data)) == before - {pk}
            <==> if d.frag then d.data.None? else d.carried.None?
  {
    var rest := base - {pk} - if d.frag then Held(ip) else Held(data);
    assert pk !in before - {pk};
    forall id | id in before && id != pk
      ensures id in rest && rest[id] == before[id] == base[id]
    {
      assert id in before - {pk} && (before - {pk})[id] == before[id];
    }
    assert forall h | h in Held(if d.frag then data else ip) :: h in rest && h !in before;
    if d.frag && data.Some? { assert data.value in rest; }
    if !d.frag && ip.Some? { assert ip.value in rest; }
  }

  /** The total after piece `index`. */
  function SizeTotal(d: Pkt, mtu: int, index: nat, originalSizeAccum: int): int {
    if d.compression.PerVirtualCircuit?
    then originalSizeAccum + (Piece(d, mtu, index).originalSize - HeaderSize(d) * 8)
    else originalSizeAccum
  }

  lemma TotalsGrow(d: Pkt, mtu: int, index: nat, fragAccum: int, originalSizeAccum: int)
    requires Totals(d, mtu, index, fragAccum, originalSizeAccum)
    requires index < NumFrags(d, mtu) - 1
    ensures Totals(d, mtu, index + 1, fragAccum + Room(d, mtu), SizeTotal(d, mtu, index, originalSizeAccum))
  {
    OneMore(index, Room(d, mtu));
    OneMore(index, ShareOf(d, mtu) - HeaderSize(d) * 8);
  }

  /** Fragment a packet and send the pieces.  It is accounted for exactly if the
      fragmentation is free of leaks (or a rate limit drops it first). */
  method PkFragment(k: Registry, pk: nat, i: nat, intf: Intf, comp: int, hop: NextHop)
    requires k.Valid() && pk in k.live && (!intf.rateLimited ==> Defined(k.live[pk], intf.mtu, comp))
    modifies k
    ensures k.Keeps({pk})
    ensures k.Consumes(pk) <==> intf.rateLimited || LeakFree(old(k.live)[pk], intf.mtu, comp)
    ensures k.out == old(k.out) +
            if intf.rateLimited then [] else PiecesOut(intf, i, Frags(old(k.live)[pk], intf.mtu, comp), hop)
    ensures var d, evs := old(k.live)[pk], k.out[|old(k.out)|..];
            (intf.rateLimited ==> evs == []) && forall e | e in evs :: LeavesBy(intf, d, e, i)
  {
    FragsLeave(intf, k.live[pk], i, comp, hop);
    AddedEvents(k.out, PiecesOut(intf, i, Frags(k.live[pk], intf.mtu, comp), hop));
    AddedEvents(k.out, []);
    if intf.rateLimited {
      DgramDiscard(k, pk);
    } else if Fits(k.live[pk], intf.mtu, comp) {
      assert PiecesOut(intf, i, [k.live[pk]][..0], hop) == [];
      FragSend(k, pk, i, intf, hop);
    } else {
      CutAndSend(k, pk, i, intf, comp, hop);
    }
  }

  method CutAndSend(k: Registry, pk: nat, i: nat, intf: Intf, ghost comp: int, hop: NextHop)
    requires k.Valid() && pk in k.live && !Fits(k.live[pk], intf.mtu, comp) && Room(k.live[pk], intf.mtu) != 0
    modifies k
    ensures k.Keeps({pk})
    ensures k.Consumes(pk) <==> LeakFree(old(k.live)[pk], intf.mtu, comp)
    ensures k.out == old(k.out) + PiecesOut(intf, i, Frags(old(k.live)[pk], intf.mtu, comp), hop)
  {
    ghost var d := k.live[pk];
    var ip, data := TakeOut(k, pk);
    Leftovers(old(k.live), k.live, pk, d, ip, data);
    SendPieces(k, pk, d, ip, data, i, intf, hop);
  }

  /** The fragmentation loop. */
  method SendPieces(k: Registry, pk: nat, ghost d: Pkt, ip: Option<nat>, data: Option<nat>, i: nat, intf: Intf,
                    hop: NextHop)
    requires k.Valid() && Opened(k, pk, d, ip, data) && Room(d, intf.mtu) != 0
    modifies k
    ensures k.Valid() && old(k.next) <= k.next
    ensures k.live == if NumFrags(d, intf.mtu) >= 1
                      then old(k.live) - {pk} - (if d.frag then Held(ip) else Held(data)) else old(k.live)
    ensures k.out == old(k.out) +
            PiecesOut(intf, i,
                      if NumFrags(d, intf.mtu) <= 0 then [] else Pieces(d, intf.mtu, NumFrags(d, intf.mtu)), hop)
  {
    var numFrags := NumFrags(k.live[pk], intf.mtu);
    assert numFrags == NumFrags(d, intf.mtu);
    var fragAccum, originalSizeAccum, index: nat := 0, 0, 0;
    while index < numFrags
      invariant index == 0 || index <= numFrags
      invariant k.Valid() && old(k.next) <= k.next
      invariant k.live == if index > 0 && index == numFrags
                          then old(k.live) - {pk} - (if d.frag then Held(ip) else Held(data)) else old(k.live)
      invariant index < numFrags ==> Totals(d, intf.mtu, index, fragAccum, originalSizeAccum)
      invariant k.out == old(k.out) + PiecesOut(intf, i, Pieces(d, intf.mtu, index), hop)
    {
      fragAccum, originalSizeAccum :=
        SendIndexed(k, pk, d, index, numFrags, fragAccum, originalSizeAccum, ip, data, i, intf, hop);
      PiecesOutMore(intf, i, d, index, hop);
      Assoc(old(k.out), PiecesOut(intf, i, Pieces(d, intf.mtu, index), hop),
            IntfOut(intf, i, Piece(d, intf.mtu, index), hop));
      index := index + 1;
    }
  }

  /** The loop body: send piece `index` and bring the totals up to date. */
  method SendIndexed(k: Registry, pk: nat, ghost d: Pkt, index: nat, numFrags: int, accum: int, sizeAccum: int,
                     ip: Option<nat>, data: Option<nat>, i: nat, intf: Intf, hop: NextHop)
    returns (fragAccum: int, originalSizeAccum: int)
    requires k.Valid() && Opened(k, pk, d, ip, data)
    requires index < numFrags == NumFrags(d, intf.mtu) && Totals(d, intf.mtu, index, accum, sizeAccum)
    modifies k
    ensures k.Valid() && old(k.next) <= k.next
    ensures k.live == if index == numFrags - 1
                      then old(k.live) - {pk} - (if d.frag then Held(ip) else Held(data)) else old(k.live)
    ensures index < numFrags - 1 ==> Totals(d, intf.mtu, index + 1, fragAccum, originalSizeAccum)
    ensures k.out == old(k.out) + IntfOut(intf, i, Piece(d, intf.mtu, index), hop)
  {
    var headerSize := HeaderSize(k.live[pk]);
    var perCircuit := k.live[pk].compression.PerVirtualCircuit?;
    FilledIsPiece(d, intf.mtu, index, accum, sizeAccum);
    var originalSize := SendPiece(k, pk, d, Piece(d, intf.mtu, index), index >= numFrags - 1,
                                  accum, sizeAccum, ip, data, i, intf, hop);
    fragAccum, originalSizeAccum := accum, sizeAccum;
    if index < numFrags - 1 {
      TotalsGrow(d, intf.mtu, index, accum, sizeAccum);
      fragAccum := accum + (intf.mtu - headerSize);
      if perCircuit {
        originalSizeAccum := sizeAccum + (originalSize - headerSize * 8);
      }
    }
  }

  lemma PiecesOutMore(intf: Intf, i: nat, d: Pkt, n: nat, hop: NextHop)
    ensures PiecesOut(intf, i, Pieces(d, intf.mtu, n + 1), hop)
         == PiecesOut(intf, i, Pieces(d, intf.mtu, n), hop) + IntfOut(intf, i, Piece(d, intf.mtu, n), hop)
  {
    assert Pieces(d, intf.mtu, n + 1)[..n] == Pieces(d, intf.mtu, n);
  }

  // ----- forwarding -----

  method ForwardOnSingleInterface(k: Registry, pk: nat, r: Router, i: nat, hop: NextHop, ratio: Option<real>)
    requires k.Valid() && pk in k.live && Ready(r, k.live[pk], {One(i)})
    modifies k
    ensures k.Keeps({pk})
    ensures k.Consumes(pk) <==> Clean(r, old(k.live)[pk], {One(i)})
    ensures k.out == old(k.out) + SingleOut(r, old(k.live)[pk], One(i), hop, ratio)
  {
    assert One(i) in {One(i)};
    var intf := r.intfs[i];
    if intf.blocks {
      DgramDiscard(k, pk);
      return;
    }
    ghost var d, e := k.live[pk], Scaled(k.live[pk], ratio);
    ShapeDecides(d, e, intf.mtu, r.compressedSize);
    k.Write(pk, Scaled(k.live[pk], ratio));
    assert k.live - {pk} == old(k.live) - {pk};
    PkFragment(k, pk, i, intf, r.compressedSize, hop);
  }

  lemma {:induction false} TargetOfShare(shares: seq<Share>, i: nat, n: nat)
    requires i < n <= |shares|
    ensures One(shares[i].intf) in ShareTargets(shares, n) && ShareTargets(shares, i) <= ShareTargets(shares, n)
    decreases n
  {
    if i < n - 1 { TargetOfShare(shares, i, n - 1); }
  }

  lemma ShareReady(r: Router, d: Pkt, shares: seq<Share>, i: nat)
    requires i < |shares| && Ready(r, d, ShareTargets(shares, |shares|))
    ensures Ready(r, d, {One(shares[i].intf)}) && Ready(r, d, ShareTargets(shares, i)) &&
            Ready(r, d, ShareTargets(shares, i + 1))
    ensures Clean(r, d, ShareTargets(shares, i + 1)) <==>
            Clean(r, d, ShareTargets(shares, i)) && Clean(r, d, {One(shares[i].intf)})
  {
    TargetOfShare(shares, i, |shares|);
  }

  /** Load balancing: a copy for all but the last share, the packet itself for the last. */
  method ForwardShares(k: Registry, pk: nat, r: Router, shares: seq<Share>)
    requires k.Valid() && pk in k.live && shares != [] && Ready(r, k.live[pk], ShareTargets(shares, |shares|))
    modifies k
    ensures k.Keeps({pk})
    ensures k.Consumes(pk) <==> Clean(r, old(k.live)[pk], ShareTargets(shares, |shares|))
    ensures k.out == old(k.out) + SharesOut(r, old(k.live)[pk], shares, |shares|)
  {
    ghost var d := k.live[pk];
    var numPackets := |shares|;
    for index := 0 to numPackets
      invariant k.Valid() && old(k.next) <= k.next
      invariant Ready(r, d, ShareTargets(shares, index))
      invariant Extends(k.live, old(k.live), Gone(pk, index == numPackets))
      invariant k.live == old(k.live) - Gone(pk, index == numPackets) <==> Clean(r, d, ShareTargets(shares, index))
      invariant k.out == old(k.out) + SharesOut(r, d, shares, index)
    {
      var share := shares[index];
      assert old(k.live) - {} == old(k.live);
      ShareReady(r, d, shares, index);
      ForwardShare(k, pk, r, share, index == numPackets - 1, old(k.live));
      Assoc(old(k.out), SharesOut(r, d, shares, index), SingleOut(r, d, One(share.intf), share.hop, Some(share.ratio)));
    }
  }

  function Gone(pk: nat, last: bool): set<nat> { if last then {pk} else {} }

  /** One share, the packets in hand having been `before` to begin with. */
  method ForwardShare(k: Registry, pk: nat, r: Router, share: Share, last: bool, ghost before: map<nat, Pkt>)
    requires k.Valid() && pk in k.live && Ready(r, k.live[pk], {One(share.intf)})
    requires pk in before && Extends(k.live, before, {})
    modifies k
    ensures k.Valid() && old(k.next) <= k.next && Extends(k.live, before, Gone(pk, last))
    ensures k.live == before - Gone(pk, last)
            <==> old(k.live) == before && Clean(r, old(k.live)[pk], {One(share.intf)})
    ensures k.out == old(k.out) + SingleOut(r, old(k.live)[pk], One(share.intf), share.hop, Some(share.ratio))
  {
    var copy := pk;
    if !last {
      copy := k.Copy(pk);
      assert k.live - {copy} == old(k.live);
    }
    ForwardOnSingleInterface(k, copy, r, share.intf, share.hop, Some(share.ratio));
    assert old(k.live) - {} == old(k.live);
    LeftoversStay(before, old(k.live), k.live, Gone(pk, last));
  }

  /** Forward a packet on the interface decided on, or split over several. */
  method ForwardDirect(k: Registry, pk: nat, r: Router, c: Decision)
    requires k.Valid() && pk in k.live && !c.higherLayer && Ready(r, k.live[pk], ForwardTargets(c, k.live[pk].ttl))
    modifies k
    ensures k.Keeps({pk})
    ensures k.Consumes(pk) <==> Clean(r, old(k.live)[pk], ForwardTargets(c, old(k.live)[pk].ttl))
    ensures k.out == old(k.out) + ForwardOut(r, c, old(k.live)[pk])
  {
    ghost var d := k.live[pk];
    if !c.local {
      k.Write(pk, k.live[pk].(ttl := k.live[pk].ttl - 1));
      if k.live[pk].ttl == 0 {
        DgramDiscard(k, pk);
        assert k.live == old(k.live) - {pk};
        return;
      }
    }
    assert k.live - {pk} == old(k.live) - {pk};
    ShapeReady(r, d, k.live[pk], ForwardTargets(c, d.ttl));
    if c.shares == [] {
      assert c.output in ForwardTargets(c, d.ttl);
      ForwardOnSingleInterface(k, pk, r, c.output.intf, c.hop, None);
    } else {
      ForwardShares(k, pk, r, c.shares);
    }
  }

  /** Record the outgoing interface on the packet, or on the datagram its fragment carries. */
  method OptionsProcess(k: Registry, pk: nat, addr: int)
    requires k.Valid() && pk in k.live
    modifies k
    ensures k.Valid() && old(k.next) <= k.next && k.out == old(k.out)
    ensures k.live == old(k.live)[pk := RecordHop(old(k.live)[pk], addr)]
  {
    if k.live[pk].recordRoute {
      if k.live[pk].frag {
        if k.live[pk].carried.Some? {
          var origin := k.TakeCarried(pk);
          k.Write(origin, k.live[origin].(route := k.live[origin].route + [addr]));
          k.PutCarried(pk, origin);
        }
      } else {
        k.Write(pk, k.live[pk].(route := k.live[pk].route + [addr]));
      }
    }
  }

  /** A copy on one interface, its address recorded, to the broadcast address there. */
  method BroadcastOn(k: Registry, pk: nat, r: Router, c: Decision, i: nat)
    requires k.Valid() && pk in k.live && i < |r.intfs| && !c.higherLayer
    requires Ready(r, k.live[pk], ForwardTargets(OnIntf(r, c, i), k.live[pk].ttl))
    modifies k
    ensures k.Keeps({})
    ensures k.live == old(k.live) <==> Clean(r, old(k.live)[pk], ForwardTargets(OnIntf(r, c, i), old(k.live)[pk].ttl))
    ensures k.out == old(k.out) + ForwardOut(r, OnIntf(r, c, i), RecordHop(old(k.live)[pk], r.intfs[i].addr))
  {
    var copy := k.Copy(pk);
    OptionsProcess(k, copy, r.intfs[i].addr);
    assert k.live - {copy} == old(k.live);
    ShapeReady(r, k.live[pk], k.live[copy], ForwardTargets(OnIntf(r, c, i), k.live[pk].ttl));
    ForwardDirect(k, copy, r, c.(output := One(i), hop := NextHop(r.intfs[i].broadcastAddr, true)));
  }

  lemma {:induction false} TargetsBelow(r: Router, c: Decision, ttl: int, i: nat, n: nat)
    requires i <= n <= |r.intfs|
    ensures EverywhereTargets(r, c, ttl, i) <= EverywhereTargets(r, c, ttl, n)
    decreases n
  {
    if i < n { TargetsBelow(r, c, ttl, i, n - 1); }
  }

  /** What the round `i` adds. */
  lemma RoundAdds(r: Router, c: Decision, d: Pkt, i: nat)
    requires i < |r.intfs| && Ready(r, d, EverywhereTargets(r, c, d.ttl, |r.intfs|))
    ensures var targets := EverywhereTargets(r, c, d.ttl, i);
            && Ready(r, d, targets) && Ready(r, d, RoundTargets(r, c, d.ttl, i))
            && Ready(r, d, EverywhereTargets(r, c, d.ttl, i + 1))
            && (Clean(r, d, EverywhereTargets(r, c, d.ttl, i + 1)) <==>
                Clean(r, d, targets) && Clean(r, d, RoundTargets(r, c, d.ttl, i)))
    ensures EverywhereOut(r, c, d, i + 1) == EverywhereOut(r, c, d, i) + RoundOut(r, c, d, i)
  {
    TargetsBelow(r, c, d.ttl, i + 1, |r.intfs|);
  }

  method BroadcastRound(k: Registry, pk: nat, r: Router, c: Decision, i: nat)
    requires k.Valid() && pk in k.live && i < |r.intfs| && !c.higherLayer
    requires Ready(r, k.live[pk], RoundTargets(r, c, k.live[pk].ttl, i))
    modifies k
    ensures k.Keeps({})
    ensures k.live == old(k.live) <==> Clean(r, old(k.live)[pk], RoundTargets(r, c, old(k.live)[pk].ttl, i))
    ensures k.out == old(k.out) + RoundOut(r, c, old(k.live)[pk], i)
  {
    if r.intfs[i].usable {
      BroadcastOn(k, pk, r, c, i);
    }
  }

  /** How far the rounds have got from `was` and `sent`. */
  ghost predicate Halfway(k: Registry, r: Router, c: Decision, d: Pkt, was: map<nat, Pkt>, sent: seq<Out>, i: nat)
    requires i <= |r.intfs|
    reads k
  {
    k.Valid() && Extends(k.live, was, {}) && Ready(r, d, EverywhereTargets(r, c, d.ttl, i)) &&
    (k.live == was <==> Clean(r, d, EverywhereTargets(r, c, d.ttl, i))) &&
    k.out == sent + EverywhereOut(r, c, d, i)
  }

  method BroadcastNext(k: Registry, pk: nat, r: Router, c: Decision, i: nat,
                       ghost d: Pkt, ghost was: map<nat, Pkt>, ghost sent: seq<Out>)
    requires i < |r.intfs| && !c.higherLayer && pk in was && was[pk] == d
    requires Ready(r, d, EverywhereTargets(r, c, d.ttl, |r.intfs|)) && Halfway(k, r, c, d, was, sent, i)
    modifies k
    ensures old(k.next) <= k.next && Halfway(k, r, c, d, was, sent, i + 1)
  {
    RoundAdds(r, c, d, i);
    ghost var between := k.live;
    BroadcastRound(k, pk, r, c, i);
    LeftoversAdd(was, between, k.live);
    Assoc(sent, EverywhereOut(r, c, d, i), RoundOut(r, c, d, i));
  }

  /** A copy for every usable interface. */
  method BroadcastRounds(k: Registry, pk: nat, r: Router, c: Decision)
    requires k.Valid() && pk in k.live && !c.higherLayer
    requires Ready(r, k.live[pk], EverywhereTargets(r, c, k.live[pk].ttl, |r.intfs|))
    modifies k
    ensures k.Keeps({})
    ensures k.live == old(k.live) <==>
            Clean(r, old(k.live)[pk], EverywhereTargets(r, c, old(k.live)[pk].ttl, |r.intfs|))
    ensures k.out == old(k.out) + EverywhereOut(r, c, old(k.live)[pk], |r.intfs|)
  {
    ghost var d, was, sent := k.live[pk], k.live, k.out;
    for i := 0 to |r.intfs|
      invariant old(k.next) <= k.next && Halfway(k, r, c, d, was, sent, i)
    {
      BroadcastNext(k, pk, r, c, i, d, was, sent);
    }
  }

  /** Then the end of the original. */
  method BroadcastAll(k: Registry, pk: nat, r: Router, c: Decision)
    requires k.Valid() && pk in k.live && !c.higherLayer
    requires Ready(r, k.live[pk], EverywhereTargets(r, c, k.live[pk].ttl, |r.intfs|))
    modifies k
    ensures k.Keeps({pk})
    ensures k.Consumes(pk) <==> Clean(r, old(k.live)[pk], EverywhereTargets(r, c, old(k.live)[pk].ttl, |r.intfs|))
    ensures k.out == old(k.out) + EverywhereOut(r, c, old(k.live)[pk], |r.intfs|)
  {
    BroadcastRounds(k, pk, r, c);
    LeftoversStay(old(k.live), k.live, k.live - {pk}, {pk});
    k.Destroy(pk);
  }

  method DatagramBroadcast(k: Registry, pk: nat, r: Router, c: Decision)
    requires k.Valid() && pk in k.live && !c.higherLayer && (c.output.All? || InTable(r, c.output))
    requires Ready(r, k.live[pk], BroadcastTargets(r, c, k.live[pk].ttl))
    modifies k
    ensures k.Keeps({pk})
    ensures k.Consumes(pk) <==> Clean(r, old(k.live)[pk], BroadcastTargets(r, c, old(k.live)[pk].ttl))
    ensures k.out == old(k.out) + BroadcastOut(r, c, old(k.live)[pk])
  {
    if c.output.All? {
      BroadcastEverywhere(k, pk, r, c);
    } else {
      BroadcastOne(k, pk, r, c);
    }
  }

  /** On all interfaces an unset TTL becomes one. */
  method BroadcastEverywhere(k: Registry, pk: nat, r: Router, c: Decision)
    requires k.Valid() && pk in k.live && !c.higherLayer && c.output.All?
    requires Ready(r, k.live[pk], BroadcastTargets(r, c, k.live[pk].ttl))
    modifies k
    ensures k.Keeps({pk})
    ensures k.Consumes(pk) <==> Clean(r, old(k.live)[pk], BroadcastTargets(r, c, old(k.live)[pk].ttl))
    ensures k.out == old(k.out) + BroadcastOut(r, c, old(k.live)[pk])
  {
    ghost var d := k.live[pk];
    SetUnsetTtl(k, pk);
    ShapeReady(r, d, k.live[pk], BroadcastTargets(r, c, d.ttl));
    BroadcastAll(k, pk, r, c);
  }

  method SetUnsetTtl(k: Registry, pk: nat)
    requires k.Valid() && pk in k.live
    modifies k
    ensures k.Valid() && old(k.next) <= k.next && k.out == old(k.out) && pk in k.live
    ensures k.live - {pk} == old(k.live) - {pk} && Extends(k.live, old(k.live), {pk})
    ensures var d := old(k.live)[pk]; k.live[pk] == d.(ttl := if d.ttl == TTL_UNSET then 1 else d.ttl)
  {
    if k.live[pk].ttl == TTL_UNSET {
      k.Write(pk, k.live[pk].(ttl := 1));
    }
  }

  /** On a single interface a broadcast must not get far. */
  method BroadcastOne(k: Registry, pk: nat, r: Router, c: Decision)
    requires k.Valid() && pk in k.live && !c.higherLayer && InTable(r, c.output)
    requires Ready(r, k.live[pk], BroadcastTargets(r, c, k.live[pk].ttl))
    modifies k
    ensures k.Keeps({pk})
    ensures k.Consumes(pk) <==> Clean(r, old(k.live)[pk], BroadcastTargets(r, c, old(k.live)[pk].ttl))
    ensures k.out == old(k.out) + BroadcastOut(r, c, old(k.live)[pk])
  {
    ghost var d := k.live[pk];
    if c.local {
      k.Write(pk, k.live[pk].(ttl := 1));
    } else if k.live[pk].ttl > 2 {
      k.Write(pk, k.live[pk].(ttl := 2));
    }
    assert k.live - {pk} == old(k.live) - {pk};
    ShapeReady(r, d, k.live[pk], BroadcastTargets(r, c, d.ttl));
    ForwardDirect(k, pk, r, c);
  }

  // ----- entry -----

  /** Send a packet where the routing decision says.  What leaves is `SendOut`: the packet goes
      up, aside and on as `Dispatched` says, and what goes on leaves by interfaces decided on.
      No other packet is touched; the packet and every packet object made on the way end up
      accounted for exactly once precisely if fragmentation is free of leaks at every open
      interface the packet is put on. */
  method PacketSend(k: Registry, pk: nat, r: Router, c: Decision)
    requires k.Valid() && pk in k.live && Routed(r, c) && Ready(r, k.live[pk], SendTargets(r, c, k.live[pk].ttl))
    modifies k
    ensures k.Keeps({pk})
    ensures k.Consumes(pk) <==> Clean(r, old(k.live)[pk], SendTargets(r, c, old(k.live)[pk].ttl))
    ensures k.out == old(k.out) + SendOut(r, c, old(k.live)[pk])
    ensures var d, evs := old(k.live)[pk], k.out[|old(k.out)|..];
            Dispatched(c, d, evs) && forall e | e in evs && (e.Wire? || e.Tunnelled?) :: LeavesSomewhere(r, c, d, e)
  {
    SendDispatched(r, c, k.live[pk]);
    EverythingLeavesByDecision(r, c, k.live[pk]);
    AddedEvents(k.out, SendOut(r, c, k.live[pk]));
    FollowDecision(k, pk, r, c);
  }

  /** The branches, in the source's order. */
  method FollowDecision(k: Registry, pk: nat, r: Router, c: Decision)
    requires k.Valid() && pk in k.live && Routed(r, c) && Ready(r, k.live[pk], SendTargets(r, c, k.live[pk].ttl))
    modifies k
    ensures k.Keeps({pk})
    ensures k.Consumes(pk) <==> Clean(r, old(k.live)[pk], SendTargets(r, c, old(k.live)[pk].ttl))
    ensures k.out == old(k.out) + SendOut(r, c, old(k.live)[pk])
  {
    if c.destroy {
      DgramDiscard(k, pk);
    } else if c.mobileIp || c.manet {
      k.HandOver(pk);
    } else if c.higherLayer {
      if c.broadcast && !c.limited && c.output != c.received {
        SendUpAndOn(k, pk, r, c);
      } else {
        k.DeliverUp(pk);
      }
    } else if c.broadcast {
      DatagramBroadcast(k, pk, r, c);
    } else if c.mpls || c.otherSlot {
      k.HandOver(pk);
    } else {
      ForwardDirect(k, pk, r, c);
    }
  }

  /** A broadcast for another subnet: a copy goes on, the packet up. */
  method SendUpAndOn(k: Registry, pk: nat, r: Router, c: Decision)
    requires k.Valid() && pk in k.live && InTable(r, c.output)
    requires Ready(r, k.live[pk], BroadcastTargets(r, c, k.live[pk].ttl))
    modifies k
    ensures k.Keeps({pk})
    ensures k.Consumes(pk) <==> Clean(r, old(k.live)[pk], BroadcastTargets(r, c, old(k.live)[pk].ttl))
    ensures k.out == old(k.out) + BroadcastOut(r, c, old(k.live)[pk]) + [Up(old(k.live)[pk])]
  {
    var copy := k.Copy(pk);
    assert k.live - {copy} == old(k.live);
    HigherLayerIrrelevant(r, c, k.live[pk]);
    DatagramBroadcast(k, copy, r, c.(higherLayer := false));
    LeftoversStay(old(k.live), k.live, k.live - {pk}, {pk});
    k.DeliverUp(pk);
  }

  /** Then the packet and all packets made on the way have met their fate, and none is left
      to be used. */
  twostate lemma ConsumedMeansFates(k: Registry, pk: nat, id: nat)
    requires old(k.Valid()) && pk in old(k.live) && k.Consumes(pk)
    requires id == pk || old(k.next) <= id < k.next
    ensures id in k.fate && id !in k.live
  {
  }

  lemma HigherLayerIrrelevant(r: Router, c: Decision, d: Pkt)
    requires c.output.One?
    ensures BroadcastOut(r, c.(higherLayer := false), d) == BroadcastOut(r, c, d)
    ensures BroadcastTargets(r, c.(higherLayer := false), d.ttl) == BroadcastTargets(r, c, d.ttl)
  {
  }

  /** No nested packet out of place, some payload, and room for some of it at every one of
      these interfaces. */
  ghost predicate Regular(r: Router, d: Pkt, targets: set<Output>) {
    (if d.frag then d.data.None? else d.carried.None?) &&
    forall t | t in targets :: InTable(r, t) && Divisible(d, r.intfs[t.intf].mtu, r.compressedSize)
  }

  lemma RegularIsClean(r: Router, d: Pkt, targets: set<Output>)
    requires Regular(r, d, targets)
    ensures Ready(r, d, targets) && Clean(r, d, targets)
  {
    forall t | t in targets
      ensures Defined(d, r.intfs[t.intf].mtu, r.compressedSize) && LeakFree(d, r.intfs[t.intf].mtu, r.compressedSize)
    {
      if !Fits(d, r.intfs[t.intf].mtu, r.compressedSize) {
        NumFragsBounds(d, r.intfs[t.intf].mtu);
      }
    }
  }

  /** Where the interfaces it is put on have room for payload, no fragment of a datagram is
      ever lost track of, at whatever point of its journey and whatever is decided about it. */
  lemma JourneyNeverLeaks(d: Pkt, run: seq<State>, i: nat, r: Router, c: Decision)
    requires Starts(d, run) && i < |run[|run| - 1].pieces|
    requires var p := run[|run| - 1].pieces[i];
             forall t | t in SendTargets(r, c, p.ttl) ::
               InTable(r, t) && Divisible(p, r.intfs[t.intf].mtu, r.compressedSize)
    ensures var p := run[|run| - 1].pieces[i];
            Ready(r, p, SendTargets(r, c, p.ttl)) && Clean(r, p, SendTargets(r, c, p.ttl))
  {
    var p := run[|run| - 1].pieces[i];
    if p.frag {
      UniqueCarrier(d, run, i);
    } else {
      UncutRecordsRoute(d, run, i);
    }
    RegularIsClean(r, p, SendTargets(r, c, p.ttl));
  }
}
