/**
  Directed broadcasts and their TTL: the clamp that is to keep them from going round, what
  it achieves, and the one case in which it does not.
*/
module DirectedBroadcast {
  import opened Basics
  import opened Kernel
  import opened Fragmentation
  import opened OutputSpec
  import Dispatch

  /** The datagram is sent: as the frame itself, or inside a tunnel packet. */
  ghost predicate Bears(e: Out, x: Pkt) {
    match e
    case Wire(p, _) => p == x
    case Tunnelled(p) => exists t :: p == Outer(t, x)
    case _ => false
  }

  /** Everything sent, on a link or inside a tunnel packet, has this TTL. */
  ghost predicate WireTtl(evs: seq<Out>, ttl: int) {
    forall e | e in evs && (e.Wire? || e.Tunnelled?) :: exists x :: Bears(e, x) && x.ttl == ttl
  }

  lemma WireTtlJoin(a: seq<Out>, b: seq<Out>, ttl: int)
    requires WireTtl(a, ttl) && WireTtl(b, ttl)
    ensures WireTtl(a + b, ttl)
  {
  }

  /** Nothing reaches a link, directly or through a tunnel. */
  ghost predicate OffTheWire(evs: seq<Out>) {
    forall e | e in evs :: !e.Wire? && !e.Tunnelled?
  }

  lemma {:induction false} TunnelOutTtl(t: Tunnel, d: Pkt, n: nat)
    ensures forall e | e in Repeated(OnceTunnelled(t, d), n) :: e == Tunnelled(Outer(t, d))
  {
    if n > 0 { TunnelOutTtl(t, d, n - 1); }
  }

  lemma IntfOutTtl(intf: Intf, i: nat, p: Pkt, hop: NextHop)
    ensures WireTtl(IntfOut(intf, i, p, hop), p.ttl)
  {
    if intf.tunnel.Some? { TunnelOutTtl(intf.tunnel.value, p, |intf.tunnel.value.endpoints|); }
    forall e | e in IntfOut(intf, i, p, hop) && (e.Wire? || e.Tunnelled?)
      ensures exists x :: Bears(e, x) && x.ttl == p.ttl
    {
      assert e.Tunnelled? ==> e.pkt == Outer(intf.tunnel.value, p);
      assert Bears(e, p);
    }
  }

  lemma {:induction false} PiecesOutTtl(intf: Intf, i: nat, pkts: seq<Pkt>, hop: NextHop, ttl: int)
    requires forall p | p in pkts :: p.ttl == ttl
    ensures WireTtl(PiecesOut(intf, i, pkts, hop), ttl)
  {
    if pkts != [] {
      var rest, p := pkts[..|pkts| - 1], pkts[|pkts| - 1];
      assert forall x | x in rest :: x in pkts;
      PiecesOutTtl(intf, i, rest, hop, ttl);
      IntfOutTtl(intf, i, p, hop);
    }
  }

  lemma SingleOutTtl(r: Router, d: Pkt, output: Output, hop: NextHop, ratio: Option<real>)
    ensures WireTtl(SingleOut(r, d, output, hop, ratio), d.ttl)
  {
    if InTable(r, output) {
      var intf := r.intfs[output.intf];
      PiecesOutTtl(intf, output.intf, Frags(Scaled(d, ratio), intf.mtu, r.compressedSize), hop, d.ttl);
    }
  }

  lemma {:induction false} SharesOutTtl(r: Router, d: Pkt, shares: seq<Share>, n: nat)
    requires n <= |shares|
    ensures WireTtl(SharesOut(r, d, shares, n), d.ttl)
  {
    if n > 0 {
      var share := shares[n - 1];
      var a, b := SharesOut(r, d, shares, n - 1), SingleOut(r, d, One(share.intf), share.hop, Some(share.ratio));
      SharesOutTtl(r, d, shares, n - 1);
      SingleOutTtl(r, d, One(share.intf), share.hop, Some(share.ratio));
      WireTtlJoin(a, b, d.ttl);
      assert SharesOut(r, d, shares, n) == a + b;
    }
  }

  /** Whatever the split, fragmentation or tunnels, everything forwarded goes out with the
      one TTL `ForwardedTtl` names, or nothing goes out. */
  lemma ForwardOutTtl(r: Router, c: Decision, d: Pkt)
    ensures match ForwardedTtl(c.local, d.ttl)
            case None => ForwardOut(r, c, d) == []
            case Some(ttl) => WireTtl(ForwardOut(r, c, d), ttl)
  {
    match ForwardedTtl(c.local, d.ttl)
    case None =>
    case Some(ttl) =>
      SingleOutTtl(r, d.(ttl := ttl), c.output, c.hop, None);
      SharesOutTtl(r, d.(ttl := ttl), c.shares, |c.shares|);
  }

  /** A packet that came from a link with a TTL of one never gets onto a link again, nor
      does any copy of it, whatever is decided about it. */
  lemma SpentPacketStaysOffTheWire(r: Router, c: Decision, d: Pkt)
    requires !c.local && d.ttl == 1
    ensures OffTheWire(SendOut(r, c, d))
  {
    Dispatch.SpentEverywhere(r, c, d, |r.intfs|);
  }

  /** A directed broadcast is sent, on a link or into a tunnel, with TTL exactly 1 if it was made
      here or came with two or more, and not at all if it came with one: in either case nothing
      it sends can be put on the wire again by any router `r2`, whatever it decides. */
  lemma DirectedBroadcastCannotStorm(r: Router, c: Decision, d: Pkt, r2: Router, c2: Decision)
    requires !c.output.All? && (c.local || d.ttl >= 1) && !c2.local
    ensures var evs := BroadcastOut(r, c, d);
            && (!c.local && d.ttl == 1 ==> evs == [])
            && forall e | e in evs && (e.Wire? || e.Tunnelled?) ::
                 exists x :: Bears(e, x) && x.ttl == 1 && OffTheWire(SendOut(r2, c2, x))
  {
    var evs := BroadcastOut(r, c, d);
    ForwardOutTtl(r, c, d.(ttl := BroadcastTtl(c, d.ttl)));
    forall e | e in evs && (e.Wire? || e.Tunnelled?)
      ensures exists x :: Bears(e, x) && x.ttl == 1 && OffTheWire(SendOut(r2, c2, x))
    {
      var x :| Bears(e, x) && x.ttl == 1;
      SpentPacketStaysOffTheWire(r2, c2, x);
    }
  }

  /** For which TTLs the clamp and the decrement yield one, and for which nothing is sent. */
  lemma DirectedBroadcastTtlExactly(local: bool, ttl: int)
    ensures ForwardedTtl(local, ClampedTtl(local, ttl)) == Some(1) <==> local || ttl >= 2
    ensures ForwardedTtl(local, ClampedTtl(local, ttl)) == None <==> !local && ttl == 1
  {
  }

  // ----- and when they do -----

  /** The interface passes the packet on in one piece, straight to the link. */
  predicate Clear(r: Router, d: Pkt, i: nat) {
    i < |r.intfs| && r.intfs[i].tunnel.None? && r.intfs[i].hasStream && r.intfs[i].Open() &&
    Fits(d, r.intfs[i].mtu, r.compressedSize)
  }

  lemma ClearOut(r: Router, d: Pkt, i: nat, hop: NextHop, ratio: Option<real>)
    requires Clear(r, d, i)
    ensures SingleOut(r, d, One(i), hop, ratio) == [Wire(Scaled(d, ratio), i)]
  {
    var e, intf := Scaled(d, ratio), r.intfs[i];
    assert Frags(e, intf.mtu, r.compressedSize) == [e];
    assert PiecesOut(intf, i, [e][..0], hop) == [];
  }

  /** A router that takes `d` for a directed broadcast from a link to one of its own subnets,
      over a clear interface. */
  predicate Rebroadcasts(r: Router, c: Decision, d: Pkt) {
    !c.destroy && !c.mobileIp && !c.manet && !c.higherLayer && c.broadcast && !c.local &&
    c.shares == [] && c.output.One? && Clear(r, d, c.output.intf)
  }

  /** What it puts on the link. */
  lemma RebroadcastOut(r: Router, c: Decision, d: Pkt)
    requires Rebroadcasts(r, c, d)
    ensures SendOut(r, c, d) ==
            match ForwardedTtl(false, ClampedTtl(false, d.ttl))
            case None => []
            case Some(ttl) => [Wire(d.(ttl := ttl), c.output.intf)]
  {
    var e := d.(ttl := ClampedTtl(false, d.ttl));
    match ForwardedTtl(false, e.ttl)
    case None =>
    case Some(ttl) =>
      assert Scaled(e.(ttl := ttl), None) == e.(ttl := ttl) == d.(ttl := ttl);
      ClearOut(r, d.(ttl := ttl), c.output.intf, c.hop, None);
  }

  /** Some router that gets the frame from a link puts it on a link again. */
  ghost predicate Spreads(p: Pkt) {
    exists r: Router, c: Decision :: !c.local && !OffTheWire(SendOut(r, c, p))
  }

  /** A router with one interface big enough for `p`. */
  function WideRouter(p: Pkt): Router {
    Router([Intf(if TruncDiv(p.size, 8) > 0 then TruncDiv(p.size, 8) else 0, 0, 0, None, true, true, false, false)], 0)
  }

  function Rebroadcast(): Decision {
    Decision(false, false, false, false, true, false, false, false, false, Invalid, One(0), NextHop(0, true), [])
  }

  lemma SpreadsIff(p: Pkt)
    ensures Spreads(p) <==> p.ttl != 1
  {
    if p.ttl == 1 {
      forall r: Router, c: Decision | !c.local
        ensures OffTheWire(SendOut(r, c, p))
      {
        SpentPacketStaysOffTheWire(r, c, p);
      }
    } else {
      var r, c := WideRouter(p), Rebroadcast();
      RebroadcastOut(r, c, p);
      assert SendOut(r, c, p)[0] in SendOut(r, c, p);
      assert !c.local && !OffTheWire(SendOut(r, c, p));
    }
  }

  /** So the clamp has one gap: what a directed broadcast sends can be put on a link again
      exactly if the broadcast came from a link with a TTL already below one, which is neither
      raised nor dropped. */
  lemma DirectedBroadcastSpreadsIff(r: Router, c: Decision, d: Pkt, e: Out)
    requires !c.output.All? && e in BroadcastOut(r, c, d) && (e.Wire? || e.Tunnelled?)
    ensures exists x :: Bears(e, x) && (Spreads(x) <==> !c.local && d.ttl <= 0) &&
                        (!c.local && d.ttl <= 0 ==> x.ttl == d.ttl - 1)
  {
    var f := d.(ttl := BroadcastTtl(c, d.ttl));
    ForwardOutTtl(r, c, f);
    DirectedBroadcastTtlExactly(c.local, d.ttl);
    var ttl := ForwardedTtl(c.local, f.ttl).value;
    var x :| Bears(e, x) && x.ttl == ttl;
    SpreadsIff(x);
  }

  datatype Stop = Stop(r: Router, c: Decision)

  /** The frame after it has been through the routers one after the other, if each of them
      puts one on a link. */
  function Through(d: Pkt, stops: seq<Stop>): Option<Pkt>
    decreases stops
  {
    if stops == [] then Some(d)
    else
      var evs := SendOut(stops[0].r, stops[0].c, d);
      if |evs| == 1 && evs[0].Wire? then Through(evs[0].pkt, stops[1..]) else None
  }

  ghost predicate AllRebroadcast(d: Pkt, stops: seq<Stop>) {
    forall i | 0 <= i < |stops| :: Rebroadcasts(stops[i].r, stops[i].c, d)
  }

  lemma NextStop(d: Pkt, stops: seq<Stop>, ttl: int)
    requires stops != [] && AllRebroadcast(d, stops)
    ensures AllRebroadcast(d.(ttl := ttl), stops[1..])
  {
  }

  /** Such a frame goes on through any number of routers, its TTL falling below all bounds. */
  lemma {:induction false} StormGoesOn(d: Pkt, stops: seq<Stop>)
    requires d.ttl <= 0 && AllRebroadcast(d, stops)
    ensures Through(d, stops) == Some(d.(ttl := d.ttl - |stops|))
    decreases stops
  {
    if stops != [] {
      var e := d.(ttl := d.ttl - 1);
      RebroadcastOut(stops[0].r, stops[0].c, d);
      assert SendOut(stops[0].r, stops[0].c, d) == [Wire(e, stops[0].c.output.intf)];
      NextStop(d, stops, e.ttl);
      StormGoesOn(e, stops[1..]);
    }
  }

  /** Past a second router, only such a frame gets. */
  lemma StormIff(d: Pkt, stops: seq<Stop>)
    requires |stops| >= 2 && AllRebroadcast(d, stops)
    ensures Through(d, stops).Some? <==> d.ttl <= 0
  {
    if d.ttl <= 0 {
      StormGoesOn(d, stops);
    } else {
      RebroadcastOut(stops[0].r, stops[0].c, d);
      if d.ttl > 1 {
        RebroadcastOut(stops[1].r, stops[1].c, d.(ttl := 1));
      }
    }
  }
}
