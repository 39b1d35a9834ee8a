/**
  Load balancing keeps the traffic volume a tracer stands for.
*/
module ShareVolumes {
  import opened Basics
  import opened Kernel
  import opened Fragmentation
  import opened OutputSpec
  import opened DirectedBroadcast

  function WireVolume(evs: seq<Out>): real {
    if evs == [] then 0.0 else WireVolume(evs[..|evs| - 1]) + VolumeOf(evs[|evs| - 1])
  }

  function VolumeOf(e: Out): real {
    if e.Wire? && e.pkt.volume.Some? then e.pkt.volume.value else 0.0
  }

  function TotalRatio(shares: seq<Share>, n: nat): real
    requires n <= |shares|
  {
    if n == 0 then 0.0 else TotalRatio(shares, n - 1) + shares[n - 1].ratio
  }

  ghost predicate AllClear(r: Router, d: Pkt, shares: seq<Share>) {
    forall j | 0 <= j < |shares| :: Clear(r, d, shares[j].intf)
  }

  lemma WireVolumeSnoc(evs: seq<Out>, e: Out)
    ensures WireVolume(evs + [e]) == WireVolume(evs) + VolumeOf(e)
  {
    assert (evs + [e])[..|evs|] == evs;
  }

  /** One frame for each of the first `n` shares. */
  function ShareFrames(d: Pkt, shares: seq<Share>, n: nat): (s: seq<Out>)
    requires n <= |shares|
    ensures |s| == n
  {
    if n == 0 then []
    else ShareFrames(d, shares, n - 1) + [Wire(Scaled(d, Some(shares[n - 1].ratio)), shares[n - 1].intf)]
  }

  lemma {:induction false} ClearSharesOut(r: Router, d: Pkt, shares: seq<Share>, n: nat)
    requires n <= |shares| && AllClear(r, d, shares)
    ensures SharesOut(r, d, shares, n) == ShareFrames(d, shares, n)
  {
    if n > 0 {
      ClearSharesOut(r, d, shares, n - 1);
      ClearOut(r, d, shares[n - 1].intf, shares[n - 1].hop, Some(shares[n - 1].ratio));
    }
  }

  /** The volume `v` shared out by the first `n` ratios. */
  function SharedVolume(v: real, shares: seq<Share>, n: nat): real
    requires n <= |shares|
  {
    if n == 0 then 0.0 else SharedVolume(v, shares, n - 1) + v * shares[n - 1].ratio
  }

  /** Shared out, the volume is multiplied by the sum of the ratios. */
  lemma {:induction false} SharedVolumeTotal(v: real, shares: seq<Share>, n: nat)
    requires n <= |shares|
    ensures SharedVolume(v, shares, n) == v * TotalRatio(shares, n)
  {
    if n > 0 {
      SharedVolumeTotal(v, shares, n - 1);
      var t, x := TotalRatio(shares, n - 1), shares[n - 1].ratio;
      assert v * (t + x) == v * t + v * x;
    }
  }

  lemma ShareVolume(d: Pkt, shares: seq<Share>, n: nat, v: real)
    requires 0 < n <= |shares| && d.volume == Some(v)
    ensures WireVolume(ShareFrames(d, shares, n)) == WireVolume(ShareFrames(d, shares, n - 1)) + v * shares[n - 1].ratio
  {
    var e := Wire(Scaled(d, Some(shares[n - 1].ratio)), shares[n - 1].intf);
    WireVolumeSnoc(ShareFrames(d, shares, n - 1), e);
  }

  lemma {:induction false} ShareFramesVolume(d: Pkt, shares: seq<Share>, n: nat, v: real)
    requires n <= |shares| && d.volume == Some(v)
    ensures WireVolume(ShareFrames(d, shares, n)) == SharedVolume(v, shares, n)
  {
    if n > 0 {
      ShareFramesVolume(d, shares, n - 1, v);
      ShareVolume(d, shares, n, v);
    }
  }

  /** Over clear interfaces each share puts out one frame with its part of the volume. */
  lemma SplitKeepsVolume(r: Router, d: Pkt, shares: seq<Share>, v: real)
    requires d.volume == Some(v) && AllClear(r, d, shares)
    ensures var evs := SharesOut(r, d, shares, |shares|);
            |evs| == |shares| && WireVolume(evs) == SharedVolume(v, shares, |shares|)
  {
    ShareFramesVolume(d, shares, |shares|, v);
    ClearSharesOut(r, d, shares, |shares|);
  }

  // ----- as handed to the interfaces -----

  /** What each share hands to its interface. */
  function Offered(d: Pkt, shares: seq<Share>, n: nat): (s: seq<Pkt>)
    requires n <= |shares|
    ensures |s| == n
  {
    if n == 0 then [] else Offered(d, shares, n - 1) + [Scaled(d, Some(shares[n - 1].ratio))]
  }

  function VolumeSum(s: seq<Pkt>): real {
    if s == [] then 0.0
    else VolumeSum(s[..|s| - 1]) + match s[|s| - 1].volume case None => 0.0 case Some(v) => v
  }

  /** What the interfaces make of the packets handed to them. */
  function OfferedOut(r: Router, s: seq<Pkt>, shares: seq<Share>): seq<Out>
    requires |s| <= |shares|
  {
    if s == [] then []
    else var n := |s| - 1;
         OfferedOut(r, s[..n], shares) + SingleOut(r, s[n], One(shares[n].intf), shares[n].hop, None)
  }

  lemma OneMoreOffer(r: Router, s: seq<Pkt>, p: Pkt, shares: seq<Share>)
    requires |s| < |shares|
    ensures OfferedOut(r, s + [p], shares) ==
            OfferedOut(r, s, shares) + SingleOut(r, p, One(shares[|s|].intf), shares[|s|].hop, None)
  {
    assert (s + [p])[..|s|] == s;
  }

  lemma VolumeSumSnoc(s: seq<Pkt>, p: Pkt, v: real)
    requires p.volume.Some? && p.volume.value == v
    ensures VolumeSum(s + [p]) == VolumeSum(s) + v
  {
    assert (s + [p])[..|s|] == s;
  }

  lemma RatioApplied(r: Router, d: Pkt, output: Output, hop: NextHop, x: real)
    ensures SingleOut(r, Scaled(d, Some(x)), output, hop, None) == SingleOut(r, d, output, hop, Some(x))
  {
  }

  lemma OneMoreShare(r: Router, d: Pkt, shares: seq<Share>, n: nat, p: Pkt)
    requires n < |shares| && p == Scaled(d, Some(shares[n].ratio))
    ensures SharesOut(r, d, shares, n + 1) ==
            SharesOut(r, d, shares, n) + SingleOut(r, p, One(shares[n].intf), shares[n].hop, None)
  {
    RatioApplied(r, d, One(shares[n].intf), shares[n].hop, shares[n].ratio);
  }

  lemma OfferedNext(d: Pkt, shares: seq<Share>, n: nat, v: real) returns (p: Pkt)
    requires n < |shares|
    ensures p == Scaled(d, Some(shares[n].ratio)) && Offered(d, shares, n + 1) == Offered(d, shares, n) + [p]
    ensures d.volume == Some(v) ==> p.volume.Some? && p.volume.value == v * shares[n].ratio
  {
    var x := shares[n].ratio;
    p := Scaled(d, Some(x));
    assert d.volume == Some(v) ==> d.volume.value * x == v * x;
  }

  lemma OfferedPart(d: Pkt, shares: seq<Share>, n: nat, v: real) returns (part: real)
    requires n < |shares| && d.volume == Some(v)
    ensures SharedVolume(v, shares, n + 1) == SharedVolume(v, shares, n) + part
    ensures VolumeSum(Offered(d, shares, n + 1)) == VolumeSum(Offered(d, shares, n)) + part
  {
    var p := OfferedNext(d, shares, n, v);
    part := p.volume.value;
    VolumeSumSnoc(Offered(d, shares, n), p, part);
  }

  lemma {:induction false} OfferedVolume(d: Pkt, shares: seq<Share>, n: nat, v: real)
    requires n <= |shares| && d.volume == Some(v)
    ensures VolumeSum(Offered(d, shares, n)) == SharedVolume(v, shares, n)
  {
    if n > 0 {
      OfferedVolume(d, shares, n - 1, v);
      var part := OfferedPart(d, shares, n - 1, v);
    }
  }

  lemma {:induction false} OffersLeave(r: Router, d: Pkt, shares: seq<Share>, n: nat)
    requires n <= |shares|
    ensures SharesOut(r, d, shares, n) == OfferedOut(r, Offered(d, shares, n), shares)
  {
    if n > 0 {
      OffersLeave(r, d, shares, n - 1);
      var p := OfferedNext(d, shares, n - 1, 0.0);
      OneMoreShare(r, d, shares, n - 1, p);
      OneMoreOffer(r, Offered(d, shares, n - 1), p, shares);
    }
  }

  /** Whatever the interfaces block, fragment or tunnel: they are handed the volume shared
      out by the ratios, and what leaves is what they make of that. */
  lemma SharesOffer(r: Router, d: Pkt, shares: seq<Share>, v: real)
    requires d.volume == Some(v)
    ensures SharesOut(r, d, shares, |shares|) == OfferedOut(r, Offered(d, shares, |shares|), shares)
    ensures VolumeSum(Offered(d, shares, |shares|)) == SharedVolume(v, shares, |shares|)
  {
    OffersLeave(r, d, shares, |shares|);
    OfferedVolume(d, shares, |shares|, v);
  }
}
