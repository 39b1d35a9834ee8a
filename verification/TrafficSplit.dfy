/**
  Splitting a tracer packet over the next hops of a route: each gets traffic in inverse
  proportion to its cost; if there are free (zero-cost) hops they share everything equally.
*/
module TrafficSplit {
  import opened Basics
  import opened Kernel
  import opened OutputSpec
  import opened DirectedBroadcast
  import opened ShareVolumes

  /** One next hop of the route.  `reachable` is the outcome of the recursive lookup,
      `special` says that it is the null interface or a label-switched path. */
  datatype RouteHop = RouteHop(reachable: bool, special: bool, cost: nat, intf: nat, hop: NextHop)

  /** The share as stored while it is worked out; a free hop is marked with infinity. */
  datatype Ratio = Infinite | Finite(value: real)

  datatype Tracer = Tracer(ratio: Ratio, intf: nat, hop: NextHop)

  predicate Usable(h: RouteHop) { h.reachable && !h.special }

  /** The usable ones among the first `n` hops, in order. */
  function UsableHops(hops: seq<RouteHop>, n: nat): (u: seq<RouteHop>)
    requires n <= |hops|
    ensures |u| <= n && forall h | h in u :: Usable(h)
  {
    if n == 0 then []
    else if Usable(hops[n - 1]) then UsableHops(hops, n - 1) + [hops[n - 1]]
    else UsableHops(hops, n - 1)
  }

  /** The free ones among the first `n` of `u`, in order. */
  function FreeHops(u: seq<RouteHop>, n: nat): (f: seq<RouteHop>)
    requires n <= |u|
    ensures |f| <= n && forall h | h in f :: h in u && h.cost == 0
  {
    if n == 0 then []
    else if u[n - 1].cost == 0 then FreeHops(u, n - 1) + [u[n - 1]]
    else FreeHops(u, n - 1)
  }

  function Inverse(h: RouteHop): real { if h.cost == 0 then 0.0 else 1.0 / h.cost as real }

  /** The sum of the inverse costs of the first `n` hops. */
  function TotalShare(u: seq<RouteHop>, n: nat): (s: real)
    requires n <= |u|
    ensures s >= 0.0
  {
    if n == 0 then 0.0 else TotalShare(u, n - 1) + Inverse(u[n - 1])
  }

  /** The hops that carry traffic. */
  function Carriers(hops: seq<RouteHop>): seq<RouteHop> {
    var u := UsableHops(hops, |hops|);
    var free := FreeHops(u, |u|);
    if free != [] then free else u
  }

  /** Infinity while working; a free hop's share is one in the number of free hops. */
  function FirstRatio(h: RouteHop): Ratio { if h.cost == 0 then Infinite else Finite(Inverse(h)) }

  function FinalRatio(u: seq<RouteHop>, h: RouteHop): real {
    var free := |FreeHops(u, |u|)|;
    if free > 0 then (if h.cost == 0 then 1.0 / free as real else 0.0)
    else if TotalShare(u, |u|) == 0.0 then 0.0
    else Inverse(h) / TotalShare(u, |u|)
  }

  function TracerOf(h: RouteHop, ratio: Ratio): Tracer { Tracer(ratio, h.intf, h.hop) }

  /** What the split returns for a route. */
  function Split(hops: seq<RouteHop>): seq<Tracer> {
    var u, s := UsableHops(hops, |hops|), Carriers(hops);
    seq(|s|, i requires 0 <= i < |s| => TracerOf(s[i], Finite(FinalRatio(u, s[i]))))
  }

  // ----- the split as the source computes it -----

  lemma TotalPositive(u: seq<RouteHop>, n: nat)
    requires 0 < n <= |u| && FreeHops(u, n) == []
    ensures TotalShare(u, n) > 0.0
  {
    assert u[n - 1].cost > 0;
    assert Inverse(u[n - 1]) > 0.0;
  }

  lemma {:induction false} NoneFree(u: seq<RouteHop>, n: nat, i: nat)
    requires i < n <= |u|
    ensures FreeHops(u, n) == [] ==> u[i].cost > 0
    ensures u[i].cost == 0 ==> FreeHops(u, n) != []
  {
    if i < n - 1 { NoneFree(u, n - 1, i); }
  }

  /** First pass: collect the usable hops and add up their inverse costs. */
  method CollectHops(hops: seq<RouteHop>, tracers: array<Tracer>)
    returns (valid: nat, totalShare: real, numFree: nat)
    requires tracers.Length == |hops|
    modifies tracers
    ensures var u := UsableHops(hops, |hops|);
            && valid == |u| && totalShare == TotalShare(u, |u|) && numFree == |FreeHops(u, |u|)|
            && forall i | 0 <= i < valid :: tracers[i] == TracerOf(u[i], FirstRatio(u[i]))
  {
    valid, totalShare, numFree := 0, 0.0, 0;
    for i := 0 to |hops|
      invariant valid == |UsableHops(hops, i)| <= i
      invariant totalShare == TotalShare(UsableHops(hops, i), valid)
      invariant numFree == |FreeHops(UsableHops(hops, i), valid)|
      invariant forall j | 0 <= j < valid ::
                  tracers[j] == TracerOf(UsableHops(hops, i)[j], FirstRatio(UsableHops(hops, i)[j]))
    {
      if hops[i].reachable && !hops[i].special {
        ghost var u := UsableHops(hops, i);
        PrefixSums(u, hops[i], valid);
        if hops[i].cost == 0 {
          numFree := numFree + 1;
          tracers[valid] := Tracer(Infinite, hops[i].intf, hops[i].hop);
        } else {
          var share := 1.0 / hops[i].cost as real;
          totalShare := totalShare + share;
          tracers[valid] := Tracer(Finite(share), hops[i].intf, hops[i].hop);
        }
        valid := valid + 1;
      }
    }
  }

  lemma {:induction false} PrefixSums(u: seq<RouteHop>, h: RouteHop, n: nat)
    requires n <= |u|
    ensures TotalShare(u + [h], n) == TotalShare(u, n) && FreeHops(u + [h], n) == FreeHops(u, n)
  {
    if n > 0 { PrefixSums(u, h, n - 1); }
  }

  /** Second pass: turn the marks into ratios. */
  method FillRatios(ghost u: seq<RouteHop>, tracers: array<Tracer>, valid: nat, totalShare: real, numFree: nat)
    requires valid == |u| <= tracers.Length && totalShare == TotalShare(u, |u|) && numFree == |FreeHops(u, |u|)|
    requires forall i | 0 <= i < valid :: tracers[i] == TracerOf(u[i], FirstRatio(u[i]))
    modifies tracers
    ensures forall i | 0 <= i < valid :: tracers[i] == TracerOf(u[i], Finite(FinalRatio(u, u[i])))
  {
    for i := 0 to valid
      invariant forall j | 0 <= j < i :: tracers[j] == TracerOf(u[j], Finite(FinalRatio(u, u[j])))
      invariant forall j | i <= j < valid :: tracers[j] == TracerOf(u[j], FirstRatio(u[j]))
    {
      if numFree != 0 {
        if tracers[i].ratio == Infinite {
          tracers[i] := tracers[i].(ratio := Finite(1.0 / numFree as real));
        } else {
          tracers[i] := tracers[i].(ratio := Finite(0.0));
        }
      } else {
        NoneFree(u, |u|, i);
        TotalPositive(u, |u|);
        tracers[i] := tracers[i].(ratio := Finite(tracers[i].ratio.value / totalShare));
      }
    }
  }

  /** Third pass: keep only what carries traffic. */
  method Compact(ghost u: seq<RouteHop>, tracers: array<Tracer>, valid: nat, numFree: nat)
    returns (kept: array<Tracer>)
    requires valid == |u| <= tracers.Length && numFree == |FreeHops(u, |u|)| > 0
    requires forall i | 0 <= i < valid :: tracers[i] == TracerOf(u[i], Finite(FinalRatio(u, u[i])))
    ensures fresh(kept) && kept.Length == numFree
    ensures forall j | 0 <= j < numFree ::
              kept[j] == TracerOf(FreeHops(u, |u|)[j], Finite(FinalRatio(u, FreeHops(u, |u|)[j])))
  {
    kept := new Tracer[numFree](_ => Tracer(Infinite, 0, NextHop(0, false)));
    var j := 0;
    assert 1.0 / numFree as real > 0.0;
    for i := 0 to valid
      invariant j == |FreeHops(u, i)| && unchanged(tracers)
      invariant |FreeHops(u, i)| <= |FreeHops(u, |u|)|
      invariant forall x | 0 <= x < j ::
                  kept[x] == TracerOf(FreeHops(u, i)[x], Finite(FinalRatio(u, FreeHops(u, i)[x])))
    {
      FreeGrows(u, i + 1, |u|);
      if tracers[i].ratio != Finite(0.0) {
        kept[j] := tracers[i];
        j := j + 1;
      }
    }
  }

  lemma {:induction false} FreeGrows(u: seq<RouteHop>, m: nat, n: nat)
    requires m <= n <= |u|
    ensures FreeHops(u, m) <= FreeHops(u, n)
  {
    if m < n { FreeGrows(u, m, n - 1); }
  }

  // ----- which hops the tracers are for -----

  /** No hop that can be used is free. */
  ghost predicate NoneIsFree(hops: seq<RouteHop>) {
    forall i | 0 <= i < |hops| && hops[i].reachable && !hops[i].special :: hops[i].cost != 0
  }

  /** The tracers are for the hops at these places, in order, one each, and leave by the
      interface of the hop to its address; the places are those of the hops that are reachable
      and not special, and of these just the free ones if there are any. */
  ghost predicate Placed(hops: seq<RouteHop>, at: seq<nat>, s: seq<Tracer>) {
    && |at| == |s|
    && (forall k | 0 <= k < |at| ::
          at[k] < |hops| && s[k].intf == hops[at[k]].intf && s[k].hop == hops[at[k]].hop)
    && (forall j, k | 0 <= j < k < |at| :: at[j] < at[k])
    && forall i: nat | i < |hops| ::
         i in at <==> hops[i].reachable && !hops[i].special && (hops[i].cost == 0 || NoneIsFree(hops))
  }

  /** The places below `n` of hops that can be used, or of the free ones among them. */
  function Places(hops: seq<RouteHop>, n: nat, free: bool): (at: seq<nat>)
    requires n <= |hops|
    ensures forall k | 0 <= k < |at| :: at[k] < n
  {
    if n == 0 then []
    else
      var h := hops[n - 1];
      if h.reachable && !h.special && (free ==> h.cost == 0) then Places(hops, n - 1, free) + [n - 1]
      else Places(hops, n - 1, free)
  }

  lemma {:induction false} PlacesOrdered(hops: seq<RouteHop>, n: nat, free: bool)
    requires n <= |hops|
    ensures var at := Places(hops, n, free);
            && (forall j, k | 0 <= j < k < |at| :: at[j] < at[k])
            && forall i: nat :: i in at <==>
                 i < n && hops[i].reachable && !hops[i].special && (free ==> hops[i].cost == 0)
  {
    if n > 0 { PlacesOrdered(hops, n - 1, free); }
  }

  /** The hops at these places. */
  function Picked(hops: seq<RouteHop>, at: seq<nat>): (s: seq<RouteHop>)
    requires forall k | 0 <= k < |at| :: at[k] < |hops|
    ensures |s| == |at| && forall k | 0 <= k < |at| :: s[k] == hops[at[k]]
  {
    if at == [] then [] else Picked(hops, at[..|at| - 1]) + [hops[at[|at| - 1]]]
  }

  lemma PickedNext(hops: seq<RouteHop>, at: seq<nat>, i: nat)
    requires i < |hops| && forall k | 0 <= k < |at| :: at[k] < |hops|
    ensures Picked(hops, at + [i]) == Picked(hops, at) + [hops[i]]
  {
    assert (at + [i])[..|at|] == at;
  }

  lemma PlacesNext(hops: seq<RouteHop>, n: nat, free: bool)
    requires n < |hops|
    ensures Picked(hops, Places(hops, n + 1, free)) ==
            Picked(hops, Places(hops, n, free)) +
            if Usable(hops[n]) && (free ==> hops[n].cost == 0) then [hops[n]] else []
  {
    PickedNext(hops, Places(hops, n, free), n);
  }

  lemma {:induction false} UsablePlaces(hops: seq<RouteHop>, n: nat)
    requires n <= |hops|
    ensures UsableHops(hops, n) == Picked(hops, Places(hops, n, false))
  {
    if n > 0 {
      UsablePlaces(hops, n - 1);
      PlacesNext(hops, n - 1, false);
    }
  }

  lemma FreeNext(hops: seq<RouteHop>, n: nat)
    requires n < |hops|
    ensures var u, v := UsableHops(hops, n), UsableHops(hops, n + 1);
            FreeHops(v, |v|) == FreeHops(u, |u|) + if Usable(hops[n]) && hops[n].cost == 0 then [hops[n]] else []
  {
    PrefixSums(UsableHops(hops, n), hops[n], |UsableHops(hops, n)|);
  }

  /** The free ones of the hops below `n` that can be used. */
  ghost predicate FreeAt(hops: seq<RouteHop>, n: nat, free: seq<RouteHop>)
    requires n <= |hops|
  {
    free == FreeHops(UsableHops(hops, n), |UsableHops(hops, n)|) && free == Picked(hops, Places(hops, n, true))
  }

  lemma FreeAtNext(hops: seq<RouteHop>, n: nat, free: seq<RouteHop>) returns (next: seq<RouteHop>)
    requires n < |hops| && FreeAt(hops, n, free)
    ensures FreeAt(hops, n + 1, next)
  {
    FreeNext(hops, n);
    PlacesNext(hops, n, true);
    next := free + if Usable(hops[n]) && hops[n].cost == 0 then [hops[n]] else [];
  }

  lemma {:induction false} FreePlaces(hops: seq<RouteHop>, n: nat) returns (free: seq<RouteHop>)
    requires n <= |hops|
    ensures FreeAt(hops, n, free)
  {
    if n == 0 {
      free := [];
    } else {
      free := FreePlaces(hops, n - 1);
      free := FreeAtNext(hops, n - 1, free);
    }
  }

  /** The places of the hops that carry traffic. */
  lemma CarriersPlaced(hops: seq<RouteHop>, at: seq<nat>)
    requires at == Places(hops, |hops|, !NoneIsFree(hops))
    ensures Carriers(hops) == Picked(hops, at)
  {
    UsablePlaces(hops, |hops|);
    var free := FreePlaces(hops, |hops|);
    FreeOrNone(hops, Places(hops, |hops|, true) != []);
  }

  lemma SomePlace(hops: seq<RouteHop>, i: nat)
    requires i < |hops| && hops[i].reachable && !hops[i].special
    ensures Places(hops, |hops|, !NoneIsFree(hops)) != []
  {
    FreeOrNone(hops, Places(hops, |hops|, true) != []);
    PlacesOrdered(hops, |hops|, false);
  }

  lemma SplitPlaced(hops: seq<RouteHop>) returns (at: seq<nat>)
    ensures Placed(hops, at, Split(hops))
    ensures at == [] <==> forall i | 0 <= i < |hops| :: !hops[i].reachable || hops[i].special
    ensures |at| == |Carriers(hops)| && forall k | 0 <= k < |at| :: Carriers(hops)[k] == hops[at[k]]
  {
    at := Places(hops, |hops|, !NoneIsFree(hops));
    CarriersPlaced(hops, at);
    PlacesOrdered(hops, |hops|, !NoneIsFree(hops));
    if at != [] { assert at[0] in at; }
    forall i | 0 <= i < |hops| && hops[i].reachable && !hops[i].special
      ensures at != []
    {
      SomePlace(hops, i);
    }
  }

  lemma FreeOrNone(hops: seq<RouteHop>, free: bool)
    requires free <==> Places(hops, |hops|, true) != []
    ensures free <==> !NoneIsFree(hops)
  {
    var at := Places(hops, |hops|, true);
    PlacesOrdered(hops, |hops|, true);
    if at != [] { assert at[0] in at; }
  }

  /** The split: `destroy` if no next hop is usable, else the tracers to send. */
  method BgutilPacketSplit(hops: seq<RouteHop>) returns (destroy: bool, tracers: array<Tracer>, num: nat)
    ensures fresh(tracers) && num <= tracers.Length
    ensures destroy <==> forall i | 0 <= i < |hops| :: !hops[i].reachable || hops[i].special
    ensures tracers[..num] == Split(hops)
    ensures exists at :: Placed(hops, at, tracers[..num])
    ensures var free := |FreeHops(UsableHops(hops, |hops|), |UsableHops(hops, |hops|)|)|;
            free > 0 ==> num == free
  {
    ghost var at := SplitPlaced(hops);
    assert Placed(hops, at, Split(hops));
    tracers := new Tracer[|hops|](_ => Tracer(Infinite, 0, NextHop(0, false)));
    var valid, totalShare, numFree := CollectHops(hops, tracers);
    ghost var u := UsableHops(hops, |hops|);
    destroy, num := valid == 0, valid;
    if destroy {
      return;
    }
    FillRatios(u, tracers, valid, totalShare, numFree);
    if numFree != 0 && numFree != valid {
      tracers := Compact(u, tracers, valid, numFree);
      num := numFree;
    } else if numFree == valid {
      AllFree(u, |u|);
    }
  }

  lemma {:induction false} AllFree(u: seq<RouteHop>, n: nat)
    requires n <= |u| && |FreeHops(u, n)| == n
    ensures FreeHops(u, n) == u[..n]
  {
    if n > 0 { AllFree(u, n - 1); }
  }

  // ----- what the ratios mean -----

  function RatioSum(s: seq<Tracer>, n: nat): real
    requires n <= |s| && forall t | t in s :: t.ratio.Finite?
  {
    if n == 0 then 0.0 else RatioSum(s, n - 1) + s[n - 1].ratio.value
  }

  lemma {:induction false} EqualShares(s: seq<Tracer>, x: real, n: nat)
    requires n <= |s| && forall t | t in s :: t.ratio == Finite(x)
    ensures RatioSum(s, n) == n as real * x
  {
    if n > 0 {
      EqualShares(s, x, n - 1);
      assert s[n - 1] in s;
      assert n as real == (n - 1) as real + 1.0;
      var m := (n - 1) as real;
      assert (m + 1.0) * x == m * x + x;
    }
  }

  lemma {:induction false} InverseShares(u: seq<RouteHop>, s: seq<Tracer>, total: real, n: nat)
    requires n <= |u| == |s| && total != 0.0 && forall t | t in s :: t.ratio.Finite?
    requires forall i | 0 <= i < |u| :: s[i].ratio == Finite(Inverse(u[i]) / total)
    ensures RatioSum(s, n) == TotalShare(u, n) / total
  {
    if n > 0 {
      InverseShares(u, s, total, n - 1);
      SumOfQuotients(TotalShare(u, n - 1), Inverse(u[n - 1]), total);
    }
  }

  lemma SumOfQuotients(a: real, b: real, c: real)
    requires c != 0.0
    ensures a / c + b / c == (a + b) / c
  {
  }

  lemma FreeRatios(hops: seq<RouteHop>)
    requires FreeHops(UsableHops(hops, |hops|), |UsableHops(hops, |hops|)|) != []
    ensures var s, n := Split(hops), |FreeHops(UsableHops(hops, |hops|), |UsableHops(hops, |hops|)|)|;
            |s| == n && forall i | 0 <= i < n :: s[i].ratio == Finite(1.0 / n as real)
  {
    var u := UsableHops(hops, |hops|);
    var free := FreeHops(u, |u|);
    forall i | 0 <= i < |free|
      ensures Split(hops)[i].ratio == Finite(1.0 / |free| as real)
    {
      assert free[i] in free;
    }
  }

  lemma FreeSharesSum(hops: seq<RouteHop>)
    requires FreeHops(UsableHops(hops, |hops|), |UsableHops(hops, |hops|)|) != []
    ensures RatioSum(Split(hops), |Split(hops)|) == 1.0
  {
    var n := |FreeHops(UsableHops(hops, |hops|), |UsableHops(hops, |hops|)|)|;
    FreeRatios(hops);
    AllEqualSum(Split(hops), n);
  }

  lemma AllEqualSum(s: seq<Tracer>, n: nat)
    requires |s| == n > 0 && forall i | 0 <= i < n :: s[i].ratio == Finite(1.0 / n as real)
    ensures RatioSum(s, n) == 1.0
  {
    EqualShares(s, 1.0 / n as real, n);
    Parts(n as real);
  }

  lemma Parts(n: real)
    requires n > 0.0
    ensures n * (1.0 / n) == 1.0
    ensures n / n == 1.0
  {
  }

  /** Whenever some next hop is usable, the ratios returned add up to exactly one. */
  lemma RatiosSumToOne(hops: seq<RouteHop>)
    requires UsableHops(hops, |hops|) != []
    ensures RatioSum(Split(hops), |Split(hops)|) == 1.0
  {
    var u := UsableHops(hops, |hops|);
    if FreeHops(u, |u|) != [] {
      FreeSharesSum(hops);
    } else {
      TotalPositive(u, |u|);
      Parts(TotalShare(u, |u|));
      InverseShares(u, Split(hops), TotalShare(u, |u|), |u|);
    }
  }

  /** Free hops share equally and are then the only ones kept; otherwise ratio times cost is
      the same for every hop.  Either way every ratio is positive. */
  lemma RatiosFollowCosts(hops: seq<RouteHop>, i: nat, j: nat)
    requires i < |Split(hops)| && j < |Split(hops)|
    ensures var s, h := Split(hops), Carriers(hops);
            && s[i].ratio.value > 0.0
            && (h[i].cost == 0 || h[j].cost == 0 ==> h[i].cost == h[j].cost == 0 && s[i].ratio == s[j].ratio)
            && (h[i].cost > 0 ==> s[i].ratio.value * h[i].cost as real == s[j].ratio.value * h[j].cost as real)
  {
    var u := UsableHops(hops, |hops|);
    if FreeHops(u, |u|) == [] {
      TotalPositive(u, |u|);
      NoneFree(u, |u|, i);
      NoneFree(u, |u|, j);
      ScaledInverse(u[i].cost as real, TotalShare(u, |u|));
      ScaledInverse(u[j].cost as real, TotalShare(u, |u|));
    }
  }

  lemma ScaledInverse(c: real, total: real)
    requires c > 0.0 && total > 0.0
    ensures 1.0 / c / total * c == 1.0 / total && 1.0 / c / total > 0.0
  {
    var x := 1.0 / c;
    assert x * c == 1.0;
    var y := x / total;
    assert y * total == x;
    assert y * c * total == 1.0;
  }

  function ToShares(s: seq<Tracer>): seq<Share>
    requires forall t | t in s :: t.ratio.Finite?
  {
    seq(|s|, i requires 0 <= i < |s| => Share(s[i].intf, s[i].hop, s[i].ratio.value))
  }

  lemma {:induction false} SharesTotal(s: seq<Tracer>, n: nat)
    requires n <= |s| && forall t | t in s :: t.ratio.Finite?
    ensures TotalRatio(ToShares(s), n) == RatioSum(s, n)
  {
    if n > 0 { SharesTotal(s, n - 1); }
  }

  lemma WholeShared(v: real, shares: seq<Share>)
    requires TotalRatio(shares, |shares|) == 1.0
    ensures SharedVolume(v, shares, |shares|) == v
  {
    SharedVolumeTotal(v, shares, |shares|);
  }

  /** The split and the forwarding loop together: the tracer copies handed to the interfaces
      carry exactly the volume that came in, whatever the interfaces then make of them, and
      over clear interfaces so do the frames on the links. */
  lemma SplitAndForwardConserveVolume(hops: seq<RouteHop>, r: Router, d: Pkt)
    requires UsableHops(hops, |hops|) != [] && d.volume.Some?
    ensures var shares := ToShares(Split(hops));
            && SharesOut(r, d, shares, |shares|) == OfferedOut(r, Offered(d, shares, |shares|), shares)
            && VolumeSum(Offered(d, shares, |shares|)) == d.volume.value
            && (AllClear(r, d, shares) ==> WireVolume(SharesOut(r, d, shares, |shares|)) == d.volume.value)
  {
    var s := Split(hops);
    RatiosSumToOne(hops);
    SharesTotal(s, |s|);
    WholeShared(d.volume.value, ToShares(s));
    SharesOffer(r, d, ToShares(s), d.volume.value);
    if AllClear(r, d, ToShares(s)) {
      SplitKeepsVolume(r, d, ToShares(s), d.volume.value);
    }
  }
}
