/**
 * Surface computer (modules/env-surfaces.js): derives the per-cell slope,
 * relief and hydric index that the terrain classifier and the farmland
 * allocator read.
 */
module EnvSurfaces {
  import opened TerrainCodes

  /** The three per-cell fields, each indexed by cell id. */
  datatype Surfaces = Surfaces(slope: seq<real>, relief: seq<real>, hydric: seq<real>)

  /** Every neighbour id that is listed names one of the `n` cells. */
  predicate NeighboursInRange(nbrs: seq<seq<nat>>, n: nat) {
    forall i, k :: 0 <= i < |nbrs| && 0 <= k < |nbrs[i]| ==> nbrs[i][k] < n
  }

  /** Every id in `nb` indexes the height array. */
  predicate IdsIn(nb: seq<nat>, n: nat) {
    forall k :: 0 <= k < |nb| ==> nb[k] < n
  }

  function Abs(x: int): nat {
    if x < 0 then -x else x
  }

  function MaxInt(a: int, b: int): int { if a >= b then a else b }
  function MinInt(a: int, b: int): int { if a <= b then a else b }
  function MaxReal(a: real, b: real): real { if a >= b then a else b }
  function MinReal(a: real, b: real): real { if a <= b then a else b }

  /** The neighbour list of cell `i`, empty when the list is missing. */
  function NeighboursOf(nbrs: seq<seq<nat>>, i: nat): seq<nat> {
    if i < |nbrs| then nbrs[i] else []
  }

  /** Sum of the absolute height differences between `hi` and each listed neighbour. */
  function SumAbsDiff(h: seq<int>, hi: int, nb: seq<nat>): (r: int)
    requires IdsIn(nb, |h|)
    ensures r >= 0
    ensures nb != [] && r == 0 ==> h[nb[|nb| - 1]] == hi
  {
    if nb == [] then 0 else SumAbsDiff(h, hi, nb[..|nb| - 1]) + Abs(hi - h[nb[|nb| - 1]])
  }

  /** The largest height among the listed neighbours. */
  function MaxHeight(h: seq<int>, nb: seq<nat>): (r: int)
    requires nb != [] && IdsIn(nb, |h|)
    ensures forall k :: 0 <= k < |nb| ==> h[nb[k]] <= r
  {
    if |nb| == 1 then h[nb[0]]
    else
      var m := MaxHeight(h, nb[..|nb| - 1]);
      assert forall k :: 0 <= k < |nb| - 1 ==> nb[..|nb| - 1][k] == nb[k];
      MaxInt(m, h[nb[|nb| - 1]])
  }

  /** The smallest height among the listed neighbours. */
  function MinHeight(h: seq<int>, nb: seq<nat>): (r: int)
    requires nb != [] && IdsIn(nb, |h|)
    ensures forall k :: 0 <= k < |nb| ==> r <= h[nb[k]]
  {
    if |nb| == 1 then h[nb[0]]
    else
      var m := MinHeight(h, nb[..|nb| - 1]);
      assert forall k :: 0 <= k < |nb| - 1 ==> nb[..|nb| - 1][k] == nb[k];
      MinInt(m, h[nb[|nb| - 1]])
  }

  /** The maximum is the height of one of the listed neighbours. */
  lemma {:induction false} MaxHeightAttained(h: seq<int>, nb: seq<nat>) returns (k: nat)
    requires nb != [] && IdsIn(nb, |h|)
    ensures k < |nb| && h[nb[k]] == MaxHeight(h, nb)
  {
    if |nb| == 1 {
      k := 0;
    } else {
      var j := MaxHeightAttained(h, nb[..|nb| - 1]);
      k := if MaxHeight(h, nb[..|nb| - 1]) >= h[nb[|nb| - 1]] then j else |nb| - 1;
    }
  }

  /** The minimum is the height of one of the listed neighbours. */
  lemma {:induction false} MinHeightAttained(h: seq<int>, nb: seq<nat>) returns (k: nat)
    requires nb != [] && IdsIn(nb, |h|)
    ensures k < |nb| && h[nb[k]] == MinHeight(h, nb)
  {
    if |nb| == 1 {
      k := 0;
    } else {
      var j := MinHeightAttained(h, nb[..|nb| - 1]);
      k := if MinHeight(h, nb[..|nb| - 1]) <= h[nb[|nb| - 1]] then j else |nb| - 1;
    }
  }

  /** Slope of cell `i`: mean absolute height difference to its neighbours, 0 without neighbours. */
  function SlopeAt(h: seq<int>, nbrs: seq<seq<nat>>, i: nat): real
    requires i < |h| && NeighboursInRange(nbrs, |h|)
  {
    var nb := NeighboursOf(nbrs, i);
    if nb == [] then 0.0 else SumAbsDiff(h, h[i], nb) as real / |nb| as real
  }

  /** Relief of cell `i`: neighbour maximum minus minimum, floored at 0; 0 without neighbours. */
  function ReliefAt(h: seq<int>, nbrs: seq<seq<nat>>, i: nat): real
    requires i < |h| && NeighboursInRange(nbrs, |h|)
  {
    var nb := NeighboursOf(nbrs, i);
    if nb == [] then 0.0 else MaxInt(0, MaxHeight(h, nb) - MinHeight(h, nb)) as real
  }

  /** Precipitation of the coarse climate cell `g[i]`, 0 when there is no value for it. */
  function Precipitation(prec: seq<real>, g: seq<nat>, i: nat): real
    requires i < |g|
  {
    if g[i] < |prec| then prec[g[i]] else 0.0
  }

  /** Hydric index of a cell from its height, slope, precipitation and river id (0 = no river). */
  function HydricAt(height: int, slope: real, p: real, river: nat): real {
    if height < LandHeight then 0.0
    else
      var riverBonus := if river != 0 then 20.0 else 0.0;
      var slopePenalty := MinReal(slope * 0.8, 25.0);
      MaxReal(0.0, p + riverBonus - slopePenalty)
  }

  /**
   * The inner accumulation loop of the slope pass: the summed absolute
   * difference to `hi` and the largest and smallest neighbour height.
   */
  method NeighbourStats(h: seq<int>, hi: int, nb: seq<nat>) returns (sum: int, mx: int, mn: int)
    requires nb != [] && IdsIn(nb, |h|)
    ensures sum == SumAbsDiff(h, hi, nb)
    ensures mx == MaxHeight(h, nb) && mn == MinHeight(h, nb)
  {
    sum := 0;
    // The source starts max/min at -Infinity/+Infinity; the first neighbour
    // replaces both, so starting from it gives the same values.
    mx, mn := h[nb[0]], h[nb[0]];
    for k := 0 to |nb|
      invariant sum == SumAbsDiff(h, hi, nb[..k])
      invariant k == 0 ==> mx == h[nb[0]] && mn == h[nb[0]]
      invariant k > 0 ==> mx == MaxHeight(h, nb[..k]) && mn == MinHeight(h, nb[..k])
    {
      assert nb[..k + 1][..k] == nb[..k];
      var v := Abs(hi - h[nb[k]]);
      sum := sum + v;
      if h[nb[k]] > mx { mx := h[nb[k]]; }
      if h[nb[k]] < mn { mn := h[nb[k]]; }
    }
    assert nb[..|nb|] == nb;
  }

  lemma NoNeighboursFlat(h: seq<int>, nbrs: seq<seq<nat>>, i: nat)
    requires i < |h| && NeighboursInRange(nbrs, |h|)
    requires i >= |nbrs| || |nbrs[i]| == 0
    ensures SlopeAt(h, nbrs, i) == 0.0 && ReliefAt(h, nbrs, i) == 0.0
  {
  }

  lemma StatsGiveSurfaces(h: seq<int>, nbrs: seq<seq<nat>>, i: nat, sum: int, mx: int, mn: int)
    requires i < |h| && NeighboursInRange(nbrs, |h|) && i < |nbrs| && |nbrs[i]| > 0
    requires IdsIn(nbrs[i], |h|)
    requires sum == SumAbsDiff(h, h[i], nbrs[i])
    requires mx == MaxHeight(h, nbrs[i]) && mn == MinHeight(h, nbrs[i])
    ensures sum as real / |nbrs[i]| as real == SlopeAt(h, nbrs, i)
    ensures MaxInt(0, mx - mn) as real == ReliefAt(h, nbrs, i)
  {
    assert NeighboursOf(nbrs, i) == nbrs[i];
  }

  /**
   * The first loop of the computation: slope and relief of every cell. A
   * missing neighbour list (`i >= |nbrs|`) or an empty one leaves both 0.
   */
  method SlopeReliefPass(h: seq<int>, nbrs: seq<seq<nat>>) returns (slope: seq<real>, relief: seq<real>)
    requires NeighboursInRange(nbrs, |h|)
    ensures |slope| == |h| && |relief| == |h|
    ensures forall i :: 0 <= i < |h| ==> slope[i] == SlopeAt(h, nbrs, i) && relief[i] == ReliefAt(h, nbrs, i)
  {
    var n := |h|;
    var s := seq(n, _ => 0.0);
    var r := seq(n, _ => 0.0);
    for i := 0 to n
      invariant |s| == n && |r| == n
      invariant forall j :: 0 <= j < i ==> s[j] == SlopeAt(h, nbrs, j) && r[j] == ReliefAt(h, nbrs, j)
      invariant forall j :: i <= j < n ==> s[j] == 0.0 && r[j] == 0.0
    {
      if i >= |nbrs| || |nbrs[i]| == 0 {
        NoNeighboursFlat(h, nbrs, i);
        continue;
      }
      var nb := nbrs[i];
      var sum, mx, mn := NeighbourStats(h, h[i], nb);
      var sv, rv := sum as real / |nb| as real, MaxInt(0, mx - mn) as real;
      StatsGiveSurfaces(h, nbrs, i, sum, mx, mn);
      s := s[i := sv];
      r := r[i := rv];
    }
    slope, relief := s, r;
  }

  /** The second loop of the computation: the hydric index of every cell from its slope. */
  method HydricPass(h: seq<int>, slope: seq<real>, g: seq<nat>, river: seq<nat>, prec: seq<real>)
    returns (hydric: seq<real>)
    requires |slope| == |h| && |g| == |h| && |river| == |h|
    ensures |hydric| == |h|
    ensures forall i :: 0 <= i < |h| ==> hydric[i] == HydricAt(h[i], slope[i], Precipitation(prec, g, i), river[i])
  {
    var n := |h|;
    var a := new real[n](_ => 0.0);
    for i := 0 to n
      invariant forall j :: 0 <= j < i ==> a[j] == HydricAt(h[j], slope[j], Precipitation(prec, g, j), river[j])
    {
      if h[i] < LandHeight {
        a[i] := 0.0;
        continue;
      }
      var p := Precipitation(prec, g, i);
      var riverBonus := if river[i] != 0 then 20.0 else 0.0;
      var slopePenalty := MinReal(slope[i] * 0.8, 25.0);
      a[i] := MaxReal(0.0, p + riverBonus - slopePenalty);
    }
    hydric := a[..];
  }

  /**
   * Computes the three surfaces into freshly allocated arrays: cell `i`'s
   * values are stored at index `i`, and nothing else is written.
   */
  method Compute(h: seq<int>, nbrs: seq<seq<nat>>, g: seq<nat>, river: seq<nat>, prec: seq<real>)
    returns (s: Surfaces)
    requires |g| == |h| && |river| == |h| && NeighboursInRange(nbrs, |h|)
    ensures |s.slope| == |h| && |s.relief| == |h| && |s.hydric| == |h|
    ensures forall i :: 0 <= i < |h| ==>
      && s.slope[i] == SlopeAt(h, nbrs, i)
      && s.relief[i] == ReliefAt(h, nbrs, i)
      && s.hydric[i] == HydricAt(h[i], s.slope[i], Precipitation(prec, g, i), river[i])
  {
    var slope, relief := SlopeReliefPass(h, nbrs);
    var hydric := HydricPass(h, slope, g, river, prec);
    s := Surfaces(slope, relief, hydric);
  }

  // ---------------------------------------------------------------------
  // Properties of the surfaces

  /** The summed difference is 0 exactly when every neighbour has the cell's own height. */
  lemma {:induction false} SumAbsDiffZeroIff(h: seq<int>, hi: int, nb: seq<nat>)
    requires IdsIn(nb, |h|)
    ensures SumAbsDiff(h, hi, nb) == 0 <==> forall k :: 0 <= k < |nb| ==> h[nb[k]] == hi
  {
    if nb != [] {
      var front := nb[..|nb| - 1];
      SumAbsDiffZeroIff(h, hi, front);
      assert forall k :: 0 <= k < |front| ==> front[k] == nb[k];
    }
  }

  /** Slope is never negative, and it is 0 exactly when no neighbour differs in height. */
  lemma SlopeZeroIffFlat(h: seq<int>, nbrs: seq<seq<nat>>, i: nat)
    requires i < |h| && NeighboursInRange(nbrs, |h|)
    ensures SlopeAt(h, nbrs, i) >= 0.0
    ensures SlopeAt(h, nbrs, i) == 0.0 <==>
      forall k :: 0 <= k < |NeighboursOf(nbrs, i)| ==> h[NeighboursOf(nbrs, i)[k]] == h[i]
  {
    var nb := NeighboursOf(nbrs, i);
    if nb != [] {
      SumAbsDiffZeroIff(h, h[i], nb);
      var s := SumAbsDiff(h, h[i], nb);
      assert s as real / |nb| as real == 0.0 <==> s == 0;
    }
  }

  /**
   * The height spread of a non-empty neighbour list bounds the difference of
   * any two neighbours, is attained by one pair of them, and is never negative.
   */
  lemma SpreadIsAttained(h: seq<int>, nb: seq<nat>)
    requires nb != [] && IdsIn(nb, |h|)
    ensures MaxInt(0, MaxHeight(h, nb) - MinHeight(h, nb)) == MaxHeight(h, nb) - MinHeight(h, nb)
    ensures forall a, b :: 0 <= a < |nb| && 0 <= b < |nb| ==> h[nb[a]] - h[nb[b]] <= MaxHeight(h, nb) - MinHeight(h, nb)
    ensures exists a, b :: 0 <= a < |nb| && 0 <= b < |nb| && h[nb[a]] - h[nb[b]] == MaxHeight(h, nb) - MinHeight(h, nb)
  {
    var mx, mn := MaxHeight(h, nb), MinHeight(h, nb);
    var a := MaxHeightAttained(h, nb);
    var b := MinHeightAttained(h, nb);
    SpreadOfBounds(h, nb, mx, mn, a, b);
  }

  lemma SpreadOfBounds(h: seq<int>, nb: seq<nat>, mx: int, mn: int, a: nat, b: nat)
    requires IdsIn(nb, |h|) && a < |nb| && b < |nb| && h[nb[a]] == mx && h[nb[b]] == mn
    requires forall k :: 0 <= k < |nb| ==> mn <= h[nb[k]] <= mx
    ensures MaxInt(0, mx - mn) == mx - mn
    ensures forall x, y :: 0 <= x < |nb| && 0 <= y < |nb| ==> h[nb[x]] - h[nb[y]] <= mx - mn
    ensures exists x, y :: 0 <= x < |nb| && 0 <= y < |nb| && h[nb[x]] - h[nb[y]] == mx - mn
  {
    forall x, y | 0 <= x < |nb| && 0 <= y < |nb| ensures h[nb[x]] - h[nb[y]] <= mx - mn {
      assert h[nb[x]] <= mx && mn <= h[nb[y]];
    }
  }

  /** Relief is never negative, 0 without neighbours, and otherwise the neighbours' height spread. */
  lemma ReliefIsSpread(h: seq<int>, nbrs: seq<seq<nat>>, i: nat)
    requires i < |h| && NeighboursInRange(nbrs, |h|)
    ensures ReliefAt(h, nbrs, i) >= 0.0
    ensures NeighboursOf(nbrs, i) == [] ==> ReliefAt(h, nbrs, i) == 0.0
    ensures NeighboursOf(nbrs, i) != [] ==>
      ReliefAt(h, nbrs, i) == (MaxHeight(h, NeighboursOf(nbrs, i)) - MinHeight(h, NeighboursOf(nbrs, i))) as real
  {
    var nb := NeighboursOf(nbrs, i);
    if nb != [] {
      SpreadIsAttained(h, nb);
    }
  }

  /** Every water cell (height below 20) gets hydric index 0, whatever else holds. */
  lemma HydricZeroOnWater(height: int, slope: real, p: real, river: nat)
    requires height < LandHeight
    ensures HydricAt(height, slope, p, river) == 0.0
  {
  }

  /**
   * On land the hydric index is never negative, never exceeds precipitation
   * plus the river bonus, and is at least that sum minus the largest penalty 25.
   */
  lemma HydricBounds(height: int, slope: real, p: real, river: nat)
    requires height >= LandHeight
    ensures var bonus := if river != 0 then 20.0 else 0.0;
      && HydricAt(height, slope, p, river) >= 0.0
      && HydricAt(height, slope, p, river) >= p + bonus - 25.0
      && (slope >= 0.0 ==> HydricAt(height, slope, p, river) <= MaxReal(0.0, p + bonus))
  {
  }
}
