/**
 * What one run of `allocate` guarantees, stated over the allocation the
 * burg passes compute: the cell-by-cell meaning of the writes, the quota
 * bound, exclusive claims with the earlier burg winning, the greedy choice
 * of the best-scoring admissible candidates, the intensity range, and the
 * link between `cultivatedBy` and the cultivated code on a fresh start.
 */
module FarmlandProperties {
  import opened Wrappers
  import opened TerrainCodes
  import opened EnvSurfaces
  import opened MapData
  import opened Farmland
  import opened FarmlandSearch
  import opened FarmlandAllocator

  /** Cell `c` is among the claims `ps` of one burg. */
  ghost predicate InClaim(ps: seq<Candidate>, c: nat) {
    exists k :: 0 <= k < |ps| && ps[k].cell == c
  }

  /** Cell `c` is claimed by one of the burgs whose claims are `claims`. */
  ghost predicate ClaimedBySome(claims: seq<seq<Candidate>>, c: nat) {
    exists j :: 0 <= j < |claims| && InClaim(claims[j], c)
  }

  /** No cell is claimed twice within one burg, nor by two burgs. */
  ghost predicate Exclusive(claims: seq<seq<Candidate>>) {
    && (forall j :: 0 <= j < |claims| ==> DistinctCells(claims[j]))
    && (forall j1, j2, c :: 0 <= j1 < j2 < |claims| && InClaim(claims[j1], c) ==> !InClaim(claims[j2], c))
  }

  // ---------------------------------------------------------------------
  // One burg's writes, cell by cell

  lemma {:induction false} MarkClaimedMeaning(v: seq<bool>, ps: seq<Candidate>, c: nat)
    requires CellsIn(ps, |v|) && c < |v|
    ensures MarkClaimed(v, ps)[c] <==> v[c] || InClaim(ps, c)
  {
    if ps != [] {
      var front := ps[..|ps| - 1];
      MarkClaimedMeaning(v, front, c);
      if InClaim(front, c) {
        var k :| 0 <= k < |front| && front[k].cell == c;
        assert ps[k].cell == c;
      }
      if InClaim(ps, c) && ps[|ps| - 1].cell != c {
        var k :| 0 <= k < |ps| && ps[k].cell == c;
        assert front[k].cell == c;
      }
    }
  }

  /** A claimed cell becomes cultivated; every other cell keeps its terrain. */
  lemma {:induction false} MarkTerrainMeaning(t: seq<int>, ps: seq<Candidate>, c: nat)
    requires CellsIn(ps, |t|) && c < |t|
    ensures MarkTerrain(t, ps)[c] == if InClaim(ps, c) then Cultivated else t[c]
  {
    if ps != [] {
      var front := ps[..|ps| - 1];
      MarkTerrainMeaning(t, front, c);
      if InClaim(front, c) {
        var k :| 0 <= k < |front| && front[k].cell == c;
        assert ps[k].cell == c;
      }
      if InClaim(ps, c) && ps[|ps| - 1].cell != c {
        var k :| 0 <= k < |ps| && ps[k].cell == c;
        assert front[k].cell == c;
      }
    }
  }

  /** A claimed cell records the claiming burg's id; every other cell keeps its owner. */
  lemma {:induction false} MarkByMeaning(owner: seq<int>, ps: seq<Candidate>, id: int, c: nat)
    requires CellsIn(ps, |owner|) && c < |owner|
    ensures MarkBy(owner, ps, id)[c] == if InClaim(ps, c) then id else owner[c]
  {
    if ps != [] {
      var front := ps[..|ps| - 1];
      MarkByMeaning(owner, front, id, c);
      if InClaim(front, c) {
        var k :| 0 <= k < |front| && front[k].cell == c;
        assert ps[k].cell == c;
      }
      if InClaim(ps, c) && ps[|ps| - 1].cell != c {
        var k :| 0 <= k < |ps| && ps[k].cell == c;
        assert front[k].cell == c;
      }
    }
  }

  /**
   * A claimed cell gets the intensity of a claim on it, which lies in
   * [0.2, 1]; every other cell keeps its intensity.
   */
  lemma {:induction false} MarkIntensityMeaning(v: seq<real>, ps: seq<Candidate>, maxSteps: int, c: nat)
    requires CellsIn(ps, |v|) && c < |v|
    ensures !InClaim(ps, c) ==> MarkIntensity(v, ps, maxSteps)[c] == v[c]
    ensures InClaim(ps, c) ==>
      && 0.2 <= MarkIntensity(v, ps, maxSteps)[c] <= 1.0
      && exists k :: 0 <= k < |ps| && ps[k].cell == c
           && MarkIntensity(v, ps, maxSteps)[c] == Intensity(ps[k].fss, ps[k].dist, maxSteps)
  {
    if ps != [] {
      var front := ps[..|ps| - 1];
      var x := ps[|ps| - 1];
      MarkIntensityMeaning(v, front, maxSteps, c);
      if x.cell == c {
        assert ps[|ps| - 1].cell == c;
      } else {
        if InClaim(front, c) {
          var k :| 0 <= k < |front| && front[k].cell == c
                   && MarkIntensity(v, front, maxSteps)[c] == Intensity(front[k].fss, front[k].dist, maxSteps);
          assert ps[k] == front[k];
        }
        if InClaim(ps, c) {
          var k :| 0 <= k < |ps| && ps[k].cell == c;
          assert front[k].cell == c;
        }
      }
    }
  }

  // ---------------------------------------------------------------------
  // All burgs' writes, cell by cell

  /** `visitedGlobal` after the burg passes marks exactly the claimed cells. */
  lemma {:induction false} ClaimedAfterMeaning(n: nat, claims: seq<seq<Candidate>>, c: nat)
    requires AllCellsIn(claims, n) && c < n
    ensures ClaimedAfter(n, claims)[c] <==> ClaimedBySome(claims, c)
  {
    if claims != [] {
      var front, last := claims[..|claims| - 1], claims[|claims| - 1];
      ClaimedAfterMeaning(n, front, c);
      MarkClaimedMeaning(ClaimedAfter(n, front), last, c);
      SomeOfFrontOrLast(claims, c);
    }
  }

  /** A cell claimed by the first `|claims|` burgs is claimed by the earlier ones or by the last. */
  lemma SomeOfFrontOrLast(claims: seq<seq<Candidate>>, c: nat)
    requires claims != []
    ensures ClaimedBySome(claims, c) <==>
      ClaimedBySome(claims[..|claims| - 1], c) || InClaim(claims[|claims| - 1], c)
  {
    var front := claims[..|claims| - 1];
    if ClaimedBySome(front, c) {
      var j :| 0 <= j < |front| && InClaim(front[j], c);
      assert claims[j] == front[j];
    }
    if ClaimedBySome(claims, c) && !InClaim(claims[|claims| - 1], c) {
      var j :| 0 <= j < |claims| && InClaim(claims[j], c);
      assert front[j] == claims[j];
    }
  }

  /** After the burg passes a cell is cultivated if some burg claimed it, and keeps its terrain otherwise. */
  lemma {:induction false} TerrainAfterMeaning(t: seq<int>, claims: seq<seq<Candidate>>, c: nat)
    requires AllCellsIn(claims, |t|) && c < |t|
    ensures TerrainAfter(t, claims)[c] == if ClaimedBySome(claims, c) then Cultivated else t[c]
  {
    if claims != [] {
      var front, last := claims[..|claims| - 1], claims[|claims| - 1];
      TerrainAfterMeaning(t, front, c);
      MarkTerrainMeaning(TerrainAfter(t, front), last, c);
      SomeOfFrontOrLast(claims, c);
    }
  }

  /** Cells no burg claimed keep their intensity; claimed cells end with an intensity in [0.2, 1]. */
  lemma {:induction false} IntensityAfterMeaning(v: seq<real>, claims: seq<seq<Candidate>>, maxSteps: int, c: nat)
    requires AllCellsIn(claims, |v|) && c < |v|
    ensures !ClaimedBySome(claims, c) ==> IntensityAfter(v, claims, maxSteps)[c] == v[c]
    ensures ClaimedBySome(claims, c) ==> 0.2 <= IntensityAfter(v, claims, maxSteps)[c] <= 1.0
  {
    if claims != [] {
      var front, last := claims[..|claims| - 1], claims[|claims| - 1];
      IntensityAfterMeaning(v, front, maxSteps, c);
      MarkIntensityMeaning(IntensityAfter(v, front, maxSteps), last, maxSteps, c);
      SomeOfFrontOrLast(claims, c);
    }
  }

  /**
   * With exclusive claims, a claimed cell's `cultivatedBy` is the id of the
   * one burg that claimed it; a cell no burg claimed keeps its owner.
   */
  lemma {:induction false} ByAfterMeaning(owner: seq<int>, claims: seq<seq<Candidate>>, bs: seq<Burg>, c: nat)
    requires AllCellsIn(claims, |owner|) && |claims| <= |bs| && c < |owner| && Exclusive(claims)
    ensures !ClaimedBySome(claims, c) ==> ByAfter(owner, claims, bs)[c] == owner[c]
    ensures forall j :: 0 <= j < |claims| && InClaim(claims[j], c) ==> ByAfter(owner, claims, bs)[c] == bs[j].i
  {
    if claims != [] {
      var last := |claims| - 1;
      var front := claims[..last];
      assert Exclusive(front) by {
        forall j | 0 <= j < |front| ensures DistinctCells(front[j]) {
          assert front[j] == claims[j];
        }
        forall j1, j2 | 0 <= j1 < j2 < |front| && InClaim(front[j1], c) ensures !InClaim(front[j2], c) {
          assert front[j1] == claims[j1] && front[j2] == claims[j2];
        }
        assert forall j :: 0 <= j < |front| ==> front[j] == claims[j];
      }
      ByAfterMeaning(owner, front, bs, c);
      MarkByMeaning(ByAfter(owner, front, bs), claims[last], bs[last].i, c);
      SomeOfFrontOrLast(claims, c);
      forall j | 0 <= j < |claims| && InClaim(claims[j], c) ensures ByAfter(owner, claims, bs)[c] == bs[j].i {
        if j < last {
          assert front[j] == claims[j];
          assert !InClaim(claims[last], c);
        }
      }
    }
  }

  // ---------------------------------------------------------------------
  // The allocation

  /** One burg's claims: within its quota, on distinct cells no earlier burg had claimed. */
  lemma BurgClaimsFresh(cells: Mesh, t: seq<int>, surf: Option<Surfaces>, o: Options, b: Burg,
                        cands: seq<Candidate>, before: seq<seq<Candidate>>, picked: seq<Candidate>)
    requires cells.Valid() && |t| == cells.Size() && SurfacesFit(surf, cells.Size())
    requires BurgAllocation(cells, t, surf, o, b, cands, before, picked)
    ensures |picked| <= Quota(b, o) && CellsIn(picked, cells.Size()) && DistinctCells(picked)
    ensures forall k :: 0 <= k < |picked| ==> !ClaimedAfter(cells.Size(), before)[picked[k].cell]
  {
    SortedCellsIn(cands, cells.Size());
    PickFresh(SortByScore(cands), Quota(b, o), ClaimedAfter(cells.Size(), before), t);
  }

  /** What one burg's claims are, given the claims of the burgs before it: fresh cells, within its quota. */
  ghost predicate FreshClaims(n: nat, b: Burg, o: Options, before: seq<seq<Candidate>>, picked: seq<Candidate>)
    requires AllCellsIn(before, n)
  {
    && |picked| <= Quota(b, o) && CellsIn(picked, n) && DistinctCells(picked)
    && forall k :: 0 <= k < |picked| ==> !ClaimedAfter(n, before)[picked[k].cell]
  }

  /** Every burg's claims are fresh, given the claims of the burgs before it. */
  ghost predicate AllFresh(n: nat, bs: seq<Burg>, o: Options, claims: seq<seq<Candidate>>)
    requires AllCellsIn(claims, n) && |claims| <= |bs|
    decreases |claims|
  {
    claims != [] ==>
      var j := |claims| - 1;
      AllFresh(n, bs, o, claims[..j]) && FreshClaims(n, bs[j], o, claims[..j], claims[j])
  }

  lemma {:induction false} AllocationIsFresh(cells: Mesh, t: seq<int>, surf: Option<Surfaces>, o: Options, bs: seq<Burg>,
                                             candidates: seq<seq<Candidate>>, claims: seq<seq<Candidate>>)
    requires cells.Valid() && |t| == cells.Size() && SurfacesFit(surf, cells.Size())
    requires IsAllocation(cells, t, surf, o, bs, candidates, claims)
    ensures AllFresh(cells.Size(), bs, o, claims)
  {
    if claims != [] {
      var last := |claims| - 1;
      AllocationIsFresh(cells, t, surf, o, bs, candidates[..last], claims[..last]);
      BurgClaimsFresh(cells, t, surf, o, bs[last], candidates[last], claims[..last], claims[last]);
    }
  }

  /** Every burg of the allocation claims fresh cells, within its quota. */
  lemma {:induction false} FreshPerBurg(n: nat, bs: seq<Burg>, o: Options, claims: seq<seq<Candidate>>)
    requires AllCellsIn(claims, n) && |claims| <= |bs| && AllFresh(n, bs, o, claims)
    ensures forall j :: 0 <= j < |claims| ==>
      AllCellsIn(claims[..j], n) && FreshClaims(n, bs[j], o, claims[..j], claims[j])
  {
    if claims != [] {
      var last := |claims| - 1;
      var front := claims[..last];
      FreshPerBurg(n, bs, o, front);
      forall j | 0 <= j < last
        ensures AllCellsIn(claims[..j], n) && FreshClaims(n, bs[j], o, claims[..j], claims[j])
      {
        assert front[..j] == claims[..j] && front[j] == claims[j];
      }
    }
  }

  /** Every burg of the allocation claims fresh cells, within its quota. */
  lemma AllocationFresh(cells: Mesh, t: seq<int>, surf: Option<Surfaces>, o: Options, bs: seq<Burg>,
                        candidates: seq<seq<Candidate>>, claims: seq<seq<Candidate>>)
    requires cells.Valid() && |t| == cells.Size() && SurfacesFit(surf, cells.Size())
    requires IsAllocation(cells, t, surf, o, bs, candidates, claims)
    ensures forall j :: 0 <= j < |claims| ==>
      AllCellsIn(claims[..j], cells.Size()) && FreshClaims(cells.Size(), bs[j], o, claims[..j], claims[j])
  {
    AllocationIsFresh(cells, t, surf, o, bs, candidates, claims);
    FreshPerBurg(cells.Size(), bs, o, claims);
  }

  /** Every burg claims at most its quota, and a burg the allocator does not serve claims nothing. */
  lemma AllocationWithinQuota(cells: Mesh, t: seq<int>, surf: Option<Surfaces>, o: Options, bs: seq<Burg>,
                              candidates: seq<seq<Candidate>>, claims: seq<seq<Candidate>>)
    requires cells.Valid() && |t| == cells.Size() && SurfacesFit(surf, cells.Size())
    requires IsAllocation(cells, t, surf, o, bs, candidates, claims)
    ensures forall j :: 0 <= j < |claims| ==> |claims[j]| <= Quota(bs[j], o)
    ensures forall j :: 0 <= j < |claims| && claims[j] != [] ==> Served(bs[j])
  {
    AllocationFresh(cells, t, surf, o, bs, candidates, claims);
  }

  /**
   * Exclusivity: no cell is claimed twice, neither within one burg nor by
   * two burgs; a cell an earlier burg claimed is never claimed by a later one.
   */
  lemma AllocationExclusive(cells: Mesh, t: seq<int>, surf: Option<Surfaces>, o: Options, bs: seq<Burg>,
                            candidates: seq<seq<Candidate>>, claims: seq<seq<Candidate>>)
    requires cells.Valid() && |t| == cells.Size() && SurfacesFit(surf, cells.Size())
    requires IsAllocation(cells, t, surf, o, bs, candidates, claims)
    ensures Exclusive(claims)
  {
    var n := cells.Size();
    AllocationFresh(cells, t, surf, o, bs, candidates, claims);
    forall j1, j2, c | 0 <= j1 < j2 < |claims| && InClaim(claims[j1], c) ensures !InClaim(claims[j2], c) {
      var before := claims[..j2];
      assert FreshClaims(n, bs[j2], o, before, claims[j2]);
      assert before[j1] == claims[j1];
      if InClaim(claims[j2], c) {
        var k :| 0 <= k < |claims[j2]| && claims[j2][k].cell == c;
        ClaimedAfterMeaning(n, before, c);
        assert false;
      }
    }
  }

  /**
   * The greedy choice of one burg: every claimed cell was admissible (not
   * claimed, not wetland), none scores below an admissible candidate left
   * out, and fewer than the quota only when every admissible candidate was taken.
   */
  lemma BurgTakesTopCandidates(cells: Mesh, t: seq<int>, surf: Option<Surfaces>, o: Options, b: Burg,
                               cands: seq<Candidate>, claimed: seq<bool>, picked: seq<Candidate>)
    requires cells.Valid() && |t| == cells.Size() && SurfacesFit(surf, cells.Size()) && |claimed| == cells.Size()
    requires BurgAllocationFrom(cells, t, surf, o, b, cands, claimed, picked)
    ensures |picked| <= Quota(b, o)
    ensures forall x :: x in picked ==> x in cands && !claimed[x.cell] && t[x.cell] != Wetland
    ensures forall x, y :: x in picked && y in cands && !claimed[y.cell] && t[y.cell] != Wetland && y !in picked ==>
              x.score >= y.score
    ensures |picked| < Quota(b, o) ==>
              forall y :: y in cands && !claimed[y.cell] && t[y.cell] != Wetland ==> y in picked
  {
    SortedCellsIn(cands, cells.Size());
    SortByScoreSorted(cands);
    var sorted := SortByScore(cands);
    if Quota(b, o) == 0 {
      assert picked == [];
    } else {
      SortKeepsDistinct(cands);
      PickTakesTopAdmissible(sorted, Quota(b, o), claimed, t);
      forall x | x in sorted ensures x in cands {
        assert x in multiset(cands);
      }
      forall y | y in cands ensures y in sorted {
        assert y in multiset(sorted);
      }
    }
  }

  /**
   * On a fresh start (no owner recorded, no cultivated cell), after the
   * burg passes a cell has an owner exactly when it is cultivated.
   */
  lemma FreshStartOwnership(cells: Mesh, t0: seq<int>, surf: Option<Surfaces>, o: Options, bs: seq<Burg>,
                            candidates: seq<seq<Candidate>>, claims: seq<seq<Candidate>>, owners0: seq<int>)
    requires cells.Valid() && |t0| == cells.Size() && SurfacesFit(surf, cells.Size()) && |owners0| == cells.Size()
    requires IsAllocation(cells, t0, surf, o, bs, candidates, claims)
    requires forall c :: 0 <= c < cells.Size() ==> owners0[c] == 0 && t0[c] != Cultivated
    ensures forall c :: 0 <= c < cells.Size() ==>
              (ByAfter(owners0, claims, bs)[c] != 0 <==> TerrainAfter(t0, claims)[c] == Cultivated)
  {
    AllocationExclusive(cells, t0, surf, o, bs, candidates, claims);
    AllocationWithinQuota(cells, t0, surf, o, bs, candidates, claims);
    forall c | 0 <= c < cells.Size()
      ensures ByAfter(owners0, claims, bs)[c] != 0 <==> TerrainAfter(t0, claims)[c] == Cultivated
    {
      TerrainAfterMeaning(t0, claims, c);
      ByAfterMeaning(owners0, claims, bs, c);
      if ClaimedBySome(claims, c) {
        var j :| 0 <= j < |claims| && InClaim(claims[j], c);
        assert claims[j] != [];
      }
    }
  }
}
