/**
 * `FarmlandAllocator.allocate` (modules/farmland-allocator.js): every
 * served settlement claims the best-scoring eligible cells around it, up to
 * its quota, turning them into cultivated terrain; then cultivated area is
 * totalled per state.
 */
module FarmlandAllocator {
  import opened Wrappers
  import opened TerrainCodes
  import opened EnvSurfaces
  import opened MapData
  import opened Farmland
  import opened FarmlandSearch

  // ---------------------------------------------------------------------
  // Burg selection and totals

  /** The burgs the allocator serves: a real id, neither removed nor flying. */
  predicate Served(b: Burg) {
    b.i != 0 && !b.removed && !b.flying
  }

  /** The number of cells a burg asks for; 0 for burgs that are not served. */
  function Quota(b: Burg, o: Options): nat {
    if Served(b) then Required(b.population, o.cellsPerThousand) else 0
  }

  /** The reset pass: a live burg (real id, not removed) starts from zero farmland. */
  function ResetArea(b: Burg): Burg {
    if b.i != 0 && !b.removed then b.(farmlandArea := 0.0) else b
  }

  function ResetAreas(bs: seq<Burg>): (r: seq<Burg>)
    ensures |r| == |bs|
  {
    seq(|bs|, j requires 0 <= j < |bs| => ResetArea(bs[j]))
  }

  /** Total area of the claimed cells. */
  function AreaSum(area: seq<real>, ps: seq<Candidate>): real
    requires CellsIn(ps, |area|)
  {
    if ps == [] then 0.0 else AreaSum(area, ps[..|ps| - 1]) + area[ps[|ps| - 1].cell]
  }

  /** Burg `b` with `a` more farmland. */
  function AddFarmland(b: Burg, a: real): (r: Burg)
    ensures r.farmlandArea == b.farmlandArea + a
    ensures r.i == b.i && r.cell == b.cell && r.population == b.population
    ensures r.removed == b.removed && r.flying == b.flying
  {
    b.(farmlandArea := b.farmlandArea + a)
  }

  /** The burgs after the first `|claims|` of them added their claimed area. */
  function WithFarmland(bs: seq<Burg>, claims: seq<seq<Candidate>>, area: seq<real>): (r: seq<Burg>)
    requires |claims| <= |bs| && forall j :: 0 <= j < |claims| ==> CellsIn(claims[j], |area|)
    ensures |r| == |bs|
  {
    seq(|bs|, j requires 0 <= j < |bs| =>
      if j < |claims| then AddFarmland(bs[j], AreaSum(area, claims[j])) else bs[j])
  }

  // ---------------------------------------------------------------------
  // The per-cell writes of one burg's claims, in claim order

  predicate AllCellsIn(claims: seq<seq<Candidate>>, n: nat) {
    forall j :: 0 <= j < |claims| ==> CellsIn(claims[j], n)
  }

  function MarkTerrain(t: seq<int>, ps: seq<Candidate>): (r: seq<int>)
    requires CellsIn(ps, |t|)
    ensures |r| == |t|
  {
    if ps == [] then t else MarkTerrain(t, ps[..|ps| - 1])[ps[|ps| - 1].cell := Cultivated]
  }

  function MarkBy(owner: seq<int>, ps: seq<Candidate>, id: int): (r: seq<int>)
    requires CellsIn(ps, |owner|)
    ensures |r| == |owner|
  {
    if ps == [] then owner else MarkBy(owner, ps[..|ps| - 1], id)[ps[|ps| - 1].cell := id]
  }

  function MarkIntensity(v: seq<real>, ps: seq<Candidate>, maxSteps: int): (r: seq<real>)
    requires CellsIn(ps, |v|)
    ensures |r| == |v|
  {
    if ps == [] then v
    else
      var x := ps[|ps| - 1];
      MarkIntensity(v, ps[..|ps| - 1], maxSteps)[x.cell := Intensity(x.fss, x.dist, maxSteps)]
  }

  function MarkClaimed(v: seq<bool>, ps: seq<Candidate>): (r: seq<bool>)
    requires CellsIn(ps, |v|)
    ensures |r| == |v|
  {
    if ps == [] then v else MarkClaimed(v, ps[..|ps| - 1])[ps[|ps| - 1].cell := true]
  }

  // The same writes over all burgs, in burg order.

  function TerrainAfter(t: seq<int>, claims: seq<seq<Candidate>>): (r: seq<int>)
    requires AllCellsIn(claims, |t|)
    ensures |r| == |t|
  {
    if claims == [] then t else MarkTerrain(TerrainAfter(t, claims[..|claims| - 1]), claims[|claims| - 1])
  }

  function ByAfter(owner: seq<int>, claims: seq<seq<Candidate>>, bs: seq<Burg>): (r: seq<int>)
    requires AllCellsIn(claims, |owner|) && |claims| <= |bs|
    ensures |r| == |owner|
  {
    if claims == [] then owner
    else MarkBy(ByAfter(owner, claims[..|claims| - 1], bs), claims[|claims| - 1], bs[|claims| - 1].i)
  }

  function IntensityAfter(v: seq<real>, claims: seq<seq<Candidate>>, maxSteps: int): (r: seq<real>)
    requires AllCellsIn(claims, |v|)
    ensures |r| == |v|
  {
    if claims == [] then v
    else MarkIntensity(IntensityAfter(v, claims[..|claims| - 1], maxSteps), claims[|claims| - 1], maxSteps)
  }

  /** `visitedGlobal` after the given burgs' claims. */
  function ClaimedAfter(n: nat, claims: seq<seq<Candidate>>): (r: seq<bool>)
    requires AllCellsIn(claims, n)
    ensures |r| == n
  {
    if claims == [] then seq(n, _ => false)
    else MarkClaimed(ClaimedAfter(n, claims[..|claims| - 1]), claims[|claims| - 1])
  }

  lemma SortedCellsIn(cs: seq<Candidate>, n: nat)
    requires CellsIn(cs, n)
    ensures CellsIn(SortByScore(cs), n)
  {
    var r := SortByScore(cs);
    SortByScoreSorted(cs);
    forall k | 0 <= k < |r| ensures r[k].cell < n {
      assert r[k] in multiset(cs);
    }
  }

  /**
   * The allocation of the first `|claims|` burgs of `bs` (after the reset
   * pass), from the terrain `t` the run starts with: the allocation of the
   * burgs before the last one, then the last burg's part, which is searched
   * on `t` and picked with the cells claimed by the earlier burgs blocked.
   */
  ghost predicate IsAllocation(cells: Mesh, t: seq<int>, surf: Option<Surfaces>, o: Options, bs: seq<Burg>,
                               candidates: seq<seq<Candidate>>, claims: seq<seq<Candidate>>)
    requires cells.Valid() && |t| == cells.Size() && SurfacesFit(surf, cells.Size())
    decreases |claims|
  {
    && |candidates| == |claims| <= |bs|
    && AllCellsIn(candidates, cells.Size()) && AllCellsIn(claims, cells.Size())
    && (claims != [] ==>
          var j := |claims| - 1;
          && IsAllocation(cells, t, surf, o, bs, candidates[..j], claims[..j])
          && BurgAllocation(cells, t, surf, o, bs[j], candidates[j], claims[..j], claims[j]))
  }

  /** One burg's part of the allocation, given the claims of the burgs before it. */
  ghost predicate BurgAllocation(cells: Mesh, t: seq<int>, surf: Option<Surfaces>, o: Options, b: Burg,
                                 cands: seq<Candidate>, before: seq<seq<Candidate>>, picked: seq<Candidate>)
    requires cells.Valid() && |t| == cells.Size() && SurfacesFit(surf, cells.Size())
  {
    && CellsIn(cands, cells.Size()) && AllCellsIn(before, cells.Size())
    && (Quota(b, o) > 0 ==> b.cell < cells.Size() && IsCandidateList(cells, t, surf, o, b.cell, cands))
    && (Quota(b, o) == 0 ==> cands == [])
    && (SortedCellsIn(cands, cells.Size());
        picked == Pick(SortByScore(cands), Quota(b, o), ClaimedAfter(cells.Size(), before), t))
  }

  // ---------------------------------------------------------------------
  // Facts about the writes

  lemma {:induction false} PickMembers(s: seq<Candidate>, quota: int, claimed: seq<bool>, t: seq<int>)
    requires CellsIn(s, |claimed|) && |t| == |claimed|
    ensures forall x :: x in Pick(s, quota, claimed, t) ==> x in s
    ensures CellsIn(Pick(s, quota, claimed, t), |claimed|)
  {
    if s != [] && quota > 0 {
      if claimed[s[0].cell] || t[s[0].cell] == Wetland {
        PickMembers(s[1..], quota, claimed, t);
      } else {
        PickMembers(s[1..], quota - 1, claimed[s[0].cell := true], t);
      }
    }
  }

  /** The walk reads the terrain only at cells not yet claimed. */
  lemma {:induction false} PickReadsUnclaimedTerrain(s: seq<Candidate>, quota: int, claimed: seq<bool>, t1: seq<int>, t2: seq<int>)
    requires CellsIn(s, |claimed|) && |t1| == |claimed| && |t2| == |claimed|
    requires forall c :: 0 <= c < |claimed| && !claimed[c] ==> t1[c] == t2[c]
    ensures Pick(s, quota, claimed, t1) == Pick(s, quota, claimed, t2)
  {
    if s != [] && quota > 0 {
      if claimed[s[0].cell] || t1[s[0].cell] == Wetland {
        PickReadsUnclaimedTerrain(s[1..], quota, claimed, t1, t2);
      } else {
        PickReadsUnclaimedTerrain(s[1..], quota - 1, claimed[s[0].cell := true], t1, t2);
      }
    }
  }

  lemma {:induction false} MarkClaimedGrows(v: seq<bool>, ps: seq<Candidate>, c: nat)
    requires CellsIn(ps, |v|) && c < |v| && v[c]
    ensures MarkClaimed(v, ps)[c]
  {
    if ps != [] {
      MarkClaimedGrows(v, ps[..|ps| - 1], c);
    }
  }

  /** A cell left unclaimed by a burg's claims keeps its terrain. */
  lemma {:induction false} MarkTerrainOff(t: seq<int>, v: seq<bool>, ps: seq<Candidate>, c: nat)
    requires CellsIn(ps, |t|) && |v| == |t| && c < |t| && !MarkClaimed(v, ps)[c]
    ensures MarkTerrain(t, ps)[c] == t[c]
  {
    if ps != [] {
      MarkTerrainOff(t, v, ps[..|ps| - 1], c);
    }
  }

  /** A cell no burg claimed keeps the terrain the run started from. */
  lemma {:induction false} TerrainAfterOff(t: seq<int>, claims: seq<seq<Candidate>>, c: nat)
    requires AllCellsIn(claims, |t|) && c < |t| && !ClaimedAfter(|t|, claims)[c]
    ensures TerrainAfter(t, claims)[c] == t[c]
  {
    if claims != [] {
      var before := claims[..|claims| - 1];
      var last := claims[|claims| - 1];
      if ClaimedAfter(|t|, before)[c] {
        MarkClaimedGrows(ClaimedAfter(|t|, before), last, c);
      }
      MarkTerrainOff(TerrainAfter(t, before), ClaimedAfter(|t|, before), last, c);
      TerrainAfterOff(t, before, c);
    }
  }

  /** Turning farmable cells into cultivated ones leaves the set of disallowed cells as it was. */
  lemma {:induction false} MarkTerrainKeepsDisallowed(t: seq<int>, ps: seq<Candidate>)
    requires CellsIn(ps, |t|)
    requires forall k :: 0 <= k < |ps| ==> !Disallowed(t[ps[k].cell])
    ensures forall c :: 0 <= c < |t| ==> (Disallowed(MarkTerrain(t, ps)[c]) <==> Disallowed(t[c]))
  {
    if ps != [] {
      MarkTerrainKeepsDisallowed(t, ps[..|ps| - 1]);
    }
  }

  /** The candidate contract reads the terrain only through the disallowed test. */
  lemma CandidateListSameDisallowed(cells: Mesh, t1: seq<int>, t2: seq<int>, surf: Option<Surfaces>, o: Options,
                                    start: nat, cs: seq<Candidate>)
    requires cells.Valid() && |t1| == cells.Size() && |t2| == cells.Size() && SurfacesFit(surf, cells.Size())
    requires forall c :: 0 <= c < cells.Size() ==> (Disallowed(t1[c]) <==> Disallowed(t2[c]))
    requires IsCandidateList(cells, t1, surf, o, start, cs)
    ensures IsCandidateList(cells, t2, surf, o, start, cs)
  {
    assert forall c :: 0 <= c < cells.Size() ==>
      (Eligible(cells, t1, surf, o, c) <==> Eligible(cells, t2, surf, o, c));
  }

  // ---------------------------------------------------------------------
  // The allocator

  /** `cultivatedBy` as the run starts: kept when it fits the mesh, otherwise fresh zeros. */
  function OwnersAtStart(v: seq<int>, n: nat): (r: seq<int>)
    ensures |r| == n
  {
    if |v| == n then v else seq(n, _ => 0)
  }

  /** `cultivatedIntensity` as the run starts: kept when it fits the mesh, otherwise fresh zeros. */
  function IntensityAtStart(v: seq<real>, n: nat): (r: seq<real>)
    ensures |r| == n
  {
    if |v| == n then v else seq(n, _ => 0.0)
  }

  /** The reset loop over `pack.burgs`. */
  method ResetBurgAreas(pack: Pack)
    requires pack.Valid()
    modifies pack`burgs
    ensures pack.burgs == ResetAreas(old(pack.burgs)) && pack.Valid()
  {
    ghost var bs := pack.burgs;
    for j := 0 to |pack.burgs|
      invariant |pack.burgs| == |bs|
      invariant forall k :: 0 <= k < |bs| ==> pack.burgs[k] == if k < j then ResetArea(bs[k]) else bs[k]
    {
      var b := pack.burgs[j];
      if b.i != 0 && !b.removed {
        pack.burgs := pack.burgs[j := b.(farmlandArea := 0.0)];
      }
    }
  }

  /** The greedy pick read from position `k`, one candidate further when `s[k]` is skipped. */
  lemma PickSkip(s: seq<Candidate>, k: nat, quota: int, taken: int, claimed: seq<bool>, t: seq<int>,
                 whole: seq<Candidate>, picked: seq<Candidate>)
    requires CellsIn(s, |claimed|) && |t| == |claimed| && k < |s| && taken < quota
    requires claimed[s[k].cell] || t[s[k].cell] == Wetland
    requires whole == picked + Pick(s[k..], quota - taken, claimed, t)
    ensures CellsIn(s[k + 1..], |claimed|)
    ensures whole == picked + Pick(s[k + 1..], quota - taken, claimed, t)
  {
    assert s[k..][1..] == s[k + 1..];
  }

  /** The greedy pick read from position `k`, one candidate further when `s[k]` is taken. */
  lemma PickTake(s: seq<Candidate>, k: nat, quota: int, taken: int, claimed: seq<bool>, t: seq<int>,
                 whole: seq<Candidate>, picked: seq<Candidate>)
    requires CellsIn(s, |claimed|) && |t| == |claimed| && k < |s| && taken < quota
    requires !claimed[s[k].cell] && t[s[k].cell] != Wetland
    requires whole == picked + Pick(s[k..], quota - taken, claimed, t)
    ensures CellsIn(s[k + 1..], |claimed|)
    ensures whole == (picked + [s[k]]) + Pick(s[k + 1..], quota - (taken + 1), claimed[s[k].cell := true], t)
  {
    assert s[k..][1..] == s[k + 1..];
    var rest := Pick(s[k + 1..], quota - (taken + 1), claimed[s[k].cell := true], t);
    assert Pick(s[k..], quota - taken, claimed, t) == [s[k]] + rest;
    assert picked + ([s[k]] + rest) == (picked + [s[k]]) + rest;
  }

  /** The writes of the claim loop so far are those of the candidates `picked`. */
  ghost predicate Claimed(t0: seq<int>, owners0: seq<int>, intensity0: seq<real>, claimed0: seq<bool>, area: seq<real>,
                          farmland0: real, id: int, maxSteps: int, picked: seq<Candidate>,
                          terrain: seq<int>, owners: seq<int>, intensity: seq<real>, claimed: seq<bool>, farmland: real)
    requires |owners0| == |t0| && |intensity0| == |t0| && |claimed0| == |t0| && |area| == |t0|
  {
    && CellsIn(picked, |t0|)
    && terrain == MarkTerrain(t0, picked)
    && owners == MarkBy(owners0, picked, id)
    && intensity == MarkIntensity(intensity0, picked, maxSteps)
    && claimed == MarkClaimed(claimed0, picked)
    && farmland == farmland0 + AreaSum(area, picked)
  }

  /** Taking `x` after `picked`: every write of the claim loop, one cell further. */
  lemma ClaimedTake(t0: seq<int>, owners0: seq<int>, intensity0: seq<real>, claimed0: seq<bool>, area: seq<real>,
                    farmland0: real, id: int, maxSteps: int, picked: seq<Candidate>,
                    terrain: seq<int>, owners: seq<int>, intensity: seq<real>, claimed: seq<bool>, farmland: real,
                    x: Candidate)
    requires |owners0| == |t0| && |intensity0| == |t0| && |claimed0| == |t0| && |area| == |t0| && x.cell < |t0|
    requires Claimed(t0, owners0, intensity0, claimed0, area, farmland0, id, maxSteps, picked,
                     terrain, owners, intensity, claimed, farmland)
    ensures Claimed(t0, owners0, intensity0, claimed0, area, farmland0, id, maxSteps, picked + [x],
                    terrain[x.cell := Cultivated], owners[x.cell := id],
                    intensity[x.cell := Intensity(x.fss, x.dist, maxSteps)], claimed[x.cell := true],
                    farmland + area[x.cell])
  {
    assert (picked + [x])[..|picked|] == picked;
  }

  /**
   * The claim loop of one burg over its sorted candidates: while fewer than
   * `quota` cells are taken, skip cells claimed earlier in the run and
   * wetlands, and mark each taken cell cultivated, owned by burg `id`, with
   * its intensity, adding its area to the burg's farmland. The result is
   * the greedy pick, and the arrays carry exactly its writes.
   */
  method ClaimLoop(sorted: seq<Candidate>, quota: nat, maxSteps: int, id: int, area: seq<real>,
                   claimed: seq<bool>, terrain: seq<int>, owners: seq<int>, intensity: seq<real>, farmland: real)
    returns (claimed': seq<bool>, terrain': seq<int>, owners': seq<int>, intensity': seq<real>, farmland': real,
             ghost picked: seq<Candidate>)
    requires CellsIn(sorted, |terrain|)
    requires |owners| == |terrain| && |intensity| == |terrain| && |claimed| == |terrain| && |area| == |terrain|
    ensures picked == Pick(sorted, quota, claimed, terrain)
    ensures Claimed(terrain, owners, intensity, claimed, area, farmland, id, maxSteps, picked,
                    terrain', owners', intensity', claimed', farmland')
  {
    ghost var whole := Pick(sorted, quota, claimed, terrain);
    claimed', terrain', owners', intensity', farmland', picked := claimed, terrain, owners, intensity, farmland, [];
    var taken := 0;
    var k := 0;
    while k < |sorted| && taken < quota
      invariant 0 <= k <= |sorted| && 0 <= taken <= quota && |claimed'| == |claimed|
      invariant |picked| == taken && CellsIn(sorted[k..], |claimed|)
      invariant Claimed(terrain, owners, intensity, claimed, area, farmland, id, maxSteps, picked,
                        terrain', owners', intensity', claimed', farmland')
      invariant whole == picked + Pick(sorted[k..], quota - taken, claimed', terrain)
    {
      var i := sorted[k].cell;
      if claimed'[i] {
        PickSkip(sorted, k, quota, taken, claimed', terrain, whole, picked);
      } else {
        MarkTerrainOff(terrain, claimed, picked, i);
        if terrain'[i] == Wetland {
          PickSkip(sorted, k, quota, taken, claimed', terrain, whole, picked);
        } else {
          PickTake(sorted, k, quota, taken, claimed', terrain, whole, picked);
          ClaimedTake(terrain, owners, intensity, claimed, area, farmland, id, maxSteps, picked,
                      terrain', owners', intensity', claimed', farmland', sorted[k]);
          terrain' := terrain'[i := Cultivated];
          intensity' := intensity'[i := Intensity(sorted[k].fss, sorted[k].dist, maxSteps)];
          owners' := owners'[i := id];
          claimed' := claimed'[i := true];
          taken := taken + 1;
          farmland' := farmland' + area[i];
          picked := picked + [sorted[k]];
        }
      }
      k := k + 1;
    }
  }

  /** The claim loop run on burg `j` and the cell arrays of `pack`. */
  method ClaimCells(pack: Pack, j: nat, sorted: seq<Candidate>, quota: nat, o: Options, claimed: seq<bool>)
    returns (claimed': seq<bool>, ghost picked: seq<Candidate>)
    requires j < |pack.burgs| && |pack.cells.area| == |claimed| && CellsIn(sorted, |claimed|)
    requires |pack.terrain| == |claimed| && |pack.cultivatedIntensity| == |claimed| && |pack.cultivatedBy| == |claimed|
    modifies pack`terrain, pack`cultivatedIntensity, pack`cultivatedBy, pack`burgs
    ensures CellsIn(picked, |claimed|)
    ensures picked == Pick(sorted, quota, claimed, old(pack.terrain))
    ensures pack.terrain == MarkTerrain(old(pack.terrain), picked)
    ensures pack.cultivatedBy == MarkBy(old(pack.cultivatedBy), picked, old(pack.burgs[j]).i)
    ensures pack.cultivatedIntensity == MarkIntensity(old(pack.cultivatedIntensity), picked, o.maxSteps)
    ensures claimed' == MarkClaimed(claimed, picked)
    ensures pack.burgs == old(pack.burgs)[j := AddFarmland(old(pack.burgs[j]), AreaSum(pack.cells.area, picked))]
  {
    var b := pack.burgs[j];
    var terrain, owners, intensity, farmland;
    claimed', terrain, owners, intensity, farmland, picked :=
      ClaimLoop(sorted, quota, o.maxSteps, b.i, pack.cells.area,
                claimed, pack.terrain, pack.cultivatedBy, pack.cultivatedIntensity, b.farmlandArea);
    pack.terrain, pack.cultivatedIntensity, pack.cultivatedBy := terrain, intensity, owners;
    pack.burgs := pack.burgs[j := b.(farmlandArea := farmland)];
    assert pack.burgs[j] == AddFarmland(b, AreaSum(pack.cells.area, picked));
  }

  /**
   * One iteration of the burg loop for burg `j`: a burg that is not served or
   * whose quota rounds to 0 is skipped; otherwise its candidates are
   * searched around its cell, sorted by score, and claimed greedily.
   */
  method ServeBurg(pack: Pack, j: nat, o: Options, claimed: seq<bool>)
    returns (claimed': seq<bool>, cands: seq<Candidate>, ghost picked: seq<Candidate>)
    requires pack.Valid() && j < |pack.burgs|
    requires |pack.terrain| == pack.cells.Size() && |pack.cultivatedIntensity| == pack.cells.Size()
    requires |pack.cultivatedBy| == pack.cells.Size() && |claimed| == pack.cells.Size()
    modifies pack`terrain, pack`cultivatedIntensity, pack`cultivatedBy, pack`burgs
    ensures pack.Valid() && CellsIn(picked, pack.cells.Size())
    ensures BurgAllocationFrom(pack.cells, old(pack.terrain), pack.terrainSurfaces, o, old(pack.burgs[j]), cands, claimed, picked)
    ensures pack.terrain == MarkTerrain(old(pack.terrain), picked)
    ensures pack.cultivatedBy == MarkBy(old(pack.cultivatedBy), picked, old(pack.burgs[j]).i)
    ensures pack.cultivatedIntensity == MarkIntensity(old(pack.cultivatedIntensity), picked, o.maxSteps)
    ensures claimed' == MarkClaimed(claimed, picked)
    ensures pack.burgs == old(pack.burgs)[j := AddFarmland(old(pack.burgs[j]), AreaSum(pack.cells.area, picked))]
  {
    var b := pack.burgs[j];
    cands, picked, claimed' := [], [], claimed;
    if !Served(b) || Required(b.population, o.cellsPerThousand) == 0 {
      assert AddFarmland(b, AreaSum(pack.cells.area, picked)) == b;
      assert pack.burgs[j := b] == pack.burgs;
      return;
    }
    var required := Required(b.population, o.cellsPerThousand);
    cands := GatherCandidates(pack.cells, pack.terrain, pack.terrainSurfaces, o, b.cell);
    var sorted := SortByScore(cands);
    SortedCellsIn(cands, pack.cells.Size());
    claimed', picked := ClaimCells(pack, j, sorted, required, o, claimed);
  }

  /** `BurgAllocation` for a burg served against an explicit claimed-cell mask. */
  ghost predicate BurgAllocationFrom(cells: Mesh, t: seq<int>, surf: Option<Surfaces>, o: Options, b: Burg,
                                     cands: seq<Candidate>, claimed: seq<bool>, picked: seq<Candidate>)
    requires cells.Valid() && |t| == cells.Size() && SurfacesFit(surf, cells.Size()) && |claimed| == cells.Size()
  {
    && CellsIn(cands, cells.Size())
    && (Quota(b, o) > 0 ==> b.cell < cells.Size() && IsCandidateList(cells, t, surf, o, b.cell, cands))
    && (Quota(b, o) == 0 ==> cands == [])
    && (SortedCellsIn(cands, cells.Size());
        picked == Pick(SortByScore(cands), Quota(b, o), claimed, t))
  }

  // ---------------------------------------------------------------------
  // One burg at a time: the loop of `allocate` keeps the allocation so far

  /** The cells a burg takes were farmable (not disallowed) on the terrain it searched. */
  lemma PickedAreFarmable(cells: Mesh, t: seq<int>, surf: Option<Surfaces>, o: Options, b: Burg,
                          cands: seq<Candidate>, claimed: seq<bool>, picked: seq<Candidate>)
    requires cells.Valid() && |t| == cells.Size() && SurfacesFit(surf, cells.Size()) && |claimed| == cells.Size()
    requires BurgAllocationFrom(cells, t, surf, o, b, cands, claimed, picked)
    ensures CellsIn(picked, cells.Size())
    ensures forall k :: 0 <= k < |picked| ==> !Disallowed(t[picked[k].cell])
  {
    SortedCellsIn(cands, cells.Size());
    var sorted := SortByScore(cands);
    SortByScoreSorted(cands);
    PickMembers(sorted, Quota(b, o), claimed, t);
    if Quota(b, o) == 0 {
      assert picked == [];
    } else {
      forall k | 0 <= k < |picked| ensures !Disallowed(t[picked[k].cell]) {
        assert picked[k] in sorted;
        assert picked[k] in multiset(cands);
        var m :| 0 <= m < |cands| && cands[m] == picked[k];
        assert Eligible(cells, t, surf, o, cands[m].cell);
      }
    }
  }

  /**
   * A burg served on the terrain left by the earlier burgs did what it
   * would have done on the starting terrain: the search only tells
   * disallowed cells apart, which claiming does not change, and the pick
   * only reads the terrain of cells nobody has claimed yet.
   */
  lemma ServedOnStartTerrain(cells: Mesh, t0: seq<int>, surf: Option<Surfaces>, o: Options, b: Burg,
                             claims: seq<seq<Candidate>>, cands: seq<Candidate>, picked: seq<Candidate>)
    requires cells.Valid() && |t0| == cells.Size() && SurfacesFit(surf, cells.Size()) && AllCellsIn(claims, cells.Size())
    requires forall c :: 0 <= c < cells.Size() ==> (Disallowed(TerrainAfter(t0, claims)[c]) <==> Disallowed(t0[c]))
    requires BurgAllocationFrom(cells, TerrainAfter(t0, claims), surf, o, b, cands, ClaimedAfter(cells.Size(), claims), picked)
    ensures BurgAllocation(cells, t0, surf, o, b, cands, claims, picked)
  {
    var n := cells.Size();
    var t := TerrainAfter(t0, claims);
    var claimed := ClaimedAfter(n, claims);
    if Quota(b, o) > 0 {
      CandidateListSameDisallowed(cells, t, t0, surf, o, b.cell, cands);
    }
    SortedCellsIn(cands, n);
    forall c | 0 <= c < n && !claimed[c] ensures t[c] == t0[c] {
      TerrainAfterOff(t0, claims, c);
    }
    PickReadsUnclaimedTerrain(SortByScore(cands), Quota(b, o), claimed, t, t0);
  }

  /** The allocation so far, followed by the next burg's part, is the allocation one burg further. */
  lemma AllocationExtend(cells: Mesh, t0: seq<int>, surf: Option<Surfaces>, o: Options, bs: seq<Burg>,
                         candidates: seq<seq<Candidate>>, claims: seq<seq<Candidate>>,
                         cands: seq<Candidate>, picked: seq<Candidate>)
    requires cells.Valid() && |t0| == cells.Size() && SurfacesFit(surf, cells.Size())
    requires IsAllocation(cells, t0, surf, o, bs, candidates, claims) && |claims| < |bs|
    requires CellsIn(picked, cells.Size())
    requires BurgAllocation(cells, t0, surf, o, bs[|claims|], cands, claims, picked)
    ensures IsAllocation(cells, t0, surf, o, bs, candidates + [cands], claims + [picked])
  {
    assert (claims + [picked])[..|claims|] == claims && (candidates + [cands])[..|claims|] == candidates;
  }

  /** Claiming a burg's cells keeps the disallowed cells those of the starting terrain. */
  lemma DisallowedKept(cells: Mesh, t0: seq<int>, surf: Option<Surfaces>, o: Options, b: Burg,
                       claims: seq<seq<Candidate>>, cands: seq<Candidate>, picked: seq<Candidate>)
    requires cells.Valid() && |t0| == cells.Size() && SurfacesFit(surf, cells.Size()) && AllCellsIn(claims, cells.Size())
    requires forall c :: 0 <= c < cells.Size() ==> (Disallowed(TerrainAfter(t0, claims)[c]) <==> Disallowed(t0[c]))
    requires BurgAllocationFrom(cells, TerrainAfter(t0, claims), surf, o, b, cands, ClaimedAfter(cells.Size(), claims), picked)
    ensures CellsIn(picked, cells.Size())
    ensures forall c :: 0 <= c < cells.Size() ==>
              (Disallowed(MarkTerrain(TerrainAfter(t0, claims), picked)[c]) <==> Disallowed(t0[c]))
  {
    var t := TerrainAfter(t0, claims);
    PickedAreFarmable(cells, t, surf, o, b, cands, ClaimedAfter(cells.Size(), claims), picked);
    MarkTerrainKeepsDisallowed(t, picked);
  }

  /** Appending one burg's claims to the run-wide writes. */
  lemma AfterAppend(t: seq<int>, owners: seq<int>, intensity: seq<real>, area: seq<real>, bs: seq<Burg>,
                    claims: seq<seq<Candidate>>, picked: seq<Candidate>, maxSteps: int)
    requires |owners| == |t| && |intensity| == |t| && |area| == |t| && |claims| < |bs|
    requires AllCellsIn(claims, |t|) && CellsIn(picked, |t|)
    ensures AllCellsIn(claims + [picked], |t|)
    ensures TerrainAfter(t, claims + [picked]) == MarkTerrain(TerrainAfter(t, claims), picked)
    ensures ByAfter(owners, claims + [picked], bs) == MarkBy(ByAfter(owners, claims, bs), picked, bs[|claims|].i)
    ensures IntensityAfter(intensity, claims + [picked], maxSteps) == MarkIntensity(IntensityAfter(intensity, claims, maxSteps), picked, maxSteps)
    ensures ClaimedAfter(|t|, claims + [picked]) == MarkClaimed(ClaimedAfter(|t|, claims), picked)
    ensures WithFarmland(bs, claims + [picked], area) ==
            WithFarmland(bs, claims, area)[|claims| := AddFarmland(bs[|claims|], AreaSum(area, picked))]
  {
    assert (claims + [picked])[..|claims|] == claims;
  }

  // ---------------------------------------------------------------------
  // Aggregation by state

  /** The reset pass over states: a live state (real id, not removed) starts from zero. */
  function ResetState(s: State): State {
    if s.i != 0 && !s.removed then s.(cultivatedArea := 0.0, cultivatedPerCapita := 0.0) else s
  }

  /** Total area of the cultivated cells among the first `m` whose owning state is `st`. */
  function CultivatedArea(cells: Mesh, terrain: seq<int>, st: nat, m: nat): real
    requires cells.Valid() && |terrain| == cells.Size() && m <= cells.Size()
  {
    if m == 0 then 0.0
    else
      CultivatedArea(cells, terrain, st, m - 1)
      + (if terrain[m - 1] == Cultivated && cells.state[m - 1] == st then cells.area[m - 1] else 0.0)
  }

  /** The accumulation pass adds a state's cultivated area unless the state is removed. */
  function Accumulate(s: State, a: real): State {
    if s.removed then s else s.(cultivatedArea := s.cultivatedArea + a)
  }

  /** The per-capita pass: area over population for a kept state with people and farmland. */
  function PerCapita(s: State): State {
    if !s.removed && s.population > 0.0 && s.cultivatedArea != 0.0 then
      s.(cultivatedPerCapita := s.cultivatedArea / s.population)
    else s
  }

  /** The states after the aggregation passes over the final terrain. */
  function AggregatedStates(states: seq<State>, cells: Mesh, terrain: seq<int>): (r: seq<State>)
    requires cells.Valid() && |terrain| == cells.Size()
    ensures |r| == |states|
  {
    seq(|states|, st requires 0 <= st < |states| =>
      PerCapita(Accumulate(ResetState(states[st]), CultivatedArea(cells, terrain, st, cells.Size()))))
  }

  /**
   * What aggregation leaves in each state: removed states are untouched; a
   * live state holds exactly the area of the cultivated cells it owns; the
   * neutral entry (id 0) is not reset, so that area is added to what it held
   * before; per-capita figures come from the per-capita pass.
   */
  lemma AggregatedStatesMeaning(states: seq<State>, cells: Mesh, terrain: seq<int>, st: nat)
    requires cells.Valid() && |terrain| == cells.Size() && st < |states|
    ensures var r := AggregatedStates(states, cells, terrain)[st];
      && r.i == states[st].i && r.removed == states[st].removed && r.population == states[st].population
      && (states[st].removed ==> r == states[st])
      && (states[st].i != 0 && !states[st].removed ==>
            r.cultivatedArea == CultivatedArea(cells, terrain, st, cells.Size()))
      && (states[st].i == 0 && !states[st].removed ==>
            r.cultivatedArea == states[st].cultivatedArea + CultivatedArea(cells, terrain, st, cells.Size()))
  {
  }

  /** A kept state with people and farmland gets its farmland per head; any other is left as it is. */
  lemma PerCapitaMeaning(s: State)
    ensures var r := PerCapita(s);
      && r.i == s.i && r.removed == s.removed && r.population == s.population
      && r.cultivatedArea == s.cultivatedArea
      && (!s.removed && s.population > 0.0 && s.cultivatedArea != 0.0 ==>
            r.cultivatedPerCapita * s.population == s.cultivatedArea)
      && (s.removed || s.population <= 0.0 || s.cultivatedArea == 0.0 ==> r == s)
  {
  }

  /** The three passes over `pack.states`: reset, accumulate per cultivated cell, per capita. */
  method AggregateStates(pack: Pack)
    requires pack.Valid() && |pack.terrain| == pack.cells.Size()
    modifies pack`states
    ensures pack.states == AggregatedStates(old(pack.states), pack.cells, pack.terrain)
  {
    var cells := pack.cells;
    var states := pack.states;
    for s := 0 to |states|
      invariant |states| == |pack.states|
      invariant forall k :: 0 <= k < |states| ==> states[k] == if k < s then ResetState(pack.states[k]) else pack.states[k]
    {
      if states[s].i != 0 && !states[s].removed {
        states := states[s := states[s].(cultivatedArea := 0.0, cultivatedPerCapita := 0.0)];
      }
    }
    ghost var reset := states;
    for i := 0 to cells.Size()
      invariant |states| == |reset|
      invariant forall st :: 0 <= st < |states| ==> states[st] == Accumulate(reset[st], CultivatedArea(cells, pack.terrain, st, i))
    {
      if pack.terrain[i] != Cultivated {
        continue;
      }
      var st := cells.state[i];
      if st >= |states| || states[st].removed {
        continue;
      }
      states := states[st := states[st].(cultivatedArea := states[st].cultivatedArea + cells.area[i])];
    }
    for s := 0 to |states|
      invariant |states| == |reset|
      invariant forall k :: 0 <= k < |states| ==>
        states[k] == (var a := Accumulate(reset[k], CultivatedArea(cells, pack.terrain, k, cells.Size()));
                      if k < s then PerCapita(a) else a)
    {
      if states[s].removed {
        continue;
      }
      var pop := states[s].population;
      if pop > 0.0 && states[s].cultivatedArea != 0.0 {
        states := states[s := states[s].(cultivatedPerCapita := states[s].cultivatedArea / pop)];
      }
    }
    pack.states := states;
  }

  // ---------------------------------------------------------------------
  // The whole run

  /**
   * The state of the burg loop after the burgs whose claims are `claims`:
   * the allocation so far from the starting terrain `t0`, the claimed mask
   * and the arrays and burgs carrying exactly its writes, and the disallowed
   * cells those of `t0`.
   */
  ghost predicate Progress(cells: Mesh, t0: seq<int>, owners0: seq<int>, intensity0: seq<real>, surf: Option<Surfaces>,
                           o: Options, bs: seq<Burg>, candidates: seq<seq<Candidate>>, claims: seq<seq<Candidate>>,
                           claimed: seq<bool>, terrain: seq<int>, owners: seq<int>, intensity: seq<real>, burgs: seq<Burg>)
    requires cells.Valid() && |t0| == cells.Size() && SurfacesFit(surf, cells.Size())
    requires |owners0| == cells.Size() && |intensity0| == cells.Size()
  {
    && IsAllocation(cells, t0, surf, o, bs, candidates, claims)
    && claimed == ClaimedAfter(cells.Size(), claims)
    && terrain == TerrainAfter(t0, claims)
    && owners == ByAfter(owners0, claims, bs)
    && intensity == IntensityAfter(intensity0, claims, o.maxSteps)
    && burgs == WithFarmland(bs, claims, cells.area)
    && (forall c :: 0 <= c < cells.Size() ==> (Disallowed(terrain[c]) <==> Disallowed(t0[c])))
  }

  /** Serving the next burg, as `ServeBurg` does, moves the loop state one burg further. */
  lemma ProgressStep(cells: Mesh, t0: seq<int>, owners0: seq<int>, intensity0: seq<real>, surf: Option<Surfaces>,
                     o: Options, bs: seq<Burg>, candidates: seq<seq<Candidate>>, claims: seq<seq<Candidate>>,
                     claimed: seq<bool>, terrain: seq<int>, owners: seq<int>, intensity: seq<real>, burgs: seq<Burg>,
                     cands: seq<Candidate>, picked: seq<Candidate>)
    requires cells.Valid() && |t0| == cells.Size() && SurfacesFit(surf, cells.Size())
    requires |owners0| == cells.Size() && |intensity0| == cells.Size()
    requires Progress(cells, t0, owners0, intensity0, surf, o, bs, candidates, claims, claimed, terrain, owners, intensity, burgs)
    requires |claims| < |bs| && CellsIn(picked, cells.Size())
    requires BurgAllocationFrom(cells, terrain, surf, o, bs[|claims|], cands, claimed, picked)
    ensures Progress(cells, t0, owners0, intensity0, surf, o, bs, candidates + [cands], claims + [picked],
                     MarkClaimed(claimed, picked), MarkTerrain(terrain, picked),
                     MarkBy(owners, picked, bs[|claims|].i), MarkIntensity(intensity, picked, o.maxSteps),
                     burgs[|claims| := AddFarmland(bs[|claims|], AreaSum(cells.area, picked))])
  {
    var b := bs[|claims|];
    DisallowedKept(cells, t0, surf, o, b, claims, cands, picked);
    ServedOnStartTerrain(cells, t0, surf, o, b, claims, cands, picked);
    AllocationExtend(cells, t0, surf, o, bs, candidates, claims, cands, picked);
    AfterAppend(t0, owners0, intensity0, cells.area, bs, claims, picked, o.maxSteps);
  }

  /**
   * The burg passes of `allocate`: reset the burgs' farmland, then serve
   * the burgs in order, with the claimed mask shared across them. The
   * result is the allocation from the terrain the passes start with, and
   * the arrays and burgs carry exactly its writes.
   */
  method ServeBurgs(pack: Pack, o: Options) returns (ghost candidates: seq<seq<Candidate>>, ghost claims: seq<seq<Candidate>>)
    requires pack.Valid()
    requires |pack.terrain| == pack.cells.Size() && |pack.cultivatedBy| == pack.cells.Size()
    requires |pack.cultivatedIntensity| == pack.cells.Size()
    modifies pack`terrain, pack`cultivatedIntensity, pack`cultivatedBy, pack`burgs
    ensures pack.Valid() && |claims| == |pack.burgs|
    ensures IsAllocation(pack.cells, old(pack.terrain), pack.terrainSurfaces, o, ResetAreas(old(pack.burgs)), candidates, claims)
    ensures pack.terrain == TerrainAfter(old(pack.terrain), claims)
    ensures pack.cultivatedBy == ByAfter(old(pack.cultivatedBy), claims, ResetAreas(old(pack.burgs)))
    ensures pack.cultivatedIntensity == IntensityAfter(old(pack.cultivatedIntensity), claims, o.maxSteps)
    ensures pack.burgs == WithFarmland(ResetAreas(old(pack.burgs)), claims, pack.cells.area)
  {
    var n := pack.cells.Size();
    ResetBurgAreas(pack);
    ghost var bs := pack.burgs;
    ghost var t0, owners0, intensity0 := pack.terrain, pack.cultivatedBy, pack.cultivatedIntensity;
    var claimed := seq(n, _ => false);
    candidates, claims := [], [];
    for j := 0 to |pack.burgs|
      invariant pack.Valid() && |pack.burgs| == |bs| && |claims| == j
      invariant |pack.terrain| == n && |pack.cultivatedBy| == n && |pack.cultivatedIntensity| == n
      invariant Progress(pack.cells, t0, owners0, intensity0, pack.terrainSurfaces, o, bs, candidates, claims,
                         claimed, pack.terrain, pack.cultivatedBy, pack.cultivatedIntensity, pack.burgs)
    {
      assert pack.burgs[j] == bs[j];
      ghost var terrain, owners, intensity, burgs := pack.terrain, pack.cultivatedBy, pack.cultivatedIntensity, pack.burgs;
      var claimed', cands, picked := ServeBurg(pack, j, o, claimed);
      ProgressStep(pack.cells, t0, owners0, intensity0, pack.terrainSurfaces, o, bs, candidates, claims,
                   claimed, terrain, owners, intensity, burgs, cands, picked);
      candidates, claims, claimed := candidates + [cands], claims + [picked], claimed';
    }
  }

  /** Per-cell arrays that are missing or of the wrong length are recreated: a copy of the terrain, zeros. */
  method RecreateArrays(pack: Pack)
    requires pack.Valid() && |pack.terrain| == pack.cells.Size()
    modifies pack`terrainBase, pack`cultivatedIntensity, pack`cultivatedBy
    ensures pack.terrainBase == if |old(pack.terrainBase)| == pack.cells.Size() then old(pack.terrainBase) else pack.terrain
    ensures pack.cultivatedIntensity == IntensityAtStart(old(pack.cultivatedIntensity), pack.cells.Size())
    ensures pack.cultivatedBy == OwnersAtStart(old(pack.cultivatedBy), pack.cells.Size())
  {
    var n := pack.cells.Size();
    if |pack.terrainBase| != n {
      pack.terrainBase := pack.terrain;
    }
    if |pack.cultivatedIntensity| != n {
      pack.cultivatedIntensity := seq(n, _ => 0.0);
    }
    if |pack.cultivatedBy| != n {
      pack.cultivatedBy := seq(n, _ => 0);
    }
  }

  /**
   * `allocate`: recreate the per-cell arrays that are missing or of the
   * wrong length, reset the burgs' farmland, serve the burgs in order with
   * the claimed mask shared across them, then aggregate by state. The
   * result is the allocation from the starting terrain, and the arrays,
   * burgs and states carry exactly its writes.
   */
  method Allocate(pack: Pack, o: Options) returns (ghost candidates: seq<seq<Candidate>>, ghost claims: seq<seq<Candidate>>)
    requires pack.Valid() && |pack.terrain| == pack.cells.Size()
    modifies pack`terrainBase, pack`cultivatedIntensity, pack`cultivatedBy, pack`terrain, pack`burgs, pack`states
    ensures pack.Valid() && |claims| == |pack.burgs| && AllCellsIn(claims, pack.cells.Size())
    ensures pack.terrainBase == if |old(pack.terrainBase)| == pack.cells.Size() then old(pack.terrainBase) else old(pack.terrain)
    ensures IsAllocation(pack.cells, old(pack.terrain), pack.terrainSurfaces, o, ResetAreas(old(pack.burgs)), candidates, claims)
    ensures pack.terrain == TerrainAfter(old(pack.terrain), claims)
    ensures pack.cultivatedBy == ByAfter(OwnersAtStart(old(pack.cultivatedBy), pack.cells.Size()), claims, ResetAreas(old(pack.burgs)))
    ensures pack.cultivatedIntensity ==
              IntensityAfter(IntensityAtStart(old(pack.cultivatedIntensity), pack.cells.Size()), claims, o.maxSteps)
    ensures pack.burgs == WithFarmland(ResetAreas(old(pack.burgs)), claims, pack.cells.area)
    ensures pack.states == AggregatedStates(old(pack.states), pack.cells, pack.terrain)
  {
    RecreateArrays(pack);
    candidates, claims := ServeBurgs(pack, o);
    AggregateStates(pack);
  }
}
