/**
 * `Terrain.generate` (modules/terrain-generator.js): classify every cell,
 * refine wetlands and dunes, store the surfaces, smooth once, keep the
 * result as the base terrain, then let the farmland allocator turn claimed
 * cells into cultivated land.
 */
module TerrainGenerator {
  import opened Wrappers
  import opened TerrainCodes
  import opened EnvSurfaces
  import opened MapData
  import opened TerrainRules
  import opened TerrainSmoothing
  import Farmland
  import FarmlandAllocator

  /** What the classifier reads for cell `i`: height, lake and ice flags of its grid cell, slope and relief. */
  function InputsAt(cells: Mesh, grid: Grid, s: Surfaces, o: Options, i: nat): CellInputs
    requires cells.Valid() && i < cells.Size() && |s.slope| == cells.Size() && |s.relief| == cells.Size()
  {
    CellInputs(cells.h[i], grid.IsLake(cells.g[i]), grid.IsIce(cells.g[i], o.iceTemp), s.slope[i], s.relief[i])
  }

  /** `s` holds the surfaces of `cells` computed on `grid`. */
  ghost predicate SurfacesOf(cells: Mesh, grid: Grid, s: Surfaces)
    requires cells.Valid()
  {
    && |s.slope| == cells.Size() && |s.relief| == cells.Size() && |s.hydric| == cells.Size()
    && forall i :: 0 <= i < cells.Size() ==>
         && s.slope[i] == SlopeAt(cells.h, cells.c, i)
         && s.relief[i] == ReliefAt(cells.h, cells.c, i)
         && s.hydric[i] == HydricAt(cells.h[i], s.slope[i], Precipitation(grid.prec, cells.g, i), cells.r[i])
  }

  predicate SurfacesSized(cells: Mesh, s: Surfaces) {
    |s.slope| == cells.Size() && |s.relief| == cells.Size() && |s.hydric| == cells.Size()
  }

  /** The terrain after the classification loop. */
  function ClassifiedTerrain(cells: Mesh, grid: Grid, s: Surfaces, o: Options): (r: seq<int>)
    requires cells.Valid() && SurfacesSized(cells, s)
    ensures |r| == cells.Size()
  {
    seq(cells.Size(), i requires 0 <= i < cells.Size() => Classify(InputsAt(cells, grid, s, o, i), o))
  }

  /** The terrain after the wetland loop. */
  function WetlandTerrain(t: seq<int>, s: Surfaces, o: Options): (r: seq<int>)
    requires |s.hydric| == |t|
    ensures |r| == |t|
  {
    seq(|t|, i requires 0 <= i < |t| => WetlandRefine(t[i], s.hydric[i], o))
  }

  /** The terrain after the dune loop, which runs only when the mesh has biomes. */
  function DuneTerrain(t: seq<int>, cells: Mesh, s: Surfaces, o: Options): (r: seq<int>)
    requires cells.Valid() && |t| == cells.Size() && |s.slope| == cells.Size()
    ensures |r| == |t|
  {
    if cells.biome.None? then t
    else seq(|t|, i requires 0 <= i < |t| => DuneRefine(t[i], cells.biome.value[i], s.slope[i], o))
  }

  /** The terrain kept as `terrainBase`: classified, refined, and smoothed once with water and ice excluded. */
  function BaseTerrain(cells: Mesh, grid: Grid, s: Surfaces, o: Options): (r: seq<int>)
    requires cells.Valid() && SurfacesSized(cells, s)
    ensures |r| == cells.Size()
  {
    SmoothRounds(RefinedTerrain(cells, grid, s, o), cells.c, WaterAndIce(), 1)
  }

  // ---------------------------------------------------------------------
  // Properties of the base terrain

  /** The terrain the smoothing pass reads: classified, then refined. */
  function RefinedTerrain(cells: Mesh, grid: Grid, s: Surfaces, o: Options): (r: seq<int>)
    requires cells.Valid() && SurfacesSized(cells, s)
    ensures |r| == cells.Size()
  {
    DuneTerrain(WetlandTerrain(ClassifiedTerrain(cells, grid, s, o), s, o), cells, s, o)
  }

  /** The refinements keep a classified code or turn it into wetland or dunes; they never touch water or ice. */
  lemma RefinedAt(cells: Mesh, grid: Grid, s: Surfaces, o: Options, i: nat)
    requires cells.Valid() && SurfacesSized(cells, s) && i < cells.Size()
    ensures var c := Classify(InputsAt(cells, grid, s, o, i), o);
      var r := RefinedTerrain(cells, grid, s, o)[i];
      && (r == c || r == Wetland || r == Dunes)
      && (IsWaterOrIce(c) ==> r == c)
  {
    var ct := ClassifiedTerrain(cells, grid, s, o);
    var wt := WetlandTerrain(ct, s, o);
    assert ct[i] == Classify(InputsAt(cells, grid, s, o, i), o);
    assert wt[i] == WetlandRefine(ct[i], s.hydric[i], o);
    if cells.biome.Some? {
      assert DuneTerrain(wt, cells, s, o)[i] == DuneRefine(wt[i], cells.biome.value[i], s.slope[i], o);
    }
  }

  /** The base terrain holds the codes 1..9: every terrain code but the cultivated one. */
  lemma BaseTerrainCodes(cells: Mesh, grid: Grid, s: Surfaces, o: Options, i: nat)
    requires cells.Valid() && SurfacesSized(cells, s) && i < cells.Size()
    ensures Ocean <= BaseTerrain(cells, grid, s, o)[i] <= Dunes
  {
    var t := RefinedTerrain(cells, grid, s, o);
    assert SmoothRounds(t, cells.c, WaterAndIce(), 0) == t;
    assert BaseTerrain(cells, grid, s, o) == SmoothPass(t, cells.c, WaterAndIce());
    var nb := NeighboursOf(cells.c, i);
    SmoothedCodeSpec(t, nb, WaterAndIce(), t[i]);
    RefinedAt(cells, grid, s, o, i);
    forall k | 0 <= k < |nb| ensures Ocean <= t[nb[k]] <= Dunes {
      RefinedAt(cells, grid, s, o, nb[k]);
    }
  }

  /**
   * Water and ice are decided by the hard overrides alone: a cell ends up
   * ocean exactly when it is below sea level, lake exactly when it is land
   * on a lake feature, and ice exactly when it is land off lakes at or below
   * the ice temperature; the refinements and the smoothing keep them.
   */
  lemma BaseTerrainWater(cells: Mesh, grid: Grid, s: Surfaces, o: Options, i: nat)
    requires cells.Valid() && SurfacesSized(cells, s) && i < cells.Size()
    ensures var b := BaseTerrain(cells, grid, s, o)[i];
      var g := cells.g[i];
      && (b == Ocean <==> cells.h[i] < LandHeight)
      && (b == Lake <==> cells.h[i] >= LandHeight && grid.IsLake(g))
      && (b == GlacierIce <==> cells.h[i] >= LandHeight && !grid.IsLake(g) && grid.IsIce(g, o.iceTemp))
  {
    var t := RefinedTerrain(cells, grid, s, o);
    assert SmoothRounds(t, cells.c, WaterAndIce(), 0) == t;
    assert BaseTerrain(cells, grid, s, o) == SmoothPass(t, cells.c, WaterAndIce());
    RefinedAt(cells, grid, s, o, i);
    SmoothPassKeepsWater(t, cells.c, i);
  }

  // ---------------------------------------------------------------------
  // The loops

  /** The classification loop, writing `pack.cells.terrain` cell by cell. */
  method ClassifyPass(pack: Pack, grid: Grid, s: Surfaces, o: Options)
    requires pack.Valid() && SurfacesSized(pack.cells, s) && |pack.terrain| == pack.cells.Size()
    modifies pack`terrain
    ensures pack.terrain == ClassifiedTerrain(pack.cells, grid, s, o)
  {
    for i := 0 to pack.cells.Size()
      invariant |pack.terrain| == pack.cells.Size()
      invariant forall j :: 0 <= j < i ==> pack.terrain[j] == Classify(InputsAt(pack.cells, grid, s, o, j), o)
    {
      pack.terrain := pack.terrain[i := Classify(InputsAt(pack.cells, grid, s, o, i), o)];
    }
  }

  /** The wetland loop. */
  method WetlandPass(pack: Pack, s: Surfaces, o: Options)
    requires |s.hydric| == |pack.terrain|
    modifies pack`terrain
    ensures pack.terrain == WetlandTerrain(old(pack.terrain), s, o)
  {
    ghost var t0 := pack.terrain;
    for i := 0 to |pack.terrain|
      invariant |pack.terrain| == |t0|
      invariant forall j :: i <= j < |t0| ==> pack.terrain[j] == t0[j]
      invariant forall j :: 0 <= j < i ==> pack.terrain[j] == WetlandRefine(t0[j], s.hydric[j], o)
    {
      var c := pack.terrain[i];
      if c == Plains || c == Hills || c == Highlands {
        if s.hydric[i] >= o.W1 {
          pack.terrain := pack.terrain[i := Wetland];
        }
      }
    }
  }

  /** The dune loop, skipped when the mesh has no biomes. */
  method DunePass(pack: Pack, s: Surfaces, o: Options)
    requires pack.Valid() && |pack.terrain| == pack.cells.Size() && |s.slope| == pack.cells.Size()
    modifies pack`terrain
    ensures pack.terrain == DuneTerrain(old(pack.terrain), pack.cells, s, o)
  {
    if pack.cells.biome.Some? {
      ghost var t0 := pack.terrain;
      var biome := pack.cells.biome.value;
      for i := 0 to |pack.terrain|
        invariant |pack.terrain| == |t0|
        invariant forall j :: i <= j < |t0| ==> pack.terrain[j] == t0[j]
        invariant forall j :: 0 <= j < i ==> pack.terrain[j] == DuneRefine(t0[j], biome[j], s.slope[j], o)
      {
        var c := pack.terrain[i];
        if c == Plains || c == Highlands {
          var b := biome[i];
          if (b == 1 || b == 2) && s.slope[i] < o.S0 {
            pack.terrain := pack.terrain[i := Dunes];
          }
        }
      }
    }
  }

  /** The per-cell arrays `generate` recreates when missing or of the wrong length, as zeros. */
  function ZerosUnlessSized(v: seq<int>, n: nat): (r: seq<int>)
    ensures |r| == n
    ensures |v| == n ==> r == v
    ensures |v| != n ==> forall i :: 0 <= i < n ==> r[i] == 0
  {
    if |v| == n then v else seq(n, _ => 0)
  }

  /**
   * The terrain part of `generate`: recreate the arrays, compute and store
   * the surfaces, classify, refine and smooth once with ocean, lake and ice
   * excluded.
   */
  method ClassifyTerrain(pack: Pack, grid: Grid, o: Options) returns (s: Surfaces)
    requires pack.Valid()
    modifies pack`terrain, pack`terrainSubtype, pack`terrainSurfaces
    ensures pack.Valid() && SurfacesOf(pack.cells, grid, s) && pack.terrainSurfaces == Some(s)
    ensures pack.terrainSubtype == ZerosUnlessSized(old(pack.terrainSubtype), pack.cells.Size())
    ensures pack.terrain == BaseTerrain(pack.cells, grid, s, o)
  {
    var n := pack.cells.Size();
    if |pack.terrain| != n {
      pack.terrain := seq(n, _ => 0);
    }
    if |pack.terrainSubtype| != n {
      pack.terrainSubtype := seq(n, _ => 0);
    }
    s := Compute(pack.cells.h, pack.cells.c, pack.cells.g, pack.cells.r, grid.prec);
    ClassifyPass(pack, grid, s, o);
    WetlandPass(pack, s, o);
    DunePass(pack, s, o);
    assert pack.terrain == RefinedTerrain(pack.cells, grid, s, o);
    pack.terrainSurfaces := Some(s);
    SmoothTerrain(pack, 1, WaterAndIce());
  }

  /**
   * `generate`: the terrain part, then `terrainBase` as a copy of the
   * smoothed terrain, then the farmland allocator with its default options.
   * The terrain ends as the base terrain with the allocator's claims marked
   * cultivated.
   */
  method Generate(pack: Pack, grid: Grid, o: Options)
    returns (s: Surfaces, ghost candidates: seq<seq<Farmland.Candidate>>, ghost claims: seq<seq<Farmland.Candidate>>)
    requires pack.Valid()
    modifies pack`terrain, pack`terrainSubtype, pack`terrainSurfaces, pack`terrainBase
    modifies pack`cultivatedIntensity, pack`cultivatedBy, pack`burgs, pack`states
    ensures pack.Valid() && SurfacesOf(pack.cells, grid, s) && pack.terrainSurfaces == Some(s)
    ensures pack.terrainSubtype == ZerosUnlessSized(old(pack.terrainSubtype), pack.cells.Size())
    ensures pack.terrainBase == BaseTerrain(pack.cells, grid, s, o)
    ensures FarmlandAllocator.IsAllocation(pack.cells, pack.terrainBase, Some(s), Farmland.Defaults(),
              FarmlandAllocator.ResetAreas(old(pack.burgs)), candidates, claims)
    ensures pack.terrain == FarmlandAllocator.TerrainAfter(pack.terrainBase, claims)
    ensures pack.cultivatedBy == FarmlandAllocator.ByAfter(
              FarmlandAllocator.OwnersAtStart(old(pack.cultivatedBy), pack.cells.Size()),
              claims, FarmlandAllocator.ResetAreas(old(pack.burgs)))
    ensures pack.cultivatedIntensity == FarmlandAllocator.IntensityAfter(
              FarmlandAllocator.IntensityAtStart(old(pack.cultivatedIntensity), pack.cells.Size()),
              claims, Farmland.Defaults().maxSteps)
    ensures pack.burgs == FarmlandAllocator.WithFarmland(
              FarmlandAllocator.ResetAreas(old(pack.burgs)), claims, pack.cells.area)
    ensures pack.states == FarmlandAllocator.AggregatedStates(old(pack.states), pack.cells, pack.terrain)
  {
    s := ClassifyTerrain(pack, grid, o);
    ghost var base := pack.terrain;
    assert |base| == pack.cells.Size();
    assert pack.burgs == old(pack.burgs) && pack.states == old(pack.states);
    assert pack.cultivatedBy == old(pack.cultivatedBy) && pack.cultivatedIntensity == old(pack.cultivatedIntensity);
    pack.terrainBase := pack.terrain;
    candidates, claims := FarmlandAllocator.Allocate(pack, Farmland.Defaults());
    assert pack.terrainBase == base;
  }
}
