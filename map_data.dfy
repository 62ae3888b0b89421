/**
 * The map data the pipeline reads and writes: the static attributes of the
 * cell mesh, the coarse climate grid, settlements ("burgs"), states, and the
 * `pack` object whose per-cell arrays the classifier and the allocator update.
 */
module MapData {
  import opened Wrappers
  import opened TerrainCodes
  import opened EnvSurfaces

  /**
   * Static per-cell attributes of `pack.cells`, all indexed by cell id:
   * height `h`, neighbour lists `c`, climate-grid cell `g`, river id `r`
   * (0 = no river), optional `biome`, `area` and owning `state`.
   */
  datatype Mesh = Mesh(
    h: seq<int>,
    c: seq<seq<nat>>,
    g: seq<nat>,
    r: seq<nat>,
    biome: Option<seq<int>>,
    area: seq<real>,
    state: seq<nat>)
  {
    /** Number of cells (`cells.i.length`). */
    function Size(): nat { |h| }

    predicate Valid() {
      && |c| == |h| && |g| == |h| && |r| == |h| && |area| == |h| && |state| == |h|
      && (biome.Some? ==> |biome.value| == |h|)
      && NeighboursInRange(c, |h|)
    }

    /** Biome of cell `i`, 0 when the biome array is absent (`cells.biome?.[i] || 0`). */
    function BiomeAt(i: nat): int
      requires Valid() && i < Size()
    {
      if biome.Some? then biome.value[i] else 0
    }
  }

  /**
   * The coarse climate grid (`grid`): precipitation and temperature per grid
   * cell, the feature index of each grid cell, and whether each feature is a lake.
   */
  datatype Grid = Grid(prec: seq<real>, temp: seq<int>, f: seq<nat>, featureIsLake: seq<bool>)
  {
    /** `grid.features[grid.cells.f[gi]]?.type === "lake"`. */
    predicate IsLake(gi: nat) {
      gi < |f| && f[gi] < |featureIsLake| && featureIsLake[f[gi]]
    }

    /** `grid.cells.temp[gi] <= iceTemp`; a missing temperature compares false. */
    predicate IsIce(gi: nat, iceTemp: real) {
      gi < |temp| && temp[gi] as real <= iceTemp
    }
  }

  /**
   * A settlement: id `i` (0 for the placeholder entry), home `cell`,
   * population in thousands, exclusion flags and its farmland accumulator.
   */
  datatype Burg = Burg(i: nat, cell: nat, population: real, removed: bool, flying: bool, farmlandArea: real)

  /** A state (region): id `i` (0 for the neutral entry) and its cultivation accumulators. */
  datatype State = State(i: nat, removed: bool, population: real, cultivatedArea: real, cultivatedPerCapita: real)

  /** Burg ids are stored in a 16-bit array (`cultivatedBy`). */
  const BurgIdLimit: nat := 65536

  /**
   * The `pack` object. The mesh is fixed; the per-cell arrays the pipeline
   * writes, the surfaces it stores, and the burg and state records change.
   */
  class Pack {
    const cells: Mesh
    var terrain: seq<int>
    var terrainSubtype: seq<int>
    var terrainBase: seq<int>
    var cultivatedIntensity: seq<real>
    var cultivatedBy: seq<int>
    var terrainSurfaces: Option<Surfaces>
    var burgs: seq<Burg>
    var states: seq<State>

    /**
     * The well-formedness the pipeline relies on: a valid mesh, and burgs whose
     * cells and ids fit. Only the burgs the allocator serves (a real id, neither
     * removed nor flying) have their cell read and their id stored, so only
     * theirs are constrained.
     */
    ghost predicate Valid()
      reads this
    {
      && cells.Valid()
      && (forall b :: 0 <= b < |burgs| && burgs[b].i != 0 && !burgs[b].removed && !burgs[b].flying ==>
            burgs[b].cell < cells.Size() && burgs[b].i < BurgIdLimit)
      && (terrainSurfaces.Some? ==>
            |terrainSurfaces.value.slope| == cells.Size() && |terrainSurfaces.value.hydric| == cells.Size())
    }

    /** A pack before the pipeline has run: no derived arrays and no stored surfaces. */
    constructor (cells: Mesh, burgs: seq<Burg>, states: seq<State>)
      ensures this.cells == cells && this.burgs == burgs && this.states == states
      ensures terrain == [] && terrainSubtype == [] && terrainBase == []
      ensures cultivatedIntensity == [] && cultivatedBy == [] && terrainSurfaces == None
    {
      this.cells := cells;
      this.burgs := burgs;
      this.states := states;
      terrain, terrainSubtype, terrainBase := [], [], [];
      cultivatedIntensity, cultivatedBy := [], [];
      terrainSurfaces := None;
    }
  }
}
