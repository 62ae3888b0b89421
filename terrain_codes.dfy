/**
 * The closed set of categorical land-cover codes written into the per-cell
 * `terrain` array, shared by the classifier and the farmland allocator.
 */
module TerrainCodes {

  const Ocean: int := 1
  const Lake: int := 2
  const GlacierIce: int := 3
  const Mountains: int := 4
  const Highlands: int := 5
  const Hills: int := 6
  const Plains: int := 7
  const Wetland: int := 8
  const Dunes: int := 9
  const Cultivated: int := 10

  /** Cells at or above this height are land; below it they are water. */
  const LandHeight: int := 20

  /** One of the ten defined land-cover codes. */
  predicate IsCode(c: int) {
    Ocean <= c <= Cultivated
  }

  /** The codes that smoothing neither changes nor counts. */
  predicate IsWaterOrIce(c: int) {
    c == Ocean || c == Lake || c == GlacierIce
  }
}
