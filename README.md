# Terrain classification, farmland allocation and export helpers of the Fantasy Map Generator

This project is a Dafny model of the land-cover pipeline of the Fantasy Map
Generator, with proofs about it. The pipeline has three stages:

- **Environmental surfaces** (`EnvSurfaces`). Per-cell slope, local relief and a hydric (wetness) index.
- **Terrain classification** (`TerrainRules`, `TerrainSmoothing`, `TerrainGenerator`):
  - hard overrides for ocean, lake and glacier ice;
  - first-match orography rules;
  - wetland and dune refinements;
  - one round of majority smoothing that leaves water and ice alone;
  - a snapshot of the result as `terrainBase`.
- **Farmland allocation** (`Farmland`, `FarmlandSearch`, `FarmlandAllocator`, `FarmlandProperties`). Every served settlement ("burg") does the following:
  1. asks for a quota of cells in proportion to its population;
  2. gathers candidate cells by a bounded breadth-first search from its home cell;
  3. sorts the candidates by score;
  4. claims the best cells that no earlier burg has claimed and that are not wetland.

  The claimed areas are then totalled per state.

Two smaller parts are modelled as well:

- **Export helpers** (`Export`):
  - meters per pixel for the distance unit;
  - tile row labels (the PNG and SVG exporters hold identical copies, modelled once);
  - the bounds of the whole-tile loops;
  - the fantasy bounding box;
  - the cell filters per state, province, culture and religion;
  - the population aggregation;
  - the grouping of cells by terrain code for the GeoJSON terrain layer.
- **The GeoTIFF pyramid command line** (`PyramidCli`):
  - argument parsing;
  - the help and missing-path exit guard;
  - the choice of the nodata value;
  - tile-size inference.

Here is how the source's forms map onto the model:

- **Per-cell typed arrays** that the source replaces or writes in place are `seq` fields of the class `MapData.Pack`. These are `terrain`, `terrainSubtype`, `terrainBase`, `cultivatedIntensity` and `cultivatedBy`, plus the burg and state records. The methods reassign these fields under `modifies` clauses.
- **Fixed mesh attributes** are the value `MapData.Mesh`: heights, neighbour lists, climate-grid index, rivers, biomes, areas and owning states.
- **The climate grid** is the value `MapData.Grid`: precipitation, temperature and lake features.
- **The smoothing buffer `tmp`** is an `array`.
- **Loops** keep the source's shape. Counted `for` loops over cells, neighbours and burgs are `for` loops. The search queue, the claim walk, the tile loops and the argument loop, which test a condition or skip ahead, are `while` loops. Every loop carries its invariants and is proved against a specification function, such as `SlopeAt`, `Classify`, `SmoothPass`, `Pick`, `IsCandidateList`, `AggregatedStates`, `Groups` or `Parse`. Each of these functions has its own row in the table below, and the lemmas beside it state what the source promises.

Where the code and the prose description of the system disagree, the model follows the code:

- **Hydric index on lakes and ice.** The hydric index is 0 only for cells below height 20 (`HydricZeroOnWater`), not for lake or ice cells on land. The code masks by height alone.
- **Smoothing rounds.** `smoothTerrain` takes a round count, but `generate` always calls it with the default of one round. So `Generate` smooths exactly once.
- **Exclusivity.** It comes from the `visitedGlobal` mask of one `allocate` call, not from `cultivatedBy`. A re-run does not reset the terrain from `terrainBase`: cells cultivated by an earlier run are not disallowed, so they can be claimed again, and `cultivatedBy` keeps its old entries.
- **The neutral state.** The entry with id 0 is not reset before aggregation, so its cultivated area accumulates across runs (`AggregatedStatesMeaning`).

## Model

| member | source | states |
|---|---|---|
| EnvSurfaces.SumAbsDiff | modules/env-surfaces.js:21-23 | the summed absolute height difference is never negative, and is 0 only if the last neighbour has the cell's height |
| EnvSurfaces.MaxHeight | modules/env-surfaces.js:20-26 | the running maximum bounds every neighbour's height from above |
| EnvSurfaces.MinHeight | modules/env-surfaces.js:20-26 | the running minimum bounds every neighbour's height from below |
| EnvSurfaces.MaxHeightAttained | modules/env-surfaces.js:24 | the maximum is the height of one of the neighbours |
| EnvSurfaces.MinHeightAttained | modules/env-surfaces.js:25 | the minimum is the height of one of the neighbours |
| EnvSurfaces.NeighbourStats | modules/env-surfaces.js:19-26 | the inner loop's sum, max and min are the summed difference and the neighbours' largest and smallest height |
| EnvSurfaces.NoNeighboursFlat | modules/env-surfaces.js:17-18 | a cell with a missing or empty neighbour list has slope 0 and relief 0 |
| EnvSurfaces.StatsGiveSurfaces | modules/env-surfaces.js:27-28 | sum over neighbour count is the slope; max(0, max - min) is the relief |
| EnvSurfaces.SlopeAt | modules/env-surfaces.js:16-27 | definition of a cell's slope: the mean absolute height difference to its neighbours, 0 without neighbours. `SlopeZeroIffFlat` proves it is never negative and is 0 exactly on flat cells |
| EnvSurfaces.ReliefAt | modules/env-surfaces.js:17-28 | definition of a cell's relief: max(0, highest minus lowest neighbour height), 0 without neighbours. `ReliefIsSpread` ties it to the height spread |
| EnvSurfaces.Precipitation | modules/env-surfaces.js:37 | the precipitation of the cell's climate-grid cell, 0 when the grid has no value for it |
| EnvSurfaces.HydricAt | modules/env-surfaces.js:34-40 | definition of the hydric index: 0 below height 20, otherwise max(0, p + 20 for a river − min(0.8·slope, 25)). `HydricZeroOnWater` and `HydricBounds` state its range |
| EnvSurfaces.SlopeReliefPass | modules/env-surfaces.js:16-29 | one slope and one relief per cell, stored at the cell's own index, each equal to the cell's specified value |
| EnvSurfaces.HydricPass | modules/env-surfaces.js:34-41 | one hydric value per cell at its own index: 0 below height 20, otherwise max(0, prec + river bonus - min(0.8 slope, 25)), with missing precipitation as 0 |
| EnvSurfaces.Compute | modules/env-surfaces.js:6-44 | three fresh arrays of length n holding cell i's slope, relief and hydric index at index i; the inputs are values, so nothing else changes |
| EnvSurfaces.SumAbsDiffZeroIff | modules/env-surfaces.js:21-23 | the summed difference is 0 exactly when every neighbour has the cell's height |
| EnvSurfaces.SlopeZeroIffFlat | modules/env-surfaces.js:27 | slope is never negative, and is 0 exactly when no neighbour differs in height |
| EnvSurfaces.SpreadIsAttained | modules/env-surfaces.js:24-28 | max - min is non-negative, bounds the difference of any two neighbours and is attained by a pair of them |
| EnvSurfaces.ReliefIsSpread | modules/env-surfaces.js:28 | relief is never negative, 0 without neighbours, and otherwise the neighbours' height spread |
| EnvSurfaces.HydricZeroOnWater | modules/env-surfaces.js:35-36 | every cell below height 20 gets hydric 0, whatever its other inputs |
| EnvSurfaces.HydricBounds | modules/env-surfaces.js:37-40 | on land the hydric index is non-negative, at least prec + bonus - 25, and at most max(0, prec + bonus) when slope is non-negative |
| TerrainRules.Classify | modules/terrain-generator.js:47-63 | the first classification loop gives every cell a code between ocean (1) and plains (7) |
| TerrainRules.Defaults | modules/terrain-generator.js:19-33 | the default thresholds: H1 75, H0 55, S1 10, S0 4, R1 20, R0 10, W1 28, iceTemp −8 |
| TerrainRules.RuleTable | modules/terrain-generator.js:52-62 | the seven classification rules as data, in source order: ocean, lake, ice, mountains, highlands, hills, plains |
| TerrainRules.FirstMatch | modules/terrain-generator.js:52-62 | the independent reference: the code of the first rule whose test holds. `FirstMatchIsFirst` characterises it, and `ClassifyIsFirstMatch` equates the classifier with it over `RuleTable` |
| TerrainRules.FirstMatchIsFirst | modules/terrain-generator.js:52-62 | reference semantics of a rule list: no match exactly when no rule holds; otherwise the code of a rule that holds with no earlier rule holding |
| TerrainRules.ClassifyIsFirstMatch | modules/terrain-generator.js:52-62 | the classifier is the first match of the rule table in source order (ocean, lake, ice, mountains, highlands, hills, plains) |
| TerrainRules.ClassifyWater | modules/terrain-generator.js:53-56 | ocean exactly below height 20; otherwise a lake feature gives lake; otherwise temperature at or below iceTemp gives glacier ice |
| TerrainRules.WetlandRefine | modules/terrain-generator.js:66-70 | a code changes, and then to wetland, exactly when it is plains, hills or highlands with hydric >= W1 |
| TerrainRules.DuneRefine | modules/terrain-generator.js:74-81 | a code changes, and then to dunes, exactly when it is plains or highlands in biome 1 or 2 with slope < S0 |
| TerrainSmoothing.SmoothPass | modules/terrain-generator.js:102-118 | one pass keeps the length; each new code, read from the codes before the pass, is stated by TerrainSmoothing.SmoothedCodeSpec |
| TerrainSmoothing.SmoothRounds | modules/terrain-generator.js:101-120 | the given number of passes, each reading the previous one's result, keeps the length |
| TerrainSmoothing.Add | modules/terrain-generator.js:107-111 | one more vote for a code in the insertion-ordered `counts` Map. `AddSpec` states its meaning |
| TerrainSmoothing.Tally | modules/terrain-generator.js:105-112 | the `counts` Map built from a cell's votes, own code first. `TallySpec` states its meaning |
| TerrainSmoothing.Scan | modules/terrain-generator.js:113-116 | the strict `>` scan over the Map's entries in insertion order. `ScanSpec` states its meaning |
| TerrainSmoothing.Winner | modules/terrain-generator.js:113-117 | the code the scan picks, starting from the own code with count −1. `WinnerIsMajority` proves it has the most votes and that the own code wins ties |
| TerrainSmoothing.SmoothedCode | modules/terrain-generator.js:103-117 | a cell's new code: an excluded code stays, otherwise the winner of its own and its non-excluded neighbours' codes. `SmoothedCodeSpec` states its meaning |
| TerrainSmoothing.AddSpec | modules/terrain-generator.js:107-111 | a vote adds one to its code's entry, or appends the code with count 1; the other entries and the order are kept |
| TerrainSmoothing.TallySpec | modules/terrain-generator.js:105-112 | the tally holds each voted code once with its number of votes, and the cell's own code comes first |
| TerrainSmoothing.ScanSpec | modules/terrain-generator.js:113-116 | the scan returns the largest count; a later code replaces the best only with a strictly greater count, so the first entry reaching the maximum wins |
| TerrainSmoothing.WinnerIsMajority | modules/terrain-generator.js:105-117 | the winner is a voted code with the most votes, and the cell's own code wins every tie for the maximum |
| TerrainSmoothing.NeighbourVotesFrom | modules/terrain-generator.js:108-111 | every neighbour vote is a non-excluded code of some neighbour |
| TerrainSmoothing.SmoothedCodeSpec | modules/terrain-generator.js:103-117 | an excluded code stays; any other becomes its own or a non-excluded neighbour's code with the most votes, and stays when its own count is maximal |
| TerrainSmoothing.SmoothPassKeepsWater | modules/terrain-generator.js:87 | with ocean, lake and ice excluded, a pass keeps water and ice cells and never turns another cell into water or ice |
| TerrainSmoothing.SmoothCell | modules/terrain-generator.js:103-117 | the tally loop and the scan loop of one cell compute the specified smoothed code |
| TerrainSmoothing.FillPass | modules/terrain-generator.js:102-118 | the buffer ends holding the pass computed from the codes before it |
| TerrainSmoothing.SmoothTerrain | modules/terrain-generator.js:97-121 | the terrain becomes the given number of rounds applied to the old terrain, and no other field changes |
| TerrainGenerator.ClassifiedTerrain | modules/terrain-generator.js:47-63 | the classified terrain has one code per cell; its codes are stated by TerrainRules.Classify |
| TerrainGenerator.WetlandTerrain | modules/terrain-generator.js:66-70 | the wetland pass keeps the length; each cell is given by TerrainRules.WetlandRefine |
| TerrainGenerator.DuneTerrain | modules/terrain-generator.js:74-81 | the dune pass keeps the length, and leaves the terrain as it is without biomes |
| TerrainGenerator.RefinedTerrain | modules/terrain-generator.js:47-81 | the refined terrain has one code per cell |
| TerrainGenerator.BaseTerrain | modules/terrain-generator.js:47-87 | the smoothed terrain kept as terrainBase has one code per cell |
| TerrainGenerator.RefinedAt | modules/terrain-generator.js:66-81 | the refinements keep the classified code or make it wetland or dunes, and never touch water or ice |
| TerrainGenerator.BaseTerrainCodes | modules/terrain-generator.js:47-87 | after classification, refinement and smoothing every cell holds a code in 1..9 |
| TerrainGenerator.BaseTerrainWater | modules/terrain-generator.js:53-87 | after smoothing, ocean is exactly the cells below 20, lake exactly the land cells on lake features, and ice exactly the remaining land cells at or below iceTemp |
| TerrainGenerator.ClassifyPass | modules/terrain-generator.js:47-63 | the loop leaves the classified terrain in pack.cells.terrain |
| TerrainGenerator.WetlandPass | modules/terrain-generator.js:66-70 | the loop applies the wetland refinement to every cell of the terrain it started from |
| TerrainGenerator.DunePass | modules/terrain-generator.js:74-81 | the loop applies the dune refinement to every cell, and changes nothing without biomes |
| TerrainGenerator.ZerosUnlessSized | modules/terrain-generator.js:38-39 | an array of the right length is kept; a missing or wrong-length one is replaced by n zeros |
| TerrainGenerator.ClassifyTerrain | modules/terrain-generator.js:36-87 | the arrays are recreated, the surfaces are computed and stored, and the terrain is classified, refined and smoothed once with water and ice excluded |
| TerrainGenerator.Generate | modules/terrain-generator.js:35-95 | terrainBase is the smoothed terrain from before allocation; the allocator with default options then runs on it, and terrain, owners, intensities, burgs and states carry exactly its writes |
| Farmland.Defaults | modules/farmland-allocator.js:20-27 | the default options: cellsPerThousand 4, maxSteps 45, maxSlope 6, minFSS 5 |
| Farmland.Round | modules/farmland-allocator.js:49 | Math.round: the nearest integer, with halves rounded up |
| Farmland.Required | modules/farmland-allocator.js:49 | the quota is 0 when population times cellsPerThousand is below 0.5, and otherwise its nearest integer |
| Farmland.Suitability | modules/farmland-allocator.js:122-134 | suitability is never negative, at most 45 for a non-negative slope, and the biome base when both surfaces are absent |
| Farmland.Intensity | modules/farmland-allocator.js:94-96 | a claimed cell's intensity lies in [0.2, 1] |
| Farmland.Disallowed | modules/farmland-allocator.js:42 | the codes never farmed: ocean, lake, glacier ice, mountains and dunes. `MarkTerrainKeepsDisallowed` and `PickedAreFarmable` rest on it |
| Farmland.Eligible | modules/farmland-allocator.js:65-69 | the `isAllowed` test and the `minFSS` threshold for one cell. `GatherCandidates` proves the search returns exactly the eligible cells within reach |
| Farmland.Score | modules/farmland-allocator.js:70 | the rank score: suitability minus 0.4 per hop |
| Farmland.InsertByScore | modules/farmland-allocator.js:84 | one insertion step of the descending sort: the candidate goes after every candidate with at least its score. Its permutation, order and stability lemmas follow |
| Farmland.SortByScore | modules/farmland-allocator.js:84 | the descending sort of the candidates by score. `SortByScoreSorted` and `SortByScoreStable` state its meaning |
| Farmland.InsertByScorePermutes | modules/farmland-allocator.js:84 | an insertion step adds exactly the inserted candidate |
| Farmland.InsertByScoreSorted | modules/farmland-allocator.js:84 | an insertion step keeps a list in non-increasing score order |
| Farmland.SortByScoreSorted | modules/farmland-allocator.js:84 | the sorted candidates are a permutation of the input in non-increasing score order |
| Farmland.InsertKeepsDistinct | modules/farmland-allocator.js:84 | inserting a candidate whose cell is new keeps the cells distinct |
| Farmland.InsertByScoreStable | modules/farmland-allocator.js:84 | an insertion puts the new candidate after every candidate of equal score, given a non-increasing list |
| Farmland.SortByScoreStable | modules/farmland-allocator.js:84 | the sort is stable: for every score, the candidates with that score keep their input order |
| Farmland.SortKeepsDistinct | modules/farmland-allocator.js:84 | sorting keeps the candidates' cells distinct |
| Farmland.Pick | modules/farmland-allocator.js:85-99 | the claim walk as a function: in sorted order, skip cells already claimed in the run and wetland, take the rest until the quota is met. `PickFresh`, `PickIsTakeOfAdmissible` and `PickTakesTopAdmissible` state its meaning |
| Farmland.PickFresh | modules/farmland-allocator.js:86-99 | one burg's claim loop takes at most its quota, on distinct cells, none claimed earlier in the run |
| Farmland.PickIsTakeOfAdmissible | modules/farmland-allocator.js:86-90 | the claim loop equals the reference definition: the first quota candidates that are neither claimed nor wetland |
| Farmland.PickTakesTopAdmissible | modules/farmland-allocator.js:84-99 | the claims are at most the quota and all admissible; fewer than the quota only when every admissible candidate is taken; none scores below an admissible candidate left out |
| FarmlandSearch.IsHopDistance | modules/farmland-allocator.js:54-81 | `d` is the least number of hops from the start to the cell. It is the distance the search records, as `GatherCandidates` proves |
| FarmlandSearch.IsCandidateList | modules/farmland-allocator.js:54-81 | the search result: distinct eligible cells within `maxSteps` hops, each with its true hop distance and its score, and every such cell present. The order of the list is not part of it (see Left out) |
| FarmlandSearch.ExpandNeighbours | modules/farmland-allocator.js:75-80 | every unvisited neighbour is marked visited, given distance d + 1 and queued once; visited cells keep their distances |
| FarmlandSearch.WalksAreBounded | modules/farmland-allocator.js:54-81 | when the queue empties, every walk of at most maxSteps + 1 hops ends at a visited cell whose distance is no more than the walk's length |
| FarmlandSearch.ConsiderCell | modules/farmland-allocator.js:65-73 | an in-range cell that is allowed (terrain, slope, land) with suitability >= minFSS is pushed with score fss - 0.4 d; any other cell is not |
| FarmlandSearch.GatherCandidates | modules/farmland-allocator.js:54-81 | the search returns distinct eligible cells within maxSteps hops, each with its true hop distance, suitability and score, and every eligible cell within range is among them |
| FarmlandAllocator.Served | modules/farmland-allocator.js:48 | a burg is served when it has a real id and is neither removed nor flying |
| FarmlandAllocator.Quota | modules/farmland-allocator.js:48-50 | the cells a burg asks for: `Required` for a served burg, 0 otherwise |
| FarmlandAllocator.ResetArea | modules/farmland-allocator.js:45 | a live burg (real id, not removed) starts from zero farmland, and every other burg is unchanged |
| FarmlandAllocator.ResetAreas | modules/farmland-allocator.js:45 | the reset pass keeps the number of burgs |
| FarmlandAllocator.AddFarmland | modules/farmland-allocator.js:100 | a claim adds its area to the burg's farmland and leaves the burg's other fields alone |
| FarmlandAllocator.WithFarmland | modules/farmland-allocator.js:86-101 | adding each served burg's claimed area keeps the number of burgs |
| FarmlandAllocator.MarkTerrain | modules/farmland-allocator.js:92 | marking one burg's claims keeps the terrain's length (meaning: FarmlandProperties.MarkTerrainMeaning) |
| FarmlandAllocator.MarkBy | modules/farmland-allocator.js:97 | marking one burg's owner id keeps the array's length (meaning: FarmlandProperties.MarkByMeaning) |
| FarmlandAllocator.MarkIntensity | modules/farmland-allocator.js:94-96 | marking one burg's intensities keeps the array's length (meaning: FarmlandProperties.MarkIntensityMeaning) |
| FarmlandAllocator.MarkClaimed | modules/farmland-allocator.js:98 | marking visitedGlobal keeps its length (meaning: FarmlandProperties.MarkClaimedMeaning) |
| FarmlandAllocator.TerrainAfter | modules/farmland-allocator.js:47-102 | the terrain after the burg loop has one code per cell (meaning: FarmlandProperties.TerrainAfterMeaning) |
| FarmlandAllocator.ByAfter | modules/farmland-allocator.js:47-102 | cultivatedBy after the burg loop has one entry per cell (meaning: FarmlandProperties.ByAfterMeaning) |
| FarmlandAllocator.IntensityAfter | modules/farmland-allocator.js:47-102 | cultivatedIntensity after the burg loop has one entry per cell (meaning: FarmlandProperties.IntensityAfterMeaning) |
| FarmlandAllocator.ClaimedAfter | modules/farmland-allocator.js:40-102 | visitedGlobal after the burg loop has one flag per cell (meaning: FarmlandProperties.ClaimedAfterMeaning) |
| FarmlandAllocator.IsAllocation | modules/farmland-allocator.js:47-102 | the allocation relation: the burgs in order, each searched on the starting terrain and picking against the claims of the burgs before it. `FarmlandProperties` proves its freshness, quota and exclusivity |
| FarmlandAllocator.BurgAllocation | modules/farmland-allocator.js:48-101 | one burg's part: no search when its quota is 0; otherwise a candidate list from its home cell, sorted, then `Pick` with the earlier claims blocked |
| FarmlandAllocator.PickReadsUnclaimedTerrain | modules/farmland-allocator.js:88-90 | the claim loop reads the terrain only at cells not yet claimed, so terrains that agree there give the same claims |
| FarmlandAllocator.MarkTerrainKeepsDisallowed | modules/farmland-allocator.js:42-92 | turning farmable cells into cultivated ones leaves the set of disallowed cells as it was |
| FarmlandAllocator.OwnersAtStart | modules/farmland-allocator.js:36 | cultivatedBy is kept when it has length n and otherwise recreated; either way it has n entries |
| FarmlandAllocator.IntensityAtStart | modules/farmland-allocator.js:35 | cultivatedIntensity is kept when it has length n and otherwise recreated; either way it has n entries |
| FarmlandAllocator.ResetBurgAreas | modules/farmland-allocator.js:45 | every live burg (non-zero id, not removed) has its farmland set to 0; the others are unchanged |
| FarmlandAllocator.ClaimLoop | modules/farmland-allocator.js:85-101 | the loop takes the greedy pick over the sorted candidates, and terrain, owner, intensity, visitedGlobal and farmland carry exactly its writes |
| FarmlandAllocator.ClaimCells | modules/farmland-allocator.js:86-101 | the claim loop over the pack's arrays: the picked cells are marked cultivated, owned by the burg, given their intensity and claimed, and their area is added to the burg |
| FarmlandAllocator.ServeBurg | modules/farmland-allocator.js:48-101 | a burg that is not served or has quota 0 changes nothing; otherwise its candidates are the search result, sorted, and the greedy claims are written |
| FarmlandAllocator.PickedAreFarmable | modules/farmland-allocator.js:66-92 | every cell a burg takes was not disallowed on the terrain it searched |
| FarmlandAllocator.ServedOnStartTerrain | modules/farmland-allocator.js:47-102 | a burg served on the terrain left by earlier burgs claims what it would claim on the starting terrain, given the earlier burgs' claims |
| FarmlandAllocator.ResetState | modules/farmland-allocator.js:106 | a live state (real id, not removed) starts from zero cultivated area and per-capita area |
| FarmlandAllocator.CultivatedArea | modules/farmland-allocator.js:107-113 | the total area of the cultivated cells owned by one state |
| FarmlandAllocator.Accumulate | modules/farmland-allocator.js:111-112 | a removed state is skipped, any other state gains the area |
| FarmlandAllocator.PerCapita | modules/farmland-allocator.js:115-119 | area over population for a kept state with people and non-zero area, otherwise unchanged. `PerCapitaMeaning` states its meaning |
| FarmlandAllocator.AggregatedStates | modules/farmland-allocator.js:105-120 | aggregation keeps the number of states |
| FarmlandAllocator.AggregatedStatesMeaning | modules/farmland-allocator.js:105-120 | removed states are untouched; a live state holds exactly the area of its cultivated cells; the neutral entry adds that area to its old value |
| FarmlandAllocator.PerCapitaMeaning | modules/farmland-allocator.js:115-119 | per capita is set to area over population only for a kept state with population > 0 and non-zero area; other states are left as they are |
| FarmlandAllocator.AggregateStates | modules/farmland-allocator.js:105-120 | the three passes over pack.states leave the aggregated states of the final terrain |
| FarmlandAllocator.ServeBurgs | modules/farmland-allocator.js:44-102 | the reset and burg loops give an allocation from the starting terrain, and terrain, owners, intensities and burgs carry exactly its writes |
| FarmlandAllocator.RecreateArrays | modules/farmland-allocator.js:33-36 | terrainBase is kept when it has length n and otherwise becomes a copy of terrain; the other two arrays are kept when sized and otherwise zeroed |
| FarmlandAllocator.Allocate | modules/farmland-allocator.js:29-135 | allocate: recreate, reset, serve the burgs in order against a shared claim mask, then aggregate; every array, burg and state carries exactly the allocation's writes |
| FarmlandProperties.MarkClaimedMeaning | modules/farmland-allocator.js:98 | a cell is claimed after one burg's loop exactly when it was claimed before or this burg took it |
| FarmlandProperties.MarkTerrainMeaning | modules/farmland-allocator.js:92 | a taken cell becomes cultivated (10); every other cell keeps its terrain |
| FarmlandProperties.MarkByMeaning | modules/farmland-allocator.js:97 | a taken cell records the burg's id; every other cell keeps its owner |
| FarmlandProperties.MarkIntensityMeaning | modules/farmland-allocator.js:94-96 | a taken cell gets the intensity of its claim, in [0.2, 1]; every other cell keeps its value |
| FarmlandProperties.ClaimedAfterMeaning | modules/farmland-allocator.js:40-98 | visitedGlobal ends marking exactly the cells some burg claimed |
| FarmlandProperties.TerrainAfterMeaning | modules/farmland-allocator.js:92 | after the burg loop a cell is cultivated if some burg claimed it, and keeps its terrain otherwise |
| FarmlandProperties.IntensityAfterMeaning | modules/farmland-allocator.js:94-96 | unclaimed cells keep their intensity; claimed cells end in [0.2, 1] |
| FarmlandProperties.ByAfterMeaning | modules/farmland-allocator.js:97 | with exclusive claims, a claimed cell's owner is the id of the burg that claimed it; unclaimed cells keep their owner |
| FarmlandProperties.BurgClaimsFresh | modules/farmland-allocator.js:86-99 | one burg's claims are within its quota, on distinct cells that no earlier burg claimed |
| FarmlandProperties.AllocationFresh | modules/farmland-allocator.js:40-102 | every burg of the run claims fresh cells within its quota |
| FarmlandProperties.AllocationWithinQuota | modules/farmland-allocator.js:48-86 | each burg claims at most its quota, and a burg that is not served claims nothing |
| FarmlandProperties.AllocationExclusive | modules/farmland-allocator.js:88-98 | no cell is claimed twice, within one burg or across burgs; the earlier burg keeps a contested cell |
| FarmlandProperties.BurgTakesTopCandidates | modules/farmland-allocator.js:84-99 | every claim is an admissible candidate; none scores below an admissible candidate left out; fewer than the quota only when all admissible candidates are taken |
| FarmlandProperties.FreshStartOwnership | modules/farmland-allocator.js:92-97 | starting with no owners and no cultivated cells, a cell ends with an owner exactly when it is cultivated |
| Export.ToLower | modules/io/export.js:630 | lower-casing keeps the length and leaves no letter A-Z; every other character is kept |
| Export.UnitFactor | modules/io/export.js:632-657 | every unit factor is positive, and an unknown unit gets the fallback 1000 |
| Export.MetersPerPixel | modules/io/export.js:629-658 | a positive scale gives positive meters per pixel, and an unknown unit gives scale times 1000 |
| Export.ToLowerIdempotent | modules/io/export.js:630 | lower-casing twice is lower-casing once |
| Export.MetersPerPixelIgnoresCase | modules/io/export.js:630 | the unit's letter case does not matter |
| Export.UnitTable | modules/io/export.js:633-653 | km gives 1000, meters 1, mile 1609.344, yd 0.9144, feet 0.3048 and leagues 4828.032, whatever their case |
| Export.RowLabel | modules/io/export.js:156-160 | rows 0..25 get one letter and rows 26..701 get two, all in A-Z |
| Export.RowLabelRoundTrip | modules/io/export.js:243-247 | decoding a row label gives back its row, so distinct rows get distinct labels |
| Export.WholeBounds | modules/io/export.js:167 | the number of whole tiles c satisfies c w <= n < c w + w |
| Export.WholeUnique | modules/io/export.js:167 | that count is the only c with this property |
| Export.TileRow | modules/io/export.js:170 | the inner loop emits one tile per whole column, with column c + 1 at x = c tileW and consecutive ids |
| Export.TileLoop | modules/io/export.js:167-171 | the loops emit rows times columns whole tiles, row-major, with ids counting from 1 |
| Export.TilesAreWhole | modules/io/export.js:167-170 | every emitted tile lies inside the map: x + tileW <= graphWidth and y + tileH <= graphHeight |
| Export.FantasyBbox | modules/io/export.js:691-696 | the box starts at x = 0 and ends at y = 0, and is graphWidth by graphHeight times meters per pixel |
| Export.FantasyBboxOrdered | modules/io/export.js:691-696 | for a positive map size and scale, minX < maxX and minY < maxY |
| Export.RegionField | modules/io/export.js:1261-1271 | the cell array a `getCellsFor` type names, and none for an unknown type |
| Export.LandCellsWith | modules/io/export.js:1263-1269 | the land cells with a given region id, in cell order. `LandCellsWithMeaning` states its meaning |
| Export.GetCellsFor | modules/io/export.js:1259-1273 | an unknown region kind gives the empty list |
| Export.LandCellsWithMeaning | modules/io/export.js:1263 | the filter holds exactly the land cells whose field equals the id, in increasing cell order |
| Export.GetCellsForMeaning | modules/io/export.js:1259-1273 | for state, province, culture or religion: exactly the land cells of that region, in cell order |
| Export.PopulationK | modules/io/export.js:1242-1248 | the population in thousands of the burgs on the cells, urban above 0.1 and rural otherwise, cells without a burg skipped |
| Export.People | modules/io/export.js:1249-1250 | thousands scaled to people and rounded as `Math.round` does |
| Export.PopulationSplit | modules/io/export.js:1242-1248 | rural plus urban thousands is the population of every burg on the cells |
| Export.SumPopulation | modules/io/export.js:1242-1248 | the loop sums burgs above 0.1 thousand as urban and the rest as rural, skipping cells without a burg |
| Export.AggregatePopulationByCells | modules/io/export.js:1237-1252 | rural is round(ruralK times populationRate), urban is round(urbanK times 1000 times urbanization), and total is their sum |
| Export.CodeIndex | modules/io/export.js:838 | the map lookup finds the first group with the code, or reports none |
| Export.AddToGroup | modules/io/export.js:838-839 | `byCode.get(code).push(i)`, opening the code's group at the end when it is new. `AddToGroupSpec` states its meaning |
| Export.Groups | modules/io/export.js:834-840 | the groups of the cells by terrain code, code 0 skipped. `GroupsMeaning` states its meaning |
| Export.AddToGroupSpec | modules/io/export.js:838-839 | a cell is appended to its code's group, or a new group is opened at the end; all other groups are unchanged |
| Export.GroupsMeaning | modules/io/export.js:834-840 | distinct codes; every group non-zero, non-empty and in cell order; a cell is in a group exactly when it has the group's code; every non-zero cell has a group |
| Export.GroupByCode | modules/io/export.js:818-840 | a missing terrain array gives no groups; otherwise the loop yields the grouping of all cells |
| PyramidCli.Defaults | tools/export-fmg-pyramid-cli.js:17 | the literal the parser starts from: no job or output, makeCOG off, overviews 2, 4, 8, 16, 32, resampling "average" |
| PyramidCli.FlagOf | tools/export-fmg-pyramid-cli.js:21-29 | token comparison: --job, --out, --overviews and --nodata are recognised exactly by their spelling, and help by --help or -h |
| PyramidCli.Split | tools/export-fmg-pyramid-cli.js:24 | splitting always yields at least one piece |
| PyramidCli.JoinSplit | tools/export-fmg-pyramid-cli.js:24 | joining the pieces back with commas gives the original value |
| PyramidCli.SplitPieces | tools/export-fmg-pyramid-cli.js:24 | there is one more piece than there are commas, and no piece holds a comma |
| PyramidCli.SplitJoin | tools/export-fmg-pyramid-cli.js:24 | comma-free pieces joined with commas split back into the same pieces |
| PyramidCli.Overviews | tools/export-fmg-pyramid-cli.js:24 | the overview list: the value split at commas, each piece converted by unary `+` |
| PyramidCli.Step | tools/export-fmg-pyramid-cli.js:19-29 | one turn of the loop: each flag sets its own field, and a dangling `--overviews` throws. `StepFields` states its meaning |
| PyramidCli.ParseFrom | tools/export-fmg-pyramid-cli.js:18-30 | the rest of the loop over the remaining tokens, skipping the value of a value flag and stopping at a throw |
| PyramidCli.Parse | tools/export-fmg-pyramid-cli.js:16-32 | `parseArgs`: the loop from the literal over `argv` after the first two entries. `ParseFailsIff`, `LastWins` and the lemmas after it state its meaning |
| PyramidCli.StepFields | tools/export-fmg-pyramid-cli.js:21-29 | a step fails exactly on a dangling --overviews; job, out, nodata and help change only through their own flags, and help only to true |
| PyramidCli.ParseArgs | tools/export-fmg-pyramid-cli.js:16-32 | the token loop computes the parse result, including the failure on a dangling --overviews |
| PyramidCli.NoArguments | tools/export-fmg-pyramid-cli.js:17-18 | without arguments after argv[1], parsing yields the defaults |
| PyramidCli.ParseConcat | tools/export-fmg-pyramid-cli.js:18-30 | after a flag-aligned prefix, parsing the rest resumes from the prefix's result |
| PyramidCli.ParseFailsIff | tools/export-fmg-pyramid-cli.js:24 | parsing fails exactly when the last token is --overviews in flag position |
| PyramidCli.UnflaggedFieldsKeep | tools/export-fmg-pyramid-cli.js:19-30 | job, out, nodata and help keep their starting value unless their flag appears in flag position |
| PyramidCli.HelpSticky | tools/export-fmg-pyramid-cli.js:29 | once help is set, no later token clears it |
| PyramidCli.HelpFlagSets | tools/export-fmg-pyramid-cli.js:29 | --help or -h in flag position sets help |
| PyramidCli.LastWins | tools/export-fmg-pyramid-cli.js:21-28 | a value flag at the end consumes the next token and sets its field to it, as text, number or comma-split list |
| PyramidCli.UnknownIgnored | tools/export-fmg-pyramid-cli.js:19-30 | an unrecognised token in flag position changes nothing |
| PyramidCli.Exit | tools/export-fmg-pyramid-cli.js:40 | exit 0 exactly when help is set; continue exactly when job and out are non-empty; otherwise exit 1 (a parse error also exits 1) |
| PyramidCli.HelpExitsZero | tools/export-fmg-pyramid-cli.js:40 | a command line with --help or -h exits 0 |
| PyramidCli.MissingPathExitsOne | tools/export-fmg-pyramid-cli.js:40 | without --job or without --out, and without help, the tool exits 1 |
| PyramidCli.ArgsKeys | tools/export-fmg-pyramid-cli.js:17 | the parsed object always has a nodata key |
| PyramidCli.NodataAsWritten | tools/export-fmg-pyramid-cli.js:54 | the nodata choice as written: the flag's value whenever the `nodata` key exists, which `parseArgs` always creates. See Findings |
| PyramidCli.NodataAsWrittenIgnoresJob | tools/export-fmg-pyramid-cli.js:54 | as written, the job's nodata is never used |
| PyramidCli.NodataAsWrittenExample | tools/export-fmg-pyramid-cli.js:54 | with --job and --out only and a job nodata of 0, the nodata used is undefined |
| PyramidCli.Nodata | tools/export-fmg-pyramid-cli.js:54 | the corrected nodata choice: the flag's value when `--nodata` was given, the job's otherwise. See Findings |
| PyramidCli.NodataChoice | tools/export-fmg-pyramid-cli.js:54 | corrected: without --nodata the job's value is used, and with --nodata v last the command-line value is used |
| PyramidCli.GridOf | tools/export-fmg-pyramid-cli.js:135 | the grid is the job's grid when set and non-zero, and 16 otherwise |
| PyramidCli.FloorDiv | tools/export-fmg-pyramid-cli.js:136-137 | defined exactly when the size is, and then the floor of size over grid |
| PyramidCli.InferTileSize | tools/export-fmg-pyramid-cli.js:133-139 | width and height are known exactly when the job's full size gives them, and are then floor(full / grid) |

## Left out

- Float32, Uint8 and Uint16 storage is not modelled. Surfaces, suitability, scores, intensities and areas are reals; codes, owners and distances are unbounded integers. Rounding to 32-bit floats is not modelled either.
- Uint16 wrap-around of `cultivatedBy` and of the search's `dist` is not modelled. `Pack.Valid` requires the ids of served burgs to be below 65536. Distances stay below `maxSteps + 2`.
- `undefined` entries are not modelled: holes in `pack.burgs` or `pack.states`, a missing `cells.area` or `cells.state`, or a missing burg population. Every burg and state is a record, and the mesh always carries areas and owning states. So the guard on `cells.area && cells.state` in the aggregation is always taken.
- The JavaScript `NaN` behaviour of comparisons on heights, temperatures and populations is not modelled.
- The try/catch around the allocator call in `generate` is not modelled. The model has no exceptions, and `Generate` simply runs `Allocate`.
- The optional presence check on `window.FarmlandAllocator` in `generate` is not modelled: the allocator is always present.
- Ambient globals (`pack`, `grid`, `window`) are passed as parameters. The `options` objects are passed already merged with their defaults.
- `grid.cells.t` is read by the classification loop but never used, so it is not modelled.
- `terrainSubtype` is recreated as zeros and otherwise unused. It is modelled only in `ZerosUnlessSized`.
- MapData.Pack.Valid: requires the home cell of every served burg (a real id, neither removed nor flying) to be a cell of the mesh. This includes a served burg whose quota rounds to 0, whose cell the source never reads. For a burg with a positive quota, the source throws at `cells.c[cur]` on an out-of-range cell, and the model has no exceptions.
- FarmlandSearch.IsCandidateList: does not fix the order of the candidates. The source returns them in the order its queue dequeues them: breadth first, with the unvisited neighbours of each cell queued in neighbour-list order. The sort is proved stable (`SortByScoreStable`), so that order decides ties. The model leaves it open, so when the quota cuts through candidates of equal score, `Allocate` and `Generate` do not say which of them is claimed.
- Export.ToLower: lower-cases only the letters A-Z. The non-ASCII case mappings of `toLowerCase` are not modelled.
- Export.RowLabel: requires row < 702. From row 702 on, the source indexes past the alphabet and yields text containing "undefined".
- Export.TileLoop: requires tile sizes of at least 1. With a zero tile size the source's loops never end. The tile sizes are parameters, so the int32 truncation `(graphWidth / tilesX) | 0` that produces them is not modelled.
- The tile drawing, status text, canvas, zip and download code of the exporters is not modelled. The same goes for the features of `buildGeoJsonTerrain` after the grouping: polygons, areas and names.
- Export.AggregatePopulationByCells: requires every listed cell's burg id to index `pack.burgs`. The source throws on a missing burg.
- String-to-number conversion (`+next`) is kept as text (`FromText`). An undefined token becomes `NaN`. Numeric parsing of the text is not modelled.
- The file-system, JSON and GDAL work of the command line's `main` is not modelled. This covers the job file, directories, tiles, overviews, VRT and TileJSON. The choices at lines 52, 53, 55 and 56 are simple `||` fallbacks and are not modelled either. Only the nodata choice (line 54) and the exit guard are.
- PyramidCli.FloorDiv: a missing size stands for the source's `NaN` result, and a `NaN` grid is not modelled.

## Findings

| source | as written | input that shows it | evidently intended | confidence | as-written member | corrected member |
|---|---|---|---|---|---|---|
| tools/export-fmg-pyramid-cli.js:54 | `("nodata" in args) ? args.nodata : job.nodata`, but `parseArgs` always creates a `nodata` key (line 17), so the job's nodata value is never used | `node export-fmg-pyramid-cli.js --job job.fmgpack --out out` with a job whose nodata is 0: the nodata used is undefined | use the command-line `--nodata` when it was given, and the job's nodata otherwise | high (not executed) | PyramidCli.NodataAsWritten (shown by PyramidCli.NodataAsWrittenExample and PyramidCli.NodataAsWrittenIgnoresJob) | PyramidCli.Nodata (proved by PyramidCli.NodataChoice) |
