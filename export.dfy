/**
 * The computational helpers of the map exporter (modules/io/export.js):
 * the distance-unit table, the tile row labels and tile loop bounds, the
 * fantasy bounding box, and the cell filters and aggregations behind the
 * GeoJSON exports.
 */
module Export {
  import opened Wrappers
  import opened TerrainCodes
  import opened MapData
  import Farmland

  // ---------------------------------------------------------------------
  // Distance units

  /** ASCII lower-casing of one character. */
  function LowerChar(c: char): char {
    if 'A' <= c <= 'Z' then (c as int + 32) as char else c
  }

  /** `toLowerCase` on the letters A-Z: no upper-case letter is left, and every other character is kept. */
  function ToLower(s: string): (r: string)
    ensures |r| == |s|
    ensures forall i :: 0 <= i < |r| ==> !('A' <= r[i] <= 'Z')
    ensures forall i :: 0 <= i < |r| ==> r[i] == s[i] || (r[i] as int == s[i] as int + 32 && 'A' <= s[i] <= 'Z')
  {
    seq(|s|, i requires 0 <= i < |s| => LowerChar(s[i]))
  }

  /** The unit names the table knows. */
  function KnownUnits(): set<string> {
    {"km", "m", "meter", "meters", "mi", "mile", "miles", "yd", "yard", "yards",
     "ft", "foot", "feet", "league", "leagues"}
  }

  /** Meters per distance unit, for a lower-cased unit name; an unknown unit counts as kilometres. */
  function UnitFactor(unit: string): (r: real)
    ensures r > 0.0
    ensures unit !in KnownUnits() ==> r == 1000.0
  {
    if unit == "km" then 1000.0
    else if unit == "m" || unit == "meter" || unit == "meters" then 1.0
    else if unit == "mi" || unit == "mile" || unit == "miles" then 1609.344
    else if unit == "yd" || unit == "yard" || unit == "yards" then 0.9144
    else if unit == "ft" || unit == "foot" || unit == "feet" then 0.3048
    else if unit == "league" || unit == "leagues" then 4828.032
    else 1000.0
  }

  /** `getMetersPerPixel`: the map's distance scale times the meters of its (lower-cased) unit. */
  function MetersPerPixel(unit: string, distanceScale: real): (r: real)
    ensures distanceScale > 0.0 ==> r > 0.0
    ensures ToLower(unit) !in KnownUnits() ==> r == distanceScale * 1000.0
  {
    distanceScale * UnitFactor(ToLower(unit))
  }

  /** Lower-casing twice is lower-casing once. */
  lemma ToLowerIdempotent(s: string)
    ensures ToLower(ToLower(s)) == ToLower(s)
  {
    var l := ToLower(s);
    forall i | 0 <= i < |l| ensures ToLower(l)[i] == l[i] {
      assert !('A' <= l[i] <= 'Z');
    }
  }

  /** The unit is read case-insensitively: a lower-cased name gives the same scale. */
  lemma MetersPerPixelIgnoresCase(unit: string, distanceScale: real)
    ensures MetersPerPixel(ToLower(unit), distanceScale) == MetersPerPixel(unit, distanceScale)
  {
    ToLowerIdempotent(unit);
  }

  /** The factors of the table, through `getMetersPerPixel`. */
  lemma UnitTable(s: real)
    ensures MetersPerPixel("KM", s) == s * 1000.0 && MetersPerPixel("Meters", s) == s
    ensures MetersPerPixel("mile", s) == s * 1609.344 && MetersPerPixel("yd", s) == s * 0.9144
    ensures MetersPerPixel("feet", s) == s * 0.3048 && MetersPerPixel("leagues", s) == s * 4828.032
  {
    assert ToLower("KM") == "km";
    assert ToLower("Meters") == "meters";
    assert ToLower("mile") == "mile";
    assert ToLower("yd") == "yd";
    assert ToLower("feet") == "feet";
    assert ToLower("leagues") == "leagues";
  }

  // ---------------------------------------------------------------------
  // Tile row labels

  const Alphabet: string := "ABCDEFGHIJKLMNOPQRSTUVWXYZ"

  /** The alphabet holds the 26 capitals in order. */
  lemma AlphabetLetters()
    ensures |Alphabet| == 26
    ensures forall k :: 0 <= k < 26 ==> Alphabet[k] as int == 'A' as int + k
  {
    var expected := seq(26, k requires 0 <= k < 26 => ('A' as int + k) as char);
    assert Alphabet == expected;
  }

  /**
   * `getRowLabel`: one letter for the first 26 rows, then two letters, the
   * first counting blocks of 26 rows. Rows from 702 on would index past the
   * alphabet.
   */
  function RowLabel(row: nat): (r: string)
    requires row < 702
    ensures |r| == if row < 26 then 1 else 2
    ensures forall i :: 0 <= i < |r| ==> 'A' <= r[i] <= 'Z'
  {
    AlphabetLetters();
    (if row >= 26 then [Alphabet[row / 26 - 1]] else []) + [Alphabet[row % 26]]
  }

  /** The row a label names: the inverse of `RowLabel`. */
  function LabelRow(name: string): int {
    if |name| == 1 then name[0] as int - 'A' as int
    else if |name| == 2 then (name[0] as int - 'A' as int + 1) * 26 + (name[1] as int - 'A' as int)
    else -1
  }

  /** Every row below 702 gets a label that names it back, so no two rows share a label. */
  lemma RowLabelRoundTrip(row: nat)
    requires row < 702
    ensures LabelRow(RowLabel(row)) == row
  {
    AlphabetLetters();
  }

  // ---------------------------------------------------------------------
  // Tile loop

  /** One tile of the export grid: its row, its 1-based column, its top-left corner and its id. */
  datatype Tile = Tile(row: nat, col: nat, x: nat, y: nat, id: nat)

  /** The number of whole lengths `w` that fit in `n`. */
  function Whole(n: nat, w: nat): nat
    requires w > 0
    decreases n
  {
    if n < w then 0 else 1 + Whole(n - w, w)
  }

  /** Multiplication by a natural number is monotonic. */
  lemma MulLe(a: nat, b: nat, w: nat)
    requires a <= b
    ensures a * w <= b * w
  {
    assert b * w == a * w + (b - a) * w;
  }

  /** `Whole(n, w)` lengths fit in `n` and one more does not. */
  lemma {:induction false} WholeBounds(n: nat, w: nat)
    requires w > 0
    ensures Whole(n, w) * w <= n < Whole(n, w) * w + w
    decreases n
  {
    if n >= w {
      WholeBounds(n - w, w);
      var k := Whole(n - w, w);
      assert (1 + k) * w == k * w + w;
    }
  }

  /** Any count of lengths that fits while one more does not is `Whole(n, w)`. */
  lemma {:induction false} WholeUnique(c: nat, n: nat, w: nat)
    requires w > 0 && c * w <= n < c * w + w
    ensures Whole(n, w) == c
    decreases c
  {
    if c > 0 {
      assert c * w == (c - 1) * w + w;
      WholeUnique(c - 1, n - w, w);
    }
  }

  /**
   * `t` is the `k`-th tile in row-major order on a grid `cols` tiles wide:
   * row `t.row`, column `t.col`, corner at the column's and row's offsets,
   * id `k + 1`.
   */
  predicate TileAt(t: Tile, k: nat, cols: nat, tileW: nat, tileH: nat) {
    && 1 <= t.col <= cols && t.row * cols + t.col - 1 == k
    && t.x == (t.col - 1) * tileW && t.y == t.row * tileH && t.id == k + 1
  }

  /** The column loop of one tile row: tiles left to right, ids counting up from `id`. */
  method TileRow(graphWidth: nat, tileW: nat, row: nat, y: nat, id: nat) returns (ts: seq<Tile>)
    requires tileW > 0
    ensures |ts| == Whole(graphWidth, tileW)
    ensures forall c :: 0 <= c < |ts| ==> ts[c] == Tile(row, c + 1, c * tileW, y, id + c)
  {
    ts := [];
    var x, col := 0, 1;
    while x + tileW <= graphWidth
      invariant x == (col - 1) * tileW && col >= 1 && x <= graphWidth && |ts| == col - 1
      invariant forall c :: 0 <= c < |ts| ==> ts[c] == Tile(row, c + 1, c * tileW, y, id + c)
      decreases graphWidth - x
    {
      ts := ts + [Tile(row, col, x, y, id + col - 1)];
      assert col * tileW == (col - 1) * tileW + tileW;
      x, col := x + tileW, col + 1;
    }
    WholeUnique(col - 1, graphWidth, tileW);
  }

  /** A finished row extends a row-major prefix of whole rows. */
  lemma RowDone(tiles: seq<Tile>, ts: seq<Tile>, row: nat, cols: nat, tileW: nat, tileH: nat)
    requires |tiles| == row * cols && |ts| == cols
    requires forall k :: 0 <= k < |tiles| ==> TileAt(tiles[k], k, cols, tileW, tileH)
    requires forall c :: 0 <= c < |ts| ==> ts[c] == Tile(row, c + 1, c * tileW, row * tileH, |tiles| + 1 + c)
    ensures forall k :: 0 <= k < |tiles + ts| ==> TileAt((tiles + ts)[k], k, cols, tileW, tileH)
  {
    forall k | 0 <= k < |tiles + ts| ensures TileAt((tiles + ts)[k], k, cols, tileW, tileH) {
      if k >= |tiles| {
        assert (tiles + ts)[k] == ts[k - |tiles|];
      }
    }
  }

  /**
   * The tile loops of the PNG and SVG tile exporters: rows then columns,
   * tiles of `tileW` by `tileH` pixels, stopping before a tile would cross
   * the map's edge, the id counting up from 1.
   */
  method TileLoop(graphWidth: nat, graphHeight: nat, tileW: nat, tileH: nat) returns (tiles: seq<Tile>)
    requires tileW > 0 && tileH > 0
    ensures |tiles| == Whole(graphHeight, tileH) * Whole(graphWidth, tileW)
    ensures forall k :: 0 <= k < |tiles| ==> TileAt(tiles[k], k, Whole(graphWidth, tileW), tileW, tileH)
  {
    ghost var cols := Whole(graphWidth, tileW);
    tiles := [];
    var y, row, id := 0, 0, 1;
    while y + tileH <= graphHeight
      invariant y == row * tileH && y <= graphHeight
      invariant |tiles| == row * cols && id == |tiles| + 1
      invariant forall k :: 0 <= k < |tiles| ==> TileAt(tiles[k], k, cols, tileW, tileH)
      decreases graphHeight - y
    {
      var ts := TileRow(graphWidth, tileW, row, y, id);
      RowDone(tiles, ts, row, cols, tileW, tileH);
      assert (row + 1) * cols == row * cols + cols;
      assert (row + 1) * tileH == row * tileH + tileH;
      tiles, id := tiles + ts, id + |ts|;
      y, row := y + tileH, row + 1;
    }
    WholeUnique(row, graphHeight, tileH);
  }

  /** The `i`-th of `Whole(n, w)` lengths (counting from 1) ends within `n`. */
  lemma WholeFits(i: nat, n: nat, w: nat)
    requires w > 0 && 1 <= i <= Whole(n, w)
    ensures (i - 1) * w + w <= n
  {
    WholeBounds(n, w);
    MulLe(i, Whole(n, w), w);
    assert i * w == (i - 1) * w + w;
  }

  /** A position `row * cols + c` below `rows * cols` lies in a row below `rows`. */
  lemma RowInGrid(row: nat, c: nat, rows: nat, cols: nat)
    requires row * cols + c < rows * cols
    ensures row < rows
  {
    if row >= rows {
      MulLe(rows, row, cols);
    }
  }

  /** Every tile of the loop lies wholly inside the map. */
  lemma TilesAreWhole(graphWidth: nat, graphHeight: nat, tileW: nat, tileH: nat, t: Tile, k: nat)
    requires tileW > 0 && tileH > 0
    requires k < Whole(graphHeight, tileH) * Whole(graphWidth, tileW)
    requires TileAt(t, k, Whole(graphWidth, tileW), tileW, tileH)
    ensures t.x + tileW <= graphWidth && t.y + tileH <= graphHeight
  {
    WholeFits(t.col, graphWidth, tileW);
    RowInGrid(t.row, t.col - 1, Whole(graphHeight, tileH), Whole(graphWidth, tileW));
    WholeFits(t.row + 1, graphHeight, tileH);
  }

  // ---------------------------------------------------------------------
  // Bounding box

  /** `[minX, minY, maxX, maxY]` in projected meters. */
  datatype Bbox = Bbox(minX: real, minY: real, maxX: real, maxY: real)

  /**
   * `computeFantasyBbox`: the map in meters with its top-left corner at the
   * origin and y growing upwards, so the map lies below the x axis.
   */
  function FantasyBbox(graphWidth: real, graphHeight: real, unit: string, distanceScale: real): (r: Bbox)
    ensures r.minX == 0.0 && r.maxY == 0.0
    ensures r.maxX - r.minX == graphWidth * MetersPerPixel(unit, distanceScale)
    ensures r.maxY - r.minY == graphHeight * MetersPerPixel(unit, distanceScale)
  {
    var mpp := MetersPerPixel(unit, distanceScale);
    Bbox(0.0, -graphHeight * mpp, graphWidth * mpp, 0.0)
  }

  /** With a positive scale the box is well-ordered, and strictly so for a map of positive size. */
  lemma FantasyBboxOrdered(graphWidth: real, graphHeight: real, unit: string, distanceScale: real)
    requires graphWidth > 0.0 && graphHeight > 0.0 && distanceScale > 0.0
    ensures var b := FantasyBbox(graphWidth, graphHeight, unit, distanceScale);
      b.minX < b.maxX && b.minY < b.maxY
  {
    var mpp := MetersPerPixel(unit, distanceScale);
    assert graphWidth * mpp > 0.0 && graphHeight * mpp > 0.0;
  }

  // ---------------------------------------------------------------------
  // Cell filters and aggregations

  /**
   * The per-cell arrays the exporters read: height, the four region ids,
   * the burg on the cell (0 = none), and the optional terrain layer.
   */
  datatype ExportCells = ExportCells(
    h: seq<int>, state: seq<int>, province: seq<int>, culture: seq<int>, religion: seq<int>,
    burg: seq<nat>, terrain: Option<seq<int>>)
  {
    function Size(): nat { |h| }

    predicate Valid() {
      && |state| == |h| && |province| == |h| && |culture| == |h| && |religion| == |h| && |burg| == |h|
      && (terrain.Some? ==> |terrain.value| == |h|)
    }
  }

  /** The region array a `getCellsFor` type names; `None` for an unknown type. */
  function RegionField(cells: ExportCells, kind: string): Option<seq<int>> {
    if kind == "state" then Some(cells.state)
    else if kind == "province" then Some(cells.province)
    else if kind == "culture" then Some(cells.culture)
    else if kind == "religion" then Some(cells.religion)
    else None
  }

  /** The land cells among the first `n` whose `field` value is `id`, in cell order. */
  function LandCellsWith(h: seq<int>, field: seq<int>, id: int, n: nat): seq<nat>
    requires n <= |h| && n <= |field|
  {
    if n == 0 then []
    else LandCellsWith(h, field, id, n - 1) + (if h[n - 1] >= LandHeight && field[n - 1] == id then [n - 1] else [])
  }

  /** `getCellsFor`: the land cells of one state, province, culture or religion; none for an unknown type. */
  function GetCellsFor(cells: ExportCells, kind: string, id: int): (r: seq<nat>)
    requires cells.Valid()
    ensures RegionField(cells, kind).None? ==> r == []
  {
    match RegionField(cells, kind)
    case None => []
    case Some(field) => LandCellsWith(cells.h, field, id, cells.Size())
  }

  predicate Increasing(s: seq<nat>) {
    forall a, b :: 0 <= a < b < |s| ==> s[a] < s[b]
  }

  /** The filter keeps exactly the matching land cells, each once, in increasing order. */
  lemma {:induction false} LandCellsWithMeaning(h: seq<int>, field: seq<int>, id: int, n: nat)
    requires n <= |h| && n <= |field|
    ensures forall c :: c in LandCellsWith(h, field, id, n) <==> 0 <= c < n && h[c] >= LandHeight && field[c] == id
    ensures Increasing(LandCellsWith(h, field, id, n))
  {
    if n > 0 {
      LandCellsWithMeaning(h, field, id, n - 1);
      var front := LandCellsWith(h, field, id, n - 1);
      forall a, b | 0 <= a < b < |LandCellsWith(h, field, id, n)|
        ensures LandCellsWith(h, field, id, n)[a] < LandCellsWith(h, field, id, n)[b]
      {
        if b == |front| {
          assert front[a] in front;
        }
      }
    }
  }

  /** For a known type the result is exactly the type's land cells with that id, in cell order. */
  lemma GetCellsForMeaning(cells: ExportCells, kind: string, id: int)
    requires cells.Valid() && RegionField(cells, kind).Some?
    ensures var f := RegionField(cells, kind).value;
      && (forall c :: c in GetCellsFor(cells, kind, id) <==> 0 <= c < cells.Size() && cells.h[c] >= LandHeight && f[c] == id)
      && Increasing(GetCellsFor(cells, kind, id))
  {
    LandCellsWithMeaning(cells.h, RegionField(cells, kind).value, id, cells.Size());
  }

  /** The population, in thousands, of the burgs on the cells `ids` that are urban (`urban`) or rural (not `urban`). */
  function PopulationK(cells: ExportCells, burgs: seq<Burg>, ids: seq<nat>, urban: bool): real
    requires forall k :: 0 <= k < |ids| ==> ids[k] < |cells.burg| && cells.burg[ids[k]] < |burgs|
  {
    if ids == [] then 0.0
    else
      var i := ids[|ids| - 1];
      var front := PopulationK(cells, burgs, ids[..|ids| - 1], urban);
      if cells.burg[i] == 0 then front
      else
        var k := burgs[cells.burg[i]].population;
        if (k > 0.1) == urban then front + k else front
  }

  /** The population, in thousands, of all burgs on the cells `ids`. */
  function AllPopulationK(cells: ExportCells, burgs: seq<Burg>, ids: seq<nat>): real
    requires forall k :: 0 <= k < |ids| ==> ids[k] < |cells.burg| && cells.burg[ids[k]] < |burgs|
  {
    if ids == [] then 0.0
    else
      var i := ids[|ids| - 1];
      var front := AllPopulationK(cells, burgs, ids[..|ids| - 1]);
      if cells.burg[i] == 0 then front else front + burgs[cells.burg[i]].population
  }

  /** Every burg on the cells counts once, as urban or as rural. */
  lemma {:induction false} PopulationSplit(cells: ExportCells, burgs: seq<Burg>, ids: seq<nat>)
    requires forall k :: 0 <= k < |ids| ==> ids[k] < |cells.burg| && cells.burg[ids[k]] < |burgs|
    ensures PopulationK(cells, burgs, ids, false) + PopulationK(cells, burgs, ids, true) == AllPopulationK(cells, burgs, ids)
  {
    if ids != [] {
      PopulationSplit(cells, burgs, ids[..|ids| - 1]);
    }
  }

  /** Thousands scaled to people by `factor`, rounded half up. */
  function People(k: real, factor: real): int {
    Farmland.Round(k * factor)
  }

  /** Rural, urban and total population in people. */
  datatype Population = Population(rural: int, urban: int, total: int)

  /** The loop of `aggregatePopulationByCells`: rural and urban thousands over the cells' burgs. */
  method SumPopulation(cells: ExportCells, burgs: seq<Burg>, ids: seq<nat>) returns (ruralK: real, urbanK: real)
    requires forall k :: 0 <= k < |ids| ==> ids[k] < |cells.burg| && cells.burg[ids[k]] < |burgs|
    ensures ruralK == PopulationK(cells, burgs, ids, false)
    ensures urbanK == PopulationK(cells, burgs, ids, true)
  {
    ruralK, urbanK := 0.0, 0.0;
    for j := 0 to |ids|
      invariant ruralK == PopulationK(cells, burgs, ids[..j], false)
      invariant urbanK == PopulationK(cells, burgs, ids[..j], true)
    {
      assert ids[..j + 1][..j] == ids[..j] && ids[..j + 1][j] == ids[j];
      var burgId := cells.burg[ids[j]];
      if burgId != 0 {
        var k := burgs[burgId].population;
        if k > 0.1 {
          urbanK := urbanK + k;
        } else {
          ruralK := ruralK + k;
        }
      }
    }
    assert ids[..|ids|] == ids;
  }

  /**
   * `aggregatePopulationByCells`: burgs of more than 100 people are urban,
   * the rest rural; rural thousands are scaled by the population rate,
   * urban thousands by 1000 and the urbanization factor, both rounded, and
   * the total is their sum.
   */
  method AggregatePopulationByCells(cells: ExportCells, burgs: seq<Burg>, ids: seq<nat>,
                                    populationRate: real, urbanization: real) returns (p: Population)
    requires forall k :: 0 <= k < |ids| ==> ids[k] < |cells.burg| && cells.burg[ids[k]] < |burgs|
    ensures p.rural == People(PopulationK(cells, burgs, ids, false), populationRate)
    ensures p.urban == People(PopulationK(cells, burgs, ids, true), 1000.0 * urbanization)
    ensures p.total == p.rural + p.urban
  {
    var ruralK, urbanK := SumPopulation(cells, burgs, ids);
    var rural := People(ruralK, populationRate);
    var urban := People(urbanK, 1000.0 * urbanization);
    p := Population(rural, urban, rural + urban);
  }

  // ---------------------------------------------------------------------
  // Terrain grouping

  /** The cells of one terrain code, in the order they were added. */
  datatype Group = Group(code: int, cells: seq<nat>)

  /** `byCode.get(code).push(i)`, creating the code's group at the end when it is new. */
  function AddToGroup(gs: seq<Group>, code: int, i: nat): seq<Group> {
    if gs == [] then [Group(code, [i])]
    else if gs[0].code == code then [Group(code, gs[0].cells + [i])] + gs[1..]
    else [gs[0]] + AddToGroup(gs[1..], code, i)
  }

  /** The groups of the first `n` cells, code 0 skipped. */
  function Groups(t: seq<int>, n: nat): seq<Group>
    requires n <= |t|
  {
    if n == 0 then []
    else if t[n - 1] == 0 then Groups(t, n - 1)
    else AddToGroup(Groups(t, n - 1), t[n - 1], n - 1)
  }

  /** The position of the group of `code`, or `|gs|` when there is none. */
  function CodeIndex(gs: seq<Group>, code: int): (r: nat)
    ensures r <= |gs|
    ensures r < |gs| ==> gs[r].code == code
    ensures forall m :: 0 <= m < r ==> gs[m].code != code
  {
    if gs == [] then 0 else if gs[0].code == code then 0 else 1 + CodeIndex(gs[1..], code)
  }

  /** Adding cell `i` appends it to its code's group, or opens that group at the end; the other groups stay. */
  lemma {:induction false} AddToGroupSpec(gs: seq<Group>, code: int, i: nat)
    ensures var r := AddToGroup(gs, code, i);
      var j := CodeIndex(gs, code);
      && |r| == (if j < |gs| then |gs| else |gs| + 1)
      && (forall k :: 0 <= k < |gs| && k != j ==> r[k] == gs[k])
      && r[j] == Group(code, (if j < |gs| then gs[j].cells else []) + [i])
  {
    if gs != [] && gs[0].code != code {
      AddToGroupSpec(gs[1..], code, i);
      var r := AddToGroup(gs, code, i);
      assert r == [gs[0]] + AddToGroup(gs[1..], code, i);
      forall k | 0 < k < |gs| ensures gs[k] == gs[1..][k - 1] {
      }
    } else if gs != [] {
      var r := AddToGroup(gs, code, i);
      forall k | 0 < k < |gs| ensures r[k] == gs[k] {
        assert r[k] == gs[1..][k - 1];
      }
    }
  }

  predicate GroupCodesDistinct(gs: seq<Group>) {
    forall a, b :: 0 <= a < b < |gs| ==> gs[a].code != gs[b].code
  }

  /** Every group has a non-zero code and a non-empty increasing list of cells below `n`. */
  predicate GroupsWellFormed(gs: seq<Group>, n: nat) {
    forall k :: 0 <= k < |gs| ==>
      && gs[k].code != 0 && gs[k].cells != [] && Increasing(gs[k].cells)
      && forall m :: 0 <= m < |gs[k].cells| ==> gs[k].cells[m] < n
  }

  /** A cell below `n` is in a group exactly when it has the group's code. */
  ghost predicate GroupsExact(t: seq<int>, n: nat, gs: seq<Group>)
    requires n <= |t|
  {
    forall k, c :: 0 <= k < |gs| && 0 <= c < n ==> (c in gs[k].cells <==> t[c] == gs[k].code)
  }

  /** Every non-zero code of a cell below `n` has a group. */
  predicate GroupsCover(t: seq<int>, n: nat, gs: seq<Group>)
    requires n <= |t|
  {
    forall c :: 0 <= c < n && t[c] != 0 ==> CodeIndex(gs, t[c]) < |gs|
  }

  /** The grouping of `t`'s first `n` cells: every non-zero cell in the one group of its code, in cell order. */
  ghost predicate GroupsOf(t: seq<int>, n: nat, gs: seq<Group>)
    requires n <= |t|
  {
    GroupCodesDistinct(gs) && GroupsWellFormed(gs, n) && GroupsExact(t, n, gs) && GroupsCover(t, n, gs)
  }

  /** With distinct codes, the group of `code` is the only one with that code. */
  lemma OnlyGroup(gs: seq<Group>, code: int)
    requires GroupCodesDistinct(gs)
    ensures forall k :: 0 <= k < |gs| && gs[k].code == code ==> CodeIndex(gs, code) == k
  {
  }

  lemma AddKeepsDistinct(gs: seq<Group>, code: int, i: nat)
    requires GroupCodesDistinct(gs)
    ensures GroupCodesDistinct(AddToGroup(gs, code, i))
  {
    AddToGroupSpec(gs, code, i);
  }

  lemma AddKeepsWellFormed(gs: seq<Group>, n: nat, code: int)
    requires GroupsWellFormed(gs, n) && code != 0
    ensures GroupsWellFormed(AddToGroup(gs, code, n), n + 1)
  {
    AddToGroupSpec(gs, code, n);
    var r := AddToGroup(gs, code, n);
    var j := CodeIndex(gs, code);
    if j < |gs| {
      var old_cells := gs[j].cells;
      forall a, b | 0 <= a < b < |r[j].cells| ensures r[j].cells[a] < r[j].cells[b] {
        if b == |old_cells| {
          assert old_cells[a] < n;
        }
      }
    }
  }

  lemma AddKeepsExact(t: seq<int>, n: nat, gs: seq<Group>)
    requires n < |t| && t[n] != 0
    requires GroupCodesDistinct(gs) && GroupsWellFormed(gs, n) && GroupsExact(t, n, gs) && GroupsCover(t, n, gs)
    ensures GroupsExact(t, n + 1, AddToGroup(gs, t[n], n))
  {
    var code := t[n];
    AddToGroupSpec(gs, code, n);
    var r := AddToGroup(gs, code, n);
    var j := CodeIndex(gs, code);
    OnlyGroup(gs, code);
    forall k, c | 0 <= k < |r| && 0 <= c < n + 1 ensures c in r[k].cells <==> t[c] == r[k].code {
      if k != j {
        if c == n {
          assert n !in gs[k].cells;
        }
      } else if c < n && j == |gs| {
        assert t[c] != code;
      }
    }
  }

  lemma AddKeepsCover(t: seq<int>, n: nat, gs: seq<Group>)
    requires n < |t| && t[n] != 0 && GroupsCover(t, n, gs)
    ensures GroupsCover(t, n + 1, AddToGroup(gs, t[n], n))
  {
    var code := t[n];
    AddToGroupSpec(gs, code, n);
    var r := AddToGroup(gs, code, n);
    forall c | 0 <= c < n + 1 && t[c] != 0 ensures CodeIndex(r, t[c]) < |r| {
      var j := CodeIndex(gs, t[c]);
      if c == n {
        j := CodeIndex(gs, code);
      }
      assert r[j].code == t[c] by {
        if c == n {
        } else {
          assert gs[j].code == t[c];
        }
      }
    }
  }

  /** One more cell keeps the grouping exact. */
  lemma GroupsStep(t: seq<int>, n: nat)
    requires n < |t| && GroupsOf(t, n, Groups(t, n))
    ensures GroupsOf(t, n + 1, Groups(t, n + 1))
  {
    var gs := Groups(t, n);
    if t[n] != 0 {
      assert Groups(t, n + 1) == AddToGroup(gs, t[n], n);
      AddKeepsDistinct(gs, t[n], n);
      AddKeepsWellFormed(gs, n, t[n]);
      AddKeepsExact(t, n, gs);
      AddKeepsCover(t, n, gs);
    } else {
      assert Groups(t, n + 1) == gs;
      assert GroupsWellFormed(gs, n + 1);
    }
  }

  /** The grouping of every prefix of the cells is exact. */
  lemma {:induction false} GroupsMeaning(t: seq<int>, n: nat)
    requires n <= |t|
    ensures GroupsOf(t, n, Groups(t, n))
  {
    if n > 0 {
      GroupsMeaning(t, n - 1);
      GroupsStep(t, n - 1);
    }
  }

  /**
   * The grouping loop of `buildGeoJsonTerrain`: cells in order, code 0
   * skipped, each cell appended to its code's group; no terrain layer gives
   * no groups.
   */
  method GroupByCode(cells: ExportCells) returns (gs: seq<Group>)
    requires cells.Valid()
    ensures cells.terrain.None? ==> gs == []
    ensures cells.terrain.Some? ==> gs == Groups(cells.terrain.value, cells.Size())
  {
    gs := [];
    if cells.terrain.None? {
      return;
    }
    var t := cells.terrain.value;
    for i := 0 to cells.Size()
      invariant gs == Groups(t, i)
    {
      var code := t[i];
      if code != 0 {
        gs := AddToGroup(gs, code, i);
      }
    }
  }
}
