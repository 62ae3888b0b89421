/**
 * Farmland allocator rules (modules/farmland-allocator.js): options, the
 * settlement quota, the suitability score, the candidate filter, the
 * cultivation intensity, the candidate ordering and the greedy claim walk.
 */
module Farmland {
  import opened Wrappers
  import opened TerrainCodes
  import opened EnvSurfaces
  import opened MapData

  /** `FarmlandAllocator.defaults()` fields. */
  datatype Options = Options(cellsPerThousand: real, maxSteps: int, maxSlope: real, minFSS: real)

  function Defaults(): Options {
    Options(4.0, 45, 6.0, 5.0)
  }

  /** A cell reached by a settlement's search: its rank score, suitability and hop distance. */
  datatype Candidate = Candidate(cell: nat, score: real, fss: real, dist: nat)

  // ---------------------------------------------------------------------
  // Quota

  /** `Math.round`: the nearest integer, halves rounded up. */
  function Round(x: real): (r: int)
    ensures r as real - 0.5 <= x < r as real + 0.5
  {
    (x + 0.5).Floor
  }

  /** `required = max(0, round(population * cellsPerThousand))`. */
  function Required(population: real, cellsPerThousand: real): (r: nat)
    ensures population * cellsPerThousand < 0.5 ==> r == 0
    ensures population * cellsPerThousand >= 0.5 ==>
      r as real - 0.5 <= population * cellsPerThousand < r as real + 0.5
  {
    MaxInt(0, Round(population * cellsPerThousand))
  }

  // ---------------------------------------------------------------------
  // Suitability and the candidate filter

  /** Base suitability by biome code. */
  function BiomeBase(biome: int): real {
    if biome == 4 then 25.0
    else if biome == 3 then 18.0
    else if biome == 5 || biome == 6 || biome == 8 then 12.0
    else if biome == 2 || biome == 1 then 4.0
    else 8.0
  }

  /**
   * The inner `suitability(i)`: biome base plus the capped hydric bonus
   * minus the capped slope penalty, floored at 0. An absent surface adds nothing.
   */
  function Suitability(biome: int, hydric: Option<real>, slope: Option<real>): (r: real)
    ensures r >= 0.0
    ensures (slope.None? || slope.value >= 0.0) ==> r <= 45.0
    ensures hydric.None? && slope.None? ==> r == BiomeBase(biome)
  {
    var base := BiomeBase(biome);
    var withHydric := if hydric.Some? then base + MinReal(hydric.value, 20.0) else base;
    var withSlope := if slope.Some? then withHydric - MinReal(slope.value * 2.0, 20.0) else withHydric;
    MaxReal(0.0, withSlope)
  }

  /** The terrain codes a settlement never farms. */
  predicate Disallowed(t: int) {
    t == Ocean || t == Lake || t == GlacierIce || t == Mountains || t == Dunes
  }

  /** `isAllowed`: permitted terrain, slope within bound (when slope is known), and land. */
  predicate Allowed(t: int, slope: Option<real>, h: int, maxSlope: real) {
    !Disallowed(t) && (slope.Some? ==> slope.value <= maxSlope) && h >= LandHeight
  }

  function SlopeOf(surf: Option<Surfaces>, i: nat): Option<real>
    requires surf.Some? ==> i < |surf.value.slope|
  {
    if surf.Some? then Some(surf.value.slope[i]) else None
  }

  function HydricOf(surf: Option<Surfaces>, i: nat): Option<real>
    requires surf.Some? ==> i < |surf.value.hydric|
  {
    if surf.Some? then Some(surf.value.hydric[i]) else None
  }

  /** The stored surfaces cover every cell (or are absent). */
  predicate SurfacesFit(surf: Option<Surfaces>, n: nat) {
    surf.Some? ==> |surf.value.slope| == n && |surf.value.hydric| == n
  }

  /** Suitability of cell `i` from its biome and the stored surfaces. */
  function CellFss(cells: Mesh, surf: Option<Surfaces>, i: nat): real
    requires cells.Valid() && i < cells.Size() && SurfacesFit(surf, cells.Size())
  {
    Suitability(cells.BiomeAt(i), HydricOf(surf, i), SlopeOf(surf, i))
  }

  /** A cell the search turns into a candidate (before the distance bound). */
  predicate Eligible(cells: Mesh, terrain: seq<int>, surf: Option<Surfaces>, o: Options, i: nat)
    requires cells.Valid() && |terrain| == cells.Size() && i < cells.Size() && SurfacesFit(surf, cells.Size())
  {
    Allowed(terrain[i], SlopeOf(surf, i), cells.h[i], o.maxSlope) && CellFss(cells, surf, i) >= o.minFSS
  }

  /** Rank score with linear distance decay. */
  function Score(fss: real, dist: nat): real {
    fss - dist as real * 0.4
  }

  // ---------------------------------------------------------------------
  // Intensity

  /** Cultivation intensity from normalised suitability and normalised inverse distance. */
  function Intensity(fss: real, dist: nat, maxSteps: int): (r: real)
    ensures 0.2 <= r <= 1.0
  {
    var fssNorm := MinReal(fss / 30.0, 1.0);
    var distNorm := MaxReal(0.0, 1.0 - dist as real / MaxInt(1, maxSteps) as real);
    DistNormAtMostOne(dist, MaxInt(1, maxSteps));
    MaxReal(0.2, 0.6 * fssNorm + 0.4 * distNorm)
  }

  lemma DistNormAtMostOne(dist: nat, m: int)
    requires m >= 1
    ensures 1.0 - dist as real / m as real <= 1.0
  {
    assert dist as real / m as real >= 0.0;
  }

  // ---------------------------------------------------------------------
  // Candidate ordering

  predicate NonIncreasing(s: seq<Candidate>) {
    forall a, b :: 0 <= a < b < |s| ==> s[a].score >= s[b].score
  }

  /** Inserts `x` after every element whose score is at least its own. */
  function InsertByScore(x: Candidate, s: seq<Candidate>): (r: seq<Candidate>)
    ensures |r| == |s| + 1
  {
    if s == [] then [x]
    else if s[0].score >= x.score then [s[0]] + InsertByScore(x, s[1..])
    else [x] + s
  }

  /** Insertion adds exactly `x` to the list. */
  lemma {:induction false} InsertByScorePermutes(x: Candidate, s: seq<Candidate>)
    ensures multiset(InsertByScore(x, s)) == multiset(s) + multiset{x}
  {
    if s != [] && s[0].score >= x.score {
      var rest := InsertByScore(x, s[1..]);
      InsertByScorePermutes(x, s[1..]);
      assert InsertByScore(x, s) == [s[0]] + rest;
      assert multiset([s[0]] + rest) == multiset{s[0]} + multiset(rest);
      assert s == [s[0]] + s[1..];
    }
  }

  /** Insertion keeps a non-increasing list non-increasing. */
  lemma {:induction false} InsertByScoreSorted(x: Candidate, s: seq<Candidate>)
    requires NonIncreasing(s)
    ensures NonIncreasing(InsertByScore(x, s))
  {
    if s == [] {
    } else if s[0].score >= x.score {
      var rest := InsertByScore(x, s[1..]);
      InsertByScoreSorted(x, s[1..]);
      InsertByScorePermutes(x, s[1..]);
      var r := [s[0]] + rest;
      assert InsertByScore(x, s) == r;
      forall i, j | 0 <= i < j < |r| ensures r[i].score >= r[j].score {
        assert r[j] == rest[j - 1];
        if i > 0 {
          assert r[i] == rest[i - 1];
        } else {
          assert rest[j - 1] in multiset(rest);
          if rest[j - 1] != x {
            assert rest[j - 1] in multiset(s[1..]);
            var m :| 0 <= m < |s[1..]| && s[1..][m] == rest[j - 1];
            assert s[m + 1] == rest[j - 1];
          }
        }
      }
    } else {
      var r := [x] + s;
      assert InsertByScore(x, s) == r;
      forall i, j | 0 <= i < j < |r| ensures r[i].score >= r[j].score {
        if i > 0 {
          assert r[i] == s[i - 1] && r[j] == s[j - 1];
        } else {
          assert r[j] == s[j - 1];
          assert s[0].score >= s[j - 1].score;
        }
      }
    }
  }

  /**
   * `candidates.sort((a, b) => b.score - a.score)`: insertion of the last
   * candidate into the sorted front, which keeps equal scores in input order.
   */
  function SortByScore(cs: seq<Candidate>): (r: seq<Candidate>)
    ensures |r| == |cs|
  {
    if cs == [] then []
    else InsertByScore(cs[|cs| - 1], SortByScore(cs[..|cs| - 1]))
  }

  /** The sorted candidates are in non-increasing score order and a permutation of the input. */
  lemma {:induction false} SortByScoreSorted(cs: seq<Candidate>)
    ensures NonIncreasing(SortByScore(cs)) && multiset(SortByScore(cs)) == multiset(cs)
  {
    if cs != [] {
      var front := cs[..|cs| - 1];
      SortByScoreSorted(front);
      InsertByScoreSorted(cs[|cs| - 1], SortByScore(front));
      InsertByScorePermutes(cs[|cs| - 1], SortByScore(front));
      assert cs == front + [cs[|cs| - 1]];
    }
  }

  /** The candidates of `s` whose score is exactly `v`, in list order. */
  function WithScore(s: seq<Candidate>, v: real): seq<Candidate> {
    if s == [] then [] else (if s[0].score == v then [s[0]] else []) + WithScore(s[1..], v)
  }

  /** Filtering by score distributes over appending one candidate. */
  lemma {:induction false} WithScoreSnoc(s: seq<Candidate>, x: Candidate, v: real)
    ensures WithScore(s + [x], v) == WithScore(s, v) + (if x.score == v then [x] else [])
  {
    if s != [] {
      assert (s + [x])[1..] == s[1..] + [x];
      WithScoreSnoc(s[1..], x, v);
    }
  }

  /** A non-increasing list whose head scores below `v` holds nothing of score `v`. */
  lemma {:induction false} WithScoreBelow(s: seq<Candidate>, v: real)
    requires NonIncreasing(s) && s != [] && s[0].score < v
    ensures WithScore(s, v) == []
  {
    if |s| > 1 {
      assert NonIncreasing(s[1..]) by {
        forall a, b | 0 <= a < b < |s[1..]| ensures s[1..][a].score >= s[1..][b].score {
          assert s[1..][a] == s[a + 1] && s[1..][b] == s[b + 1];
        }
      }
      assert s[1] == s[1..][0];
      WithScoreBelow(s[1..], v);
    }
  }

  /** Insertion places `x` after every candidate of equal score. */
  lemma {:induction false} InsertByScoreStable(x: Candidate, s: seq<Candidate>, v: real)
    requires NonIncreasing(s)
    ensures WithScore(InsertByScore(x, s), v) == WithScore(s, v) + (if x.score == v then [x] else [])
  {
    if s == [] {
    } else if s[0].score >= x.score {
      assert NonIncreasing(s[1..]) by {
        forall a, b | 0 <= a < b < |s[1..]| ensures s[1..][a].score >= s[1..][b].score {
          assert s[1..][a] == s[a + 1] && s[1..][b] == s[b + 1];
        }
      }
      var rest := InsertByScore(x, s[1..]);
      InsertByScoreStable(x, s[1..], v);
      assert InsertByScore(x, s) == [s[0]] + rest;
      assert ([s[0]] + rest)[1..] == rest;
    } else {
      assert InsertByScore(x, s) == [x] + s;
      assert ([x] + s)[1..] == s;
      if x.score == v {
        WithScoreBelow(s, v);
      }
    }
  }

  /**
   * The sort is stable: for every score, the candidates with that score keep
   * their relative input order, as `Array.prototype.sort` guarantees.
   */
  lemma {:induction false} SortByScoreStable(cs: seq<Candidate>, v: real)
    ensures WithScore(SortByScore(cs), v) == WithScore(cs, v)
  {
    if cs != [] {
      var front, x := cs[..|cs| - 1], cs[|cs| - 1];
      SortByScoreStable(front, v);
      SortByScoreSorted(front);
      InsertByScoreStable(x, SortByScore(front), v);
      assert cs == front + [x];
      WithScoreSnoc(front, x, v);
    }
  }

  /** Insertion keeps the cells distinct when the cell of `x` is not yet in the list. */
  lemma {:induction false} InsertKeepsDistinct(x: Candidate, s: seq<Candidate>)
    requires DistinctCells(s) && forall k :: 0 <= k < |s| ==> s[k].cell != x.cell
    ensures DistinctCells(InsertByScore(x, s))
  {
    if s != [] && s[0].score >= x.score {
      var rest := InsertByScore(x, s[1..]);
      InsertKeepsDistinct(x, s[1..]);
      InsertByScorePermutes(x, s[1..]);
      var r := [s[0]] + rest;
      assert InsertByScore(x, s) == r;
      forall i, j | 0 <= i < j < |r| ensures r[i].cell != r[j].cell {
        assert r[j] == rest[j - 1];
        if i > 0 {
          assert r[i] == rest[i - 1];
        } else {
          assert rest[j - 1] in multiset(rest);
          if rest[j - 1] != x {
            assert rest[j - 1] in multiset(s[1..]);
            var m :| 0 <= m < |s[1..]| && s[1..][m] == rest[j - 1];
            assert s[m + 1] == rest[j - 1];
          }
        }
      }
    } else if s != [] {
      var r := [x] + s;
      assert InsertByScore(x, s) == r;
      forall i, j | 0 <= i < j < |r| ensures r[i].cell != r[j].cell {
        assert r[j] == s[j - 1];
        if i > 0 {
          assert r[i] == s[i - 1];
        }
      }
    }
  }

  /** Sorting keeps the cells distinct. */
  lemma {:induction false} SortKeepsDistinct(cs: seq<Candidate>)
    requires DistinctCells(cs)
    ensures DistinctCells(SortByScore(cs))
  {
    if cs != [] {
      var front, x := cs[..|cs| - 1], cs[|cs| - 1];
      assert DistinctCells(front) by {
        forall a, b | 0 <= a < b < |front| ensures front[a].cell != front[b].cell {
          assert front[a] == cs[a] && front[b] == cs[b];
        }
      }
      SortKeepsDistinct(front);
      SortByScoreSorted(front);
      var sf := SortByScore(front);
      forall k | 0 <= k < |sf| ensures sf[k].cell != x.cell {
        assert sf[k] in multiset(front);
        var m :| 0 <= m < |front| && front[m] == sf[k];
        assert cs[m] == sf[k];
      }
      InsertKeepsDistinct(x, sf);
    }
  }

  // ---------------------------------------------------------------------
  // Greedy claim walk

  predicate CellsIn(s: seq<Candidate>, n: nat) {
    forall k :: 0 <= k < |s| ==> s[k].cell < n
  }

  predicate DistinctCells(s: seq<Candidate>) {
    forall a, b :: 0 <= a < b < |s| ==> s[a].cell != s[b].cell
  }

  /**
   * The cells the claim loop takes from the sorted list `s`: walking in
   * order while fewer than `quota` are taken, it skips cells already claimed
   * in this run (`claimed`, the run-wide `visitedGlobal`) and wetland cells,
   * and takes every other one, marking it claimed.
   */
  function Pick(s: seq<Candidate>, quota: int, claimed: seq<bool>, terrain: seq<int>): seq<Candidate>
    requires CellsIn(s, |claimed|) && |terrain| == |claimed|
  {
    if s == [] || quota <= 0 then []
    else if claimed[s[0].cell] || terrain[s[0].cell] == Wetland then Pick(s[1..], quota, claimed, terrain)
    else [s[0]] + Pick(s[1..], quota - 1, claimed[s[0].cell := true], terrain)
  }

  /** The candidates of `s` the claim loop may take: not yet claimed and not wetland. */
  function Admissible(s: seq<Candidate>, claimed: seq<bool>, terrain: seq<int>): seq<Candidate>
    requires CellsIn(s, |claimed|) && |terrain| == |claimed|
  {
    if s == [] then []
    else if claimed[s[0].cell] || terrain[s[0].cell] == Wetland then Admissible(s[1..], claimed, terrain)
    else [s[0]] + Admissible(s[1..], claimed, terrain)
  }

  function Take(s: seq<Candidate>, q: int): seq<Candidate> {
    if q <= 0 then [] else if q >= |s| then s else s[..q]
  }

  /**
   * The claims of one walk: at most `quota` of them, on distinct cells,
   * none of which was claimed before the walk.
   */
  lemma {:induction false} PickFresh(s: seq<Candidate>, quota: int, claimed: seq<bool>, terrain: seq<int>)
    requires CellsIn(s, |claimed|) && |terrain| == |claimed|
    ensures var p := Pick(s, quota, claimed, terrain);
      && |p| <= (if quota < 0 then 0 else quota)
      && CellsIn(p, |claimed|) && DistinctCells(p)
      && forall k :: 0 <= k < |p| ==> !claimed[p[k].cell]
  {
    if s != [] && quota > 0 {
      var c := s[0].cell;
      if claimed[c] || terrain[c] == Wetland {
        PickFresh(s[1..], quota, claimed, terrain);
      } else {
        var rest := Pick(s[1..], quota - 1, claimed[c := true], terrain);
        PickFresh(s[1..], quota - 1, claimed[c := true], terrain);
        assert Pick(s, quota, claimed, terrain) == [s[0]] + rest;
        ConsFresh(s[0], rest, claimed);
      }
    }
  }

  /** A fresh cell in front of fresh claims that avoid it keeps the claims fresh and distinct. */
  lemma ConsFresh(x: Candidate, rest: seq<Candidate>, claimed: seq<bool>)
    requires x.cell < |claimed| && !claimed[x.cell]
    requires CellsIn(rest, |claimed|) && DistinctCells(rest)
    requires forall k :: 0 <= k < |rest| ==> !claimed[x.cell := true][rest[k].cell]
    ensures CellsIn([x] + rest, |claimed|) && DistinctCells([x] + rest)
    ensures forall k :: 0 <= k < |[x] + rest| ==> !claimed[([x] + rest)[k].cell]
  {
    var p := [x] + rest;
    assert forall k :: 0 < k < |p| ==> p[k] == rest[k - 1];
    forall k | 0 <= k < |rest| ensures rest[k].cell != x.cell && !claimed[rest[k].cell] {
      assert !claimed[x.cell := true][rest[k].cell];
    }
  }

  /** Marking a cell that does not occur in `s` leaves the admissible candidates of `s` unchanged. */
  lemma {:induction false} AdmissibleIgnoresOtherCells(s: seq<Candidate>, claimed: seq<bool>, terrain: seq<int>, c: nat)
    requires CellsIn(s, |claimed|) && |terrain| == |claimed| && c < |claimed|
    requires forall k :: 0 <= k < |s| ==> s[k].cell != c
    ensures Admissible(s, claimed[c := true], terrain) == Admissible(s, claimed, terrain)
  {
    if s != [] {
      AdmissibleIgnoresOtherCells(s[1..], claimed, terrain, c);
    }
  }

  /**
   * Reference definition of the greedy walk: over a list with distinct
   * cells it takes exactly the first `quota` admissible candidates.
   */
  lemma {:induction false} PickIsTakeOfAdmissible(s: seq<Candidate>, quota: int, claimed: seq<bool>, terrain: seq<int>)
    requires CellsIn(s, |claimed|) && |terrain| == |claimed| && DistinctCells(s)
    ensures Pick(s, quota, claimed, terrain) == Take(Admissible(s, claimed, terrain), quota)
  {
    if s == [] || quota <= 0 {
    } else if claimed[s[0].cell] || terrain[s[0].cell] == Wetland {
      PickIsTakeOfAdmissible(s[1..], quota, claimed, terrain);
    } else {
      var c := s[0].cell;
      TailAvoidsHead(s);
      AdmissibleIgnoresOtherCells(s[1..], claimed, terrain, c);
      PickIsTakeOfAdmissible(s[1..], quota - 1, claimed[c := true], terrain);
      var rest := Admissible(s[1..], claimed, terrain);
      assert Admissible(s, claimed, terrain) == [s[0]] + rest;
      assert Take([s[0]] + rest, quota) == [s[0]] + Take(rest, quota - 1);
    }
  }

  lemma TailAvoidsHead(s: seq<Candidate>)
    requires s != [] && DistinctCells(s)
    ensures DistinctCells(s[1..])
    ensures forall k :: 0 <= k < |s[1..]| ==> s[1..][k].cell != s[0].cell
  {
  }

  /** Elements of the admissible list come from `s` and pass the claim checks. */
  lemma {:induction false} AdmissibleMembers(s: seq<Candidate>, claimed: seq<bool>, terrain: seq<int>)
    requires CellsIn(s, |claimed|) && |terrain| == |claimed|
    ensures forall x :: x in Admissible(s, claimed, terrain) ==>
      x in s && !claimed[x.cell] && terrain[x.cell] != Wetland
    ensures forall x :: x in s && !claimed[x.cell] && terrain[x.cell] != Wetland ==> x in Admissible(s, claimed, terrain)
  {
    if s != [] {
      AdmissibleMembers(s[1..], claimed, terrain);
    }
  }

  /** Filtering keeps the score order. */
  lemma {:induction false} AdmissibleKeepsOrder(s: seq<Candidate>, claimed: seq<bool>, terrain: seq<int>)
    requires CellsIn(s, |claimed|) && |terrain| == |claimed| && NonIncreasing(s)
    ensures NonIncreasing(Admissible(s, claimed, terrain))
  {
    if s != [] {
      AdmissibleKeepsOrder(s[1..], claimed, terrain);
      AdmissibleMembers(s[1..], claimed, terrain);
      var rest := Admissible(s[1..], claimed, terrain);
      assert forall k :: 0 <= k < |rest| ==> rest[k] in s[1..];
    }
  }

  /**
   * The quota bound and the top-score property of one settlement's claims:
   * at most `quota` cells, all admissible, fewer only when every admissible
   * candidate is taken, and none scoring below an admissible candidate left out.
   */
  lemma PickTakesTopAdmissible(s: seq<Candidate>, quota: int, claimed: seq<bool>, terrain: seq<int>)
    requires CellsIn(s, |claimed|) && |terrain| == |claimed| && DistinctCells(s) && NonIncreasing(s)
    ensures var p := Pick(s, quota, claimed, terrain);
      && |p| <= (if quota < 0 then 0 else quota)
      && (forall x :: x in p ==> x in s && !claimed[x.cell] && terrain[x.cell] != Wetland)
      && (|p| < quota ==> forall x :: x in s && !claimed[x.cell] && terrain[x.cell] != Wetland ==> x in p)
      && (forall x, y :: x in p && y in s && !claimed[y.cell] && terrain[y.cell] != Wetland && y !in p ==>
            x.score >= y.score)
  {
    var a := Admissible(s, claimed, terrain);
    PickIsTakeOfAdmissible(s, quota, claimed, terrain);
    AdmissibleMembers(s, claimed, terrain);
    AdmissibleKeepsOrder(s, claimed, terrain);
    var p := Pick(s, quota, claimed, terrain);
    assert p == Take(a, quota);
    forall x, y | x in p && y in s && !claimed[y.cell] && terrain[y.cell] != Wetland && y !in p
      ensures x.score >= y.score
    {
      assert y in a;
      var i :| 0 <= i < |p| && p[i] == x;
      var j :| 0 <= j < |a| && a[j] == y;
      assert 0 < quota < |a|;
      assert p == a[..quota];
      assert a[i] == x;
      assert j >= quota;
    }
  }
}
