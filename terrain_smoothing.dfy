/**
 * `smoothTerrain` (modules/terrain-generator.js): a majority filter over
 * each cell's neighbourhood. Excluded codes neither change nor vote; the
 * cell's own code is counted first in an insertion-ordered tally, and a
 * code wins only with a strictly greater count, so ties go to the code
 * counted first.
 */
module TerrainSmoothing {
  import opened TerrainCodes
  import opened EnvSurfaces
  import opened MapData

  /** One entry of the insertion-ordered tally (the `counts` map): a code and its number of votes. */
  datatype Entry = Entry(code: int, count: nat)

  /** `counts.set(v, (counts.get(v) || 0) + 1)`: one more vote for `v`, appended as a new entry when `v` is new. */
  function Add(entries: seq<Entry>, v: int): seq<Entry> {
    if entries == [] then [Entry(v, 1)]
    else if entries[0].code == v then [Entry(v, entries[0].count + 1)] + entries[1..]
    else [entries[0]] + Add(entries[1..], v)
  }

  /** The tally of the votes, in order of first appearance. */
  function Tally(votes: seq<int>): seq<Entry> {
    if votes == [] then [] else Add(Tally(votes[..|votes| - 1]), votes[|votes| - 1])
  }

  /** The codes of the neighbours in `nb` that are not excluded, in neighbour order. */
  function NeighbourVotes(t: seq<int>, nb: seq<nat>, exclude: set<int>): seq<int>
    requires IdsIn(nb, |t|)
  {
    if nb == [] then []
    else
      var v := t[nb[|nb| - 1]];
      NeighbourVotes(t, nb[..|nb| - 1], exclude) + (if v in exclude then [] else [v])
  }

  /** The votes of a cell with code `cur`: its own code first, then its neighbours' votes. */
  function Ballot(t: seq<int>, nb: seq<nat>, exclude: set<int>, cur: int): seq<int>
    requires IdsIn(nb, |t|)
  {
    [cur] + NeighbourVotes(t, nb, exclude)
  }

  /** The scan over the tally in insertion order: an entry replaces the best only with a strictly greater count. */
  function Scan(entries: seq<Entry>, best: int, bestCount: int): (int, int) {
    if entries == [] then (best, bestCount)
    else if entries[0].count > bestCount then Scan(entries[1..], entries[0].code, entries[0].count)
    else Scan(entries[1..], best, bestCount)
  }

  /** The code the scan picks for a non-empty vote list, starting from the first vote and count -1. */
  function Winner(votes: seq<int>): int
    requires votes != []
  {
    Scan(Tally(votes), votes[0], -1).0
  }

  /** The new code of a cell with code `cur` and neighbour list `nb`, read from the pre-pass codes `t`. */
  function SmoothedCode(t: seq<int>, nb: seq<nat>, exclude: set<int>, cur: int): int
    requires IdsIn(nb, |t|)
  {
    if cur in exclude then cur else Winner(Ballot(t, nb, exclude, cur))
  }

  /** One pass: every cell's new code computed from the codes before the pass. */
  function SmoothPass(t: seq<int>, nbrs: seq<seq<nat>>, exclude: set<int>): (r: seq<int>)
    requires NeighboursInRange(nbrs, |t|)
    ensures |r| == |t|
  {
    seq(|t|, i requires 0 <= i < |t| => SmoothedCode(t, NeighboursOf(nbrs, i), exclude, t[i]))
  }

  /** `rounds` passes, one after the other. */
  function SmoothRounds(t: seq<int>, nbrs: seq<seq<nat>>, exclude: set<int>, rounds: nat): (r: seq<int>)
    requires NeighboursInRange(nbrs, |t|)
    ensures |r| == |t|
  {
    if rounds == 0 then t else SmoothPass(SmoothRounds(t, nbrs, exclude, rounds - 1), nbrs, exclude)
  }

  /** The codes the generator excludes: ocean, lake and glacier ice. */
  function WaterAndIce(): set<int> {
    {Ocean, Lake, GlacierIce}
  }

  // ---------------------------------------------------------------------
  // The tally

  predicate HasCode(entries: seq<Entry>, v: int) {
    exists k :: 0 <= k < |entries| && entries[k].code == v
  }

  predicate DistinctCodes(entries: seq<Entry>) {
    forall a, b :: 0 <= a < b < |entries| ==> entries[a].code != entries[b].code
  }

  /** A vote for `v` adds one to the entry of `v`, or appends a new entry with count 1. */
  lemma {:induction false} AddSpec(entries: seq<Entry>, v: int)
    requires DistinctCodes(entries)
    ensures |Add(entries, v)| == |entries| + (if HasCode(entries, v) then 0 else 1)
    ensures forall k :: 0 <= k < |entries| ==>
      Add(entries, v)[k].code == entries[k].code
      && Add(entries, v)[k].count == entries[k].count + (if entries[k].code == v then 1 else 0)
    ensures !HasCode(entries, v) ==> Add(entries, v)[|entries|] == Entry(v, 1)
  {
    if entries != [] && entries[0].code != v {
      var rest := entries[1..];
      assert DistinctCodes(rest) by {
        forall a, b | 0 <= a < b < |rest| ensures rest[a].code != rest[b].code {
          assert rest[a] == entries[a + 1] && rest[b] == entries[b + 1];
        }
      }
      AddSpec(rest, v);
      var r := Add(entries, v);
      assert r == [entries[0]] + Add(rest, v);
      assert HasCode(entries, v) <==> HasCode(rest, v) by {
        if HasCode(entries, v) {
          var k :| 0 <= k < |entries| && entries[k].code == v;
          assert rest[k - 1] == entries[k];
        }
        if HasCode(rest, v) {
          var k :| 0 <= k < |rest| && rest[k].code == v;
          assert entries[k + 1] == rest[k];
        }
      }
      forall k | 0 < k < |entries|
        ensures r[k].code == entries[k].code && r[k].count == entries[k].count + (if entries[k].code == v then 1 else 0)
      {
        assert r[k] == Add(rest, v)[k - 1] && entries[k] == rest[k - 1];
      }
    } else if entries != [] {
      assert HasCode(entries, v);
      var r := Add(entries, v);
      forall k | 0 < k < |entries| ensures r[k] == entries[k] && entries[k].code != v {
        assert r[k] == entries[1..][k - 1];
      }
    }
  }

  /** Each entry of `T` holds its code's number of votes in `votes`. */
  predicate CountsMatch(votes: seq<int>, T: seq<Entry>) {
    forall k :: 0 <= k < |T| ==> T[k].count == multiset(votes)[T[k].code]
  }

  /** Exactly the codes voted for have an entry in `T`. */
  ghost predicate CodesMatch(votes: seq<int>, T: seq<Entry>) {
    forall v :: v in votes <==> HasCode(T, v)
  }

  /** A new vote keeps the counts right. */
  lemma AddKeepsCounts(front: seq<int>, v: int, F: seq<Entry>)
    requires CountsMatch(front, F) && CodesMatch(front, F) && DistinctCodes(F)
    ensures CountsMatch(front + [v], Add(F, v))
  {
    AddSpec(F, v);
    var T := Add(F, v);
    var votes := front + [v];
    forall k | 0 <= k < |T| ensures T[k].count == multiset(votes)[T[k].code] {
      if k == |F| {
        assert T[k] == Entry(v, 1);
        assert v !in front;
      }
    }
  }

  /** A new vote keeps the codes distinct and exactly the voted ones. */
  lemma AddKeepsCodes(front: seq<int>, v: int, F: seq<Entry>)
    requires CodesMatch(front, F) && DistinctCodes(F)
    ensures CodesMatch(front + [v], Add(F, v)) && DistinctCodes(Add(F, v))
  {
    AddSpec(F, v);
    var T := Add(F, v);
    var votes := front + [v];
    forall a, b | 0 <= a < b < |T| ensures T[a].code != T[b].code {
      if b == |F| {
        assert !HasCode(F, v);
      }
    }
    forall u ensures u in votes <==> HasCode(T, u) {
      if u in votes {
        if u != v {
          assert u in front;
        }
        var k :| 0 <= k < |T| && T[k].code == u by {
          if u == v && !HasCode(F, v) {
            assert T[|F|].code == v;
          } else {
            var m :| 0 <= m < |F| && F[m].code == u;
            assert T[m].code == u;
          }
        }
      }
      if HasCode(T, u) {
        var k :| 0 <= k < |T| && T[k].code == u;
        if k < |F| {
          assert F[k].code == u;
        }
      }
    }
  }

  /**
   * The tally counts every vote: each entry holds a code's number of votes,
   * no code appears twice, exactly the voted codes appear, and the first
   * vote's code comes first.
   */
  lemma {:induction false} TallySpec(votes: seq<int>)
    ensures var T := Tally(votes);
      && CountsMatch(votes, T)
      && DistinctCodes(T)
      && CodesMatch(votes, T)
      && (votes != [] ==> T[0].code == votes[0])
  {
    if votes != [] {
      var front, v := votes[..|votes| - 1], votes[|votes| - 1];
      assert votes == front + [v];
      TallySpec(front);
      var F := Tally(front);
      assert Tally(votes) == Add(F, v);
      AddKeepsCounts(front, v, F);
      AddKeepsCodes(front, v, F);
      if front != [] {
        AddSpec(F, v);
        assert front[0] == votes[0];
      }
    }
  }

  /**
   * The scan ends with the largest count seen (at least the starting one);
   * when some entry beats the starting count, the best is the first entry
   * that reaches the maximum.
   */
  lemma {:induction false} ScanSpec(entries: seq<Entry>, best: int, bestCount: int)
    ensures var (c, n) := Scan(entries, best, bestCount);
      && n >= bestCount
      && (forall k :: 0 <= k < |entries| ==> entries[k].count <= n)
      && (n == bestCount ==> c == best)
      && (n > bestCount ==>
            exists k :: 0 <= k < |entries| && entries[k] == Entry(c, n)
              && forall m :: 0 <= m < k ==> entries[m].count < n)
  {
    if entries != [] {
      var rest := entries[1..];
      var e := entries[0];
      var (c, n) := Scan(entries, best, bestCount);
      if e.count > bestCount {
        ScanSpec(rest, e.code, e.count);
        if n > e.count {
          var k :| 0 <= k < |rest| && rest[k] == Entry(c, n) && forall m :: 0 <= m < k ==> rest[m].count < n;
          assert entries[k + 1] == rest[k];
          forall m | 0 <= m < k + 1 ensures entries[m].count < n {
            if m > 0 {
              assert entries[m] == rest[m - 1];
            }
          }
        } else {
          assert entries[0] == Entry(c, n);
        }
      } else {
        ScanSpec(rest, best, bestCount);
        if n > bestCount {
          var k :| 0 <= k < |rest| && rest[k] == Entry(c, n) && forall m :: 0 <= m < k ==> rest[m].count < n;
          assert entries[k + 1] == rest[k];
          forall m | 0 <= m < k + 1 ensures entries[m].count < n {
            if m > 0 {
              assert entries[m] == rest[m - 1];
            }
          }
        }
      }
      forall k | 0 < k < |entries| ensures entries[k].count <= n {
        assert entries[k] == rest[k - 1];
      }
    }
  }

  /**
   * The winner is a code with the most votes; when the first vote's code has
   * the most votes (ties included), it wins.
   */
  lemma WinnerIsMajority(votes: seq<int>)
    requires votes != []
    ensures Winner(votes) in votes
    ensures forall v :: multiset(votes)[v] <= multiset(votes)[Winner(votes)]
    ensures (forall v :: multiset(votes)[v] <= multiset(votes)[votes[0]]) ==> Winner(votes) == votes[0]
  {
    var T := Tally(votes);
    TallySpec(votes);
    ScanSpec(T, votes[0], -1);
    var (c, n) := Scan(T, votes[0], -1);
    assert HasCode(T, votes[0]);
    assert T[0].count >= 1;
    var k :| 0 <= k < |T| && T[k] == Entry(c, n) && forall m :: 0 <= m < k ==> T[m].count < n;
    assert HasCode(T, c);
    forall v ensures multiset(votes)[v] <= multiset(votes)[c] {
      if v in votes {
        var m :| 0 <= m < |T| && T[m].code == v;
      }
    }
    if forall v :: multiset(votes)[v] <= multiset(votes)[votes[0]] {
      assert T[0].count == n;
    }
  }

  // ---------------------------------------------------------------------
  // The smoothed code of one cell

  /** Every neighbour vote is a non-excluded code of some neighbour. */
  lemma {:induction false} NeighbourVotesFrom(t: seq<int>, nb: seq<nat>, exclude: set<int>)
    requires IdsIn(nb, |t|)
    ensures forall v :: v in NeighbourVotes(t, nb, exclude) ==>
      v !in exclude && exists k :: 0 <= k < |nb| && t[nb[k]] == v
  {
    if nb != [] {
      var front := nb[..|nb| - 1];
      NeighbourVotesFrom(t, front, exclude);
      forall v | v in NeighbourVotes(t, nb, exclude)
        ensures v !in exclude && exists k :: 0 <= k < |nb| && t[nb[k]] == v
      {
        if v in NeighbourVotes(t, front, exclude) {
          var k :| 0 <= k < |front| && t[front[k]] == v;
          assert nb[k] == front[k];
        } else {
          assert t[nb[|nb| - 1]] == v;
        }
      }
    }
  }

  /**
   * Smoothing one cell: an excluded code stays; any other code becomes its
   * own code or a non-excluded neighbour's code with the most votes, and
   * stays when its own count reaches the maximum.
   */
  lemma SmoothedCodeSpec(t: seq<int>, nb: seq<nat>, exclude: set<int>, cur: int)
    requires IdsIn(nb, |t|)
    ensures cur in exclude ==> SmoothedCode(t, nb, exclude, cur) == cur
    ensures cur !in exclude ==>
      var r := SmoothedCode(t, nb, exclude, cur);
      var b := Ballot(t, nb, exclude, cur);
      && r !in exclude
      && (r == cur || exists k :: 0 <= k < |nb| && t[nb[k]] == r)
      && (forall v :: multiset(b)[v] <= multiset(b)[r])
      && ((forall v :: multiset(b)[v] <= multiset(b)[cur]) ==> r == cur)
  {
    if cur !in exclude {
      var b := Ballot(t, nb, exclude, cur);
      WinnerIsMajority(b);
      NeighbourVotesFrom(t, nb, exclude);
      var r := Winner(b);
      if r != cur {
        assert r in NeighbourVotes(t, nb, exclude);
      }
    }
  }

  /**
   * With water and ice excluded, a pass keeps every water or ice cell and
   * never turns another cell into water or ice.
   */
  lemma SmoothPassKeepsWater(t: seq<int>, nbrs: seq<seq<nat>>, i: nat)
    requires NeighboursInRange(nbrs, |t|) && i < |t|
    ensures IsWaterOrIce(t[i]) ==> SmoothPass(t, nbrs, WaterAndIce())[i] == t[i]
    ensures !IsWaterOrIce(t[i]) ==> !IsWaterOrIce(SmoothPass(t, nbrs, WaterAndIce())[i])
  {
    SmoothedCodeSpec(t, NeighboursOf(nbrs, i), WaterAndIce(), t[i]);
  }

  // ---------------------------------------------------------------------
  // The smoothing loops

  /** The body of the per-cell loop: the tally, then the scan for the best code. */
  method SmoothCell(t: seq<int>, nb: seq<nat>, exclude: set<int>, cur: int) returns (best: int)
    requires IdsIn(nb, |t|)
    ensures best == SmoothedCode(t, nb, exclude, cur)
  {
    if cur in exclude {
      return cur;
    }
    var counts := Add([], cur);
    assert counts == Tally(Ballot(t, nb[..0], exclude, cur));
    for k := 0 to |nb|
      invariant counts == Tally(Ballot(t, nb[..k], exclude, cur))
    {
      var v := t[nb[k]];
      ghost var before := Ballot(t, nb[..k], exclude, cur);
      assert nb[..k + 1][..k] == nb[..k];
      if v in exclude {
        assert Ballot(t, nb[..k + 1], exclude, cur) == before;
      } else {
        assert Ballot(t, nb[..k + 1], exclude, cur) == before + [v];
        assert (before + [v])[..|before|] == before;
        counts := Add(counts, v);
      }
    }
    assert nb[..|nb|] == nb;
    best := cur;
    var bestCount: int := -1;
    for e := 0 to |counts|
      invariant Scan(counts[e..], best, bestCount) == Scan(counts, cur, -1)
    {
      assert counts[e..][1..] == counts[e + 1..];
      if counts[e].count > bestCount {
        bestCount := counts[e].count;
        best := counts[e].code;
      }
    }
  }

  /** One round of the cell loop: every cell of `tmp` set from the codes `t` before the round. */
  method FillPass(t: seq<int>, nbrs: seq<seq<nat>>, exclude: set<int>, tmp: array<int>)
    requires NeighboursInRange(nbrs, |t|) && tmp.Length == |t|
    modifies tmp
    ensures tmp[..] == SmoothPass(t, nbrs, exclude)
  {
    for i := 0 to |t|
      invariant forall j :: 0 <= j < i ==> tmp[j] == SmoothedCode(t, NeighboursOf(nbrs, j), exclude, t[j])
    {
      tmp[i] := SmoothCell(t, NeighboursOf(nbrs, i), exclude, t[i]);
    }
  }

  /**
   * `smoothTerrain`: `rounds` passes over `pack.cells.terrain`, each filling
   * a buffer from the codes before the pass and then copying it back.
   */
  method SmoothTerrain(pack: Pack, rounds: nat, exclude: set<int>)
    requires pack.Valid() && |pack.terrain| == pack.cells.Size()
    modifies pack`terrain
    ensures pack.terrain == SmoothRounds(old(pack.terrain), pack.cells.c, exclude, rounds)
  {
    ghost var t0 := pack.terrain;
    var tmp := new int[pack.cells.Size()];
    for r := 0 to rounds
      invariant pack.terrain == SmoothRounds(t0, pack.cells.c, exclude, r)
    {
      FillPass(pack.terrain, pack.cells.c, exclude, tmp);
      pack.terrain := tmp[..];
    }
  }
}
