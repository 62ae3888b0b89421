/**
 * The breadth-first candidate search of `FarmlandAllocator.allocate`
 * (modules/farmland-allocator.js): from a settlement's cell, visit cells in
 * hop order up to `maxSteps` hops and collect every eligible one with its
 * suitability, hop distance and score.
 */
module FarmlandSearch {
  import opened Wrappers
  import opened EnvSurfaces
  import opened MapData
  import opened Farmland

  /** Cell `y` is listed as a neighbour of cell `x`. */
  predicate Adjacent(c: seq<seq<nat>>, x: nat, y: nat) {
    x < |c| && y in c[x]
  }

  /** `p` is a walk along neighbour links that starts at `start`. */
  ghost predicate IsWalk(c: seq<seq<nat>>, start: nat, p: seq<nat>) {
    && |p| >= 1 && p[0] == start
    && forall k :: 0 <= k < |p| - 1 ==> Adjacent(c, p[k], p[k + 1])
  }

  /** `p` is a walk from `start` of at most `maxSteps` hops. */
  ghost predicate WithinReach(c: seq<seq<nat>>, start: nat, p: seq<nat>, maxSteps: int) {
    IsWalk(c, start, p) && |p| <= maxSteps + 1
  }

  /** `d` is the least number of hops from `start` to `x`. */
  ghost predicate IsHopDistance(c: seq<seq<nat>>, start: nat, x: nat, d: nat) {
    && (exists p :: IsWalk(c, start, p) && p[|p| - 1] == x && |p| == d + 1)
    && (forall p :: IsWalk(c, start, p) && p[|p| - 1] == x ==> d + 1 <= |p|)
  }

  /** The record the search pushes for an eligible cell at hop distance `d`. */
  function MakeCandidate(cells: Mesh, surf: Option<Surfaces>, cell: nat, d: nat): Candidate
    requires cells.Valid() && cell < cells.Size() && SurfacesFit(surf, cells.Size())
  {
    var fss := CellFss(cells, surf, cell);
    Candidate(cell, Score(fss, d), fss, d)
  }

  /**
   * What the search returns for a settlement at `start`: distinct cells,
   * each eligible, within `maxSteps` hops, carrying its true hop distance and
   * its suitability and score, and every eligible cell within `maxSteps`
   * hops among them.
   */
  ghost predicate IsCandidateList(cells: Mesh, terrain: seq<int>, surf: Option<Surfaces>, o: Options, start: nat, cs: seq<Candidate>)
    requires cells.Valid() && |terrain| == cells.Size() && SurfacesFit(surf, cells.Size())
  {
    && CellsIn(cs, cells.Size())
    && DistinctCells(cs)
    && (forall k :: 0 <= k < |cs| ==> FoundCandidate(cells, terrain, surf, o, start, cs[k]))
    && CoversReach(cells, terrain, surf, o, start, cs)
  }

  /** One entry of the search result: eligible, within reach, at its true hop distance, scored. */
  ghost predicate FoundCandidate(cells: Mesh, terrain: seq<int>, surf: Option<Surfaces>, o: Options, start: nat, x: Candidate)
    requires cells.Valid() && |terrain| == cells.Size() && SurfacesFit(surf, cells.Size())
  {
    && x.cell < cells.Size()
    && Eligible(cells, terrain, surf, o, x.cell)
    && x.dist <= o.maxSteps
    && x == MakeCandidate(cells, surf, x.cell, x.dist)
    && IsHopDistance(cells.c, start, x.cell, x.dist)
  }

  /** Every eligible cell within `maxSteps` hops of `start` is among the candidates. */
  ghost predicate CoversReach(cells: Mesh, terrain: seq<int>, surf: Option<Surfaces>, o: Options, start: nat, cs: seq<Candidate>)
    requires cells.Valid() && |terrain| == cells.Size() && SurfacesFit(surf, cells.Size())
  {
    forall p {:trigger WithinReach(cells.c, start, p, o.maxSteps)} ::
      (WithinReach(cells.c, start, p, o.maxSteps) && p[|p| - 1] < cells.Size()
       && Eligible(cells, terrain, surf, o, p[|p| - 1])) ==>
      exists k :: 0 <= k < |cs| && cs[k].cell == p[|p| - 1]
  }

  predicate Distinct(s: seq<nat>) {
    forall a, b :: 0 <= a < b < |s| ==> s[a] != s[b]
  }

  /** The cells not yet visited. */
  ghost function Unvisited(visited: seq<bool>): set<nat> {
    set x: nat | x < |visited| && !visited[x]
  }

  lemma WalkExtend(c: seq<seq<nat>>, start: nat, p: seq<nat>, y: nat)
    requires IsWalk(c, start, p) && Adjacent(c, p[|p| - 1], y)
    ensures IsWalk(c, start, p + [y])
  {
    var q := p + [y];
    forall k | 0 <= k < |q| - 1 ensures Adjacent(c, q[k], q[k + 1]) {
      if k < |p| - 1 {
        assert q[k] == p[k] && q[k + 1] == p[k + 1];
      }
    }
  }

  lemma WalkPrefix(c: seq<seq<nat>>, start: nat, p: seq<nat>)
    requires IsWalk(c, start, p) && |p| >= 2
    ensures IsWalk(c, start, p[..|p| - 1])
    ensures Adjacent(c, p[|p| - 2], p[|p| - 1])
  {
    var q := p[..|p| - 1];
    forall k | 0 <= k < |q| - 1 ensures Adjacent(c, q[k], q[k + 1]) {
      assert q[k] == p[k] && q[k + 1] == p[k + 1];
    }
  }

  lemma UnvisitedMark(v: seq<bool>, x: nat)
    requires x < |v| && !v[x]
    ensures Unvisited(v[x := true]) == Unvisited(v) - {x}
    ensures Unvisited(v[x := true]) < Unvisited(v)
  {
    assert x in Unvisited(v);
  }

  /** What an expansion has done so far: `news` are the newly visited cells, each one hop past `cur`. */
  ghost predicate Partial(c: seq<seq<nat>>, cur: nat, d: nat, start: nat,
                          visited: seq<bool>, dist: seq<nat>, paths: seq<seq<nat>>,
                          visited': seq<bool>, dist': seq<nat>, paths': seq<seq<nat>>, news: seq<nat>)
  {
    && |visited'| == |c| && |dist'| == |c| && |paths'| == |c|
    && |visited| == |c| && |dist| == |c| && |paths| == |c|
    && Distinct(news)
    && (forall j :: 0 <= j < |news| ==> news[j] < |c| && !visited[news[j]] && visited'[news[j]] && dist'[news[j]] == d + 1)
    && (forall x :: 0 <= x < |c| ==> (visited'[x] <==> visited[x] || x in news))
    && (forall x :: 0 <= x < |c| && visited[x] ==> dist'[x] == dist[x] && paths'[x] == paths[x])
    && (forall x :: 0 <= x < |c| && visited'[x] && !visited[x] ==>
          IsWalk(c, start, paths'[x]) && paths'[x][|paths'[x]| - 1] == x && |paths'[x]| == dist'[x] + 1)
    && (news == [] ==> visited' == visited)
    && (news != [] ==> Unvisited(visited') < Unvisited(visited))
  }

  /** A finished expansion: in addition, every neighbour of `cur` is visited. */
  ghost predicate Expanded(c: seq<seq<nat>>, cur: nat, d: nat, start: nat,
                           visited: seq<bool>, dist: seq<nat>, paths: seq<seq<nat>>,
                           visited': seq<bool>, dist': seq<nat>, paths': seq<seq<nat>>, news: seq<nat>)
    requires cur < |c|
  {
    && Partial(c, cur, d, start, visited, dist, paths, visited', dist', paths', news)
    && (forall y :: y in c[cur] ==> y < |visited'| && visited'[y])
  }

  /** Marking one unvisited neighbour `nx` of `cur` extends a partial expansion. */
  lemma MarkOne(c: seq<seq<nat>>, cur: nat, d: nat, start: nat,
                visited: seq<bool>, dist: seq<nat>, paths: seq<seq<nat>>,
                visited': seq<bool>, dist': seq<nat>, paths': seq<seq<nat>>, news: seq<nat>, nx: nat)
    requires Partial(c, cur, d, start, visited, dist, paths, visited', dist', paths', news)
    requires cur < |c| && nx < |c| && nx in c[cur] && !visited'[nx]
    requires IsWalk(c, start, paths[cur]) && paths[cur][|paths[cur]| - 1] == cur && |paths[cur]| == d + 1
    ensures Partial(c, cur, d, start, visited, dist, paths,
                    visited'[nx := true], dist'[nx := d + 1], paths'[nx := paths[cur] + [nx]], news + [nx])
  {
    UnvisitedMark(visited', nx);
    WalkExtend(c, start, paths[cur], nx);
    assert !visited[nx] && nx !in news;
    var news' := news + [nx];
    forall a, b | 0 <= a < b < |news'| ensures news'[a] != news'[b] {
      if b == |news| {
        assert news'[a] == news[a];
      }
    }
  }

  /**
   * The inner `for (const nx of cells.c[cur])`: every unvisited neighbour
   * is marked visited, given distance `d + 1` and appended to the queue.
   * The ghost `paths` record, per visited cell, a walk of that length.
   */
  method ExpandNeighbours(c: seq<seq<nat>>, cur: nat, d: nat, visited: seq<bool>, dist: seq<nat>, queue: seq<nat>,
                          ghost start: nat, ghost paths: seq<seq<nat>>)
    returns (visited': seq<bool>, dist': seq<nat>, queue': seq<nat>, ghost paths': seq<seq<nat>>, ghost news: seq<nat>)
    requires NeighboursInRange(c, |c|) && |visited| == |c| && |dist| == |c| && |paths| == |c| && cur < |c|
    requires IsWalk(c, start, paths[cur]) && paths[cur][|paths[cur]| - 1] == cur && |paths[cur]| == d + 1
    ensures queue' == queue + news
    ensures Expanded(c, cur, d, start, visited, dist, paths, visited', dist', paths', news)
  {
    visited', dist', queue', paths' := visited, dist, queue, paths;
    news := [];
    var nbs := c[cur];
    for k := 0 to |nbs|
      invariant queue' == queue + news
      invariant Partial(c, cur, d, start, visited, dist, paths, visited', dist', paths', news)
      invariant forall j :: 0 <= j < k ==> visited'[nbs[j]]
    {
      var nx := nbs[k];
      if visited'[nx] {
        continue;
      }
      MarkOne(c, cur, d, start, visited, dist, paths, visited', dist', paths', news, nx);
      visited' := visited'[nx := true];
      dist' := dist'[nx := d + 1];
      queue' := queue' + [nx];
      news := news + [nx];
      paths' := paths'[nx := paths[cur] + [nx]];
    }
  }

  /** Bookkeeping of the outer loop: visited cells are exactly the processed and queued ones, each with a walk of its recorded length. */
  ghost predicate Frame(c: seq<seq<nat>>, n: nat, start: nat,
                        visited: seq<bool>, dist: seq<nat>, paths: seq<seq<nat>>, done: seq<nat>, queue: seq<nat>)
  {
    && |c| == n && |visited| == n && |dist| == n && |paths| == n && start < n
    && (forall j :: 0 <= j < |done| ==> done[j] < n)
    && (forall j :: 0 <= j < |queue| ==> queue[j] < n)
    && (forall x :: 0 <= x < n ==> (visited[x] <==> (x in done || x in queue)))
    && Distinct(done + queue)
    && (forall x :: 0 <= x < n && visited[x] ==>
          IsWalk(c, start, paths[x]) && paths[x][|paths[x]| - 1] == x && |paths[x]| == dist[x] + 1)
    && visited[start] && dist[start] == 0
  }

  /** Queue discipline: queued distances never decrease and span at most one hop; processed cells are no farther than the head. */
  ghost predicate QueueOrder(dist: seq<nat>, done: seq<nat>, queue: seq<nat>)
    requires forall j :: 0 <= j < |done| ==> done[j] < |dist|
    requires forall j :: 0 <= j < |queue| ==> queue[j] < |dist|
  {
    && (forall a, b :: 0 <= a <= b < |queue| ==> dist[queue[a]] <= dist[queue[b]])
    && (forall b :: 0 <= b < |queue| ==> dist[queue[b]] <= dist[queue[0]] + 1)
    && (forall j :: 0 <= j < |done| && |queue| > 0 ==> dist[done[j]] <= dist[queue[0]])
  }

  /** Every processed cell within range has all its neighbours visited at most one hop farther. */
  ghost predicate Closed(c: seq<seq<nat>>, maxSteps: int, visited: seq<bool>, dist: seq<nat>, done: seq<nat>)
    requires NeighboursInRange(c, |visited|) && |dist| == |visited| && |c| == |visited|
    requires forall j :: 0 <= j < |done| ==> done[j] < |c|
  {
    forall j :: 0 <= j < |done| && dist[done[j]] <= maxSteps ==>
      forall y :: y in c[done[j]] ==> visited[y] && dist[y] <= dist[done[j]] + 1
  }

  ghost predicate SearchState(c: seq<seq<nat>>, n: nat, start: nat, maxSteps: int,
                              visited: seq<bool>, dist: seq<nat>, paths: seq<seq<nat>>, done: seq<nat>, queue: seq<nat>)
  {
    && NeighboursInRange(c, n)
    && Frame(c, n, start, visited, dist, paths, done, queue)
    && QueueOrder(dist, done, queue)
    && Closed(c, maxSteps, visited, dist, done)
  }

  /** Dequeuing a cell past the hop limit keeps the state. */
  lemma DropStep(c: seq<seq<nat>>, n: nat, start: nat, maxSteps: int,
                 visited: seq<bool>, dist: seq<nat>, paths: seq<seq<nat>>, done: seq<nat>, queue: seq<nat>)
    requires SearchState(c, n, start, maxSteps, visited, dist, paths, done, queue) && |queue| > 0
    requires dist[queue[0]] > maxSteps
    ensures SearchState(c, n, start, maxSteps, visited, dist, paths, done + [queue[0]], queue[1..])
  {
    assert done + [queue[0]] + queue[1..] == done + queue;
    var done', queue' := done + [queue[0]], queue[1..];
    assert forall j :: 0 <= j < |done'| ==> done'[j] < n;
    assert forall j :: 0 <= j < |queue'| ==> queue'[j] == queue[j + 1];
    assert forall x :: x in done' || x in queue' <==> x in done || x in queue;
    assert QueueOrder(dist, done', queue');
  }

  lemma FrameStep(c: seq<seq<nat>>, n: nat, start: nat,
                  visited: seq<bool>, dist: seq<nat>, paths: seq<seq<nat>>, done: seq<nat>, queue: seq<nat>,
                  visited': seq<bool>, dist': seq<nat>, paths': seq<seq<nat>>, news: seq<nat>)
    requires NeighboursInRange(c, n)
    requires Frame(c, n, start, visited, dist, paths, done, queue) && |queue| > 0
    requires Expanded(c, queue[0], dist[queue[0]], start, visited, dist, paths, visited', dist', paths', news)
    ensures Frame(c, n, start, visited', dist', paths', done + [queue[0]], queue[1..] + news)
  {
    var done', queue' := done + [queue[0]], queue[1..] + news;
    assert done' + queue' == done + queue + news;
    forall x | 0 <= x < n ensures visited'[x] <==> (x in done' || x in queue') {
      assert x in done' || x in queue' <==> x in done || x in queue || x in news;
    }
    var all := done + queue;
    forall a, b | 0 <= a < b < |all + news| ensures (all + news)[a] != (all + news)[b] {
      if b >= |all| {
        var y := news[b - |all|];
        if a < |all| {
          assert all[a] in done || all[a] in queue;
          assert visited[all[a]];
          assert !visited[y];
        }
      }
    }
    assert forall j :: 0 <= j < |queue'| ==> queue'[j] < n by {
      forall j | 0 <= j < |queue'| ensures queue'[j] < n {
        if j < |queue| - 1 {
          assert queue'[j] == queue[j + 1];
        } else {
          assert queue'[j] == news[j - (|queue| - 1)];
        }
      }
    }
  }

  /** Processed and queued cells are visited. */
  lemma FrameFacts(c: seq<seq<nat>>, n: nat, start: nat,
                   visited: seq<bool>, dist: seq<nat>, paths: seq<seq<nat>>, done: seq<nat>, queue: seq<nat>)
    requires Frame(c, n, start, visited, dist, paths, done, queue)
    ensures forall j :: 0 <= j < |queue| ==> visited[queue[j]]
    ensures forall j :: 0 <= j < |done| ==> visited[done[j]]
    ensures |queue| > 0 ==> queue[0] !in done
  {
    forall j | 0 <= j < |queue| ensures visited[queue[j]] {
      assert queue[j] in queue;
    }
    forall j | 0 <= j < |done| ensures visited[done[j]] {
      assert done[j] in done;
    }
    if |queue| > 0 {
      forall i | 0 <= i < |done| ensures done[i] != queue[0] {
        assert (done + queue)[i] == done[i];
        assert (done + queue)[|done|] == queue[0];
      }
    }
  }

  lemma OrderStep(dist: seq<nat>, done: seq<nat>, queue: seq<nat>, visited: seq<bool>, dist': seq<nat>, news: seq<nat>)
    requires |visited| == |dist| == |dist'| && |queue| > 0
    requires forall j :: 0 <= j < |done| ==> done[j] < |dist| && visited[done[j]]
    requires forall j :: 0 <= j < |queue| ==> queue[j] < |dist| && visited[queue[j]]
    requires forall j :: 0 <= j < |news| ==> news[j] < |dist| && dist'[news[j]] == dist[queue[0]] + 1
    requires forall x :: 0 <= x < |dist| && visited[x] ==> dist'[x] == dist[x]
    requires QueueOrder(dist, done, queue)
    ensures QueueOrder(dist', done + [queue[0]], queue[1..] + news)
  {
    var d := dist[queue[0]];
    var done', queue' := done + [queue[0]], queue[1..] + news;
    assert forall j :: 0 <= j < |queue'| ==> d <= dist'[queue'[j]] <= d + 1 by {
      forall j | 0 <= j < |queue'| ensures d <= dist'[queue'[j]] <= d + 1 {
        if j < |queue| - 1 {
          assert queue'[j] == queue[j + 1];
        } else {
          assert queue'[j] == news[j - (|queue| - 1)];
        }
      }
    }
    forall a, b | 0 <= a <= b < |queue'| ensures dist'[queue'[a]] <= dist'[queue'[b]] {
      if b < |queue| - 1 {
        assert queue'[a] == queue[a + 1] && queue'[b] == queue[b + 1];
      } else {
        assert queue'[b] == news[b - (|queue| - 1)];
      }
    }
    forall j | 0 <= j < |done'| && |queue'| > 0 ensures dist'[done'[j]] <= dist'[queue'[0]] {
      if j < |done| {
        assert done'[j] == done[j];
      }
    }
  }

  lemma ClosedStep(c: seq<seq<nat>>, n: nat, start: nat, maxSteps: int,
                   visited: seq<bool>, dist: seq<nat>, paths: seq<seq<nat>>, done: seq<nat>, queue: seq<nat>,
                   visited': seq<bool>, dist': seq<nat>, paths': seq<seq<nat>>, news: seq<nat>)
    requires SearchState(c, n, start, maxSteps, visited, dist, paths, done, queue) && |queue| > 0
    requires dist[queue[0]] <= maxSteps
    requires Expanded(c, queue[0], dist[queue[0]], start, visited, dist, paths, visited', dist', paths', news)
    requires Frame(c, n, start, visited', dist', paths', done + [queue[0]], queue[1..] + news)
    ensures Closed(c, maxSteps, visited', dist', done + [queue[0]])
  {
    var cur, d := queue[0], dist[queue[0]];
    var done' := done + [cur];
    forall j | 0 <= j < |done'| && dist'[done'[j]] <= maxSteps
      ensures forall y :: y in c[done'[j]] ==> visited'[y] && dist'[y] <= dist'[done'[j]] + 1
    {
      if j < |done| {
        assert done'[j] == done[j] && visited[done[j]];
        forall y | y in c[done[j]] ensures visited'[y] && dist'[y] <= dist'[done[j]] + 1 {
          assert visited[y];
        }
      } else {
        assert done'[j] == cur && visited[cur] && dist'[cur] == d;
        forall y | y in c[cur] ensures visited'[y] && dist'[y] <= d + 1 {
          if visited[y] {
            assert y in done || y in queue;
            if y in done {
              var i :| 0 <= i < |done| && done[i] == y;
            } else {
              var i :| 0 <= i < |queue| && queue[i] == y;
            }
          } else {
            assert y in news;
            var i :| 0 <= i < |news| && news[i] == y;
          }
        }
      }
    }
  }

  /**
   * Once the queue is empty, every walk of at most `maxSteps + 1` hops ends
   * at a visited cell whose recorded distance is no more than the walk's length.
   */
  lemma {:induction false} WalksAreBounded(c: seq<seq<nat>>, n: nat, start: nat, maxSteps: int,
                                           visited: seq<bool>, dist: seq<nat>, paths: seq<seq<nat>>, done: seq<nat>,
                                           p: seq<nat>)
    requires SearchState(c, n, start, maxSteps, visited, dist, paths, done, [])
    requires IsWalk(c, start, p) && |p| <= maxSteps + 2
    ensures p[|p| - 1] < n && visited[p[|p| - 1]] && dist[p[|p| - 1]] <= |p| - 1
  {
    if |p| == 1 {
      assert p[0] == start;
    } else {
      var q := p[..|p| - 1];
      WalkPrefix(c, start, p);
      WalksAreBounded(c, n, start, maxSteps, visited, dist, paths, done, q);
      var x := q[|q| - 1];
      assert x == p[|p| - 2];
      assert x in done;
      var j :| 0 <= j < |done| && done[j] == x;
      assert p[|p| - 1] in c[done[j]];
    }
  }

  /** One pushed candidate: an eligible cell within range, with its suitability and score at distance `dist`. */
  ghost predicate GoodCandidate(cells: Mesh, terrain: seq<int>, surf: Option<Surfaces>, o: Options, x: Candidate)
    requires cells.Valid() && |terrain| == cells.Size() && SurfacesFit(surf, cells.Size())
  {
    && x.cell < cells.Size()
    && Eligible(cells, terrain, surf, o, x.cell)
    && x.dist <= o.maxSteps
    && x == MakeCandidate(cells, surf, x.cell, x.dist)
  }

  /** The candidate invariant of the outer loop. */
  ghost predicate CandState(cells: Mesh, terrain: seq<int>, surf: Option<Surfaces>, o: Options,
                            dist: seq<nat>, done: seq<nat>, cands: seq<Candidate>)
    requires cells.Valid() && |terrain| == cells.Size() && SurfacesFit(surf, cells.Size()) && |dist| == cells.Size()
    requires forall j :: 0 <= j < |done| ==> done[j] < cells.Size()
  {
    && DistinctCells(cands)
    && (forall k :: 0 <= k < |cands| ==> GoodCandidate(cells, terrain, surf, o, cands[k]))
    && (forall k :: 0 <= k < |cands| ==> cands[k].cell in done && cands[k].dist == dist[cands[k].cell])
    && (forall j :: 0 <= j < |done| && dist[done[j]] <= o.maxSteps && Eligible(cells, terrain, surf, o, done[j]) ==>
          exists k :: 0 <= k < |cands| && cands[k].cell == done[j])
  }

  /** The candidate invariant, at the loop's exit, gives the search's contract. */
  lemma SearchComplete(cells: Mesh, terrain: seq<int>, surf: Option<Surfaces>, o: Options, start: nat,
                       visited: seq<bool>, dist: seq<nat>, paths: seq<seq<nat>>, done: seq<nat>, cands: seq<Candidate>)
    requires cells.Valid() && |terrain| == cells.Size() && SurfacesFit(surf, cells.Size())
    requires SearchState(cells.c, cells.Size(), start, o.maxSteps, visited, dist, paths, done, [])
    requires CandState(cells, terrain, surf, o, dist, done, cands)
    ensures IsCandidateList(cells, terrain, surf, o, start, cands)
  {
    var c, n := cells.c, cells.Size();
    assert CellsIn(cands, n) by {
      forall k | 0 <= k < |cands| ensures cands[k].cell < n {
        assert GoodCandidate(cells, terrain, surf, o, cands[k]);
      }
    }
    forall k | 0 <= k < |cands| ensures IsHopDistance(c, start, cands[k].cell, cands[k].dist) {
      assert GoodCandidate(cells, terrain, surf, o, cands[k]);
      var x := cands[k].cell;
      assert visited[x];
      assert IsWalk(c, start, paths[x]) && paths[x][|paths[x]| - 1] == x && |paths[x]| == cands[k].dist + 1;
      forall p | IsWalk(c, start, p) && p[|p| - 1] == x ensures cands[k].dist + 1 <= |p| {
        if |p| <= o.maxSteps + 2 {
          WalksAreBounded(c, n, start, o.maxSteps, visited, dist, paths, done, p);
        }
      }
    }
    forall p | WithinReach(c, start, p, o.maxSteps) && p[|p| - 1] < n && Eligible(cells, terrain, surf, o, p[|p| - 1])
      ensures exists k :: 0 <= k < |cands| && cands[k].cell == p[|p| - 1]
    {
      var x := p[|p| - 1];
      WalksAreBounded(c, n, start, o.maxSteps, visited, dist, paths, done, p);
      var j :| 0 <= j < |done| && done[j] == x;
    }
  }

  /** The test applied to a dequeued cell within range: an eligible cell is pushed as a candidate. */
  method ConsiderCell(cells: Mesh, terrain: seq<int>, surf: Option<Surfaces>, o: Options, cur: nat, d: nat,
                      cands: seq<Candidate>) returns (cands': seq<Candidate>)
    requires cells.Valid() && |terrain| == cells.Size() && SurfacesFit(surf, cells.Size()) && cur < cells.Size()
    ensures cands' == if Eligible(cells, terrain, surf, o, cur) then cands + [MakeCandidate(cells, surf, cur, d)] else cands
  {
    cands' := cands;
    var t := terrain[cur];
    var isAllowed := Allowed(t, SlopeOf(surf, cur), cells.h[cur], o.maxSlope);
    if isAllowed {
      var fss := Suitability(cells.BiomeAt(cur), HydricOf(surf, cur), SlopeOf(surf, cur));
      if fss >= o.minFSS {
        cands' := cands + [Candidate(cur, fss - d as real * 0.4, fss, d)];
      }
    }
  }

  /**
   * Breadth-first search from `start`. A queued cell past `maxSteps` hops
   * is dropped; every other dequeued cell that passes the terrain, slope,
   * land and suitability tests becomes a candidate, and its unvisited
   * neighbours are queued one hop further.
   */
  method GatherCandidates(cells: Mesh, terrain: seq<int>, surf: Option<Surfaces>, o: Options, start: nat)
    returns (cands: seq<Candidate>)
    requires cells.Valid() && |terrain| == cells.Size() && SurfacesFit(surf, cells.Size()) && start < cells.Size()
    ensures IsCandidateList(cells, terrain, surf, o, start, cands)
  {
    var n := cells.Size();
    var c := cells.c;
    var queue := [start];
    var dist := seq(n, _ => 0);
    var visited := seq(n, _ => false)[start := true];
    ghost var paths: seq<seq<nat>> := seq(n, _ => [])[start := [start]];
    ghost var done: seq<nat> := [];
    cands := [];
    InitState(c, n, start, o.maxSteps, visited, dist, paths);
    while |queue| > 0
      invariant SearchState(c, n, start, o.maxSteps, visited, dist, paths, done, queue)
      invariant CandState(cells, terrain, surf, o, dist, done, cands)
      decreases |Unvisited(visited)|, |queue|
    {
      var cur := queue[0];
      var d := dist[cur];
      if d > o.maxSteps {
        DropStep(c, n, start, o.maxSteps, visited, dist, paths, done, queue);
        CandDrop(cells, terrain, surf, o, dist, done, cur, cands);
        queue := queue[1..];
        done := done + [cur];
        continue;
      }
      ghost var cands0 := cands;
      cands := ConsiderCell(cells, terrain, surf, o, cur, d, cands);
      HeadWalk(c, n, start, visited, dist, paths, done, queue);
      ghost var news;
      var visited', dist', queue';
      ghost var paths';
      visited', dist', queue', paths', news := ExpandNeighbours(c, cur, d, visited, dist, queue[1..], start, paths);
      ProcessStep(cells, terrain, surf, o, start, visited, dist, paths, done, queue, cands0,
                  visited', dist', paths', news, cands);
      ExpandProgress(c, cur, d, start, visited, dist, paths, visited', dist', paths', news);
      assert |queue'| == |queue| - 1 + |news|;
      visited, dist, queue, paths, done := visited', dist', queue', paths', done + [cur];
    }
    SearchComplete(cells, terrain, surf, o, start, visited, dist, paths, done, cands);
  }

  /** Processing the head of the queue (within range) keeps both loop invariants. */
  lemma ProcessStep(cells: Mesh, terrain: seq<int>, surf: Option<Surfaces>, o: Options, start: nat,
                    visited: seq<bool>, dist: seq<nat>, paths: seq<seq<nat>>, done: seq<nat>, queue: seq<nat>,
                    cands0: seq<Candidate>,
                    visited': seq<bool>, dist': seq<nat>, paths': seq<seq<nat>>, news: seq<nat>, cands: seq<Candidate>)
    requires cells.Valid() && |terrain| == cells.Size() && SurfacesFit(surf, cells.Size())
    requires SearchState(cells.c, cells.Size(), start, o.maxSteps, visited, dist, paths, done, queue) && |queue| > 0
    requires CandState(cells, terrain, surf, o, dist, done, cands0)
    requires dist[queue[0]] <= o.maxSteps
    requires Expanded(cells.c, queue[0], dist[queue[0]], start, visited, dist, paths, visited', dist', paths', news)
    requires cands == (if Eligible(cells, terrain, surf, o, queue[0])
                       then cands0 + [MakeCandidate(cells, surf, queue[0], dist[queue[0]])] else cands0)
    ensures SearchState(cells.c, cells.Size(), start, o.maxSteps, visited', dist', paths', done + [queue[0]], queue[1..] + news)
    ensures CandState(cells, terrain, surf, o, dist', done + [queue[0]], cands)
  {
    var c, n := cells.c, cells.Size();
    FrameFacts(c, n, start, visited, dist, paths, done, queue);
    FrameStep(c, n, start, visited, dist, paths, done, queue, visited', dist', paths', news);
    OrderStep(dist, done, queue, visited, dist', news);
    ClosedStep(c, n, start, o.maxSteps, visited, dist, paths, done, queue, visited', dist', paths', news);
    assert forall j :: 0 <= j < |done| ==> dist'[done[j]] == dist[done[j]];
    CandKeep(cells, terrain, surf, o, dist, dist', done, queue[0], cands0, cands);
  }

  /** An expansion either adds nothing or marks at least one more cell visited. */
  lemma ExpandProgress(c: seq<seq<nat>>, cur: nat, d: nat, start: nat,
                       visited: seq<bool>, dist: seq<nat>, paths: seq<seq<nat>>,
                       visited': seq<bool>, dist': seq<nat>, paths': seq<seq<nat>>, news: seq<nat>)
    requires cur < |c|
    requires Expanded(c, cur, d, start, visited, dist, paths, visited', dist', paths', news)
    ensures (news == [] && visited' == visited) || |Unvisited(visited')| < |Unvisited(visited)|
  {
    if news != [] {
      SubsetSmaller(Unvisited(visited'), Unvisited(visited));
    }
  }

  lemma SubsetSmaller(a: set<nat>, b: set<nat>)
    requires a < b
    ensures |a| < |b|
  {
    var x :| x in b && x !in a;
    SubsetNoLarger(a, b - {x});
  }

  lemma {:induction false} SubsetNoLarger(a: set<nat>, b: set<nat>)
    requires a <= b
    ensures |a| <= |b|
    decreases a
  {
    if a != {} {
      var y :| y in a;
      SubsetNoLarger(a - {y}, b - {y});
    }
  }

  lemma HeadWalk(c: seq<seq<nat>>, n: nat, start: nat,
                 visited: seq<bool>, dist: seq<nat>, paths: seq<seq<nat>>, done: seq<nat>, queue: seq<nat>)
    requires Frame(c, n, start, visited, dist, paths, done, queue) && |queue| > 0
    ensures var cur := queue[0];
      cur < n && IsWalk(c, start, paths[cur]) && paths[cur][|paths[cur]| - 1] == cur && |paths[cur]| == dist[cur] + 1
  {
    assert queue[0] in queue;
  }

  lemma InitState(c: seq<seq<nat>>, n: nat, start: nat, maxSteps: int,
                  visited: seq<bool>, dist: seq<nat>, paths: seq<seq<nat>>)
    requires NeighboursInRange(c, n) && |c| == n && start < n
    requires visited == seq(n, _ => false)[start := true] && dist == seq(n, _ => 0)
    requires paths == seq(n, _ => [])[start := [start]]
    ensures SearchState(c, n, start, maxSteps, visited, dist, paths, [], [start])
  {
    assert IsWalk(c, start, [start]);
    forall x | 0 <= x < n ensures visited[x] <==> x in [start] {
      if x != start {
        assert !visited[x];
      }
    }
  }

  /** Dropping an out-of-range cell adds no candidate obligation. */
  lemma CandDrop(cells: Mesh, terrain: seq<int>, surf: Option<Surfaces>, o: Options,
                 dist: seq<nat>, done: seq<nat>, cur: nat, cands: seq<Candidate>)
    requires cells.Valid() && |terrain| == cells.Size() && SurfacesFit(surf, cells.Size()) && |dist| == cells.Size()
    requires forall j :: 0 <= j < |done| ==> done[j] < cells.Size()
    requires cur < cells.Size() && dist[cur] > o.maxSteps
    requires CandState(cells, terrain, surf, o, dist, done, cands)
    ensures CandState(cells, terrain, surf, o, dist, done + [cur], cands)
  {
    var done' := done + [cur];
    forall j | 0 <= j < |done'| && dist[done'[j]] <= o.maxSteps && Eligible(cells, terrain, surf, o, done'[j])
      ensures exists k :: 0 <= k < |cands| && cands[k].cell == done'[j]
    {
      assert done'[j] == done[j];
    }
  }

  /** Processing `queue[0]` (within range) keeps the candidate invariant across the expansion. */
  lemma CandKeep(cells: Mesh, terrain: seq<int>, surf: Option<Surfaces>, o: Options,
                 dist: seq<nat>, dist': seq<nat>, done: seq<nat>, cur: nat,
                 cands0: seq<Candidate>, cands: seq<Candidate>)
    requires cells.Valid() && |terrain| == cells.Size() && SurfacesFit(surf, cells.Size())
    requires |dist| == cells.Size() && |dist'| == cells.Size()
    requires forall j :: 0 <= j < |done| ==> done[j] < cells.Size() && dist'[done[j]] == dist[done[j]]
    requires cur < cells.Size() && cur !in done && dist[cur] <= o.maxSteps && dist'[cur] == dist[cur]
    requires CandState(cells, terrain, surf, o, dist, done, cands0)
    requires cands == (if Eligible(cells, terrain, surf, o, cur) then cands0 + [MakeCandidate(cells, surf, cur, dist[cur])] else cands0)
    ensures CandState(cells, terrain, surf, o, dist', done + [cur], cands)
  {
    var done' := done + [cur];
    CandKeepGood(cells, terrain, surf, o, dist, cur, cands0, cands);
    forall k | 0 <= k < |cands| ensures cands[k].cell in done' && cands[k].dist == dist'[cands[k].cell] {
      if k < |cands0| {
        assert cands[k] == cands0[k];
        var i :| 0 <= i < |done| && done[i] == cands0[k].cell;
      }
    }
    forall a, b | 0 <= a < b < |cands| ensures cands[a].cell != cands[b].cell {
      if b == |cands0| {
        assert cands[a] == cands0[a];
        assert cands0[a].cell in done;
      }
    }
    forall j | 0 <= j < |done'| && dist'[done'[j]] <= o.maxSteps && Eligible(cells, terrain, surf, o, done'[j])
      ensures exists k :: 0 <= k < |cands| && cands[k].cell == done'[j]
    {
      if j < |done| {
        assert done'[j] == done[j];
        var k :| 0 <= k < |cands0| && cands0[k].cell == done[j];
        assert cands[k] == cands0[k];
      } else {
        assert cands[|cands0|].cell == cur;
      }
    }
  }

  lemma CandKeepGood(cells: Mesh, terrain: seq<int>, surf: Option<Surfaces>, o: Options,
                     dist: seq<nat>, cur: nat, cands0: seq<Candidate>, cands: seq<Candidate>)
    requires cells.Valid() && |terrain| == cells.Size() && SurfacesFit(surf, cells.Size())
    requires |dist| == cells.Size() && cur < cells.Size() && dist[cur] <= o.maxSteps
    requires forall k :: 0 <= k < |cands0| ==> GoodCandidate(cells, terrain, surf, o, cands0[k])
    requires cands == (if Eligible(cells, terrain, surf, o, cur) then cands0 + [MakeCandidate(cells, surf, cur, dist[cur])] else cands0)
    ensures forall k :: 0 <= k < |cands| ==> GoodCandidate(cells, terrain, surf, o, cands[k])
  {
    forall k | 0 <= k < |cands| ensures GoodCandidate(cells, terrain, surf, o, cands[k]) {
      if k < |cands0| {
        assert cands[k] == cands0[k];
      }
    }
  }
}
