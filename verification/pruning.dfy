/**
 The one-step lookahead never changes what `solve` finds. While the number of
 free squares matches the numbers still to hand out, a route has to visit
 every free square. A free square with no free knight neighbour can then
 only be visited as the last square of a route that starts beside it, and
 that needs a single number left, which `orphanDetected` excludes.
 */
module Pruning {
  import opened Board
  import opened Adjacency
  import opened Ordering
  import opened Search
  import opened Tour

  /** The free playable squares of `g`. */
  ghost function FreeSquares(g: Grid): set<Cell>
    requires Shaped(g)
  {
    set k | 0 <= k < Total && IsFree(g, PlayableSquares()[k]) :: PlayableSquares()[k]
  }

  lemma FreeSquaresMember(g: Grid, q: Cell)
    requires Shaped(g)
    ensures q in FreeSquares(g) <==> InPlayable(q) && IsFree(g, q)
  {
    PlayableSquaresExact(q);
    if InPlayable(q) && IsFree(g, q) {
      var k :| 0 <= k < Total && PlayableSquares()[k] == q;
    }
  }

  /** Numbering a free square takes exactly that square out of the free ones. */
  lemma FreeSquaresAfterMark(g: Grid, c: Cell, v: int)
    requires Shaped(g) && InPlayable(c) && IsFree(g, c) && v != Empty
    ensures FreeSquares(Mark(g, c, v)) == FreeSquares(g) - {c}
    ensures |FreeSquares(Mark(g, c, v))| == |FreeSquares(g)| - 1
  {
    var g1 := Mark(g, c, v);
    forall q
      ensures q in FreeSquares(g1) <==> q in FreeSquares(g) - {c}
    {
      FreeSquaresMember(g, q);
      FreeSquaresMember(g1, q);
    }
    FreeSquaresMember(g, c);
  }

  /** On the board `main` hands to `solve` every playable square but the start is free. */
  lemma StartBoardFreeSquares(start: Cell)
    requires InPlayable(start)
    ensures |FreeSquares(StartBoard(start))| == Total - 1
  {
    var g0 := InitialGrid();
    forall q
      ensures q in FreeSquares(g0) <==> q in Members(PlayableSquares())
    {
      FreeSquaresMember(g0, q);
      PlayableSquaresExact(q);
    }
    assert FreeSquares(g0) == Members(PlayableSquares());
    PlayableSquaresExact(start);
    DistinctMembers(PlayableSquares());
    FreeSquaresAfterMark(g0, start, 1);
  }

  /** A route whose length matches the number of free squares passes through every one of them. */
  lemma RouteCoversFreeSquares(g: Grid, h: Grid, c: Cell, count: int, path: seq<Cell>)
    requires Padded(g) && Extends(g, h, c, count, path)
    requires |FreeSquares(g)| == |path| - 1
    ensures forall q :: InPlayable(q) && IsFree(g, q) ==> q in path[1..]
  {
    var rest := path[1..];
    forall i, j | 0 <= i < j < |rest|
      ensures rest[i] != rest[j]
    {
      assert At(h, path[i + 1]) != At(h, path[j + 1]);
    }
    assert Members(rest) <= FreeSquares(g) by {
      forall x | x in Members(rest)
        ensures x in FreeSquares(g)
      {
        var k :| 0 <= k < |rest| && rest[k] == x;
        assert x == path[k + 1];
        FreeSquaresMember(g, x);
      }
    }
    DistinctMembers(rest);
    SubsetOfSameSize(Members(rest), FreeSquares(g));
    forall q | InPlayable(q) && IsFree(g, q)
      ensures q in rest
    {
      FreeSquaresMember(g, q);
      assert q in Members(rest);
    }
  }

  /** On a route that numbers at least two squares, every square it numbers has a free knight neighbour where it started. */
  lemma RouteSquareHasFreeNeighbour(g: Grid, h: Grid, c: Cell, count: int, path: seq<Cell>, k: int)
    requires Padded(g) && Extends(g, h, c, count, path)
    requires |path| >= 3 && 1 <= k < |path|
    ensures Degree(g, path[k]) > 0
  {
    var q := path[k];
    var r := if k + 1 < |path| then path[k + 1] else path[k - 1];
    assert IsFree(g, r) && KnightStep(q, r);
    MoveTableIsComplete(q, r);
    var i :| 0 <= i < |Moves| && Target(q, i) == r;
    assert MoveFree(g, q, i);
    DegreeZero(g, q);
  }

  /**
   When the free squares are exactly as many as the numbers still to give,
   a square the lookahead prunes could not have led to a tour either.
   */
  lemma PruningIsSound(g: Grid, c: Cell, count: int)
    requires Padded(g) && InPlayable(c) && 1 <= count
    requires |FreeSquares(g)| == Total - count
    requires Orphan(g, count, c)
    ensures !Solve(g, c, count + 1).found
  {
    if Solve(g, c, count + 1).found {
      var h := Solve(g, c, count + 1).grid;
      var path := SolveRoute(g, c, count + 1);
      OrphanMeaning(g, count, c);
      var i :| 0 <= i < |Moves| && DeadTarget(g, c, i);
      var q := Target(c, i);
      RouteCoversFreeSquares(g, h, c, count + 1, path);
      assert q in path[1..];
      var k :| 0 <= k < |path| - 1 && path[1..][k] == q;
      assert path[k + 1] == q;
      RouteSquareHasFreeNeighbour(g, h, c, count + 1, path, k + 1);
    }
  }

  /**
   With as many free squares as numbers still to give (one more than that,
   counting the candidate), the lookahead changes nothing: the attempt gives
   exactly what numbering the candidate and searching on would give.
   */
  lemma AttemptIgnoresPruning(g: Grid, c: Cell, count: int)
    requires Padded(g) && InPlayable(c) && IsFree(g, c) && 1 <= count <= Total
    requires |FreeSquares(g)| == Total - count + 1
    ensures Padded(Mark(g, c, count))
    ensures Attempt(g, c, count) == Solve(Mark(g, c, count), c, count + 1)
  {
    AttemptCases(g, c, count);
    FreeSquaresAfterMark(g, c, count);
    if Orphan(Mark(g, c, count), count, c) {
      PruningIsSound(Mark(g, c, count), c, count);
    }
  }

  /**
   `solve` with the lookahead call of test.java:116 taken out: every candidate is
   numbered and searched on from. Otherwise it is `Solve`, with the same
   early exits, order of candidates and undo.
   */
  function SolvePlain(g: Grid, p: Cell, count: int): (r: Outcome)
    requires Padded(g)
    requires count <= Total ==> InPlayable(p)
    ensures count > Total ==> r == Outcome(true, g)
    ensures !r.found ==> r.grid == g
    ensures Shaped(r.grid)
    decreases Total - count + 1, 1, 0
  {
    if count > Total then Outcome(true, g)
    else
      var nb := Neighbours(g, p);
      if |nb| == 0 && count != Total then Outcome(false, g)
      else
        NeighboursSound(g, p);
        SortedEntriesFromInput(nb);
        TryPlain(g, p, SortByDegree(nb), 0, count)
  }

  /** The candidate loop of `SolvePlain`: number the candidate, search on, and undo on failure. */
  function TryPlain(g: Grid, p: Cell, cands: seq<Candidate>, i: int, count: int): (r: Outcome)
    requires Padded(g) && count <= Total && 0 <= i <= |cands|
    requires Candidates(g, p, cands)
    ensures !r.found ==> r.grid == g
    ensures Shaped(r.grid)
    decreases Total - count + 1, 0, |cands| - i
  {
    if i == |cands| then Outcome(false, g)
    else
      var c := cands[i].cell;
      assert IsNeighbour(g, p, cands[i]);
      MarkKeepsPadding(g, c, count);
      var r := SolvePlain(Mark(g, c, count), c, count + 1);
      if r.found then r
      else
        MarkUndo(g, c, count);
        TryPlain(Mark(r.grid, c, Empty), p, cands, i + 1, count)
  }

  /**
   While the free squares match the numbers still to give, `solve` with
   the lookahead gives exactly what it gives without it: the same verdict
   and the same board.
   */
  lemma {:induction false} SolveIgnoresPruning(g: Grid, p: Cell, count: int)
    requires Padded(g) && 1 <= count
    requires count <= Total ==> InPlayable(p)
    requires |FreeSquares(g)| == Total - count + 1
    ensures Solve(g, p, count) == SolvePlain(g, p, count)
    decreases Total - count + 1, 1, 0
  {
    if count <= Total {
      var nb := Neighbours(g, p);
      if |nb| != 0 || count == Total {
        NeighboursSound(g, p);
        SortedEntriesFromInput(nb);
        TryIgnoresPruning(g, p, SortByDegree(nb), 0, count);
      }
    }
  }

  lemma {:induction false} TryIgnoresPruning(g: Grid, p: Cell, cands: seq<Candidate>, i: int, count: int)
    requires Padded(g) && 1 <= count <= Total && 0 <= i <= |cands|
    requires Candidates(g, p, cands)
    requires |FreeSquares(g)| == Total - count + 1
    ensures Try(g, p, cands, i, count) == TryPlain(g, p, cands, i, count)
    decreases Total - count + 1, 0, |cands| - i
  {
    if i < |cands| {
      var c := cands[i].cell;
      TryStep(g, p, cands, i, count);
      TryPlainStep(g, p, cands, i, count);
      var g1 := Mark(g, c, count);
      var a := Attempt(g, c, count);
      AttemptIsPlain(g, c, count);
      if a.found {
        assert Try(g, p, cands, i, count) == a;
        assert TryPlain(g, p, cands, i, count) == a;
      } else {
        TryIgnoresPruning(g, p, cands, i + 1, count);
        assert Try(g, p, cands, i, count) == Try(g, p, cands, i + 1, count);
        assert TryPlain(g, p, cands, i, count) == TryPlain(g, p, cands, i + 1, count);
      }
    }
  }

  /** Under the count, one attempt with the lookahead is the search without it from the numbered square. */
  lemma {:induction false} AttemptIsPlain(g: Grid, c: Cell, count: int)
    requires Padded(g) && InPlayable(c) && IsFree(g, c) && 1 <= count <= Total
    requires |FreeSquares(g)| == Total - count + 1
    ensures Padded(Mark(g, c, count))
    ensures Attempt(g, c, count) == SolvePlain(Mark(g, c, count), c, count + 1)
    decreases Total - count + 1, 0, 0
  {
    var g1 := Mark(g, c, count);
    AttemptIgnoresPruning(g, c, count);
    FreeSquaresAfterMark(g, c, count);
    assert |FreeSquares(g1)| == Total - (count + 1) + 1;
    SolveIgnoresPruning(g1, c, count + 1);
  }

  /** One turn of the loop of `SolvePlain`: the first successful search is the outcome, a failed one moves on to the next candidate on the board as it was. */
  lemma TryPlainStep(g: Grid, p: Cell, cands: seq<Candidate>, i: int, count: int)
    requires Padded(g) && count <= Total && 0 <= i < |cands|
    requires Candidates(g, p, cands)
    ensures Padded(Mark(g, cands[i].cell, count))
    ensures TryPlain(g, p, cands, i, count) ==
      if SolvePlain(Mark(g, cands[i].cell, count), cands[i].cell, count + 1).found
      then SolvePlain(Mark(g, cands[i].cell, count), cands[i].cell, count + 1)
      else TryPlain(g, p, cands, i + 1, count)
  {
    assert IsNeighbour(g, p, cands[i]);
    MarkKeepsPadding(g, cands[i].cell, count);
    MarkUndo(g, cands[i].cell, count);
  }

  /** The whole run: from any start square the lookahead changes neither the verdict nor the final board. */
  lemma StartTourIgnoresPruning(start: Cell)
    requires InPlayable(start)
    ensures StartTour(start) == SolvePlain(StartBoard(start), start, 2)
  {
    StartBoardFreeSquares(start);
    SolveIgnoresPruning(StartBoard(start), start, 2);
  }
}
