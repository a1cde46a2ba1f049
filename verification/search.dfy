/**
 The backtracking search: `solve` numbers a free neighbour, runs the
 one-step orphan lookahead, recurses, and resets the square to 0 when the
 branch fails. Candidates are taken in Warnsdorff order.

 The board is passed and returned as a value: numbering a square is `Mark`,
 the undo is `Mark(.., Empty)`, and a call's outcome carries the board as the
 search leaves it.
 */
module Search {
  import opened Board
  import opened Adjacency
  import opened Ordering

  /** Whether the search succeeded, and the board it leaves behind. */
  datatype Outcome = Outcome(found: bool, grid: Grid)

  /** Some entry of `nb`, from position `k` on, has no free onward square. */
  function HasDeadEnd(g: Grid, nb: seq<Candidate>, k: int): (dead: bool)
    requires Shaped(g) && 0 <= k <= |nb|
    requires forall j :: 0 <= j < |nb| ==> InPlayable(nb[j].cell)
    ensures dead <==> exists j :: k <= j < |nb| && Degree(g, nb[j].cell) == 0
    decreases |nb| - k
  {
    if k == |nb| then false
    else if Degree(g, nb[k].cell) == 0 then true
    else HasDeadEnd(g, nb, k + 1)
  }

  /** Move `i` from `p` reaches a free square that has no free square of its own to go on to. */
  ghost predicate DeadTarget(g: Grid, p: Cell, i: int)
    requires Padded(g) && InPlayable(p) && 0 <= i < |Moves|
  {
    MoveFree(g, p, i) && (FreeIsPlayable(g, Target(p, i)); Degree(g, Target(p, i)) == 0)
  }

  /** `orphanDetected(count, row, column)`: the one-step lookahead over the candidate list of `p`. */
  function Orphan(g: Grid, count: int, p: Cell): (orphan: bool)
    requires Padded(g)
    requires count < Total - 1 ==> InPlayable(p)
    ensures count >= Total - 1 ==> !orphan
  {
    if count < Total - 1 then
      var nb := Neighbours(g, p);
      NeighboursSound(g, p);
      HasDeadEnd(g, nb, 0)
    else
      false
  }

  /**
   While more than one square is still to be numbered, the branch is pruned
   exactly when some free knight neighbour of `p` has no free neighbour left.
   */
  lemma OrphanMeaning(g: Grid, count: int, p: Cell)
    requires Padded(g)
    requires count < Total - 1 ==> InPlayable(p)
    ensures Orphan(g, count, p) <==> count < Total - 1 && exists i :: 0 <= i < |Moves| && DeadTarget(g, p, i)
  {
    if count < Total - 1 {
      var nb := Neighbours(g, p);
      NeighboursSound(g, p);
      if j :| 0 <= j < |nb| && Degree(g, nb[j].cell) == 0 {
        DeadEntryIsDeadTarget(g, p, nb, j);
      }
      if i :| 0 <= i < |Moves| && DeadTarget(g, p, i) {
        DeadTargetIsDeadEntry(g, p, nb, i);
      }
    }
  }

  lemma DeadEntryIsDeadTarget(g: Grid, p: Cell, nb: seq<Candidate>, j: int)
    requires Padded(g) && InPlayable(p) && nb == Neighbours(g, p)
    requires 0 <= j < |nb| && InPlayable(nb[j].cell) && Degree(g, nb[j].cell) == 0
    ensures exists i :: 0 <= i < |Moves| && DeadTarget(g, p, i)
  {
    var q := nb[j].cell;
    NeighboursSound(g, p);
    MoveTableIsComplete(p, q);
    var i :| 0 <= i < |Moves| && Target(p, i) == q;
    assert DeadTarget(g, p, i);
  }

  lemma DeadTargetIsDeadEntry(g: Grid, p: Cell, nb: seq<Candidate>, i: int)
    requires Padded(g) && InPlayable(p) && nb == Neighbours(g, p)
    requires 0 <= i < |Moves| && DeadTarget(g, p, i)
    ensures exists j :: 0 <= j < |nb| && InPlayable(nb[j].cell) && Degree(g, nb[j].cell) == 0
  {
    NeighboursSound(g, p);
    NeighboursInTableOrder(g, p);
    assert Target(p, i) in Cells(nb);
    var j :| 0 <= j < |nb| && Cells(nb)[j] == Target(p, i);
    assert InPlayable(nb[j].cell) && Degree(g, nb[j].cell) == 0;
  }

  /** `c` is a candidate that `solve` may number from `p`. */
  ghost predicate Candidates(g: Grid, p: Cell, cands: seq<Candidate>)
    requires Shaped(g)
  {
    forall k :: 0 <= k < |cands| ==> IsNeighbour(g, p, cands[k])
  }

  /**
   `solve(row, column, count)` on the board `g`: `p` is the square numbered
   last and `count` the number to give next. The search succeeds at once,
   leaving the board untouched, when `count` exceeds `Total`; a failed
   search leaves the board exactly as it found it.
   */
  function Solve(g: Grid, p: Cell, count: int): (r: Outcome)
    requires Padded(g)
    requires count <= Total ==> InPlayable(p)
    ensures count > Total ==> r == Outcome(true, g)
    ensures !r.found ==> r.grid == g
    ensures Shaped(r.grid)
    decreases Total - count + 1, 1, 0
  {
    if count > Total then Outcome(true, g)
    else
      var nb := Neighbours(g, p);
      if |nb| == 0 && count != Total then Outcome(false, g)
      else
        NeighboursSound(g, p);
        SortedEntriesFromInput(nb);
        Try(g, p, SortByDegree(nb), 0, count)
  }

  /** Past the early exits, `solve` is the candidate loop over the sorted candidate list. */
  lemma SolveIsLoop(g: Grid, p: Cell, count: int)
    requires Padded(g) && count <= Total && InPlayable(p)
    requires |Neighbours(g, p)| != 0 || count == Total
    ensures Candidates(g, p, SortByDegree(Neighbours(g, p)))
    ensures Solve(g, p, count) == Try(g, p, SortByDegree(Neighbours(g, p)), 0, count)
  {
    NeighboursSound(g, p);
    SortedEntriesFromInput(Neighbours(g, p));
  }

  /**
   The order in which `solve` tries the candidates of `p` (Warnsdorff's
   rule): the sort puts them in ascending onward degree, and squares of
   equal degree stay in move-table order.
   */
  lemma WarnsdorffOrder(g: Grid, p: Cell)
    requires Padded(g) && InPlayable(p)
    ensures SortedByDegree(SortByDegree(Neighbours(g, p)))
    ensures TiesInTableOrder(p, SortByDegree(Neighbours(g, p)))
  {
    NeighboursInTableOrder(g, p);
    SortedTiesInTableOrder(p, Neighbours(g, p));
  }

  /**
   The body of the candidate loop for square `c`: number it `count`, and
   unless the lookahead prunes it, search on from it. When this fails the
   board is left with `c` numbered and nothing else changed.
   */
  function Attempt(g: Grid, c: Cell, count: int): (r: Outcome)
    requires Padded(g) && InPlayable(c) && count <= Total
    ensures !r.found ==> r.grid == Mark(g, c, count)
    ensures Shaped(r.grid)
    decreases Total - count + 1, 0, 0
  {
    var g1 := Mark(g, c, count);
    MarkKeepsPadding(g, c, count);
    if !Orphan(g1, count, c) then Solve(g1, c, count + 1) else Outcome(false, g1)
  }

  /** Unfolds `Attempt` once, for callers that follow its two branches. */
  lemma AttemptCases(g: Grid, c: Cell, count: int)
    requires Padded(g) && InPlayable(c) && count <= Total
    ensures Padded(Mark(g, c, count))
    ensures Attempt(g, c, count) ==
      if Orphan(Mark(g, c, count), count, c) then Outcome(false, Mark(g, c, count))
      else Solve(Mark(g, c, count), c, count + 1)
  {
    MarkKeepsPadding(g, c, count);
  }

  /**
   The `for (int[] nb : neighbor)` loop of `solve` from candidate `i` on:
   attempt the candidate, stop at the first success, and otherwise reset it
   to 0 before trying the next one.
   */
  function Try(g: Grid, p: Cell, cands: seq<Candidate>, i: int, count: int): (r: Outcome)
    requires Padded(g) && count <= Total && 0 <= i <= |cands|
    requires Candidates(g, p, cands)
    ensures !r.found ==> r.grid == g
    ensures Shaped(r.grid)
    decreases Total - count + 1, 0, |cands| - i
  {
    if i == |cands| then Outcome(false, g)
    else
      var c := cands[i].cell;
      var r := Attempt(g, c, count);
      if r.found then r
      else
        MarkUndo(g, c, count);
        Try(Mark(r.grid, c, Empty), p, cands, i + 1, count)
  }

  /** One turn of the loop: the first successful attempt is the outcome, a failed one moves on to the next candidate on the board as it was. */
  lemma TryStep(g: Grid, p: Cell, cands: seq<Candidate>, i: int, count: int)
    requires Padded(g) && count <= Total && 0 <= i < |cands|
    requires Candidates(g, p, cands)
    ensures InPlayable(cands[i].cell) && IsFree(g, cands[i].cell)
    ensures Try(g, p, cands, i, count) ==
      if Attempt(g, cands[i].cell, count).found then Attempt(g, cands[i].cell, count)
      else Try(g, p, cands, i + 1, count)
  {
    assert IsNeighbour(g, p, cands[i]);
    MarkUndo(g, cands[i].cell, count);
  }

  /**
   `path` is the route a successful search from `p` took: `path[0] == p`,
   and `path[k]` for `k >= 1` is a square that was free in `g`, one knight's
   move from `path[k - 1]`, and holds `count - 1 + k` in `h`; squares off the
   route hold in `h` what they held in `g`.
   */
  ghost predicate Extends(g: Grid, h: Grid, p: Cell, count: int, path: seq<Cell>) {
    && Shaped(g)
    && Shaped(h)
    && |path| == (if count <= Total + 1 then Total - count + 2 else 1)
    && path[0] == p
    && (forall k :: 1 <= k < |path| ==>
          && InPlayable(path[k])
          && IsFree(g, path[k])
          && KnightStep(path[k - 1], path[k])
          && At(h, path[k]) == count - 1 + k)
    && (forall q :: InBounds(q) && q !in path[1..] ==> At(h, q) == At(g, q))
  }

  /** `g1` is `g` with the free square `c`, a knight's move from `p`, numbered `count`. */
  ghost predicate NumberedNext(g: Grid, g1: Grid, p: Cell, c: Cell, count: int) {
    Shaped(g) && InPlayable(c) && IsFree(g, c) && KnightStep(p, c) && g1 == Mark(g, c, count)
  }

  /** Prefixing the square just numbered turns the route of the recursive call into the caller's route. */
  lemma ExtendsStep(g: Grid, g1: Grid, h: Grid, p: Cell, c: Cell, count: int, path': seq<Cell>)
    requires 1 <= count <= Total
    requires NumberedNext(g, g1, p, c, count)
    requires Extends(g1, h, c, count + 1, path')
    ensures Extends(g, h, p, count, [p] + path')
  {
    var path := [p] + path';
    assert c !in path'[1..] by {
      forall k | 1 <= k < |path'|
        ensures path'[k] != c
      {
        assert IsFree(g1, path'[k]);
      }
    }
    assert path[1..] == [c] + path'[1..];
    forall k | 1 <= k < |path|
      ensures InPlayable(path[k]) && IsFree(g, path[k]) && KnightStep(path[k - 1], path[k])
      ensures At(h, path[k]) == count - 1 + k
    {
      if k >= 2 {
        assert path[k] == path'[k - 1] && path[k - 1] == path'[k - 2];
        assert IsFree(g1, path'[k - 1]);
      }
    }
  }

  /**
   A successful `solve` from `p` numbered `count .. Total` along a knight's
   route starting at `p`; `path` is that route.
   */
  lemma {:induction false} SolveRoute(g: Grid, p: Cell, count: int) returns (path: seq<Cell>)
    requires Padded(g) && 1 <= count
    requires count <= Total ==> InPlayable(p)
    requires Solve(g, p, count).found
    ensures Extends(g, Solve(g, p, count).grid, p, count, path)
    decreases Total - count + 1, 1, 0
  {
    if count > Total {
      path := [p];
    } else {
      var nb := Neighbours(g, p);
      NeighboursSound(g, p);
      SortedEntriesFromInput(nb);
      if |nb| != 0 || count == Total {
        path := TryRoute(g, p, SortByDegree(nb), 0, count);
      }
    }
  }

  lemma {:induction false} TryRoute(g: Grid, p: Cell, cands: seq<Candidate>, i: int, count: int) returns (path: seq<Cell>)
    requires Padded(g) && 1 <= count <= Total && 0 <= i <= |cands|
    requires Candidates(g, p, cands)
    requires Try(g, p, cands, i, count).found
    ensures Extends(g, Try(g, p, cands, i, count).grid, p, count, path)
    decreases Total - count + 1, 0, |cands| - i
  {
    if i < |cands| {
      TryStep(g, p, cands, i, count);
      if Attempt(g, cands[i].cell, count).found {
        path := AttemptRoute(g, p, cands, i, count);
      } else {
        path := TryRoute(g, p, cands, i + 1, count);
      }
    }
  }

  lemma {:induction false} AttemptRoute(g: Grid, p: Cell, cands: seq<Candidate>, i: int, count: int) returns (path: seq<Cell>)
    requires Padded(g) && 1 <= count <= Total && 0 <= i < |cands|
    requires IsNeighbour(g, p, cands[i])
    requires Attempt(g, cands[i].cell, count).found
    ensures Extends(g, Attempt(g, cands[i].cell, count).grid, p, count, path)
    decreases Total - count + 1, 0, |cands| - i, 0
  {
    var c := cands[i].cell;
    var g1 := Mark(g, c, count);
    MarkKeepsPadding(g, c, count);
    var path' := SolveRoute(g1, c, count + 1);
    ExtendsStep(g, g1, Solve(g1, c, count + 1).grid, p, c, count, path');
    path := [p] + path';
  }

  /** A square that held a number, or the border value, before `solve` holds it afterwards. */
  lemma SolveKeepsNumbers(g: Grid, p: Cell, count: int, q: Cell)
    requires Padded(g) && 1 <= count
    requires count <= Total ==> InPlayable(p)
    requires InBounds(q) && At(g, q) != Empty
    ensures At(Solve(g, p, count).grid, q) == At(g, q)
  {
    if Solve(g, p, count).found {
      var path := SolveRoute(g, p, count);
      assert q !in path[1..] by {
        forall k | 1 <= k < |path|
          ensures path[k] != q
        {
          assert IsFree(g, path[k]);
        }
      }
    }
  }

  /** The blocked ring survives the search: the board `solve` leaves is still padded. */
  lemma SolveKeepsPadding(g: Grid, p: Cell, count: int)
    requires Padded(g) && 1 <= count
    requires count <= Total ==> InPlayable(p)
    ensures Padded(Solve(g, p, count).grid)
  {
    forall q | InBounds(q) && !InPlayable(q)
      ensures At(Solve(g, p, count).grid, q) == Blocked
    {
      SolveKeepsNumbers(g, p, count, q);
    }
  }
}
