/**
 The solver as the program runs it: one `Base x Base` array that every
 routine reads and `solve` writes in place, numbering a square before the
 recursive call and resetting it to 0 afterwards. Each routine is shown to
 compute what its functional counterpart in `Adjacency`, `Search` and `Tour`
 defines, on the board's current contents.
 */
module InPlace {
  import opened Board
  import opened Adjacency
  import opened Ordering
  import opened Search
  import opened Tour

  /** `a` has the dimensions of the padded board. */
  predicate IsBoard(a: array2<int>) {
    a.Length0 == Base && a.Length1 == Base
  }

  /** The contents of the array, as a grid. */
  function Snapshot(a: array2<int>): (g: Grid)
    requires IsBoard(a)
    reads a
    ensures Shaped(g)
    ensures forall p :: InBounds(p) ==> At(g, p) == a[p.0, p.1]
  {
    seq(Base, r requires 0 <= r < Base reads a => seq(Base, c requires 0 <= c < Base reads a => a[r, c]))
  }

  /** `grid[row][column] = v`: the array afterwards holds the grid `Mark` gives. */
  method Put(a: array2<int>, p: Cell, v: int)
    requires IsBoard(a) && InBounds(p)
    modifies a
    ensures Snapshot(a) == Mark(old(Snapshot(a)), p, v)
  {
    ghost var g := Snapshot(a);
    a[p.0, p.1] := v;
    SameGrid(Snapshot(a), Mark(g, p, v));
  }

  /** `countNeighbors(row, column)`: the onward degree of `p` on the board as it stands. */
  method CountNeighbors(a: array2<int>, p: Cell) returns (num: int)
    requires IsBoard(a) && InPlayable(p)
    ensures num == Degree(Snapshot(a), p)
    ensures 0 <= num <= |Moves|
  {
    num := 0;
    var i := 0;
    while i < |Moves|
      invariant 0 <= i <= |Moves|
      invariant num == FreeCount(Snapshot(a), p, i)
    {
      var q := Target(p, i);
      if a[q.0, q.1] == Empty {
        num := num + 1;
      }
      i := i + 1;
    }
  }

  /** `neighbors(row, column)`: the candidate list of `p` on the board as it stands. */
  method Neighbors(a: array2<int>, p: Cell) returns (nb: seq<Candidate>)
    requires IsBoard(a) && Padded(Snapshot(a)) && InPlayable(p)
    ensures nb == Neighbours(Snapshot(a), p)
  {
    nb := [];
    var i := 0;
    while i < |Moves|
      invariant 0 <= i <= |Moves|
      invariant nb == NeighboursUpTo(Snapshot(a), p, i)
    {
      var q := Target(p, i);
      if a[q.0, q.1] == Empty {
        FreeIsPlayable(Snapshot(a), q);
        var num := CountNeighbors(a, q);
        nb := nb + [Candidate(q, num)];
      }
      i := i + 1;
    }
  }

  /** `orphanDetected(count, row, column)` on the board as it stands. */
  method OrphanDetected(a: array2<int>, count: int, p: Cell) returns (orphan: bool)
    requires IsBoard(a) && Padded(Snapshot(a))
    requires count < Total - 1 ==> InPlayable(p)
    ensures orphan == Orphan(Snapshot(a), count, p)
  {
    if count < Total - 1 {
      var nb := Neighbors(a, p);
      NeighboursSound(Snapshot(a), p);
      var k := 0;
      while k < |nb|
        invariant 0 <= k <= |nb|
        invariant HasDeadEnd(Snapshot(a), nb, 0) == HasDeadEnd(Snapshot(a), nb, k)
      {
        var num := CountNeighbors(a, nb[k].cell);
        if num == 0 {
          return true;
        }
        k := k + 1;
      }
    }
    return false;
  }

  /**
   `solve(row, column, count)` on the array: it reports what `Solve` reports
   for the board it was given and leaves the array holding the board `Solve`
   returns; in particular every candidate it numbers and abandons is reset.
   */
  method SolveInPlace(a: array2<int>, p: Cell, count: int) returns (found: bool)
    requires IsBoard(a) && Padded(Snapshot(a))
    requires count <= Total ==> InPlayable(p)
    modifies a
    ensures Solve(old(Snapshot(a)), p, count) == Outcome(found, Snapshot(a))
    decreases Total - count + 1, 2
  {
    if count > Total {
      return true;
    }
    ghost var g := Snapshot(a);
    var nb := Neighbors(a, p);
    if |nb| == 0 && count != Total {
      return false;
    }
    SolveIsLoop(g, p, count);
    found := TryInPlace(a, p, SortByDegree(nb), count);
  }

  /** The `for (int[] nb : neighbor)` loop of `solve`, run over the sorted candidates. */
  method TryInPlace(a: array2<int>, p: Cell, cands: seq<Candidate>, count: int) returns (found: bool)
    requires IsBoard(a) && Padded(Snapshot(a)) && count <= Total
    requires Candidates(Snapshot(a), p, cands)
    modifies a
    ensures Try(old(Snapshot(a)), p, cands, 0, count) == Outcome(found, Snapshot(a))
    decreases Total - count + 1, 1
  {
    ghost var g := Snapshot(a);
    var i := 0;
    while i < |cands|
      invariant 0 <= i <= |cands|
      invariant Snapshot(a) == g
      invariant Try(g, p, cands, i, count) == Try(g, p, cands, 0, count)
    {
      var c := cands[i].cell;
      TryStep(g, p, cands, i, count);
      var ok := AttemptInPlace(a, c, count);
      if ok {
        return true;
      }
      Put(a, c, Empty);
      MarkUndo(g, c, count);
      i := i + 1;
    }
    return false;
  }

  /** `grid[row][column] = count` followed by the lookahead and the recursive `solve`. */
  method AttemptInPlace(a: array2<int>, c: Cell, count: int) returns (ok: bool)
    requires IsBoard(a) && Padded(Snapshot(a)) && InPlayable(c) && count <= Total
    modifies a
    ensures Attempt(old(Snapshot(a)), c, count) == Outcome(ok, Snapshot(a))
    decreases Total - count + 1, 0
  {
    AttemptCases(Snapshot(a), c, count);
    var orphan := NumberAndLook(a, c, count);
    if orphan {
      return false;
    }
    ok := SolveInPlace(a, c, count + 1);
  }

  /** `grid[row][column] = count` and `orphanDetected(count, row, column)` on the result. */
  method NumberAndLook(a: array2<int>, c: Cell, count: int) returns (orphan: bool)
    requires IsBoard(a) && Padded(Snapshot(a)) && InPlayable(c)
    modifies a
    ensures Snapshot(a) == Mark(old(Snapshot(a)), c, count) && Padded(Snapshot(a))
    ensures orphan == Orphan(Snapshot(a), count, c)
  {
    MarkKeepsPadding(Snapshot(a), c, count);
    Put(a, c, count);
    orphan := OrphanDetected(a, count, c);
  }

  /** Lines up the array as `main` does before the search: the blocked ring around an empty playable region. */
  method SetUpBoard() returns (a: array2<int>)
    ensures fresh(a) && IsBoard(a)
    ensures Snapshot(a) == InitialGrid()
  {
    a := new int[Base, Base]((r, c) => Empty);
    var r := 0;
    while r < Base
      invariant 0 <= r <= Base
      invariant forall i, j :: 0 <= i < r && 0 <= j < Base ==> a[i, j] == Layout(i, j)
      invariant forall i, j :: r <= i < Base && 0 <= j < Base ==> a[i, j] == Empty
    {
      LayRow(a, r);
      r := r + 1;
    }
    SameGrid(Snapshot(a), InitialGrid());
  }

  /** The inner loop of the set-up: row `r` gets `-1` outside the playable columns, or throughout when the row itself is in the ring. */
  method LayRow(a: array2<int>, r: int)
    requires IsBoard(a) && 0 <= r < Base
    requires forall j :: 0 <= j < Base ==> a[r, j] == Empty
    modifies a
    ensures forall j :: 0 <= j < Base ==> a[r, j] == Layout(r, j)
    ensures forall i, j :: 0 <= i < Base && 0 <= j < Base && i != r ==> a[i, j] == old(a[i, j])
  {
    var c := 0;
    while c < Base
      invariant 0 <= c <= Base
      invariant forall j :: 0 <= j < Base ==> a[r, j] == (if j < c then Layout(r, j) else Empty)
      invariant forall i, j :: 0 <= i < Base && 0 <= j < Base && i != r ==> a[i, j] == old(a[i, j])
    {
      if r < 2 || r > Base - 3 || c < 2 || c > Base - 3 {
        a[r, c] := Blocked;
      }
      c := c + 1;
    }
  }

  /**
   `main` with the start square given: lay out the blocked ring, number the
   start square 1 and run `solve` from 2. A reported success leaves a
   knight's tour on the board.
   */
  method RunTour(start: Cell) returns (found: bool, a: array2<int>)
    requires InPlayable(start)
    ensures IsBoard(a)
    ensures Outcome(found, Snapshot(a)) == StartTour(start)
    ensures found ==> IsKnightsTour(Snapshot(a), start)
  {
    a := SetUpBoard();
    Put(a, start, 1);
    found := SolveInPlace(a, start, 2);
    if found {
      TourIsKnightsTour(start);
    }
  }
}
