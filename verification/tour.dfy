/**
 The whole run of the solver: the board is set up with its blocked ring, the
 start square is numbered 1, and `solve` continues from 2. A successful run
 leaves a knight's tour of the playable region on the board.
 */
module Tour {
  import opened Board
  import opened Adjacency
  import opened Search

  /** The board `main` hands to `solve`: the set-up grid with `start` numbered 1. */
  function StartBoard(start: Cell): (g: Grid)
    requires InPlayable(start)
    ensures Padded(g)
    ensures At(g, start) == 1
    ensures forall q :: InPlayable(q) && q != start ==> IsFree(g, q)
  {
    MarkKeepsPadding(InitialGrid(), start, 1);
    Mark(InitialGrid(), start, 1)
  }

  /** `grid[row][col] = 1; solve(row, col, 2)`; a failed run leaves the board as it was set up. */
  function StartTour(start: Cell): (r: Outcome)
    requires InPlayable(start)
    ensures !r.found ==> r.grid == StartBoard(start)
  {
    Solve(StartBoard(start), start, 2)
  }

  /**
   `h` numbers every playable square with a distinct value in `1 .. Total`,
   starts at `start`, moves between consecutive numbers by a knight's move,
   and keeps the blocked ring.
   */
  ghost predicate IsKnightsTour(h: Grid, start: Cell) {
    && Padded(h)
    && InPlayable(start)
    && At(h, start) == 1
    && (forall q :: InPlayable(q) ==> 1 <= At(h, q) <= Total)
    && (forall q, q' :: InPlayable(q) && InPlayable(q') && At(h, q) == At(h, q') ==> q == q')
    && (forall q, q' :: InPlayable(q) && InPlayable(q') && At(h, q') == At(h, q) + 1 ==> KnightStep(q, q'))
  }

  /** No square occurs twice in `s`. */
  predicate Distinct(s: seq<Cell>) {
    forall i, j :: 0 <= i < j < |s| ==> s[i] != s[j]
  }

  ghost function Members(s: seq<Cell>): set<Cell> {
    set x | x in s
  }

  lemma {:induction false} DistinctMembers(s: seq<Cell>)
    requires Distinct(s)
    ensures |Members(s)| == |s|
  {
    if s != [] {
      DistinctMembers(s[1..]);
      assert Members(s) == Members(s[1..]) + {s[0]};
      assert s[0] !in Members(s[1..]);
    }
  }

  /** A subset as large as its finite superset is the whole superset. */
  lemma SubsetOfSameSize(a: set<Cell>, b: set<Cell>)
    requires a <= b && |a| == |b|
    ensures a == b
  {
    assert b == a + (b - a);
    assert |b - a| == 0;
  }

  /** Side of the playable region. */
  const Side: int := Base - 2 * Border

  /** The playable squares, row by row. */
  function PlayableSquares(): (s: seq<Cell>)
    ensures |s| == Total
    ensures forall k :: 0 <= k < Total ==> InPlayable(s[k])
  {
    seq(Total, k => (Border + k / Side, Border + k % Side))
  }

  /** The playable region has exactly `Total` squares, each listed once. */
  lemma PlayableSquaresExact(q: Cell)
    ensures Distinct(PlayableSquares())
    ensures InPlayable(q) <==> q in PlayableSquares()
  {
    var s := PlayableSquares();
    forall i, j | 0 <= i < j < |s|
      ensures s[i] != s[j]
    {
      if i / Side == j / Side {
        assert i % Side != j % Side;
      }
    }
    if InPlayable(q) {
      var k := (q.0 - Border) * Side + (q.1 - Border);
      assert s[k] == q;
    }
  }

  /** A route of distinct playable squares as long as the playable region covers all of it. */
  lemma RouteCoversBoard(path: seq<Cell>, q: Cell)
    requires |path| == Total && Distinct(path)
    requires forall k :: 0 <= k < |path| ==> InPlayable(path[k])
    requires InPlayable(q)
    ensures q in path
  {
    PlayableSquaresExact(q);
    DistinctMembers(path);
    DistinctMembers(PlayableSquares());
    assert Members(path) <= Members(PlayableSquares()) by {
      forall x | x in Members(path)
        ensures x in Members(PlayableSquares())
      {
        PlayableSquaresExact(x);
      }
    }
    SubsetOfSameSize(Members(path), Members(PlayableSquares()));
    assert q in Members(PlayableSquares());
  }

  /**
   The route of a successful run, read as a whole: `path[k]` is the square
   numbered `k + 1`, the squares are distinct and playable, consecutive ones
   a knight's move apart, and nothing else on the board changed.
   */
  lemma TourRoute(start: Cell) returns (path: seq<Cell>)
    requires InPlayable(start) && StartTour(start).found
    ensures |path| == Total && path[0] == start && Distinct(path)
    ensures forall k :: 0 <= k < Total ==> InPlayable(path[k]) && At(StartTour(start).grid, path[k]) == k + 1
    ensures forall k :: 1 <= k < Total ==> KnightStep(path[k - 1], path[k])
    ensures forall q :: InBounds(q) && q !in path ==> At(StartTour(start).grid, q) == At(StartBoard(start), q)
  {
    var g := StartBoard(start);
    var h := StartTour(start).grid;
    path := SolveRoute(g, start, 2);
    assert start !in path[1..] by {
      forall k | 1 <= k < |path|
        ensures path[k] != start
      {
        assert IsFree(g, path[k]);
      }
    }
    forall i, j | 0 <= i < j < |path|
      ensures path[i] != path[j]
    {
      if i > 0 {
        assert At(h, path[i]) != At(h, path[j]);
      } else {
        assert path[j] in path[1..];
      }
    }
    forall q | InBounds(q) && q !in path
      ensures At(h, q) == At(g, q)
    {
      assert q !in path[1..];
    }
  }

  /** A successful run numbers the playable region as a knight's tour from `start`. */
  lemma TourIsKnightsTour(start: Cell)
    requires InPlayable(start) && StartTour(start).found
    ensures IsKnightsTour(StartTour(start).grid, start)
  {
    var g := StartBoard(start);
    var h := StartTour(start).grid;
    var path := TourRoute(start);
    forall q | InBounds(q) && !InPlayable(q)
      ensures At(h, q) == Blocked
    {
      assert q !in path;
    }
    forall q | InPlayable(q)
      ensures exists k :: 0 <= k < Total && path[k] == q
    {
      RouteCoversBoard(path, q);
    }
    forall q, q' | InPlayable(q) && InPlayable(q') && At(h, q) == At(h, q')
      ensures q == q'
    {
      var k :| 0 <= k < Total && path[k] == q;
      var k' :| 0 <= k' < Total && path[k'] == q';
    }
    forall q, q' | InPlayable(q) && InPlayable(q') && At(h, q') == At(h, q) + 1
      ensures KnightStep(q, q')
    {
      var k :| 0 <= k < Total && path[k] == q;
      var k' :| 0 <= k' < Total && path[k'] == q';
      assert k' == k + 1;
    }
  }
}
