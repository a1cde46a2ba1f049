/**
 The padded chess board of the Knight's Tour solver: its size, the knight's
 move table, cells, grids and the board set up before the search starts.

 A grid is `Base x Base` integers. The two outer rings hold `Blocked` (-1), the
 playable interior holds `Empty` (0) for a square not yet visited or `k > 0`
 for the k-th square of the tour.
 */
module Board {

  /** Side of the whole (padded) board. */
  const Base: int := 12

  /** Width of the blocked ring around the playable region. */
  const Border: int := 2

  /** Number of playable squares, `(Base - 4)^2`. */
  const Total: int := (Base - 4) * (Base - 4)

  const Blocked: int := -1
  const Empty: int := 0

  /** The knight's moves, each written `(x, y)`: a column offset, then a row offset. */
  const Moves: seq<(int, int)> :=
    [(1, -2), (2, -1), (2, 1), (1, 2), (-1, 2), (-2, 1), (-2, -1), (-1, -2)]

  /** A square, as `(row, column)`. */
  type Cell = (int, int)

  type Grid = seq<seq<int>>

  function Abs(x: int): nat {
    if x < 0 then -x else x
  }

  /** `q` is one knight's move away from `p`. */
  predicate KnightStep(p: Cell, q: Cell) {
    var dr := Abs(q.0 - p.0);
    var dc := Abs(q.1 - p.1);
    (dr == 1 && dc == 2) || (dr == 2 && dc == 1)
  }

  predicate InBounds(p: Cell) {
    0 <= p.0 < Base && 0 <= p.1 < Base
  }

  /** The interior `[2, Base - 3]^2`, i.e. every square outside the blocked ring. */
  predicate InPlayable(p: Cell) {
    Border <= p.0 < Base - Border && Border <= p.1 < Base - Border
  }

  /** Column offset of move `i`; no move shifts by more than the border width. */
  function MoveX(i: int): (x: int)
    requires 0 <= i < |Moves|
    ensures -Border <= x <= Border
  {
    Moves[i].0
  }

  /** Row offset of move `i`. */
  function MoveY(i: int): (y: int)
    requires 0 <= i < |Moves|
    ensures -Border <= y <= Border
  {
    Moves[i].1
  }

  /** The square reached from `p` by move `i` of the table; the padding keeps it on the board. */
  function Target(p: Cell, i: int): (q: Cell)
    requires 0 <= i < |Moves|
    ensures InPlayable(p) ==> InBounds(q)
  {
    (p.0 + MoveY(i), p.1 + MoveX(i))
  }

  lemma TargetIsKnightStep(p: Cell, i: int)
    requires 0 <= i < |Moves|
    ensures KnightStep(p, Target(p, i))
  {
  }

  predicate Shaped(g: Grid) {
    |g| == Base && forall r :: 0 <= r < Base ==> |g[r]| == Base
  }

  function At(g: Grid, p: Cell): int
    requires Shaped(g) && InBounds(p)
  {
    g[p.0][p.1]
  }

  /** Every square outside the playable region holds `Blocked`. */
  ghost predicate Padded(g: Grid) {
    && Shaped(g)
    && forall p :: InBounds(p) && !InPlayable(p) ==> At(g, p) == Blocked
  }

  predicate IsFree(g: Grid, p: Cell)
    requires Shaped(g) && InBounds(p)
  {
    At(g, p) == Empty
  }

  /** `grid[row][column] = v`. */
  function Mark(g: Grid, p: Cell, v: int): (g': Grid)
    requires Shaped(g) && InBounds(p)
    ensures Shaped(g')
    ensures At(g', p) == v
    ensures forall q :: InBounds(q) && q != p ==> At(g', q) == At(g, q)
  {
    g[p.0 := g[p.0][p.1 := v]]
  }

  /** Resetting a square to the value it held restores the grid exactly. */
  lemma MarkUndo(g: Grid, p: Cell, v: int)
    requires Shaped(g) && InBounds(p)
    ensures Mark(Mark(g, p, v), p, At(g, p)) == g
  {
    var h := Mark(Mark(g, p, v), p, At(g, p));
    assert h[p.0] == g[p.0];
    forall r | 0 <= r < Base
      ensures h[r] == g[r]
    {
      if r != p.0 {
        assert h[r] == g[r];
      }
    }
  }

  /** Two grids of the board's shape that agree on every square are the same grid. */
  lemma SameGrid(g: Grid, h: Grid)
    requires Shaped(g) && Shaped(h)
    requires forall p :: InBounds(p) ==> At(g, p) == At(h, p)
    ensures g == h
  {
    forall r | 0 <= r < Base
      ensures g[r] == h[r]
    {
      forall c | 0 <= c < Base
        ensures g[r][c] == h[r][c]
      {
        assert At(g, (r, c)) == At(h, (r, c));
      }
    }
  }

  /** On a padded grid a free square is always a playable one. */
  lemma FreeIsPlayable(g: Grid, p: Cell)
    requires Padded(g) && InBounds(p) && IsFree(g, p)
    ensures InPlayable(p)
  {
  }

  /** Marking a playable square keeps the blocked ring intact. */
  lemma MarkKeepsPadding(g: Grid, p: Cell, v: int)
    requires Padded(g) && InPlayable(p)
    ensures Padded(Mark(g, p, v))
  {
  }

  /** What the set-up writes at row `r`, column `c`. */
  function Layout(r: int, c: int): int {
    if InPlayable((r, c)) then Empty else Blocked
  }

  /** The board before the search: blocked ring, every playable square empty. */
  function InitialGrid(): (g: Grid)
    ensures Padded(g)
    ensures forall p :: InPlayable(p) ==> IsFree(g, p)
    ensures forall p :: InBounds(p) ==> At(g, p) == Layout(p.0, p.1)
  {
    seq(Base, r => seq(Base, c => Layout(r, c)))
  }

  /** The move table holds the eight knight moves, each once. */
  lemma MoveTableIsComplete(p: Cell, q: Cell)
    ensures |Moves| == 8
    ensures forall i, j :: 0 <= i < j < |Moves| ==> Target(p, i) != Target(p, j)
    ensures KnightStep(p, q) <==> exists i :: 0 <= i < |Moves| && Target(p, i) == q
  {
    if KnightStep(p, q) {
      var dr, dc := q.0 - p.0, q.1 - p.1;
      var i :=
        if dc == 1 && dr == -2 then 0
        else if dc == 2 && dr == -1 then 1
        else if dc == 2 && dr == 1 then 2
        else if dc == 1 && dr == 2 then 3
        else if dc == -1 && dr == 2 then 4
        else if dc == -2 && dr == 1 then 5
        else if dc == -2 && dr == -1 then 6
        else 7;
      assert Target(p, i) == q;
    }
  }

  /** The position of `q` in the move table as seen from `p`, or `|Moves|` when no move reaches it. */
  function MoveIndex(p: Cell, q: Cell): (i: int)
    ensures 0 <= i <= |Moves|
    ensures i < |Moves| ==> Target(p, i) == q
  {
    MoveIndexFrom(p, q, 0)
  }

  function MoveIndexFrom(p: Cell, q: Cell, j: int): (i: int)
    requires 0 <= j <= |Moves|
    ensures j <= i <= |Moves|
    ensures i < |Moves| ==> Target(p, i) == q
    decreases |Moves| - j
  {
    if j == |Moves| then j
    else if Target(p, j) == q then j
    else MoveIndexFrom(p, q, j + 1)
  }

  lemma {:induction false} MoveIndexFromFirst(p: Cell, i: int, j: int)
    requires 0 <= j <= i < |Moves|
    requires forall k :: j <= k < i ==> Target(p, k) != Target(p, i)
    ensures MoveIndexFrom(p, Target(p, i), j) == i
    decreases i - j
  {
    if j < i {
      MoveIndexFromFirst(p, i, j + 1);
    }
  }

  /** Since the eight targets are distinct, move `i` is found at position `i`. */
  lemma MoveIndexOfTarget(p: Cell, i: int)
    requires 0 <= i < |Moves|
    ensures MoveIndex(p, Target(p, i)) == i
  {
    MoveTableIsComplete(p, Target(p, i));
    MoveIndexFromFirst(p, i, 0);
  }
}
