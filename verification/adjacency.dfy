/**
 Onward degree (`countNeighbors`) and the candidate list (`neighbors`) of a
 square: the free squares one knight's move away, each paired with its own
 onward degree.
 */
module Adjacency {
  import opened Board

  /** One entry of the candidate list: a square and its onward degree (`{row, column, num}`). */
  datatype Candidate = Candidate(cell: Cell, degree: int)

  /** Move `i` from `p` lands on a free square. */
  predicate MoveFree(g: Grid, p: Cell, i: int)
    requires Shaped(g) && InPlayable(p) && 0 <= i < |Moves|
  {
    IsFree(g, Target(p, i))
  }

  /** Number of moves among the first `n` of the table whose target is free. */
  function FreeCount(g: Grid, p: Cell, n: int): (k: nat)
    requires Shaped(g) && InPlayable(p) && 0 <= n <= |Moves|
    ensures k <= n
    decreases n
  {
    if n == 0 then 0
    else FreeCount(g, p, n - 1) + (if MoveFree(g, p, n - 1) then 1 else 0)
  }

  /** The onward degree of `p`: how many of its knight moves land on a free square. */
  function Degree(g: Grid, p: Cell): (k: nat)
    requires Shaped(g) && InPlayable(p)
    ensures k <= |Moves|
  {
    FreeCount(g, p, |Moves|)
  }

  lemma {:induction false} FreeCountZero(g: Grid, p: Cell, n: int)
    requires Shaped(g) && InPlayable(p) && 0 <= n <= |Moves|
    ensures FreeCount(g, p, n) == 0 <==> forall i :: 0 <= i < n ==> !MoveFree(g, p, i)
    decreases n
  {
    if n > 0 {
      FreeCountZero(g, p, n - 1);
    }
  }

  /** A square has onward degree 0 exactly when every one of its knight moves lands on a non-free square. */
  lemma DegreeZero(g: Grid, p: Cell)
    requires Shaped(g) && InPlayable(p)
    ensures Degree(g, p) == 0 <==> forall i :: 0 <= i < |Moves| ==> !MoveFree(g, p, i)
  {
    FreeCountZero(g, p, |Moves|);
  }

  /** The indices of the moves among the first `n` whose target is free. */
  ghost function FreeMoves(g: Grid, p: Cell, n: int): set<int>
    requires Shaped(g) && InPlayable(p) && 0 <= n <= |Moves|
  {
    set i | 0 <= i < n && MoveFree(g, p, i)
  }

  lemma FreeMovesStep(g: Grid, p: Cell, n: int)
    requires Shaped(g) && InPlayable(p) && 0 < n <= |Moves|
    ensures n - 1 !in FreeMoves(g, p, n - 1)
    ensures FreeMoves(g, p, n) == FreeMoves(g, p, n - 1) + (if MoveFree(g, p, n - 1) then {n - 1} else {})
  {
  }

  lemma {:induction false} FreeCountIsCardinality(g: Grid, p: Cell, n: int)
    requires Shaped(g) && InPlayable(p) && 0 <= n <= |Moves|
    ensures FreeCount(g, p, n) == |FreeMoves(g, p, n)|
    decreases n
  {
    if n > 0 {
      FreeCountIsCardinality(g, p, n - 1);
      FreeMovesStep(g, p, n);
    } else {
      assert FreeMoves(g, p, n) == {};
    }
  }

  /** The onward degree is exactly the number of table moves whose target square holds 0. */
  lemma DegreeCountsFreeMoves(g: Grid, p: Cell)
    requires Shaped(g) && InPlayable(p)
    ensures Degree(g, p) == |set i | 0 <= i < |Moves| && MoveFree(g, p, i)|
  {
    FreeCountIsCardinality(g, p, |Moves|);
  }

  /** `c` is a legal next square from `p`, carrying its correct onward degree. */
  ghost predicate IsNeighbour(g: Grid, p: Cell, c: Candidate)
    requires Shaped(g)
  {
    && InPlayable(c.cell)
    && IsFree(g, c.cell)
    && KnightStep(p, c.cell)
    && c.degree == Degree(g, c.cell)
  }

  function Cells(nb: seq<Candidate>): (cs: seq<Cell>)
    ensures |cs| == |nb|
    ensures forall k :: 0 <= k < |nb| ==> cs[k] == nb[k].cell
  {
    seq(|nb|, k requires 0 <= k < |nb| => nb[k].cell)
  }

  /** Each entry of `s` is at a lower move-table position, seen from `p`, than every entry after it. */
  predicate InTableOrder(p: Cell, s: seq<Candidate>) {
    forall k, l :: 0 <= k < l < |s| ==> MoveIndex(p, s[k].cell) < MoveIndex(p, s[l].cell)
  }

  /** The candidate list built from the first `n` moves of the table. */
  function NeighboursUpTo(g: Grid, p: Cell, n: int): (nb: seq<Candidate>)
    requires Padded(g) && InPlayable(p) && 0 <= n <= |Moves|
    ensures |nb| == FreeCount(g, p, n)
    decreases n
  {
    if n == 0 then []
    else
      var q := Target(p, n - 1);
      if MoveFree(g, p, n - 1) then
        FreeIsPlayable(g, q);
        NeighboursUpTo(g, p, n - 1) + [Candidate(q, Degree(g, q))]
      else
        NeighboursUpTo(g, p, n - 1)
  }

  lemma {:induction false} NeighboursUpToSound(g: Grid, p: Cell, n: int)
    requires Padded(g) && InPlayable(p) && 0 <= n <= |Moves|
    ensures forall k :: 0 <= k < |NeighboursUpTo(g, p, n)| ==>
      IsNeighbour(g, p, NeighboursUpTo(g, p, n)[k]) && MoveIndex(p, NeighboursUpTo(g, p, n)[k].cell) < n
    decreases n
  {
    if n > 0 {
      NeighboursUpToSound(g, p, n - 1);
      if MoveFree(g, p, n - 1) {
        var nb := NeighboursUpTo(g, p, n - 1);
        var q := Target(p, n - 1);
        MoveIndexOfTarget(p, n - 1);
        TargetIsKnightStep(p, n - 1);
        FreeIsPlayable(g, q);
        assert NeighboursUpTo(g, p, n) == nb + [Candidate(q, Degree(g, q))];
      }
    }
  }

  lemma {:induction false} NeighboursUpToOrdered(g: Grid, p: Cell, n: int)
    requires Padded(g) && InPlayable(p) && 0 <= n <= |Moves|
    ensures InTableOrder(p, NeighboursUpTo(g, p, n))
    decreases n
  {
    if n > 0 {
      NeighboursUpToOrdered(g, p, n - 1);
      if MoveFree(g, p, n - 1) {
        var nb := NeighboursUpTo(g, p, n - 1);
        var q := Target(p, n - 1);
        NeighboursUpToSound(g, p, n - 1);
        MoveIndexOfTarget(p, n - 1);
        FreeIsPlayable(g, q);
        var x := Candidate(q, Degree(g, q));
        assert NeighboursUpTo(g, p, n) == nb + [x];
        AppendInTableOrder(p, nb, x);
      }
    }
  }

  /** An entry placed after every entry of a list in move-table order keeps it in move-table order. */
  lemma AppendInTableOrder(p: Cell, s: seq<Candidate>, x: Candidate)
    requires InTableOrder(p, s)
    requires forall k :: 0 <= k < |s| ==> MoveIndex(p, s[k].cell) < MoveIndex(p, x.cell)
    ensures InTableOrder(p, s + [x])
  {
    var s' := s + [x];
    forall k, l | 0 <= k < l < |s'|
      ensures MoveIndex(p, s'[k].cell) < MoveIndex(p, s'[l].cell)
    {
      assert s'[k] == s[k];
    }
  }

  lemma {:induction false} NeighboursUpToComplete(g: Grid, p: Cell, n: int)
    requires Padded(g) && InPlayable(p) && 0 <= n <= |Moves|
    ensures forall i :: 0 <= i < n && MoveFree(g, p, i) ==> Target(p, i) in Cells(NeighboursUpTo(g, p, n))
    decreases n
  {
    if n > 0 {
      NeighboursUpToComplete(g, p, n - 1);
      var nb := NeighboursUpTo(g, p, n - 1);
      if MoveFree(g, p, n - 1) {
        var q := Target(p, n - 1);
        FreeIsPlayable(g, q);
        var c := Candidate(q, Degree(g, q));
        assert NeighboursUpTo(g, p, n) == nb + [c];
        assert Cells(nb + [c]) == Cells(nb) + [q];
      }
    }
  }

  /**
   The candidate list of `p`: one entry per free square a knight's move
   away, each with its onward degree; as many entries as the onward degree
   of `p`.
   */
  function Neighbours(g: Grid, p: Cell): (nb: seq<Candidate>)
    requires Padded(g) && InPlayable(p)
    ensures |nb| == Degree(g, p) && |nb| <= |Moves|
  {
    NeighboursUpTo(g, p, |Moves|)
  }

  /** Every entry of the candidate list is a free knight neighbour carrying its own onward degree. */
  lemma NeighboursSound(g: Grid, p: Cell)
    requires Padded(g) && InPlayable(p)
    ensures forall k :: 0 <= k < |Neighbours(g, p)| ==> IsNeighbour(g, p, Neighbours(g, p)[k])
  {
    NeighboursUpToSound(g, p, |Moves|);
  }

  /**
   The candidate list is in move-table order and misses no free square a
   knight's move away.
   */
  lemma NeighboursInTableOrder(g: Grid, p: Cell)
    requires Padded(g) && InPlayable(p)
    ensures InTableOrder(p, Neighbours(g, p))
    ensures forall i :: 0 <= i < |Moves| && MoveFree(g, p, i) ==> Target(p, i) in Cells(Neighbours(g, p))
  {
    NeighboursUpToOrdered(g, p, |Moves|);
    NeighboursUpToComplete(g, p, |Moves|);
  }
}
