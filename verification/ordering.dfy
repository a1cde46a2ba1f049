/**
 Warnsdorff's ordering of the candidate list: ascending onward degree, with
 ties left in move-table order because the sort is stable.

 The sort is written as an insertion sort. A stable sort by one key has a
 single possible outcome (`StableSortIsUnique`), so this agrees with any
 other stable sort of the same list.
 */
module Ordering {
  import opened Board
  import opened Adjacency

  predicate SortedByDegree(s: seq<Candidate>) {
    forall i, j :: 0 <= i < j < |s| ==> s[i].degree <= s[j].degree
  }

  /** The entries of `s` with onward degree `d`, in their order in `s`. */
  function WithDegree(s: seq<Candidate>, d: int): (r: seq<Candidate>)
    ensures |r| <= |s|
  {
    if s == [] then []
    else (if s[0].degree == d then [s[0]] else []) + WithDegree(s[1..], d)
  }

  lemma WithDegreeCons(x: Candidate, t: seq<Candidate>, d: int)
    ensures WithDegree([x] + t, d) == (if x.degree == d then [x] else []) + WithDegree(t, d)
  {
    assert ([x] + t)[1..] == t;
  }

  /** Puts `c` in front of the first entry whose degree is at least its own. */
  function Insert(c: Candidate, s: seq<Candidate>): (r: seq<Candidate>)
    ensures |r| == |s| + 1
  {
    if s == [] then [c]
    else if c.degree <= s[0].degree then [c] + s
    else [s[0]] + Insert(c, s[1..])
  }

  lemma {:induction false} InsertPermutes(c: Candidate, s: seq<Candidate>)
    ensures multiset(Insert(c, s)) == multiset(s) + multiset{c}
  {
    if s != [] && c.degree > s[0].degree {
      InsertPermutes(c, s[1..]);
      assert s == [s[0]] + s[1..];
    }
  }

  lemma {:induction false} InsertKeepsSorted(c: Candidate, s: seq<Candidate>)
    requires SortedByDegree(s)
    ensures SortedByDegree(Insert(c, s))
  {
    if s != [] && c.degree > s[0].degree {
      InsertKeepsSorted(c, s[1..]);
      InsertPermutes(c, s[1..]);
      var r := Insert(c, s);
      forall j | 1 <= j < |r|
        ensures s[0].degree <= r[j].degree
      {
        assert r[j] in multiset(Insert(c, s[1..]));
        assert r[j] == c || r[j] in multiset(s[1..]);
      }
    }
  }

  /** `c` lands in front of every entry of its own degree and changes no other degree's order. */
  lemma {:induction false} InsertIsStable(c: Candidate, s: seq<Candidate>, d: int)
    ensures WithDegree(Insert(c, s), d) == (if c.degree == d then [c] + WithDegree(s, d) else WithDegree(s, d))
  {
    if s == [] {
      WithDegreeCons(c, [], d);
    } else if c.degree <= s[0].degree {
      assert Insert(c, s) == [c] + s;
      WithDegreeCons(c, s, d);
    } else {
      assert Insert(c, s) == [s[0]] + Insert(c, s[1..]);
      InsertIsStable(c, s[1..], d);
      WithDegreeCons(s[0], Insert(c, s[1..]), d);
      WithDegreeCons(s[0], s[1..], d);
      assert s == [s[0]] + s[1..];
    }
  }

  /**
   `neighbor.sort(Comparator.comparingInt(a -> a[2]))`: the candidates in
   ascending onward degree, a permutation of the input in which entries of
   equal degree keep their input order.
   */
  function SortByDegree(s: seq<Candidate>): (r: seq<Candidate>)
    ensures SortedByDegree(r)
    ensures multiset(r) == multiset(s)
    ensures forall d :: WithDegree(r, d) == WithDegree(s, d)
  {
    if s == [] then []
    else
      var t := SortByDegree(s[1..]);
      InsertKeepsSorted(s[0], t);
      InsertPermutes(s[0], t);
      assert s == [s[0]] + s[1..];
      assert forall d :: WithDegree(Insert(s[0], t), d) == WithDegree(s, d) by {
        forall d
          ensures WithDegree(Insert(s[0], t), d) == WithDegree(s, d)
        {
          InsertIsStable(s[0], t, d);
          WithDegreeCons(s[0], s[1..], d);
        }
      }
      Insert(s[0], t)
  }

  /** Every entry of the sorted list comes from the input list. */
  lemma SortedEntriesFromInput(s: seq<Candidate>)
    ensures forall k :: 0 <= k < |SortByDegree(s)| ==> SortByDegree(s)[k] in s
  {
    var r := SortByDegree(s);
    forall k | 0 <= k < |r|
      ensures r[k] in s
    {
      assert r[k] in multiset(r);
    }
  }

  /** The first entry of a list heads the entries of its own degree. */
  lemma WithDegreeHead(s: seq<Candidate>)
    ensures s != [] ==> WithDegree(s, s[0].degree) != [] && WithDegree(s, s[0].degree)[0] == s[0]
  {
  }

  /** In a list sorted by degree, no entry has a degree below the first entry's. */
  lemma {:induction false} WithDegreeBelowFirst(s: seq<Candidate>, d: int)
    ensures SortedByDegree(s) && s != [] && d < s[0].degree ==> WithDegree(s, d) == []
    decreases |s|
  {
    if SortedByDegree(s) && |s| > 1 && d < s[0].degree {
      WithDegreeBelowFirst(s[1..], d);
    }
  }

  /** A sorted list holding some entry of degree `d` starts at a degree no greater than `d`. */
  lemma FirstDegreeAtMost(s: seq<Candidate>, d: int)
    requires SortedByDegree(s) && s != [] && WithDegree(s, d) != []
    ensures s[0].degree <= d
  {
    WithDegreeBelowFirst(s, d);
  }

  /** Two sorted lists that agree degree by degree start with the same entry. */
  lemma HeadsAgree(a: seq<Candidate>, b: seq<Candidate>)
    requires SortedByDegree(a) && SortedByDegree(b) && a != [] && b != []
    requires forall d :: WithDegree(a, d) == WithDegree(b, d)
    ensures a[0] == b[0]
  {
    var da, db := a[0].degree, b[0].degree;
    WithDegreeHead(a);
    WithDegreeHead(b);
    assert WithDegree(b, da) == WithDegree(a, da);
    assert WithDegree(a, db) == WithDegree(b, db);
    FirstDegreeAtMost(b, da);
    FirstDegreeAtMost(a, db);
    assert da == db;
  }

  lemma PrefixCancels(x: seq<Candidate>, s: seq<Candidate>, t: seq<Candidate>)
    requires x + s == x + t
    ensures s == t
  {
    assert s == (x + s)[|x|..];
    assert t == (x + t)[|x|..];
  }

  /** Removing a shared first entry keeps two lists in agreement on degree `d`. */
  lemma TailsAgree(a: seq<Candidate>, b: seq<Candidate>, d: int)
    requires a != [] && b != [] && a[0] == b[0]
    requires WithDegree(a, d) == WithDegree(b, d)
    ensures WithDegree(a[1..], d) == WithDegree(b[1..], d)
  {
    var x := if a[0].degree == d then [a[0]] else [];
    assert WithDegree(a, d) == x + WithDegree(a[1..], d);
    assert WithDegree(b, d) == x + WithDegree(b[1..], d);
    PrefixCancels(x, WithDegree(a[1..], d), WithDegree(b[1..], d));
  }

  /** Lists that agree degree by degree are empty together. */
  lemma EmptyTogether(a: seq<Candidate>, b: seq<Candidate>)
    requires forall d :: WithDegree(a, d) == WithDegree(b, d)
    ensures a == [] <==> b == []
  {
    WithDegreeHead(a);
    WithDegreeHead(b);
    if a != [] {
      assert WithDegree(b, a[0].degree) != [];
    }
    if b != [] {
      assert WithDegree(a, b[0].degree) != [];
    }
  }

  /**
   Two lists sorted by degree that agree, degree by degree, on the order of
   their entries are the same list: the outcome of a stable sort is unique.
   */
  lemma {:induction false} StableSortIsUnique(a: seq<Candidate>, b: seq<Candidate>)
    requires SortedByDegree(a) && SortedByDegree(b)
    requires forall d :: WithDegree(a, d) == WithDegree(b, d)
    ensures a == b
    decreases |a|
  {
    EmptyTogether(a, b);
    if a != [] {
      HeadsAgree(a, b);
      forall d
        ensures WithDegree(a[1..], d) == WithDegree(b[1..], d)
      {
        TailsAgree(a, b, d);
      }
      StableSortIsUnique(a[1..], b[1..]);
      assert a == [a[0]] + a[1..];
      assert b == [b[0]] + b[1..];
    }
  }

  /** Any list sorted by degree that keeps each degree's entries in input order is the result of `SortByDegree`. */
  lemma StableSortMatches(s: seq<Candidate>, t: seq<Candidate>)
    requires SortedByDegree(t)
    requires forall d :: WithDegree(t, d) == WithDegree(s, d)
    ensures t == SortByDegree(s)
  {
    StableSortIsUnique(t, SortByDegree(s));
  }

  /** The entries of degree `d` are exactly those of `s` with that degree. */
  lemma {:induction false} WithDegreeMembers(s: seq<Candidate>, d: int)
    ensures forall j :: 0 <= j < |WithDegree(s, d)| ==> WithDegree(s, d)[j] in s && WithDegree(s, d)[j].degree == d
    ensures forall k :: 0 <= k < |s| && s[k].degree == d ==> s[k] in WithDegree(s, d)
  {
    if s != [] {
      WithDegreeMembers(s[1..], d);
      var x := if s[0].degree == d then [s[0]] else [];
      assert WithDegree(s, d) == x + WithDegree(s[1..], d);
      forall k | 1 <= k < |s| && s[k].degree == d
        ensures s[k] in WithDegree(s, d)
      {
        assert s[k] == s[1..][k - 1];
      }
    }
  }

  lemma TailInTableOrder(p: Cell, s: seq<Candidate>)
    requires InTableOrder(p, s) && s != []
    ensures InTableOrder(p, s[1..])
    ensures forall x :: x in s[1..] ==> MoveIndex(p, s[0].cell) < MoveIndex(p, x.cell)
  {
    forall x | x in s[1..]
      ensures MoveIndex(p, s[0].cell) < MoveIndex(p, x.cell)
    {
      var l :| 0 <= l < |s[1..]| && s[1..][l] == x;
      assert x == s[l + 1];
    }
  }

  lemma ConsInTableOrder(p: Cell, x: Candidate, t: seq<Candidate>)
    requires InTableOrder(p, t)
    requires forall j :: 0 <= j < |t| ==> MoveIndex(p, x.cell) < MoveIndex(p, t[j].cell)
    ensures InTableOrder(p, [x] + t)
  {
    var w := [x] + t;
    forall k, l | 0 <= k < l < |w|
      ensures MoveIndex(p, w[k].cell) < MoveIndex(p, w[l].cell)
    {
      if k > 0 {
        assert w[k] == t[k - 1] && w[l] == t[l - 1];
      } else {
        assert w[l] == t[l - 1];
      }
    }
  }

  /** Filtering by degree keeps a list in move-table order. */
  lemma {:induction false} WithDegreeKeepsTableOrder(p: Cell, s: seq<Candidate>, d: int)
    requires InTableOrder(p, s)
    ensures InTableOrder(p, WithDegree(s, d))
  {
    if s != [] {
      TailInTableOrder(p, s);
      WithDegreeKeepsTableOrder(p, s[1..], d);
      var t := WithDegree(s[1..], d);
      if s[0].degree == d {
        WithDegreeMembers(s[1..], d);
        ConsInTableOrder(p, s[0], t);
        assert WithDegree(s, d) == [s[0]] + t;
      } else {
        assert WithDegree(s, d) == t;
      }
    }
  }

  /** Two entries of `s` of degree `d` keep their relative order among the entries of degree `d`. */
  lemma {:induction false} WithDegreeRanks(s: seq<Candidate>, d: int, k: int, l: int)
    requires 0 <= k < l < |s| && s[k].degree == d && s[l].degree == d
    ensures exists i, j :: 0 <= i < j < |WithDegree(s, d)| && WithDegree(s, d)[i] == s[k] && WithDegree(s, d)[j] == s[l]
  {
    var x := if s[0].degree == d then [s[0]] else [];
    var t := WithDegree(s[1..], d);
    assert WithDegree(s, d) == x + t;
    if k == 0 {
      WithDegreeMembers(s[1..], d);
      assert s[l] == s[1..][l - 1];
      var j :| 0 <= j < |t| && t[j] == s[l];
      assert WithDegree(s, d)[0] == s[k] && WithDegree(s, d)[1 + j] == s[l];
    } else {
      WithDegreeRanks(s[1..], d, k - 1, l - 1);
      var i, j :| 0 <= i < j < |t| && t[i] == s[1..][k - 1] && t[j] == s[1..][l - 1];
      assert WithDegree(s, d)[|x| + i] == s[k] && WithDegree(s, d)[|x| + j] == s[l];
    }
  }

  /** Entries of equal degree appear in move-table order, seen from `p`. */
  predicate TiesInTableOrder(p: Cell, s: seq<Candidate>) {
    forall k, l :: 0 <= k < l < |s| && s[k].degree == s[l].degree ==> MoveIndex(p, s[k].cell) < MoveIndex(p, s[l].cell)
  }

  /**
   Sorting a list that is in move-table order leaves entries of equal degree
   in move-table order: ties are broken by position in the move table.
   */
  lemma SortedTiesInTableOrder(p: Cell, s: seq<Candidate>)
    requires InTableOrder(p, s)
    ensures TiesInTableOrder(p, SortByDegree(s))
  {
    var r := SortByDegree(s);
    forall k, l | 0 <= k < l < |r| && r[k].degree == r[l].degree
      ensures MoveIndex(p, r[k].cell) < MoveIndex(p, r[l].cell)
    {
      var d := r[k].degree;
      WithDegreeRanks(r, d, k, l);
      WithDegreeKeepsTableOrder(p, s, d);
      assert WithDegree(r, d) == WithDegree(s, d);
    }
  }
}
