/** Completions of a grid: the reference against which both searches are
    proved. A completion of the listed cells writes a digit 1..9 into each
    of them, keeps every other cell, and leaves the grid conflict-free. */
module Solutions {
  import opened Grid

  predicate InRange(L: seq<int>)
  {
    forall k :: 0 <= k < |L| ==> 0 <= L[k] < 81
  }

  /** No cell is listed twice. */
  ghost predicate Distinct(L: seq<int>)
  {
    forall x :: multiset(L)[x] <= 1
  }

  /** The situation in which the searches are called: consistent counters,
      no conflict, and the list is exactly the empty cells, each once. */
  ghost predicate Ready(b: Board, L: seq<int>)
  {
    Consistent(b) && NoConflict(b.cells) && InRange(L) && Distinct(L)
    && forall i :: 0 <= i < 81 ==> (i in L <==> b.cells[i] == 0)
  }

  function Digits(): seq<int>
  {
    [1, 2, 3, 4, 5, 6, 7, 8, 9]
  }

  /** All completions of the listed cells, built cell by cell. */
  function Completions(cells: seq<int>, L: seq<int>): set<seq<int>>
    requires |cells| == 81 && InRange(L)
    decreases |L|, 1, 0
  {
    if L == [] then (if NoConflict(cells) then {cells} else {})
    else Branches(cells, L[0], L[1..], Digits())
  }

  /** The completions that put one of the digits ds at c and then complete rest. */
  function Branches(cells: seq<int>, c: int, rest: seq<int>, ds: seq<int>): set<seq<int>>
    requires |cells| == 81 && 0 <= c < 81 && InRange(rest)
    decreases |rest| + 1, 0, |ds|
  {
    if ds == [] then {}
    else Branches(cells, c, rest, ds[..|ds| - 1]) + Completions(cells[c := ds[|ds| - 1]], rest)
  }

  /** The non-recursive description of a completion. */
  predicate IsCompletion(cells: seq<int>, L: seq<int>, g: seq<int>)
    requires |cells| == 81
  {
    |g| == 81 && NoConflict(g)
    && (forall i :: 0 <= i < 81 && i in L ==> 1 <= g[i] <= 9)
    && (forall i :: 0 <= i < 81 && i !in L ==> g[i] == cells[i])
  }

  function Min2(n: nat): nat
  {
    if n < 2 then n else 2
  }

  lemma {:induction false} BranchesMember(cells: seq<int>, c: int, rest: seq<int>, ds: seq<int>, g: seq<int>)
    requires |cells| == 81 && 0 <= c < 81 && InRange(rest)
    ensures g in Branches(cells, c, rest, ds) <==>
      exists k :: 0 <= k < |ds| && g in Completions(cells[c := ds[k]], rest)
    decreases |ds|
  {
    if ds != [] {
      var ds' := ds[..|ds| - 1];
      BranchesMember(cells, c, rest, ds', g);
      if g in Branches(cells, c, rest, ds) {
        if g !in Completions(cells[c := ds[|ds| - 1]], rest) {
          var k :| 0 <= k < |ds'| && g in Completions(cells[c := ds'[k]], rest);
          assert ds'[k] == ds[k];
        }
      } else {
        forall k | 0 <= k < |ds|
          ensures g !in Completions(cells[c := ds[k]], rest)
        {
          if k < |ds'| {
            assert ds'[k] == ds[k];
          }
        }
      }
    }
  }

  /** The recursive construction yields exactly the completions. */
  lemma {:induction false} CompletionsIff(cells: seq<int>, L: seq<int>, g: seq<int>)
    requires |cells| == 81 && InRange(L)
    ensures g in Completions(cells, L) <==> IsCompletion(cells, L, g)
    decreases |L|
  {
    if L == [] {
      if IsCompletion(cells, L, g) {
        assert g == cells;
      }
    } else {
      var c, rest := L[0], L[1..];
      assert forall i :: i in L <==> i == c || i in rest;
      BranchesMember(cells, c, rest, Digits(), g);
      forall k | 0 <= k < 9
        ensures g in Completions(cells[c := Digits()[k]], rest) <==> IsCompletion(cells[c := Digits()[k]], rest, g)
      {
        CompletionsIff(cells[c := Digits()[k]], rest, g);
      }
      if IsCompletion(cells, L, g) {
        var d := if c in rest then 1 else g[c];
        var k := d - 1;
        assert Digits()[k] == d;
        assert IsCompletion(cells[c := d], rest, g);
      }
    }
  }

  /** A completion of the empty cells of a ready grid is a solved grid:
      no cell is 0, no two peers share a digit, and every clue is kept. */
  lemma CompletionSolved(b: Board, L: seq<int>, g: seq<int>)
    requires Ready(b, L) && g in Completions(b.cells, L)
    ensures |g| == 81 && NoConflict(g)
    ensures forall c :: 0 <= c < 81 ==> 1 <= g[c] <= 9
    ensures forall c :: 0 <= c < 81 && b.cells[c] != 0 ==> g[c] == b.cells[c]
  {
    CompletionsIff(b.cells, L, g);
  }

  /** The completions depend only on which cells are listed. */
  lemma SameCells(cells: seq<int>, L1: seq<int>, L2: seq<int>)
    requires |cells| == 81 && InRange(L1) && InRange(L2)
    requires forall i :: i in L1 <==> i in L2
    ensures Completions(cells, L1) == Completions(cells, L2)
  {
    forall g | g in Completions(cells, L1)
      ensures g in Completions(cells, L2)
    {
      CompletionsIff(cells, L1, g);
      CompletionsIff(cells, L2, g);
    }
    forall g | g in Completions(cells, L2)
      ensures g in Completions(cells, L1)
    {
      CompletionsIff(cells, L1, g);
      CompletionsIff(cells, L2, g);
    }
  }

  /** A digit whose counter at an empty cell is nonzero leads to no completion. */
  lemma DeadDigit(b: Board, c: int, rest: seq<int>, d: int)
    requires Consistent(b) && 0 <= c < 81 && InRange(rest) && 1 <= d <= 9
    requires b.cells[c] == 0 && c !in rest
    requires forall i :: i in rest ==> 0 <= i < 81 && b.cells[i] == 0
    requires b.aux[c][d - 1] != 0
    ensures Completions(b.cells[c := d], rest) == {}
  {
    CounterZeroIff(b, c, d);
    var j :| 0 <= j < 81 && Sees(j, c) && b.cells[j] == d;
    assert j != c && Peers(j, c);
    if Completions(b.cells[c := d], rest) != {} {
      var g :| g in Completions(b.cells[c := d], rest);
      CompletionsIff(b.cells[c := d], rest, g);
      assert false;
    }
  }

  /** A digit whose counter at the first listed cell is 0 can be placed there,
      and what remains is again ready for the search. */
  lemma LiveDigit(b: Board, L: seq<int>, d: int)
    requires Ready(b, L) && L != [] && 1 <= d <= 9 && b.aux[L[0]][d - 1] == 0
    ensures Col(L[0]) + 9 * Row(L[0]) == L[0] && 0 <= Col(L[0]) < 9 && 0 <= Row(L[0]) < 9
    ensures TrySet(b, Col(L[0]), Row(L[0]), d).0
    ensures TrySet(b, Col(L[0]), Row(L[0]), d).1.cells == b.cells[L[0] := d]
    ensures Ready(TrySet(b, Col(L[0]), Row(L[0]), d).1, L[1..])
  {
    var c := L[0];
    Decompose(c);
    HeadNotInTail(L);
    SetKeepsInvariant(b, Col(c), Row(c), d);
    CounterZeroIff(b, c, d);
    var b' := TrySet(b, Col(c), Row(c), d).1;
    forall i | 0 <= i < 81
      ensures i in L[1..] <==> b'.cells[i] == 0
    {
      assert i in L <==> i == c || i in L[1..];
    }
  }

  lemma DistinctAt(L: seq<int>, x: int)
    requires Distinct(L)
    ensures multiset(L)[x] <= 1
  {
  }

  lemma HeadNotInTail(L: seq<int>)
    requires Distinct(L) && L != []
    ensures L[0] !in L[1..] && Distinct(L[1..])
    ensures forall i :: i in L <==> i == L[0] || i in L[1..]
  {
    var m := multiset(L);
    DistinctAt(L, L[0]);
    assert L == [L[0]] + L[1..];
    assert m == multiset([L[0]]) + multiset(L[1..]);
    forall x
      ensures multiset(L[1..])[x] <= 1
    {
      DistinctAt(L, x);
    }
  }

  lemma {:induction false} AscendingDistinct(s: seq<int>)
    requires StrictlyAscending(s)
    ensures Distinct(s)
  {
    if s != [] {
      var s' := s[..|s| - 1];
      assert s == s' + [s[|s| - 1]];
      assert StrictlyAscending(s');
      AscendingDistinct(s');
      assert s[|s| - 1] !in s';
    }
  }

  /** The branch for one more digit is disjoint from the earlier ones. */
  lemma BranchStep(cells: seq<int>, c: int, rest: seq<int>, ds: seq<int>, k: int)
    requires |cells| == 81 && 0 <= c < 81 && InRange(rest) && c !in rest
    requires StrictlyAscending(ds) && 0 <= k < |ds|
    ensures |Branches(cells, c, rest, ds[..k + 1])|
         == |Branches(cells, c, rest, ds[..k])| + |Completions(cells[c := ds[k]], rest)|
  {
    var before := Branches(cells, c, rest, ds[..k]);
    var now := Completions(cells[c := ds[k]], rest);
    assert ds[..k + 1][..k] == ds[..k];
    assert Branches(cells, c, rest, ds[..k + 1]) == before + now;
    if before * now != {} {
      var g :| g in before && g in now;
      BranchesMember(cells, c, rest, ds[..k], g);
      var m :| 0 <= m < k && g in Completions(cells[c := ds[..k][m]], rest);
      CompletionsIff(cells[c := ds[..k][m]], rest, g);
      CompletionsIff(cells[c := ds[k]], rest, g);
      assert false;
    }
  }

  /** Only the allowed digits of the first listed cell contribute completions. */
  lemma AllowedBranches(b: Board, L: seq<int>)
    requires Ready(b, L) && L != []
    ensures Completions(b.cells, L) == Branches(b.cells, L[0], L[1..], Allowed(b.aux[L[0]]))
  {
    HeadNotInTail(L);
    forall g
      ensures g in Completions(b.cells, L) <==> g in Branches(b.cells, L[0], L[1..], Allowed(b.aux[L[0]]))
    {
      AllowedBranchesAt(b, L[0], L[1..], g);
    }
  }

  lemma AllowedBranchesAt(b: Board, c: int, rest: seq<int>, g: seq<int>)
    requires Consistent(b) && 0 <= c < 81 && InRange(rest) && b.cells[c] == 0 && c !in rest
    requires forall i :: i in rest ==> 0 <= i < 81 && b.cells[i] == 0
    ensures g in Branches(b.cells, c, rest, Digits()) <==> g in Branches(b.cells, c, rest, Allowed(b.aux[c]))
  {
    var A := Allowed(b.aux[c]);
    AllowedSpec(b.aux[c]);
    BranchesMember(b.cells, c, rest, Digits(), g);
    BranchesMember(b.cells, c, rest, A, g);
    if g in Branches(b.cells, c, rest, Digits()) {
      var k :| 0 <= k < 9 && g in Completions(b.cells[c := Digits()[k]], rest);
      var d := Digits()[k];
      if b.aux[c][d - 1] != 0 {
        DeadDigit(b, c, rest, d);
        assert false;
      }
      assert d in A;
      var m :| 0 <= m < |A| && A[m] == d;
    }
    if g in Branches(b.cells, c, rest, A) {
      var m :| 0 <= m < |A| && g in Completions(b.cells[c := A[m]], rest);
      assert A[m] in A;
      assert Digits()[A[m] - 1] == A[m];
    }
  }

  /** A listed cell with no allowed digit means there is no completion. */
  lemma NoAllowedNoCompletion(b: Board, L: seq<int>, k: int)
    requires Ready(b, L) && 0 <= k < |L| && Allowed(b.aux[L[k]]) == []
    ensures Completions(b.cells, L) == {}
  {
    var L' := [L[k]] + L[..k] + L[k + 1..];
    MoveToFront(L, k);
    ReadyPermutation(b, L, L');
    assert L'[0] == L[k];
    AllowedBranches(b, L');
  }

  /** Moving the k-th element to the front keeps the multiset. */
  lemma MoveToFront(L: seq<int>, k: int)
    requires 0 <= k < |L|
    ensures multiset([L[k]] + L[..k] + L[k + 1..]) == multiset(L)
  {
    assert L == L[..k] + [L[k]] + L[k + 1..];
    calc {
      multiset([L[k]] + L[..k] + L[k + 1..]);
      multiset([L[k]]) + multiset(L[..k]) + multiset(L[k + 1..]);
      multiset(L[..k]) + multiset([L[k]]) + multiset(L[k + 1..]);
      multiset(L);
    }
  }

  /** Reordering the list changes neither readiness nor the completions. */
  lemma ReadyPermutation(b: Board, L: seq<int>, L2: seq<int>)
    requires Ready(b, L) && multiset(L2) == multiset(L)
    ensures Ready(b, L2) && Completions(b.cells, L2) == Completions(b.cells, L)
  {
    assert forall i :: i in L2 <==> i in L by {
      forall i
        ensures i in L2 <==> i in L
      {
        assert i in L2 <==> i in multiset(L2);
        assert i in L <==> i in multiset(L);
      }
    }
    forall k | 0 <= k < |L2|
      ensures 0 <= L2[k] < 81
    {
      assert L2[k] in multiset(L2);
      assert L2[k] in L;
    }
    forall x
      ensures multiset(L2)[x] <= 1
    {
      DistinctAt(L, x);
    }
    SameCells(b.cells, L, L2);
  }

  /** Fewer digits give fewer completions. */
  lemma {:induction false} BranchesPrefix(cells: seq<int>, c: int, rest: seq<int>, ds: seq<int>, k: int)
    requires |cells| == 81 && 0 <= c < 81 && InRange(rest) && 0 <= k <= |ds|
    ensures Branches(cells, c, rest, ds[..k]) <= Branches(cells, c, rest, ds)
    decreases |ds| - k
  {
    if k < |ds| {
      var ds' := ds[..|ds| - 1];
      assert ds'[..k] == ds[..k];
      BranchesPrefix(cells, c, rest, ds', k);
    } else {
      assert ds[..k] == ds;
    }
  }
}
