/** SolverModule: the ordering of the empty-cell list and the two searches. */
module SolverModule {
  import opened Grid
  import opened PuzzleState
  import opened Solutions

  /** The sort key of a list entry: how many digits are allowed there. */
  ghost function Keys(aux: seq<seq<int>>): (K: seq<int>)
    requires AuxShape(aux)
    ensures |K| == 81
  {
    seq(81, c requires 0 <= c < 81 => AllowedCount(aux, c))
  }

  /** K holds the key of every cell of the puzzle, as its counters stand. */
  ghost predicate KeysOf(sudoku: SudokuPuzzle, K: seq<int>)
    reads sudoku, sudoku.aux
  {
    sudoku.aux.Length0 == 81 && sudoku.aux.Length1 == 9 && K == Keys(sudoku.AuxModel())
  }

  ghost function Key(K: seq<int>, c: int): int
  {
    if 0 <= c < |K| then K[c] else 0
  }

  ghost predicate CellsIn(a: seq<int>, lo: int, hi: int)
  {
    forall k :: lo <= k <= hi && 0 <= k < |a| ==> 0 <= a[k] < 81
  }

  ghost predicate SortedIn(K: seq<int>, a: seq<int>, lo: int, hi: int)
  {
    forall k, m :: lo <= k < m <= hi && 0 <= k && m < |a| ==> Key(K, a[k]) <= Key(K, a[m])
  }

  lemma SwapMultiset(s: seq<int>, i: int, j: int)
    requires 0 <= i < |s| && 0 <= j < |s|
    ensures multiset(s[i := s[j]][j := s[i]]) == multiset(s)
  {
    var t := s[i := s[j]];
    assert multiset(t) == multiset(s) - multiset{s[i]} + multiset{s[j]};
    assert multiset(t[j := s[i]]) == multiset(t) - multiset{t[j]} + multiset{s[i]};
  }

  /** If t is a rearrangement of s, a bound on every key of s bounds every key of t. */
  lemma RearrangedBound(keys: seq<int>, s: seq<int>, t: seq<int>, bound: int, below: bool)
    requires multiset(s) == multiset(t)
    requires forall k :: 0 <= k < |s| ==> if below then Key(keys, s[k]) <= bound else Key(keys, s[k]) >= bound
    ensures forall k :: 0 <= k < |t| ==> if below then Key(keys, t[k]) <= bound else Key(keys, t[k]) >= bound
  {
    forall k | 0 <= k < |t|
      ensures if below then Key(keys, t[k]) <= bound else Key(keys, t[k]) >= bound
    {
      assert t[k] in multiset(s);
      var m :| 0 <= m < |s| && s[m] == t[k];
    }
  }

  /** allowedNums: the number of digits allowed at the index-th listed cell. */
  method AllowedNums(sudoku: SudokuPuzzle, emptySquares: array<int>, index: int) returns (n: int)
    requires sudoku.aux.Length0 == 81 && sudoku.aux.Length1 == 9 && 0 <= index < emptySquares.Length && 0 <= emptySquares[index] < 81
    ensures n == Key(Keys(sudoku.AuxModel()), emptySquares[index])
    ensures n == |Allowed(sudoku.AuxModel()[emptySquares[index]])| <= 9
  {
    var c := emptySquares[index];
    Decompose(c);
    var allowed := sudoku.GetAllowedNums(c % 9, c / 9);
    AllowedSpec(sudoku.AuxModel()[c]);
    n := allowed.Length;
  }

  /** The first position from i on whose key is not below the pivot. */
  method ScanUp(sudoku: SudokuPuzzle, a: array<int>, i: int, hi: int, pivot: int, ghost aux: seq<int>) returns (r: int)
    requires 0 <= i <= hi < a.Length && CellsIn(a[..], i, hi)
    requires KeysOf(sudoku, aux)
    requires exists k :: i <= k <= hi && Key(aux, a[k]) >= pivot
    ensures i <= r <= hi && Key(aux, a[r]) >= pivot
    ensures forall k :: i <= k < r ==> Key(aux, a[k]) < pivot
  {
    r := i;
    var kr := AllowedNums(sudoku, a, r);
    while kr < pivot
      invariant i <= r <= hi && kr == Key(aux, a[r])
      invariant forall k :: i <= k < r ==> Key(aux, a[k]) < pivot
      invariant exists k :: r <= k <= hi && Key(aux, a[k]) >= pivot
      decreases hi - r
    {
      r := r + 1;
      kr := AllowedNums(sudoku, a, r);
    }
  }

  /** The last position from j down whose key is not above the pivot. */
  method ScanDown(sudoku: SudokuPuzzle, a: array<int>, lo: int, j: int, pivot: int, ghost aux: seq<int>) returns (r: int)
    requires 0 <= lo <= j < a.Length && CellsIn(a[..], lo, j)
    requires KeysOf(sudoku, aux)
    requires exists k :: lo <= k <= j && Key(aux, a[k]) <= pivot
    ensures lo <= r <= j && Key(aux, a[r]) <= pivot
    ensures forall k :: r < k <= j ==> Key(aux, a[k]) > pivot
  {
    r := j;
    var kr := AllowedNums(sudoku, a, r);
    while kr > pivot
      invariant lo <= r <= j && kr == Key(aux, a[r])
      invariant forall k :: r < k <= j ==> Key(aux, a[k]) > pivot
      invariant exists k :: lo <= k <= r && Key(aux, a[k]) <= pivot
      decreases r - lo
    {
      r := r - 1;
      kr := AllowedNums(sudoku, a, r);
    }
  }

  /** The state of the partition loop: a[lo..i] has keys at most the pivot,
      a[j..hi] keys at least the pivot; or the loop has not started yet. */
  ghost predicate Partitioned(K: seq<int>, s: seq<int>, lo: int, hi: int, i: int, j: int, pivot: int)
  {
    0 <= lo <= i < j <= hi < |s| && CellsIn(s, lo, hi)
    && (forall k :: lo <= k <= i ==> Key(K, s[k]) <= pivot)
    && (forall k :: j <= k <= hi ==> Key(K, s[k]) >= pivot)
  }

  ghost predicate Started(K: seq<int>, s: seq<int>, lo: int, hi: int, i: int, j: int, pivot: int)
  {
    (i == lo - 1 && j == hi + 1 && 0 <= lo < hi < |s| && CellsIn(s, lo, hi) && Key(K, s[lo]) == pivot)
    || Partitioned(K, s, lo, hi, i, j, pivot)
  }

  /** Both scans of the next round stop inside the segment. */
  lemma ScanBounds(K: seq<int>, s: seq<int>, lo: int, hi: int, i: int, j: int, pivot: int)
    requires Started(K, s, lo, hi, i, j, pivot)
    ensures lo <= i + 1 <= hi && lo <= j - 1 <= hi
    ensures CellsIn(s, i + 1, hi) && CellsIn(s, lo, j - 1)
    ensures exists k :: i + 1 <= k <= hi && Key(K, s[k]) >= pivot
    ensures exists k :: lo <= k <= j - 1 && Key(K, s[k]) <= pivot
  {
    if i == lo - 1 {
      assert Key(K, s[lo]) >= pivot && Key(K, s[lo]) <= pivot;
    } else {
      assert Key(K, s[j]) >= pivot && Key(K, s[i]) <= pivot;
    }
  }

  /** What the two scans of one round found. */
  ghost predicate Scanned(K: seq<int>, s: seq<int>, lo: int, hi: int, i: int, j: int, i2: int, j2: int, pivot: int)
  {
    Started(K, s, lo, hi, i, j, pivot)
    && i + 1 <= i2 <= hi && Key(K, s[i2]) >= pivot && (forall k :: i + 1 <= k < i2 ==> Key(K, s[k]) < pivot)
    && lo <= j2 <= j - 1 && Key(K, s[j2]) <= pivot && (forall k :: j2 < k <= j - 1 ==> Key(K, s[k]) > pivot)
  }

  /** Swapping the two found entries extends both partitioned ends. */
  lemma SwapStep(K: seq<int>, s: seq<int>, lo: int, hi: int, i: int, j: int, i2: int, j2: int, pivot: int)
    requires Scanned(K, s, lo, hi, i, j, i2, j2, pivot) && i2 < j2
    ensures Partitioned(K, s[i2 := s[j2]][j2 := s[i2]], lo, hi, i2, j2, pivot)
  {
    var t := s[i2 := s[j2]][j2 := s[i2]];
    forall k | lo <= k <= hi
      ensures 0 <= t[k] < 81
    {
      assert t[k] == s[k] || t[k] == s[i2] || t[k] == s[j2];
    }
  }

  /** When the scans cross, j2 splits the segment. */
  lemma ExitStep(K: seq<int>, s: seq<int>, lo: int, hi: int, i: int, j: int, i2: int, j2: int, pivot: int)
    requires Scanned(K, s, lo, hi, i, j, i2, j2, pivot) && i2 >= j2
    ensures SplitAt(K, s, lo, j2, hi, pivot)
  {
  }

  /** s[lo..p] has keys at most the pivot, s[p+1..hi] keys at least the pivot. */
  ghost predicate SplitAt(K: seq<int>, s: seq<int>, lo: int, p: int, hi: int, pivot: int)
  {
    0 <= lo <= p < hi < |s|
    && (forall k :: lo <= k <= p ==> Key(K, s[k]) <= pivot)
    && (forall k :: p < k <= hi ==> Key(K, s[k]) >= pivot)
  }

  /** Sorting both halves of a split segment sorts the whole segment. */
  lemma QsortGlue(K: seq<int>, s1: seq<int>, s2: seq<int>, s3: seq<int>, lo: int, p: int, hi: int, pivot: int)
    requires SplitAt(K, s1, lo, p, hi, pivot)
    requires Rearranged(s1, s2, lo, p) && SortedIn(K, s2, lo, p)
    requires Rearranged(s2, s3, p + 1, hi) && SortedIn(K, s3, p + 1, hi)
    ensures SortedIn(K, s3, lo, hi)
  {
    var l1, l2 := s1[lo..p + 1], s2[lo..p + 1];
    var r2, r3 := s2[p + 1..hi + 1], s3[p + 1..hi + 1];
    assert forall k :: 0 <= k < |l1| ==> l1[k] == s1[lo + k];
    RearrangedBound(K, l1, l2, pivot, true);
    assert forall k :: 0 <= k < |r2| ==> r2[k] == s1[p + 1 + k];
    RearrangedBound(K, r2, r3, pivot, false);
    forall k, m | lo <= k < m <= hi
      ensures Key(K, s3[k]) <= Key(K, s3[m])
    {
      if k <= p < m {
        assert s3[k] == l2[k - lo] && s3[m] == r3[m - p - 1];
      } else if m <= p {
        assert s3[k] == s2[k] && s3[m] == s2[m];
      }
    }
  }

  lemma SwapSegment(s: seq<int>, lo: int, hi: int, i: int, j: int)
    requires 0 <= lo <= i <= hi < |s| && lo <= j <= hi
    ensures multiset(s[i := s[j]][j := s[i]][lo..hi + 1]) == multiset(s[lo..hi + 1])
  {
    var seg := s[lo..hi + 1];
    assert s[i := s[j]][j := s[i]][lo..hi + 1] == seg[i - lo := seg[j - lo]][j - lo := seg[i - lo]];
    SwapMultiset(seg, i - lo, j - lo);
  }

  /** s is s0 with only the segment s0[lo..hi] rearranged. */
  ghost predicate Rearranged(s0: seq<int>, s: seq<int>, lo: int, hi: int)
  {
    |s| == |s0| && 0 <= lo <= hi + 1 <= |s|
    && multiset(s[lo..hi + 1]) == multiset(s0[lo..hi + 1])
    && forall k :: 0 <= k < |s| && !(lo <= k <= hi) ==> s[k] == s0[k]
  }

  lemma SwapRearranged(s0: seq<int>, s: seq<int>, lo: int, hi: int, i: int, j: int)
    requires Rearranged(s0, s, lo, hi) && lo <= i <= hi && lo <= j <= hi
    ensures Rearranged(s0, s[i := s[j]][j := s[i]], lo, hi)
  {
    SwapSegment(s, lo, hi, i, j);
  }

  lemma RearrangedTrans(s0: seq<int>, s1: seq<int>, s2: seq<int>, lo: int, hi: int, lo2: int, hi2: int)
    requires Rearranged(s0, s1, lo, hi) && Rearranged(s1, s2, lo2, hi2) && lo <= lo2 && hi2 <= hi
    ensures Rearranged(s0, s2, lo, hi)
  {
    assert s2[lo..hi + 1] == s2[lo..lo2] + s2[lo2..hi2 + 1] + s2[hi2 + 1..hi + 1];
    assert s1[lo..hi + 1] == s1[lo..lo2] + s1[lo2..hi2 + 1] + s1[hi2 + 1..hi + 1];
    assert s2[lo..lo2] == s1[lo..lo2];
    assert s2[hi2 + 1..hi + 1] == s1[hi2 + 1..hi + 1];
  }

  lemma RearrangedCells(s0: seq<int>, s: seq<int>, lo: int, hi: int)
    requires Rearranged(s0, s, lo, hi) && CellsIn(s0, lo, hi)
    ensures CellsIn(s, lo, hi)
  {
    forall k | lo <= k <= hi && 0 <= k < |s|
      ensures 0 <= s[k] < 81
    {
      assert s[k] == s[lo..hi + 1][k - lo];
      assert s[k] in multiset(s0[lo..hi + 1]);
      var m :| 0 <= m < hi + 1 - lo && s0[lo..hi + 1][m] == s[k];
      assert s0[lo + m] == s[k];
    }
  }

  /** Exchanges a[i] and a[j]. */
  method SwapEntries(a: array<int>, i: int, j: int)
    requires 0 <= i < a.Length && 0 <= j < a.Length
    modifies a
    ensures a[..] == old(a[..])[i := old(a[j])][j := old(a[i])]
  {
    a[i], a[j] := a[j], a[i];
  }

  /** One round of the partition loop before its swap: scan up from i and down from j. */
  method ScanRound(sudoku: SudokuPuzzle, a: array<int>, lo: int, hi: int, i: int, j: int, pivot: int, ghost aux: seq<int>)
    returns (i2: int, j2: int)
    requires KeysOf(sudoku, aux) && Started(aux, a[..], lo, hi, i, j, pivot)
    ensures Scanned(aux, a[..], lo, hi, i, j, i2, j2, pivot)
  {
    ScanBounds(aux, a[..], lo, hi, i, j, pivot);
    i2 := ScanUp(sudoku, a, i + 1, hi, pivot, aux);
    j2 := ScanDown(sudoku, a, lo, j - 1, pivot, aux);
  }

  /** Qsort_part: Hoare partition of a[lo..hi] around the key of a[lo]. */
  method QsortPart(sudoku: SudokuPuzzle, a: array<int>, lo: int, hi: int, ghost aux: seq<int>) returns (p: int)
    requires 0 <= lo < hi < a.Length && CellsIn(a[..], lo, hi)
    requires KeysOf(sudoku, aux)
    modifies a
    ensures Rearranged(old(a[..]), a[..], lo, hi) && CellsIn(a[..], lo, hi)
    ensures SplitAt(aux, a[..], lo, p, hi, Key(aux, old(a[lo])))
  {
    var pivot := AllowedNums(sudoku, a, lo);
    var i := lo - 1;
    var j := hi + 1;
    while true
      invariant KeysOf(sudoku, aux)
      invariant Started(aux, a[..], lo, hi, i, j, pivot) && pivot == Key(aux, old(a[lo]))
      invariant Rearranged(old(a[..]), a[..], lo, hi)
      decreases j - i
    {
      var i2, j2 := ScanRound(sudoku, a, lo, hi, i, j, pivot, aux);
      ghost var s := a[..];
      if i2 >= j2 {
        ExitStep(aux, s, lo, hi, i, j, i2, j2, pivot);
        return j2;
      }
      SwapEntries(a, i2, j2);
      SwapRearranged(old(a[..]), s, lo, hi, i2, j2);
      SwapStep(aux, s, lo, hi, i, j, i2, j2, pivot);
      i, j := i2, j2;
    }
  }

  /** The two sorted halves on either side of the split make a sorted
      rearrangement of the whole range. */
  lemma QsortCombine(K: seq<int>, s0: seq<int>, s1: seq<int>, s2: seq<int>, s3: seq<int>,
                     lo: int, p: int, hi: int, pivot: int)
    requires Rearranged(s0, s1, lo, hi) && CellsIn(s0, lo, hi) && SplitAt(K, s1, lo, p, hi, pivot)
    requires Rearranged(s1, s2, lo, p) && SortedIn(K, s2, lo, p)
    requires Rearranged(s2, s3, p + 1, hi) && SortedIn(K, s3, p + 1, hi)
    ensures Rearranged(s0, s3, lo, hi) && CellsIn(s3, lo, hi) && SortedIn(K, s3, lo, hi)
  {
    RearrangedTrans(s0, s1, s2, lo, hi, lo, p);
    RearrangedTrans(s0, s2, s3, lo, hi, p + 1, hi);
    RearrangedCells(s0, s3, lo, hi);
    QsortGlue(K, s1, s2, s3, lo, p, hi, pivot);
  }

  /** empty_squares_Qsort: sorts a[lo..hi] by ascending key, in place. */
  method EmptySquaresQsort(sudoku: SudokuPuzzle, a: array<int>, lo: int, hi: int, ghost aux: seq<int>)
    requires 0 <= lo <= hi + 1 && hi < a.Length && CellsIn(a[..], lo, hi)
    requires KeysOf(sudoku, aux) && a != sudoku.grid
    modifies a
    ensures Rearranged(old(a[..]), a[..], lo, hi) && CellsIn(a[..], lo, hi)
    ensures SortedIn(aux, a[..], lo, hi)
    ensures unchanged(sudoku.grid)
    decreases hi - lo
  {
    if lo < hi {
      ghost var s0 := a[..];
      ghost var pivot := Key(aux, a[lo]);
      var p := QsortPart(sudoku, a, lo, hi, aux);
      ghost var s1 := a[..];
      EmptySquaresQsort(sudoku, a, lo, p, aux);
      ghost var s2 := a[..];
      assert CellsIn(s2, p + 1, hi) by {
        assert forall k :: p < k <= hi ==> s2[k] == s1[k];
      }
      EmptySquaresQsort(sudoku, a, p + 1, hi, aux);
      QsortCombine(aux, s0, s1, s2, a[..], lo, p, hi, pivot);
    }
  }

  /** The list copied into an array and sorted by key, as both searches do first. */
  method SortedCopy(sudoku: SudokuPuzzle, L: seq<int>) returns (a: array<int>)
    requires sudoku.Valid() && InRange(L)
    ensures fresh(a) && a.Length == |L| && multiset(a[..]) == multiset(L) && InRange(a[..])
    ensures SortedIn(Keys(sudoku.AuxModel()), a[..], 0, |L| - 1)
  {
    a := new int[|L|](k requires 0 <= k < |L| => L[k]);
    assert a[..] == L;
    EmptySquaresQsort(sudoku, a, 0, |L| - 1, Keys(sudoku.AuxModel()));
    RearrangedWhole(L, a[..]);
  }

  lemma RearrangedWhole(s0: seq<int>, s: seq<int>)
    requires Rearranged(s0, s, 0, |s0| - 1) && CellsIn(s, 0, |s| - 1)
    ensures multiset(s) == multiset(s0) && InRange(s)
  {
    assert s[0..|s|] == s && s0[0..|s0|] == s0;
  }

  /** After the sort, the completions are the branches over the allowed digits
      of the first cell. */
  lemma FirstBranch(b: Board, L: seq<int>, L2: seq<int>)
    requires Ready(b, L) && multiset(L2) == multiset(L) && L2 != []
    ensures Ready(b, L2) && L2[0] !in L2[1..] && b.cells[L2[0]] == 0
    ensures Completions(b.cells, L) == Branches(b.cells, L2[0], L2[1..], Allowed(b.aux[L2[0]]))
  {
    ReadyPermutation(b, L, L2);
    HeadNotInTail(L2);
    AllowedBranches(b, L2);
  }

  /** The placement of d at c, the head of a ready list [c] + rest, is open. */
  ghost predicate ChildReady(b: Board, c: int, d: int, rest: seq<int>)
  {
    0 <= c < 81 && 1 <= d <= 9 && Ready(b, [c] + rest) && b.aux[c][d - 1] == 0
  }

  /** No digit among ds[..i] at c leads to a completion. */
  ghost predicate DeadBefore(cells: seq<int>, c: int, rest: seq<int>, ds: seq<int>, i: int)
    requires |cells| == 81 && 0 <= c < 81 && InRange(rest) && 0 <= i <= |ds|
  {
    forall k :: 0 <= k < i ==> Completions(cells[c := ds[k]], rest) == {}
  }

  lemma AllDead(cells: seq<int>, c: int, rest: seq<int>, ds: seq<int>)
    requires |cells| == 81 && 0 <= c < 81 && InRange(rest) && DeadBefore(cells, c, rest, ds, |ds|)
    ensures Branches(cells, c, rest, ds) == {}
  {
    if Branches(cells, c, rest, ds) != {} {
      var g :| g in Branches(cells, c, rest, ds);
      BranchesMember(cells, c, rest, ds, g);
      assert false;
    }
  }

  lemma FoundIn(cells: seq<int>, c: int, rest: seq<int>, ds: seq<int>, i: int, g: seq<int>)
    requires |cells| == 81 && 0 <= c < 81 && InRange(rest) && 0 <= i < |ds|
    requires g in Completions(cells[c := ds[i]], rest)
    ensures g in Branches(cells, c, rest, ds)
  {
    BranchesMember(cells, c, rest, ds, g);
  }

  /** Placing d at c readies the rest of the list for the next search. */
  lemma ChildStep(b: Board, c: int, d: int, rest: seq<int>, child: Board)
    requires ChildReady(b, c, d, rest)
    requires child == TrySet(b, c % 9, c / 9, d).1
    ensures child.cells == b.cells[c := d] && Ready(child, rest)
  {
    var L := [c] + rest;
    assert L[1..] == rest;
    LiveDigit(b, L, d);
  }

  /** One pass of solver's loop: the search after putting d at c in a copy. */
  method TryBranch(sudoku: SudokuPuzzle, c: int, d: int, rest: seq<int>) returns (found: int, sol: SudokuPuzzle)
    requires sudoku.Valid() && 0 <= c < 81 && 1 <= d <= 9 && InRange(rest)
    ensures found == 0 || found == 1
    ensures sol.Valid()
    ensures ChildReady(sudoku.Model(), c, d, rest) ==>
      (found == 1 <==> Completions(sudoku.Model().cells[c := d], rest) != {})
      && (found == 1 ==> sol.Model().cells in Completions(sudoku.Model().cells[c := d], rest))
    decreases |rest| + 1, 0
  {
    ghost var b := sudoku.Model();
    Decompose(c);
    var next := sudoku.Clone();
    var ok := next.SetSquare(c % 9, c / 9, d);
    assert sudoku.Model() == b;
    ghost var child := next.Model();
    if ChildReady(b, c, d, rest) {
      ChildStep(b, c, d, rest, child);
    }
    found, sol := Solver(next, rest);
    assert sudoku.Model() == b && next.Model() == child;
  }

  /** The common start of both searches: the listed cells sorted by key, the
      first of them, its allowed digits and the cells after it. */
  method FirstCell(sudoku: SudokuPuzzle, L: seq<int>) returns (c: int, allowed: array<int>, rest: seq<int>)
    requires sudoku.Valid() && InRange(L) && L != []
    ensures 0 <= c < 81 && InRange(rest) && |rest| == |L| - 1
    ensures allowed[..] == Allowed(sudoku.Model().aux[c])
    ensures Ready(sudoku.Model(), L) ==>
      Ready(sudoku.Model(), [c] + rest) && c !in rest
      && Completions(sudoku.Model().cells, L) == Branches(sudoku.Model().cells, c, rest, allowed[..])
  {
    ghost var b := sudoku.Model();
    var a := SortedCopy(sudoku, L);
    ghost var A := a[..];
    c := a[0];
    Decompose(c);
    allowed := sudoku.GetAllowedNums(c % 9, c / 9);
    assert sudoku.Model() == b;
    rest := a[1..];
    assert A == [c] + rest && InRange(rest);
    if Ready(b, L) {
      FirstBranch(b, L, A);
      HeadNotInTail(A);
    }
  }

  /** solver: finds one completion of the listed cells (1), or reports none (0). */
  method Solver(sudoku: SudokuPuzzle, L: seq<int>) returns (found: int, sol: SudokuPuzzle)
    requires sudoku.Valid() && InRange(L)
    ensures found == 0 || found == 1
    ensures sol.Valid()
    ensures L == [] ==> found == 1 && sol == sudoku
    ensures Ready(sudoku.Model(), L) ==>
      (found == 1 <==> Completions(sudoku.Model().cells, L) != {})
      && (found == 1 ==> sol.Model().cells in Completions(sudoku.Model().cells, L))
    decreases |L|, 1
  {
    if |L| == 0 {
      return 1, sudoku;
    }
    ghost var b := sudoku.Model();
    ghost var ready := Ready(b, L);
    var c, allowed, rest := FirstCell(sudoku, L);
    ghost var ds := allowed[..];
    AllowedSpec(b.aux[c]);
    if allowed.Length == 0 {
      return 0, sudoku;
    }
    found, sol := 0, sudoku;
    var i := 0;
    while i < allowed.Length
      invariant 0 <= i <= allowed.Length && found == 0 && sol.Valid()
      invariant sudoku.Model() == b && allowed[..] == ds
      invariant ready ==> DeadBefore(b.cells, c, rest, ds, i)
    {
      assert ds[i] in ds;
      found, sol := TryBranch(sudoku, c, allowed[i], rest);
      if found > 0 {
        if ready {
          FoundIn(b.cells, c, rest, ds, i, sol.Model().cells);
        }
        return;
      }
      i := i + 1;
    }
    if ready {
      AllDead(b.cells, c, rest, ds);
    }
  }

  /** One pass of specialSolver's loop: the count after putting d at c in a copy. */
  method CountBranch(sudoku: SudokuPuzzle, c: int, d: int, rest: seq<int>) returns (n: int)
    requires sudoku.Valid() && 0 <= c < 81 && 1 <= d <= 9 && InRange(rest)
    ensures 0 <= n <= 2
    ensures ChildReady(sudoku.Model(), c, d, rest) ==> n == Min2(|Completions(sudoku.Model().cells[c := d], rest)|)
    decreases |rest| + 1, 0
  {
    ghost var b := sudoku.Model();
    Decompose(c);
    var next := sudoku.Clone();
    var ok := next.SetSquare(c % 9, c / 9, d);
    assert sudoku.Model() == b;
    ghost var child := next.Model();
    if ChildReady(b, c, d, rest) {
      ChildStep(b, c, d, rest, child);
    }
    n := SpecialSolver(next, rest);
    assert sudoku.Model() == b && next.Model() == child;
  }

  /** Adding the count of one more branch to the count of the earlier ones. */
  lemma CountStep(cells: seq<int>, c: int, rest: seq<int>, ds: seq<int>, i: int, count: int, n: int)
    requires |cells| == 81 && 0 <= c < 81 && InRange(rest) && c !in rest
    requires StrictlyAscending(ds) && 0 <= i < |ds|
    requires count == |Branches(cells, c, rest, ds[..i])| < 2
    requires n == Min2(|Completions(cells[c := ds[i]], rest)|)
    ensures count + n >= 2 ==> Min2(|Branches(cells, c, rest, ds)|) == 2
    ensures count + n < 2 ==> count + n == |Branches(cells, c, rest, ds[..i + 1])|
  {
    BranchStep(cells, c, rest, ds, i);
    var upto, all := Branches(cells, c, rest, ds[..i + 1]), Branches(cells, c, rest, ds);
    var m := |Completions(cells[c := ds[i]], rest)|;
    assert |upto| == count + m;
    if count + n >= 2 {
      BranchesPrefix(cells, c, rest, ds, i + 1);
      assert all == upto + (all - upto);
      assert |all| >= |upto| >= 2;
    }
  }

  /** specialSolver: counts the completions of the listed cells, stopping at two. */
  method SpecialSolver(sudoku: SudokuPuzzle, L: seq<int>) returns (r: int)
    requires sudoku.Valid() && InRange(L)
    ensures 0 <= r <= 2
    ensures L == [] ==> r == 1
    ensures Ready(sudoku.Model(), L) ==> r == Min2(|Completions(sudoku.Model().cells, L)|)
    decreases |L|, 1
  {
    if |L| == 0 {
      assert Completions(sudoku.Model().cells, L) <= {sudoku.Model().cells};
      return 1;
    }
    ghost var b := sudoku.Model();
    ghost var ready := Ready(b, L);
    var c, allowed, rest := FirstCell(sudoku, L);
    ghost var ds := allowed[..];
    AllowedSpec(b.aux[c]);
    if allowed.Length == 0 {
      return 0;
    }
    var count := 0;
    var i := 0;
    while i < allowed.Length
      invariant 0 <= i <= allowed.Length && 0 <= count < 2
      invariant sudoku.Model() == b && allowed[..] == ds
      invariant ready ==> count == |Branches(b.cells, c, rest, ds[..i])|
    {
      assert ds[i] in ds;
      var n := CountBranch(sudoku, c, allowed[i], rest);
      if ready {
        CountStep(b.cells, c, rest, ds, i, count, n);
      }
      count := count + n;
      if count >= 2 {
        return 2;
      }
      i := i + 1;
    }
    assert ds[..i] == ds;
    r := count;
  }
}
