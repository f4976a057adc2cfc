/** SudokuGen: fills an empty puzzle row by row with random allowed digits,
    then takes clues out in a random order for as long as the solution
    stays unique. The random number generator is replaced by sequences of
    draws passed in by the caller. */
module SudokuGen {
  import opened Grid
  import opened PuzzleState
  import opened Solutions
  import SolverModule

  /** How the filling loop ends: with a full grid; by stepping back above
      the first row, where the Java code indexes row -1 and throws; or by
      running out of the fuel or the draws supplied to the model. */
  datatype Outcome = Filled | OutOfRange | Exhausted

  /** Exactly the cells before n hold a digit. */
  ghost predicate FilledUpTo(cells: seq<int>, n: int)
    requires |cells| == 81
  {
    forall c :: 0 <= c < 81 ==> (cells[c] != 0 <==> c < n)
  }

  /** Pigeonhole: pairwise distinct values taken from T are at most |T| many. */
  lemma {:induction false} DistinctWithin(s: seq<int>, T: set<int>)
    requires forall i, j :: 0 <= i < j < |s| ==> s[i] != s[j]
    requires forall i :: 0 <= i < |s| ==> s[i] in T
    ensures |s| <= |T|
  {
    if s != [] {
      var x := s[|s| - 1];
      DistinctWithin(s[..|s| - 1], T - {x});
      assert (T - {x}) + {x} == T;
    }
  }

  /** Nine pairwise distinct digits include every digit. */
  lemma NineDigits(s: seq<int>, d: int) returns (k: int)
    requires |s| == 9 && 1 <= d <= 9
    requires forall i, j :: 0 <= i < j < 9 ==> s[i] != s[j]
    requires forall i :: 0 <= i < 9 ==> 1 <= s[i] <= 9
    ensures 0 <= k < 9 && s[k] == d
  {
    var T := {1, 2, 3, 4, 5, 6, 7, 8, 9};
    if forall i :: 0 <= i < 9 ==> s[i] != d {
      assert forall i :: 0 <= i < 9 ==> s[i] in T - {d};
      assert (T - {d}) + {d} == T;
      DistinctWithin(s, T - {d});
      assert false;
    }
    k :| 0 <= k < 9 && s[k] == d;
  }

  /** A full row of a conflict-free grid holds every digit. */
  lemma FullRowHasDigit(cells: seq<int>, y: int, d: int) returns (x: int)
    requires |cells| == 81 && NoConflict(cells) && 0 <= y < 9 && 1 <= d <= 9
    requires forall c :: 9 * y <= c < 9 * y + 9 ==> 1 <= cells[c] <= 9
    ensures 0 <= x < 9 && cells[x + 9 * y] == d
  {
    var s := cells[9 * y .. 9 * y + 9];
    forall i, j | 0 <= i < j < 9
      ensures s[i] != s[j]
    {
      CellOf(i, y);
      CellOf(j, y);
      assert Peers(i + 9 * y, j + 9 * y);
    }
    forall k | 0 <= k < 9
      ensures 1 <= s[k] <= 9
    {
      assert s[k] == cells[9 * y + k];
    }
    x := NineDigits(s, d);
  }

  /** Once row y is full, no digit is allowed at any of its cells. */
  lemma FullRowBlocks(b: Board, x: int, y: int)
    requires Consistent(b) && NoConflict(b.cells) && 0 <= x < 9 && 0 <= y < 9
    requires forall c :: 9 * y <= c < 9 * y + 9 ==> b.cells[c] != 0
    ensures Allowed(b.aux[x + 9 * y]) == []
  {
    var p := x + 9 * y;
    CellOf(x, y);
    forall k | 0 <= k < 9
      ensures b.aux[p][k] != 0
    {
      var x' := FullRowHasDigit(b.cells, y, k + 1);
      CellOf(x', y);
      CounterZeroIff(b, p, k + 1);
      assert Sees(x' + 9 * y, p);
    }
    NoneAllowed(b.aux[p], 9);
  }

  /** clearRow(y) while the filled prefix ends inside row y leaves the
      prefix before row y. */
  lemma ClearRowPrefix(cells: seq<int>, cleared: seq<int>, y: int, n: int)
    requires |cells| == 81 && |cleared| == 81 && 0 <= y < 9 && 9 * y <= n <= 9 * y + 9
    requires FilledUpTo(cells, n)
    requires forall c :: 0 <= c < 81 ==> cleared[c] == if Row(c) == y then 0 else cells[c]
    ensures FilledUpTo(cleared, 9 * y)
  {
    forall c | 0 <= c < 81
      ensures cleared[c] != 0 <==> c < 9 * y
    {
      Decompose(c);
    }
  }

  /** Putting an allowed digit at the first empty cell succeeds, keeps the
      invariant and extends the filled prefix by one cell. */
  lemma PlaceNext(b: Board, x: int, y: int, d: int)
    requires Consistent(b) && NoConflict(b.cells) && 0 <= x < 9 && 0 <= y < 9
    requires FilledUpTo(b.cells, x + 9 * y) && 1 <= d <= 9 && d in Allowed(b.aux[x + 9 * y])
    ensures TrySet(b, x, y, d).0
    ensures Consistent(TrySet(b, x, y, d).1) && NoConflict(TrySet(b, x, y, d).1.cells)
    ensures FilledUpTo(TrySet(b, x, y, d).1.cells, x + 9 * y + 1)
  {
    CellOf(x, y);
    AllowedSpec(b.aux[x + 9 * y]);
    CounterZeroIff(b, x + 9 * y, d);
    SetKeepsInvariant(b, x, y, d);
  }

  /** The integers from, from + 1, ..., from + n - 1. */
  function Interval(from: int, n: nat): seq<int>
  {
    seq(n, k => from + k)
  }

  /** A rearrangement of 0..80 lists every cell exactly once. */
  lemma CellOrder(s: seq<int>)
    requires multiset(s) == multiset(Interval(0, 81))
    ensures |s| == 81 && InRange(s) && Distinct(s)
    ensures forall c :: 0 <= c < 81 ==> c in s
  {
    assert |s| == |multiset(s)| == |Interval(0, 81)|;
    forall k | 0 <= k < |s|
      ensures 0 <= s[k] < 81
    {
      assert s[k] in multiset(Interval(0, 81));
    }
    forall x
      ensures multiset(s)[x] <= 1
    {
      IntervalCount(0, 81, x);
    }
    forall c | 0 <= c < 81
      ensures c in s
    {
      assert Interval(0, 81)[c] == c;
      assert c in multiset(Interval(0, 81));
    }
  }

  lemma {:induction false} IntervalCount(from: int, n: nat, x: int)
    ensures multiset(Interval(from, n))[x] == if from <= x < from + n then 1 else 0
  {
    if n > 0 {
      IntervalCount(from, n - 1, x);
      assert Interval(from, n) == Interval(from, n - 1) + [from + n - 1];
    }
  }

  /** What trimPuzzle keeps while it works: the list is exactly the cells it
      has emptied, every remaining clue is that of the full grid G, and G is
      the one completion. */
  ghost predicate Trimmed(b: Board, L: seq<int>, G: seq<int>)
  {
    Ready(b, L) && |G| == 81
    && (forall c :: 0 <= c < 81 && b.cells[c] != 0 ==> b.cells[c] == G[c])
    && Completions(b.cells, L) == {G}
  }

  /** A full, conflict-free grid is its own unique completion. */
  lemma TrimStart(b: Board)
    requires Consistent(b) && NoConflict(b.cells)
    requires forall c :: 0 <= c < 81 ==> b.cells[c] != 0
    ensures Trimmed(b, [], b.cells)
  {
  }

  /** Clearing one more clue: the list still names exactly the empty cells,
      and the full grid is still a completion. */
  lemma TrimRemove(b: Board, L: seq<int>, G: seq<int>, x: int, y: int)
    requires Trimmed(b, L, G) && 0 <= x < 9 && 0 <= y < 9 && b.cells[x + 9 * y] != 0
    ensures Ready(ClearAt(b, x, y).1, L + [x + 9 * y])
    ensures G in Completions(ClearAt(b, x, y).1.cells, L + [x + 9 * y])
    ensures forall c :: 0 <= c < 81 && ClearAt(b, x, y).1.cells[c] != 0 ==> ClearAt(b, x, y).1.cells[c] == G[c]
  {
    var p := x + 9 * y;
    var b1 := ClearAt(b, x, y).1;
    var L1 := L + [p];
    CellOf(x, y);
    ClearKeepsInvariant(b, x, y);
    assert multiset(L1) == multiset(L) + multiset{p};
    assert p !in L;
    assert forall i :: i in L1 <==> i in L || i == p;
    assert G in Completions(b.cells, L);
    CompletionsIff(b.cells, L, G);
    CompletionsIff(b1.cells, L1, G);
  }

  /** The remaining clues fix the grid: G is the only completion of the
      empty cells, and the clue count is 81 less the number of empty cells. */
  lemma TrimDone(b: Board, L: seq<int>, G: seq<int>)
    requires Trimmed(b, L, G)
    ensures Completions(b.cells, Empties(b.cells)) == {G}
    ensures |Empties(b.cells)| == |L|
  {
    EmptiesUpToSpec(b.cells, 81);
    SameCells(b.cells, L, Empties(b.cells));
    AscendingDistinct(Empties(b.cells));
    DistinctSameLength(L, Empties(b.cells));
  }

  /** A clue at c that trimming has to keep: with c cleared as well, the
      full grid G is no longer the only completion. */
  ghost predicate Needed(b: Board, L: seq<int>, G: seq<int>, c: int)
    requires |b.cells| == 81 && InRange(L) && 0 <= c < 81
  {
    b.cells[c] != 0 ==> Completions(b.cells[c := 0], L + [c]) != {G}
  }

  /** The clues at the first i positions of S are all needed. */
  ghost predicate NeededBefore(b: Board, L: seq<int>, G: seq<int>, S: seq<int>, i: int)
    requires |b.cells| == 81 && InRange(L) && InRange(S) && i <= |S|
  {
    forall k :: 0 <= k < i ==> Needed(b, L, G, S[k])
  }

  /** Taking out more clues never makes a needed clue unneeded: a second
      completion with c cleared stays one when fewer clues remain. */
  lemma NeededPersists(b: Board, L: seq<int>, b2: Board, L2: seq<int>, G: seq<int>, c: int)
    requires Trimmed(b, L, G) && Trimmed(b2, L2, G) && 0 <= c < 81
    requires forall i :: 0 <= i < 81 && b2.cells[i] != 0 ==> b.cells[i] != 0
    requires Needed(b, L, G, c)
    ensures Needed(b2, L2, G, c)
  {
    if b2.cells[c] != 0 {
      var cells1 := b.cells[c := 0];
      var cells2 := b2.cells[c := 0];
      Decompose(c);
      TrimRemove(b, L, G, Col(c), Row(c));
      ClearAtEffect(b, Col(c), Row(c));
      assert G in Completions(cells1, L + [c]);
      var g :| g in Completions(cells1, L + [c]) && g != G;
      CompletionsIff(cells1, L + [c], g);
      CompletionSolved(b, L, G);
      forall i | 0 <= i < 81 && i in L2 + [c]
        ensures 1 <= g[i] <= 9
      {
        if i !in L + [c] {
          assert g[i] == b.cells[i] == G[i];
        }
      }
      CompletionsIff(cells2, L2 + [c], g);
    }
  }

  /** One position of trimPuzzle's loop: the clues found needed at the
      earlier positions stay needed, given that the one at position i is. */
  lemma NeededStep(b: Board, L: seq<int>, b2: Board, L2: seq<int>, G: seq<int>, S: seq<int>, i: int)
    requires Trimmed(b, L, G) && Trimmed(b2, L2, G) && InRange(S) && 0 <= i < |S|
    requires forall c :: 0 <= c < 81 && b2.cells[c] != 0 ==> b.cells[c] != 0
    requires NeededBefore(b, L, G, S, i) && Needed(b2, L2, G, S[i])
    ensures NeededBefore(b2, L2, G, S, i + 1)
  {
    forall k | 0 <= k < i
      ensures Needed(b2, L2, G, S[k])
    {
      NeededPersists(b, L, b2, L2, G, S[k]);
    }
  }

  /** When trimming has visited every position, each remaining clue is
      needed: clearing it would leave more than one completion. */
  lemma TrimMinimal(b: Board, L: seq<int>, G: seq<int>, S: seq<int>)
    requires Trimmed(b, L, G) && |S| == 81 && InRange(S)
    requires forall c :: 0 <= c < 81 ==> c in S
    requires NeededBefore(b, L, G, S, 81)
    ensures forall c :: 0 <= c < 81 && b.cells[c] != 0 ==>
      |Completions(b.cells[c := 0], Empties(b.cells) + [c])| >= 2
  {
    forall c | 0 <= c < 81 && b.cells[c] != 0
      ensures |Completions(b.cells[c := 0], Empties(b.cells) + [c])| >= 2
    {
      assert c in S;
      var k :| 0 <= k < 81 && S[k] == c;
      NeededClue(b, L, G, c);
    }
  }

  /** A needed clue, with the list of empty cells that getEmptySquares
      would return. */
  lemma NeededClue(b: Board, L: seq<int>, G: seq<int>, c: int)
    requires Trimmed(b, L, G) && 0 <= c < 81 && b.cells[c] != 0 && Needed(b, L, G, c)
    ensures |Completions(b.cells[c := 0], Empties(b.cells) + [c])| >= 2
  {
    Decompose(c);
    TrimRemove(b, L, G, Col(c), Row(c));
    ClearAtEffect(b, Col(c), Row(c));
    var C := Completions(b.cells[c := 0], L + [c]);
    var g :| g in C && g != G;
    SecondMember(C, G, g);
    EmptiesUpToSpec(b.cells, 81);
    assert forall i :: i in L + [c] <==> i in Empties(b.cells) + [c];
    SameCells(b.cells[c := 0], L + [c], Empties(b.cells) + [c]);
  }

  lemma SecondMember(C: set<seq<int>>, G: seq<int>, g: seq<int>)
    requires G in C && g in C && g != G
    ensures |C| >= 2
  {
    assert C == (C - {G}) + {G};
    assert g in C - {G};
  }

  lemma DistinctSameLength(L1: seq<int>, L2: seq<int>)
    requires Distinct(L1) && Distinct(L2) && forall i :: i in L1 <==> i in L2
    ensures |L1| == |L2|
  {
    forall x
      ensures multiset(L1)[x] == multiset(L2)[x]
    {
      assert x in L1 <==> x in multiset(L1);
      assert x in L2 <==> x in multiset(L2);
    }
    assert multiset(L1) == multiset(L2);
    assert |multiset(L1)| == |L1| && |multiset(L2)| == |L2|;
  }

  /** setSquare with an allowed digit at the first empty cell. */
  method PlaceAllowed(sudoku: SudokuPuzzle, x: int, y: int, d: int)
    requires sudoku.Valid() && Consistent(sudoku.Model()) && NoConflict(sudoku.Model().cells)
    requires 0 <= x < 9 && 0 <= y < 9 && FilledUpTo(sudoku.Model().cells, x + 9 * y)
    requires 1 <= d <= 9 && d in Allowed(sudoku.Model().aux[x + 9 * y])
    modifies sudoku.grid, sudoku.aux
    ensures sudoku.Valid() && Consistent(sudoku.Model()) && NoConflict(sudoku.Model().cells)
    ensures FilledUpTo(sudoku.Model().cells, x + 9 * y + 1)
    ensures sudoku.Model() == TrySet(old(sudoku.Model()), x, y, d).1
  {
    PlaceNext(sudoku.Model(), x, y, d);
    var _ := sudoku.SetSquare(x, y, d);
  }

  /** clearRow on a grid filled up to cell n of row y leaves it filled up to
      the start of row y. */
  method ClearFilledRow(sudoku: SudokuPuzzle, y: int, ghost n: int)
    requires sudoku.Valid() && Consistent(sudoku.Model()) && NoConflict(sudoku.Model().cells)
    requires 0 <= y < 9 && 9 * y <= n <= 9 * y + 9 && FilledUpTo(sudoku.Model().cells, n)
    modifies sudoku.grid, sudoku.aux
    ensures sudoku.Valid() && Consistent(sudoku.Model()) && NoConflict(sudoku.Model().cells)
    ensures FilledUpTo(sudoku.Model().cells, 9 * y)
    ensures sudoku.Model() == ClearCols(old(sudoku.Model()), y, 9)
  {
    ghost var before := sudoku.Model().cells;
    sudoku.ClearRow(y);
    ClearRowPrefix(before, sudoku.Model().cells, y, n);
  }

  class SudokuGen {
    var numOfClues: int

    constructor ()
      ensures numOfClues == 0
    {
      numOfClues := 0;
    }

    /** generateCompletedPuzzle: draws[k] stands for the k-th call of
        rnd.nextInt, fuel bounds the number of inner steps. */
    method GenerateCompletedPuzzle(sudoku: SudokuPuzzle, draws: seq<nat>, fuel: nat) returns (outcome: Outcome)
      requires sudoku.Valid() && sudoku.Model() == EmptyBoard()
      modifies sudoku.grid, sudoku.aux
      ensures sudoku.Valid() && Consistent(sudoku.Model()) && NoConflict(sudoku.Model().cells)
      ensures outcome == Filled ==> forall c :: 0 <= c < 81 ==> sudoku.Model().cells[c] != 0
      ensures outcome == OutOfRange ==> forall c :: 0 <= c < 81 ==> sudoku.Model().cells[c] == 0
    {
      EmptyBoardInvariant();
      var rowAttempts := 0;
      var used := 0;
      var steps := 0;
      var i := 0;
      while i < 9
        invariant 0 <= i <= 9 && 0 <= rowAttempts <= 10 && used <= |draws| && steps <= fuel
        invariant sudoku.Valid() && Consistent(sudoku.Model()) && NoConflict(sudoku.Model().cells)
        invariant FilledUpTo(sudoku.Model().cells, 9 * i)
        decreases fuel - steps
      {
        var j := 0;
        // After stepping back, i is one less than the row to redo and row i
        // is still full; j carries on where it was.
        ghost var resume := false;
        ghost var steps0 := steps;
        while j < 9
          invariant 0 <= j <= 9 && 0 <= rowAttempts <= 10 && used <= |draws| && steps0 <= steps <= fuel
          invariant steps == steps0 ==> j == 0 && !resume
          invariant sudoku.Valid() && Consistent(sudoku.Model()) && NoConflict(sudoku.Model().cells)
          invariant resume ==> -1 <= i < 9 && rowAttempts == 0 && FilledUpTo(sudoku.Model().cells, 9 * i + 9)
          invariant !resume ==> 0 <= i < 9 && FilledUpTo(sudoku.Model().cells, 9 * i + j)
          decreases fuel - steps
        {
          if steps == fuel {
            return Exhausted;
          }
          steps := steps + 1;
          if i < 0 {
            return OutOfRange;
          }
          var allowed := sudoku.GetAllowedNums(j, i);
          if resume {
            FullRowBlocks(sudoku.Model(), j, i);
          }
          if allowed.Length > 0 {
            if used == |draws| {
              return Exhausted;
            }
            var d := allowed[draws[used] % allowed.Length];
            assert d in allowed[..];
            AllowedSpec(sudoku.Model().aux[j + 9 * i]);
            PlaceAllowed(sudoku, j, i, d);
            used := used + 1;
          } else {
            rowAttempts := rowAttempts + 1;
            ClearFilledRow(sudoku, i, if resume then 9 * i + 9 else 9 * i + j);
            if rowAttempts > 10 {
              rowAttempts := 0;
              i := i - 2;
              if i + 1 < 0 {
                return OutOfRange;
              }
              ClearFilledRow(sudoku, i + 1, 9 * i + 18);
              resume := true;
            } else {
              j := -1;
              resume := false;
            }
          }
          j := j + 1;
        }
        i := i + 1;
      }
      outcome := Filled;
    }

    /** getRandomSequence: a rearrangement of from..to; draws[k] stands for
        the k-th call of rnd.nextInt(to). */
    method GetRandomSequence(from: int, to: int, draws: seq<nat>) returns (sequence: array<int>)
      requires 0 < to && from <= 1 && |draws| >= to - from + 1
      ensures fresh(sequence) && sequence.Length == to - from + 1
      ensures multiset(sequence[..]) == multiset(Interval(from, to - from + 1))
    {
      var size := to - from + 1;
      sequence := new int[size];
      var i := 0;
      while i < size
        invariant 0 <= i <= size
        invariant forall k :: 0 <= k < i ==> sequence[k] == k + from
      {
        sequence[i] := i + from;
        i := i + 1;
      }
      assert sequence[..] == Interval(from, size);
      i := 0;
      while i < size
        invariant 0 <= i <= size
        invariant multiset(sequence[..]) == multiset(Interval(from, size))
      {
        var r := draws[i] % to;
        SolverModule.SwapMultiset(sequence[..], i, r);
        SolverModule.SwapEntries(sequence, i, r);
        i := i + 1;
      }
    }

    /** trimPuzzle: removes clues in the order of a random sequence, putting
        a clue back whenever the puzzle would have two solutions, and stops
        at the minimum number of clues. */
    method TrimPuzzle(sudoku: SudokuPuzzle, minClues: int, draws: seq<nat>)
      requires sudoku.Valid() && Consistent(sudoku.Model()) && NoConflict(sudoku.Model().cells)
      requires forall c :: 0 <= c < 81 ==> sudoku.Model().cells[c] != 0
      requires |draws| >= 81
      modifies this, sudoku.grid, sudoku.aux
      ensures sudoku.Valid() && Consistent(sudoku.Model()) && NoConflict(sudoku.Model().cells)
      ensures forall c :: 0 <= c < 81 && sudoku.Model().cells[c] != 0 ==>
        sudoku.Model().cells[c] == old(sudoku.Model().cells)[c]
      ensures Completions(sudoku.Model().cells, Empties(sudoku.Model().cells)) == {old(sudoku.Model().cells)}
      ensures numOfClues == 81 - |Empties(sudoku.Model().cells)|
      ensures minClues < 81 ==> numOfClues >= if minClues > 17 then minClues else 17
      ensures numOfClues != (if minClues > 17 then minClues else 17) ==>
        forall c :: 0 <= c < 81 && sudoku.Model().cells[c] != 0 ==>
          |Completions(sudoku.Model().cells[c := 0], Empties(sudoku.Model().cells) + [c])| >= 2
    {
      var order := GetRandomSequence(0, 80, draws);
      ghost var S := order[..];
      CellOrder(S);
      ghost var G := sudoku.Model().cells;
      TrimStart(sudoku.Model());
      var emptySquares: seq<int> := [];
      numOfClues := 81;
      var minAllowed := if minClues > 17 then minClues else 17;
      var i := 0;
      while i < 81
        invariant 0 <= i <= 82 && fresh(order) && order[..] == S
        invariant sudoku.Valid() && Trimmed(sudoku.Model(), emptySquares, G)
        invariant numOfClues == 81 - |emptySquares|
        invariant minAllowed < 81 ==> numOfClues >= minAllowed && (i < 81 ==> numOfClues > minAllowed)
        invariant i == 82 ==> numOfClues == minAllowed
        invariant i <= 81 ==> NeededBefore(sudoku.Model(), emptySquares, G, S, i)
      {
        assert order[i] == S[i];
        Decompose(order[i]);
        var x := order[i] % 9;
        var y := order[i] / 9;
        var removed;
        emptySquares, removed := TrimPosition(sudoku, x, y, emptySquares, G, S, i);
        if removed {
          numOfClues := numOfClues - 1;
          if numOfClues == minAllowed {
            i := 81;
          }
        }
        i := i + 1;
      }
      TrimDone(sudoku.Model(), emptySquares, G);
      if numOfClues != minAllowed {
        TrimMinimal(sudoku.Model(), emptySquares, G, S);
      }
    }

    /** Position i of trimPuzzle's loop, naming the cell (x, y): the clues
        found needed at this and the earlier positions remain needed. */
    method TrimPosition(sudoku: SudokuPuzzle, x: int, y: int, emptySquares: seq<int>,
                        ghost G: seq<int>, ghost S: seq<int>, ghost i: int)
      returns (squares: seq<int>, removed: bool)
      requires sudoku.Valid() && Trimmed(sudoku.Model(), emptySquares, G)
      requires 0 <= x < 9 && 0 <= y < 9 && InRange(S) && 0 <= i < |S| && S[i] == x + 9 * y
      requires NeededBefore(sudoku.Model(), emptySquares, G, S, i)
      modifies sudoku.grid, sudoku.aux
      ensures sudoku.Valid() && Trimmed(sudoku.Model(), squares, G)
      ensures NeededBefore(sudoku.Model(), squares, G, S, i + 1)
      ensures removed ==> squares == emptySquares + [x + 9 * y]
      ensures !removed ==> squares == emptySquares
    {
      ghost var b0 := sudoku.Model();
      squares, removed := TryRemove(sudoku, x, y, emptySquares, G);
      ClearAtEffect(b0, x, y);
      NeededStep(b0, emptySquares, sudoku.Model(), squares, G, S, i);
    }

    /** The body of trimPuzzle's loop for the cell (x, y): a clue there is
        cleared, and put back exactly when specialSolver then reports two
        solutions; an empty cell is left alone. */
    method TryRemove(sudoku: SudokuPuzzle, x: int, y: int, emptySquares: seq<int>, ghost G: seq<int>)
      returns (squares: seq<int>, removed: bool)
      requires sudoku.Valid() && Trimmed(sudoku.Model(), emptySquares, G)
      requires 0 <= x < 9 && 0 <= y < 9
      modifies sudoku.grid, sudoku.aux
      ensures sudoku.Valid() && Trimmed(sudoku.Model(), squares, G)
      ensures removed <==> (old(sudoku.Model()).cells[x + 9 * y] != 0
        && Completions(ClearAt(old(sudoku.Model()), x, y).1.cells, emptySquares + [x + 9 * y]) == {G})
      ensures removed ==>
        squares == emptySquares + [x + 9 * y] && sudoku.Model() == ClearAt(old(sudoku.Model()), x, y).1
      ensures !removed ==> squares == emptySquares && sudoku.Model() == old(sudoku.Model())
    {
      CellOf(x, y);
      var v := sudoku.GetNumberAt(x, y);
      if v == 0 {
        return emptySquares, false;
      }
      squares, removed := RemoveClue(sudoku, x, y, emptySquares, G);
    }

    /** A clue at (x, y) is cleared, and put back exactly when specialSolver
        then reports two solutions. */
    method RemoveClue(sudoku: SudokuPuzzle, x: int, y: int, emptySquares: seq<int>, ghost G: seq<int>)
      returns (squares: seq<int>, removed: bool)
      requires sudoku.Valid() && Trimmed(sudoku.Model(), emptySquares, G)
      requires 0 <= x < 9 && 0 <= y < 9 && sudoku.Model().cells[x + 9 * y] != 0
      modifies sudoku.grid, sudoku.aux
      ensures sudoku.Valid() && Trimmed(sudoku.Model(), squares, G)
      ensures removed <==> Completions(ClearAt(old(sudoku.Model()), x, y).1.cells, emptySquares + [x + 9 * y]) == {G}
      ensures removed ==>
        squares == emptySquares + [x + 9 * y] && sudoku.Model() == ClearAt(old(sudoku.Model()), x, y).1
      ensures !removed ==> squares == emptySquares && sudoku.Model() == old(sudoku.Model())
    {
      ghost var b := sudoku.Model();
      TrimRemove(b, emptySquares, G, x, y);
      var tmp := sudoku.ClearSquare(x, y);
      ghost var b1 := sudoku.Model();
      assert tmp == b.cells[x + 9 * y] && b1 == ClearAt(b, x, y).1;
      squares := emptySquares + [x + 9 * y];
      var copy := sudoku.Clone();
      var n := SolverModule.SpecialSolver(copy, squares);
      assert sudoku.Model() == b1;
      ghost var C := Completions(b1.cells, squares);
      assert n == Min2(|C|);
      if n == 2 {
        assert |C| >= 2 && C != {G};
        ClearThenSet(b, x, y);
        assert TrySet(b1, x, y, tmp) == (true, b);
        var _ := sudoku.SetSquare(x, y, tmp);
        squares := squares[..|squares| - 1];
        assert squares == emptySquares;
        removed := false;
      } else {
        OnlyCompletion(C, G);
        removed := true;
      }
    }

    /** generateSudokuPuzzle: a full grid, then trimmed to at least 17
        clues with a unique solution. */
    method GenerateSudokuPuzzle(fillDraws: seq<nat>, fuel: nat, orderDraws: seq<nat>)
      returns (sudoku: SudokuPuzzle, outcome: Outcome)
      requires |orderDraws| >= 81
      modifies this
      ensures fresh(sudoku) && sudoku.Valid()
      ensures Consistent(sudoku.Model()) && NoConflict(sudoku.Model().cells)
      ensures outcome == Filled ==>
        |Completions(sudoku.Model().cells, Empties(sudoku.Model().cells))| == 1
        && sudoku.numberOfClues == numOfClues == 81 - |Empties(sudoku.Model().cells)|
        && numOfClues >= 17
    {
      sudoku := new SudokuPuzzle();
      outcome := GenerateCompletedPuzzle(sudoku, fillDraws, fuel);
      if outcome == Filled {
        TrimPuzzle(sudoku, 17, orderDraws);
        sudoku.SetNumOfClues(numOfClues);
      }
    }
  }

  /** A set of at most one element that holds g is {g}. */
  lemma OnlyCompletion(C: set<seq<int>>, g: seq<int>)
    requires g in C && Min2(|C|) != 2
    ensures C == {g}
  {
    assert (C - {g}) + {g} == C;
  }
}
