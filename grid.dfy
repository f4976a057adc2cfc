/** The value view of a Sudoku grid: 81 cells indexed by x + 9*y and the
    81 x 9 table of cover counters that SudokuPuzzle keeps beside them. */
module Grid {

  /** Column, row and 3x3 box of the cell with index c = x + 9*y. */
  function Col(c: int): int { c % 9 }
  function Row(c: int): int { c / 9 }
  function Box(c: int): int { 3 * (Row(c) / 3) + Col(c) / 3 }

  lemma CellOf(x: int, y: int)
    requires 0 <= x < 9 && 0 <= y < 9
    ensures 0 <= x + 9 * y < 81 && Col(x + 9 * y) == x && Row(x + 9 * y) == y
  {
  }

  lemma AllDecompose()
    ensures forall c :: 0 <= c < 81 ==> 0 <= Col(c) < 9 && 0 <= Row(c) < 9
  {
    forall c | 0 <= c < 81
      ensures 0 <= Col(c) < 9 && 0 <= Row(c) < 9
    {
      Decompose(c);
    }
  }

  lemma Decompose(c: int)
    requires 0 <= c < 81
    ensures c == Col(c) + 9 * Row(c) && 0 <= Col(c) < 9 && 0 <= Row(c) < 9
  {
  }

  /** How many of the three tagging loops of a placement at p touch cell c:
      one for p's column, one for p's row, one for p's box. The placed cell
      itself gets 3, a cell sharing a line and the box with p gets 2. */
  function Cover(p: int, c: int): nat
  {
    (if Col(c) == Col(p) then 1 else 0)
    + (if Row(c) == Row(p) then 1 else 0)
    + (if Box(c) == Box(p) then 1 else 0)
  }

  /** Two distinct cells sharing a row, a column or a box. */
  predicate Peers(p: int, c: int)
  {
    p != c && Cover(p, c) > 0
  }

  datatype Board = Board(cells: seq<int>, aux: seq<seq<int>>)

  predicate AuxShape(aux: seq<seq<int>>)
  {
    |aux| == 81 && forall c :: 0 <= c < 81 ==> |aux[c]| == 9
  }

  predicate WellFormed(b: Board)
  {
    |b.cells| == 81 && AuxShape(b.aux)
    && forall c :: 0 <= c < 81 ==> 0 <= b.cells[c] <= 9
  }

  /** The state of a freshly constructed (or cleared) puzzle. */
  function EmptyBoard(): (b: Board)
    ensures WellFormed(b)
    ensures forall c :: 0 <= c < 81 ==> b.cells[c] == 0
  {
    Board(seq(81, _ => 0), seq(81, _ => seq(9, _ => 0)))
  }

  /** A new puzzle satisfies the counter invariant and has no conflict. */
  lemma EmptyBoardInvariant()
    ensures Consistent(EmptyBoard()) && NoConflict(EmptyBoard().cells)
  {
    var b := EmptyBoard();
    forall c, k | 0 <= c < 81 && 0 <= k < 9
      ensures b.aux[c][k] == Weight(b.cells, c, k + 1, 81)
    {
      WeightZero(b.cells, c, k + 1, 81);
    }
  }

  /** Adds delta times Cover(p, c) to digit v's counter of every cell c. */
  function Shift(aux: seq<seq<int>>, p: int, v: int, delta: int): (r: seq<seq<int>>)
    requires AuxShape(aux) && 1 <= v <= 9
    ensures AuxShape(r)
    ensures forall c, k :: 0 <= c < 81 && 0 <= k < 9 ==>
      r[c][k] == aux[c][k] + (if k == v - 1 then delta * Cover(p, c) else 0)
  {
    seq(81, c requires 0 <= c < 81 => aux[c][v - 1 := aux[c][v - 1] + delta * Cover(p, c)])
  }

  /** The effect of tagRowsColumnsSquares(x, y, v) for p = x + 9*y. */
  function Tagged(aux: seq<seq<int>>, p: int, v: int): (r: seq<seq<int>>)
    requires AuxShape(aux) && 0 <= v <= 9
    ensures AuxShape(r)
  {
    if v > 0 then Shift(aux, p, v, 1) else aux
  }

  /** The effect of untagRowsColumnsSquares(x, y, v) for p = x + 9*y. */
  function Untagged(aux: seq<seq<int>>, p: int, v: int): (r: seq<seq<int>>)
    requires AuxShape(aux) && 0 <= v <= 9
    ensures AuxShape(r)
  {
    if v > 0 then Shift(aux, p, v, -1) else aux
  }

  /** setSquare: succeeds exactly when v's counter at the cell is 0; it does
      not look at what the cell holds. */
  function TrySet(b: Board, x: int, y: int, v: int): (r: (bool, Board))
    requires WellFormed(b) && 0 <= x < 9 && 0 <= y < 9 && 1 <= v <= 9
    ensures WellFormed(r.1)
  {
    var p := x + 9 * y;
    if b.aux[p][v - 1] == 0 then (true, Board(b.cells[p := v], Tagged(b.aux, p, v)))
    else (false, b)
  }

  /** clearSquare: returns the old digit (0 if none) and empties the cell. */
  function ClearAt(b: Board, x: int, y: int): (r: (int, Board))
    requires WellFormed(b) && 0 <= x < 9 && 0 <= y < 9
    ensures WellFormed(r.1) && 0 <= r.0 <= 9
  {
    var p := x + 9 * y;
    (b.cells[p], Board(b.cells[p := 0], Untagged(b.aux, p, b.cells[p])))
  }

  /** setSquare succeeds exactly when the digit's counter at the cell is 0.
      A failure changes nothing. A success writes the digit and adds, to
      that digit's counter of every cell c, one per line or box c shares
      with the placed cell: 3 at the cell itself. Other digits' counters
      are unchanged. */
  lemma TrySetEffect(b: Board, x: int, y: int, v: int)
    requires WellFormed(b) && 0 <= x < 9 && 0 <= y < 9 && 1 <= v <= 9
    ensures Cover(x + 9 * y, x + 9 * y) == 3
    ensures TrySet(b, x, y, v).0 <==> b.aux[x + 9 * y][v - 1] == 0
    ensures !TrySet(b, x, y, v).0 ==> TrySet(b, x, y, v).1 == b
    ensures TrySet(b, x, y, v).0 ==>
      TrySet(b, x, y, v).1.cells == b.cells[x + 9 * y := v]
      && forall c, k :: 0 <= c < 81 && 0 <= k < 9 ==>
        TrySet(b, x, y, v).1.aux[c][k] == b.aux[c][k] + (if k == v - 1 then Cover(x + 9 * y, c) else 0)
  {
  }

  /** clearSquare returns the old digit and leaves the cell 0. If the cell
      was empty the counters are untouched; otherwise the increments of the
      placement are taken off again. */
  lemma ClearAtEffect(b: Board, x: int, y: int)
    requires WellFormed(b) && 0 <= x < 9 && 0 <= y < 9
    ensures ClearAt(b, x, y).0 == b.cells[x + 9 * y]
    ensures ClearAt(b, x, y).1.cells == b.cells[x + 9 * y := 0]
    ensures b.cells[x + 9 * y] == 0 ==> ClearAt(b, x, y).1.aux == b.aux
    ensures forall c, k :: 0 <= c < 81 && 0 <= k < 9 ==>
      ClearAt(b, x, y).1.aux[c][k] == b.aux[c][k] - (if k == b.cells[x + 9 * y] - 1 then Cover(x + 9 * y, c) else 0)
  {
  }

  /** The digits 1..n, ascending, whose counter in row is 0. */
  function AllowedUpTo(row: seq<int>, n: nat): seq<int>
    requires n <= |row|
  {
    if n == 0 then [] else AllowedUpTo(row, n - 1) + (if row[n - 1] == 0 then [n] else [])
  }

  /** getAllowedNums on one cell's counters. */
  function Allowed(row: seq<int>): seq<int>
    requires |row| == 9
  {
    AllowedUpTo(row, 9)
  }

  /** The number allowedNums reports for cell c. */
  function AllowedCount(aux: seq<seq<int>>, c: int): nat
    requires AuxShape(aux) && 0 <= c < 81
  {
    |Allowed(aux[c])|
  }

  predicate StrictlyAscending(s: seq<int>)
  {
    forall i, j :: 0 <= i < j < |s| ==> s[i] < s[j]
  }

  lemma AppendAscending(s: seq<int>, x: int)
    requires StrictlyAscending(s)
    requires forall e :: e in s ==> e < x
    ensures StrictlyAscending(s + [x])
  {
    forall i, j | 0 <= i < j < |s + [x]|
      ensures (s + [x])[i] < (s + [x])[j]
    {
      assert (s + [x])[i] == s[i];
      if j == |s| {
        assert s[i] in s;
      }
    }
  }

  lemma {:induction false} AllowedUpToSpec(row: seq<int>, n: nat)
    requires n <= |row|
    ensures StrictlyAscending(AllowedUpTo(row, n))
    ensures forall d :: d in AllowedUpTo(row, n) <==> 1 <= d <= n && row[d - 1] == 0
  {
    if n > 0 {
      AllowedUpToSpec(row, n - 1);
      if row[n - 1] == 0 {
        AppendAscending(AllowedUpTo(row, n - 1), n);
      }
    }
  }

  /** getAllowedNums yields, ascending, exactly the digits whose counter is 0. */
  lemma AllowedSpec(row: seq<int>)
    requires |row| == 9
    ensures StrictlyAscending(Allowed(row)) && |Allowed(row)| <= 9
    ensures forall d :: d in Allowed(row) <==> 1 <= d <= 9 && row[d - 1] == 0
  {
    AllowedUpToSpec(row, 9);
    AllowedLength(row, 9);
  }

  lemma {:induction false} AllowedLength(row: seq<int>, n: nat)
    requires n <= |row|
    ensures |AllowedUpTo(row, n)| <= n
  {
    if n > 0 {
      AllowedLength(row, n - 1);
    }
  }

  lemma {:induction false} AllowedMonotone(row: seq<int>, i: nat, n: nat)
    requires i <= n <= |row|
    ensures |AllowedUpTo(row, i)| <= |AllowedUpTo(row, n)|
  {
    if i < n {
      AllowedMonotone(row, i, n - 1);
    }
  }

  /** No digit is allowed where every counter is nonzero. */
  lemma {:induction false} NoneAllowed(row: seq<int>, n: nat)
    requires n <= |row| && forall k :: 0 <= k < n ==> row[k] != 0
    ensures AllowedUpTo(row, n) == []
  {
    if n > 0 {
      NoneAllowed(row, n - 1);
    }
  }

  /** The ascending indices below n of the cells holding 0. */
  function EmptiesUpTo(cells: seq<int>, n: nat): seq<int>
    requires n <= |cells|
  {
    if n == 0 then [] else EmptiesUpTo(cells, n - 1) + (if cells[n - 1] == 0 then [n - 1] else [])
  }

  /** getEmptySquares. */
  function Empties(cells: seq<int>): (r: seq<int>)
    requires |cells| == 81
    ensures forall k :: 0 <= k < |r| ==> 0 <= r[k] < 81
  {
    EmptiesUpToSpec(cells, 81);
    assert forall k :: 0 <= k < |EmptiesUpTo(cells, 81)| ==> EmptiesUpTo(cells, 81)[k] in EmptiesUpTo(cells, 81);
    EmptiesUpTo(cells, 81)
  }

  lemma {:induction false} EmptiesUpToSpec(cells: seq<int>, n: nat)
    requires n <= |cells|
    ensures StrictlyAscending(EmptiesUpTo(cells, n))
    ensures forall i :: i in EmptiesUpTo(cells, n) <==> 0 <= i < n && cells[i] == 0
  {
    if n > 0 {
      EmptiesUpToSpec(cells, n - 1);
      if cells[n - 1] == 0 {
        AppendAscending(EmptiesUpTo(cells, n - 1), n - 1);
      }
    }
  }

  // ---------------------------------------------------------------------
  // The counter invariant

  /** Sum of Cover(j, c) over the cells j < n that hold d: the number of
      cells holding d in c's column, plus those in c's row, plus those in
      c's box (cells among the first n only). */
  function Weight(cells: seq<int>, c: int, d: int, n: nat): nat
    requires n <= |cells|
  {
    if n == 0 then 0
    else Weight(cells, c, d, n - 1) + (if cells[n - 1] == d then Cover(n - 1, c) else 0)
  }

  /** What every counter holds while setSquare is only used on empty cells:
      counter[c][d-1] = #d in c's column + #d in c's row + #d in c's box. */
  predicate Consistent(b: Board)
  {
    WellFormed(b)
    && forall c, k :: 0 <= c < 81 && 0 <= k < 9 ==> b.aux[c][k] == Weight(b.cells, c, k + 1, 81)
  }

  /** No two peers hold the same digit. */
  predicate NoConflict(cells: seq<int>)
    requires |cells| == 81
  {
    forall p, c :: 0 <= p < 81 && 0 <= c < 81 && Peers(p, c) && cells[p] != 0 ==> cells[p] != cells[c]
  }

  /** Cell j is in c's row, column or box (c itself included). */
  predicate Sees(j: int, c: int)
  {
    Col(j) == Col(c) || Row(j) == Row(c) || Box(j) == Box(c)
  }

  lemma {:induction false} WeightUpdate(cells: seq<int>, i: int, v: int, c: int, d: int, n: nat)
    requires n <= |cells| && 0 <= i < |cells|
    ensures Weight(cells[i := v], c, d, n) + (if i < n && cells[i] == d then Cover(i, c) else 0)
         == Weight(cells, c, d, n) + (if i < n && v == d then Cover(i, c) else 0)
  {
    if n > 0 {
      WeightUpdate(cells, i, v, c, d, n - 1);
    }
  }

  lemma {:induction false} WeightZero(cells: seq<int>, c: int, d: int, n: nat)
    requires n <= |cells|
    ensures Weight(cells, c, d, n) == 0 <==> forall j :: 0 <= j < n && cells[j] == d ==> !Sees(j, c)
  {
    if n > 0 {
      WeightZero(cells, c, d, n - 1);
    }
  }

  /** Under the invariant, a counter is 0 exactly when no cell in the
      cell's row, column or box, the cell itself included, holds the digit. */
  lemma CounterZeroIff(b: Board, c: int, d: int)
    requires Consistent(b) && 0 <= c < 81 && 1 <= d <= 9
    ensures b.aux[c][d - 1] == 0 <==> forall j :: 0 <= j < 81 && Sees(j, c) ==> b.cells[j] != d
  {
    WeightZero(b.cells, c, d, 81);
  }

  lemma PeersSymmetric(p: int, c: int)
    ensures Peers(p, c) <==> Peers(c, p)
    ensures Sees(p, c) <==> Cover(p, c) > 0
  {
  }

  /** A successful setSquare on an empty cell keeps the counter invariant and
      the absence of conflicts; it succeeds exactly when no cell the cell
      sees holds the digit. */
  lemma SetKeepsInvariant(b: Board, x: int, y: int, v: int)
    requires Consistent(b) && NoConflict(b.cells)
    requires 0 <= x < 9 && 0 <= y < 9 && 1 <= v <= 9 && b.cells[x + 9 * y] == 0
    ensures Consistent(TrySet(b, x, y, v).1) && NoConflict(TrySet(b, x, y, v).1.cells)
    ensures TrySet(b, x, y, v).0 <==> forall j :: 0 <= j < 81 && Sees(j, x + 9 * y) ==> b.cells[j] != v
  {
    var p := x + 9 * y;
    CounterZeroIff(b, p, v);
    var r := TrySet(b, x, y, v);
    if r.0 {
      var b' := r.1;
      forall c, k | 0 <= c < 81 && 0 <= k < 9
        ensures b'.aux[c][k] == Weight(b'.cells, c, k + 1, 81)
      {
        WeightUpdate(b.cells, p, v, c, k + 1, 81);
      }
      forall q, c | 0 <= q < 81 && 0 <= c < 81 && Peers(q, c) && b'.cells[q] != 0
        ensures b'.cells[q] != b'.cells[c]
      {
        PeersSymmetric(q, c);
        PeersSymmetric(c, q);
      }
    }
  }

  /** clearSquare keeps the counter invariant and the absence of conflicts. */
  lemma ClearKeepsInvariant(b: Board, x: int, y: int)
    requires Consistent(b) && 0 <= x < 9 && 0 <= y < 9
    ensures Consistent(ClearAt(b, x, y).1)
    ensures NoConflict(b.cells) ==> NoConflict(ClearAt(b, x, y).1.cells)
  {
    var p := x + 9 * y;
    var b' := ClearAt(b, x, y).1;
    forall c, k | 0 <= c < 81 && 0 <= k < 9
      ensures b'.aux[c][k] == Weight(b'.cells, c, k + 1, 81)
    {
      WeightUpdate(b.cells, p, 0, c, k + 1, 81);
    }
  }

  lemma ShiftInverse(aux: seq<seq<int>>, p: int, v: int)
    requires AuxShape(aux) && 1 <= v <= 9
    ensures Shift(Shift(aux, p, v, 1), p, v, -1) == aux
  {
    var r := Shift(Shift(aux, p, v, 1), p, v, -1);
    forall c | 0 <= c < 81
      ensures r[c] == aux[c]
    {
      assert forall k :: 0 <= k < 9 ==> r[c][k] == aux[c][k];
    }
  }

  /** On an empty cell, a successful setSquare followed by clearSquare
      returns the placed digit and restores grid and counters exactly. */
  lemma SetThenClear(b: Board, x: int, y: int, v: int)
    requires WellFormed(b) && 0 <= x < 9 && 0 <= y < 9 && 1 <= v <= 9
    requires b.cells[x + 9 * y] == 0 && TrySet(b, x, y, v).0
    ensures ClearAt(TrySet(b, x, y, v).1, x, y) == (v, b)
  {
    var p := x + 9 * y;
    ShiftInverse(b.aux, p, v);
    assert b.cells[p := v][p := 0] == b.cells;
  }

  /** In a conflict-free, consistent grid, clearing a digit and putting it
      back succeeds and restores grid and counters exactly. */
  lemma ClearThenSet(b: Board, x: int, y: int)
    requires Consistent(b) && NoConflict(b.cells) && 0 <= x < 9 && 0 <= y < 9
    requires b.cells[x + 9 * y] != 0
    ensures TrySet(ClearAt(b, x, y).1, x, y, b.cells[x + 9 * y]) == (true, b)
  {
    var p := x + 9 * y;
    var v := b.cells[p];
    var b' := ClearAt(b, x, y).1;
    ClearKeepsInvariant(b, x, y);
    forall j | 0 <= j < 81 && Sees(j, p)
      ensures b'.cells[j] != v
    {
      if j != p {
        PeersSymmetric(j, p);
      }
    }
    CounterZeroIff(b', p, v);
    assert b'.aux[p][v - 1] == 0;
    assert b'.aux == Shift(b.aux, p, v, -1);
    var r := Shift(Shift(b.aux, p, v, -1), p, v, 1);
    forall c | 0 <= c < 81
      ensures r[c] == b.aux[c]
    {
      assert forall k :: 0 <= k < 9 ==> r[c][k] == b.aux[c][k];
    }
    assert b.cells[p := 0][p := v] == b.cells;
    assert r == b.aux;
    assert TrySet(b', x, y, v) == (true, b);
  }
}
