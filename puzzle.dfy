/** SudokuPuzzle: the grid and its cover counters, updated in place. */
module PuzzleState {
  import opened Grid

  /** The box loop's cells are exactly those of the box of (x, y). */
  lemma BoxRange(x: int, y: int, c: int)
    requires 0 <= x < 9 && 0 <= y < 9 && 0 <= c < 81
    ensures Box(c) == Box(x + 9 * y) <==>
      (x / 3) * 3 <= Col(c) < (x / 3) * 3 + 3 && (y / 3) * 3 <= Row(c) < (y / 3) * 3 + 3
  {
    CellOf(x, y);
  }

  lemma SameAux(a: seq<seq<int>>, b: seq<seq<int>>)
    requires AuxShape(a) && AuxShape(b)
    requires forall c, k :: 0 <= c < 81 && 0 <= k < 9 ==> a[c][k] == b[c][k]
    ensures a == b
  {
    forall c | 0 <= c < 81
      ensures a[c] == b[c]
    {
      assert forall k :: 0 <= k < 9 ==> a[c][k] == b[c][k];
    }
  }

  /** delta times Cover(p, c), one term per tagging loop. */
  lemma ScaledCover(delta: int, p: int, c: int)
    ensures delta * Cover(p, c) == (if Col(c) == Col(p) then delta else 0)
      + (if Row(c) == Row(p) then delta else 0) + (if Box(c) == Box(p) then delta else 0)
  {
  }

  /** clearRow(y) on values: clearSquare(i, y) for i = 0 .. n-1. */
  function ClearCols(b: Board, y: int, n: nat): (r: Board)
    requires WellFormed(b) && 0 <= y < 9 && n <= 9
    ensures WellFormed(r)
  {
    if n == 0 then b else ClearAt(ClearCols(b, y, n - 1), n - 1, y).1
  }

  /** clearRow(y) zeroes the first n cells of row y, leaves every other cell
      as it was, and keeps the counter invariant and freedom from conflicts. */
  lemma {:induction false} ClearColsSpec(b: Board, y: int, n: nat)
    requires WellFormed(b) && 0 <= y < 9 && n <= 9
    ensures forall c :: 0 <= c < 81 ==>
      ClearCols(b, y, n).cells[c] == if Row(c) == y && Col(c) < n then 0 else b.cells[c]
    ensures Consistent(b) ==> Consistent(ClearCols(b, y, n))
    ensures Consistent(b) && NoConflict(b.cells) ==> NoConflict(ClearCols(b, y, n).cells)
  {
    if n > 0 {
      ClearColsSpec(b, y, n - 1);
      CellOf(n - 1, y);
      forall c | 0 <= c < 81
        ensures ClearCols(b, y, n).cells[c] == if Row(c) == y && Col(c) < n then 0 else b.cells[c]
      {
        Decompose(c);
      }
      if Consistent(b) {
        ClearKeepsInvariant(ClearCols(b, y, n - 1), n - 1, y);
      }
    }
  }

  class SudokuPuzzle {
    var grid: array<int>
    var aux: array2<int>
    var numberOfClues: int

    ghost predicate Valid()
      reads this, grid
    {
      grid.Length == 81 && aux.Length0 == 81 && aux.Length1 == 9
      && forall c :: 0 <= c < 81 ==> 0 <= grid[c] <= 9
    }

    ghost function AuxModel(): (r: seq<seq<int>>)
      reads this, aux
      requires aux.Length0 == 81 && aux.Length1 == 9
      ensures AuxShape(r)
    {
      seq(81, c requires 0 <= c < aux.Length0 && 9 <= aux.Length1 reads this, aux =>
        seq(9, k requires 0 <= k < aux.Length1 && 0 <= c < aux.Length0 reads this, aux => aux[c, k]))
    }

    /** The abstract value of the puzzle. */
    ghost function Model(): (b: Board)
      reads this, grid, aux
      requires Valid()
      ensures WellFormed(b)
    {
      Board(grid[..], AuxModel())
    }

    constructor ()
      ensures Valid() && Model() == EmptyBoard() && fresh(grid) && fresh(aux)
    {
      grid := new int[81](_ => 0);
      aux := new int[81, 9]((_, _) => 0);
      numberOfClues := 0;
      new;
      assert grid[..] == EmptyBoard().cells;
      SameAux(AuxModel(), EmptyBoard().aux);
    }

    /** The inner constructor used by Clone: adopts the given storage and
      leaves the clue count at Java's default 0. */
    constructor Adopt(g: array<int>, a: array2<int>)
      ensures grid == g && aux == a && numberOfClues == 0
    {
      grid := g;
      aux := a;
      numberOfClues := 0;
    }

    method SetNumOfClues(n: int)
      modifies this`numberOfClues
      ensures numberOfClues == n
      ensures Valid() == old(Valid()) && (Valid() ==> Model() == old(Model()))
    {
      numberOfClues := n;
      if Valid() {
        assert grid[..] == old(grid[..]);
        SameAux(AuxModel(), old(AuxModel()));
      }
    }

    method GetNumOfClues() returns (n: int)
      ensures n == numberOfClues
    {
      n := numberOfClues;
    }

    /** Places val at (x, y) exactly when val's counter there is 0. */
    method SetSquare(x: int, y: int, val: int) returns (ok: bool)
      requires Valid() && 0 <= x < 9 && 0 <= y < 9 && 1 <= val <= 9
      modifies grid, aux
      ensures Valid()
      ensures (ok, Model()) == TrySet(old(Model()), x, y, val)
    {
      CellOf(x, y);
      if aux[x + y * 9, val - 1] == 0 {
        assert old(AuxModel())[x + 9 * y][val - 1] == 0;
        grid[x + y * 9] := val;
        TagRowsColumnsSquares(x, y, val);
        ok := true;
      } else {
        ok := false;
      }
    }

    /** Empties (x, y) and returns what it held. */
    method ClearSquare(x: int, y: int) returns (out: int)
      requires Valid() && 0 <= x < 9 && 0 <= y < 9
      modifies grid, aux
      ensures Valid()
      ensures (out, Model()) == ClearAt(old(Model()), x, y)
    {
      CellOf(x, y);
      out := grid[x + y * 9];
      UntagRowsColumnsSquares(x, y, out);
      grid[x + y * 9] := 0;
    }

    method GetNumberAt(x: int, y: int) returns (v: int)
      requires Valid() && 0 <= x < 9 && 0 <= y < 9
      ensures 0 <= v <= 9 && v == Model().cells[x + 9 * y]
    {
      v := grid[x + y * 9];
    }

    /** Zeroes row y; every other cell keeps its value. */
    method ClearRow(y: int)
      requires Valid() && 0 <= y < 9
      modifies grid, aux
      ensures Valid()
      ensures Model() == ClearCols(old(Model()), y, 9)
      ensures forall c :: 0 <= c < 81 ==> Model().cells[c] == if Row(c) == y then 0 else old(Model()).cells[c]
      ensures Consistent(old(Model())) ==> Consistent(Model())
      ensures Consistent(old(Model())) && NoConflict(old(Model()).cells) ==> NoConflict(Model().cells)
    {
      var i := 0;
      while i < 9
        invariant 0 <= i <= 9 && Valid()
        invariant Model() == ClearCols(old(Model()), y, i)
      {
        var _ := ClearSquare(i, y);
        i := i + 1;
      }
      ClearColsSpec(old(Model()), y, 9);
      AllDecompose();
    }

    /** The ascending indices of exactly the empty cells. */
    method GetEmptySquares() returns (out: seq<int>)
      requires Valid()
      ensures out == Empties(Model().cells)
      ensures StrictlyAscending(out)
      ensures forall i :: i in out <==> 0 <= i < 81 && Model().cells[i] == 0
    {
      out := [];
      var i := 0;
      while i < 81
        invariant 0 <= i <= 81
        invariant out == EmptiesUpTo(grid[..], i)
      {
        if grid[i] == 0 {
          out := out + [i];
        }
        i := i + 1;
      }
      EmptiesUpToSpec(grid[..], 81);
    }

    /** The ascending digits whose counter at (x, y) is 0. */
    method GetAllowedNums(x: int, y: int) returns (allowed: array<int>)
      requires aux.Length0 == 81 && aux.Length1 == 9 && 0 <= x < 9 && 0 <= y < 9
      ensures fresh(allowed)
      ensures allowed[..] == Allowed(AuxModel()[x + 9 * y])
    {
      CellOf(x, y);
      ghost var row := AuxModel()[x + 9 * y];
      var numsCount := 0;
      var i := 0;
      while i < 9
        invariant 0 <= i <= 9
        invariant numsCount == |AllowedUpTo(row, i)|
      {
        if aux[x + y * 9, i] == 0 {
          numsCount := numsCount + 1;
        }
        i := i + 1;
      }
      AllowedMonotone(row, 0, 9);
      allowed := new int[numsCount];
      var ptr := 0;
      i := 0;
      while i < 9
        invariant 0 <= i <= 9
        invariant ptr == |AllowedUpTo(row, i)| <= allowed.Length
        invariant allowed[..ptr] == AllowedUpTo(row, i)
      {
        if aux[x + y * 9, i] == 0 {
          AllowedMonotone(row, i + 1, 9);
          allowed[ptr] := i + 1;
          ptr := ptr + 1;
        }
        i := i + 1;
      }
      assert allowed[..] == allowed[..ptr];
    }

    /** Empties the whole puzzle, with fresh storage. */
    method Clear()
      modifies this
      ensures Valid() && Model() == EmptyBoard() && numberOfClues == old(numberOfClues)
      ensures fresh(grid) && fresh(aux)
    {
      grid := new int[81](_ => 0);
      aux := new int[81, 9]((_, _) => 0);
      assert grid[..] == EmptyBoard().cells;
      SameAux(AuxModel(), EmptyBoard().aux);
    }

    /** Adds 1 to val's counter of every cell in column x, every cell in row
      y and every cell in the box of (x, y); nothing when val is 0. */
    method TagRowsColumnsSquares(x: int, y: int, val: int)
      requires aux.Length0 == 81 && aux.Length1 == 9
      requires 0 <= x < 9 && 0 <= y < 9 && 0 <= val <= 9
      modifies aux
      ensures AuxModel() == Tagged(old(AuxModel()), x + 9 * y, val)
    {
      Cover3(x, y, val, 1);
    }

    /** Subtracts what TagRowsColumnsSquares adds. */
    method UntagRowsColumnsSquares(x: int, y: int, val: int)
      requires aux.Length0 == 81 && aux.Length1 == 9
      requires 0 <= x < 9 && 0 <= y < 9 && 0 <= val <= 9
      modifies aux
      ensures AuxModel() == Untagged(old(AuxModel()), x + 9 * y, val)
    {
      Cover3(x, y, val, -1);
    }

    /** The three loops shared by tagging (delta = 1) and untagging (delta = -1). */
    method Cover3(x: int, y: int, val: int, delta: int)
      requires aux.Length0 == 81 && aux.Length1 == 9
      requires 0 <= x < 9 && 0 <= y < 9 && 0 <= val <= 9
      modifies aux
      ensures val == 0 ==> AuxModel() == old(AuxModel())
      ensures val > 0 ==> AuxModel() == Shift(old(AuxModel()), x + 9 * y, val, delta)
    {
      if val > 0 {
        ghost var before := AuxModel();
        var d := val - 1;
        CoverColumn(x, d, delta);
        CoverRow(y, d, delta);
        CoverBox(x, y, d, delta);
        ghost var p := x + 9 * y;
        CellOf(x, y);
        forall c, k | 0 <= c < 81 && 0 <= k < 9
          ensures AuxModel()[c][k] == Shift(before, p, val, delta)[c][k]
        {
          BoxRange(x, y, c);
          ScaledCover(delta, p, c);
        }
        SameAux(AuxModel(), Shift(before, p, val, delta));
      }
    }

    /** The "Rows" loop of the source: it walks the cells of column x. */
    method CoverColumn(x: int, d: int, delta: int)
      requires aux.Length0 == 81 && aux.Length1 == 9 && 0 <= x < 9 && 0 <= d < 9
      modifies aux
      ensures forall c, k :: 0 <= c < 81 && 0 <= k < 9 ==>
        aux[c, k] == old(aux[c, k]) + (if k == d && Col(c) == x then delta else 0)
    {
      AllDecompose();
      var i := 0;
      while i < 9
        invariant 0 <= i <= 9
        invariant forall c, k :: 0 <= c < 81 && 0 <= k < 9 ==>
          aux[c, k] == old(aux[c, k]) + (if k == d && Col(c) == x && Row(c) < i then delta else 0)
      {
        CellOf(x, i);
        aux[x + i * 9, d] := aux[x + i * 9, d] + delta;
        i := i + 1;
      }
    }

    /** The "Cols" loop of the source: it walks the cells of row y. */
    method CoverRow(y: int, d: int, delta: int)
      requires aux.Length0 == 81 && aux.Length1 == 9 && 0 <= y < 9 && 0 <= d < 9
      modifies aux
      ensures forall c, k :: 0 <= c < 81 && 0 <= k < 9 ==>
        aux[c, k] == old(aux[c, k]) + (if k == d && Row(c) == y then delta else 0)
    {
      AllDecompose();
      var i := 0;
      while i < 9
        invariant 0 <= i <= 9
        invariant forall c, k :: 0 <= c < 81 && 0 <= k < 9 ==>
          aux[c, k] == old(aux[c, k]) + (if k == d && Row(c) == y && Col(c) < i then delta else 0)
      {
        CellOf(i, y);
        aux[i + y * 9, d] := aux[i + y * 9, d] + delta;
        i := i + 1;
      }
    }

    /** The "Sqrs" loops of the source: the nine cells of the box of (x, y). */
    method CoverBox(x: int, y: int, d: int, delta: int)
      requires aux.Length0 == 81 && aux.Length1 == 9 && 0 <= x < 9 && 0 <= y < 9 && 0 <= d < 9
      modifies aux
      ensures forall c, k :: 0 <= c < 81 && 0 <= k < 9 ==>
        aux[c, k] == old(aux[c, k]) + (if k == d && (x / 3) * 3 <= Col(c) < (x / 3) * 3 + 3
                                         && (y / 3) * 3 <= Row(c) < (y / 3) * 3 + 3 then delta else 0)
    {
      var boxX, boxY := (x / 3) * 3, (y / 3) * 3;
      var i := 0;
      while i < 3
        invariant 0 <= i <= 3
        invariant forall c, k :: 0 <= c < 81 && 0 <= k < 9 ==>
          aux[c, k] == old(aux[c, k])
            + (if k == d && boxX <= Col(c) < boxX + i && boxY <= Row(c) < boxY + 3 then delta else 0)
      {
        CoverBoxColumn(boxX + i, boxY, d, delta);
        i := i + 1;
      }
    }

    /** One pass of the inner "Sqrs" loop: the three box cells of column col
      in rows boxY .. boxY + 2. */
    method CoverBoxColumn(col: int, boxY: int, d: int, delta: int)
      requires aux.Length0 == 81 && aux.Length1 == 9 && 0 <= col < 9 && 0 <= boxY <= 6 && 0 <= d < 9
      modifies aux
      ensures forall c, k :: 0 <= c < 81 && 0 <= k < 9 ==>
        aux[c, k] == old(aux[c, k]) + (if k == d && Col(c) == col && boxY <= Row(c) < boxY + 3 then delta else 0)
    {
      var j := 0;
      while j < 3
        invariant 0 <= j <= 3
        invariant forall c, k :: 0 <= c < 81 && 0 <= k < 9 ==>
          aux[c, k] == old(aux[c, k]) + (if k == d && Col(c) == col && boxY <= Row(c) < boxY + j then delta else 0)
      {
        CellOf(col, boxY + j);
        aux[col + (boxY + j) * 9, d] := aux[col + (boxY + j) * 9, d] + delta;
        j := j + 1;
      }
    }

    /** A copy in fresh storage with equal grid and counters; the clue count
      is not copied and is 0 in the copy. */
    method Clone() returns (copy: SudokuPuzzle)
      requires Valid()
      ensures fresh(copy) && fresh(copy.grid) && fresh(copy.aux)
      ensures copy.Valid() && copy.Model() == Model() && copy.numberOfClues == 0
    {
      var a := new int[81, 9];
      var i := 0;
      while i < 81
        invariant 0 <= i <= 81
        invariant forall c, k :: 0 <= c < i && 0 <= k < 9 ==> a[c, k] == aux[c, k]
      {
        var j := 0;
        while j < 9
          invariant 0 <= j <= 9
          invariant forall c, k :: 0 <= c < i && 0 <= k < 9 ==> a[c, k] == aux[c, k]
          invariant forall k :: 0 <= k < j ==> a[i, k] == aux[i, k]
        {
          a[i, j] := aux[i, j];
          j := j + 1;
        }
        i := i + 1;
      }
      var g := new int[81](k requires 0 <= k < grid.Length reads this, grid => grid[k]);
      copy := new SudokuPuzzle.Adopt(g, a);
      assert copy.grid[..] == grid[..];
      SameAux(copy.AuxModel(), AuxModel());
    }
  }
}
