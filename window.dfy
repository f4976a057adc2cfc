/** The two checks SudokuWindow runs on what the user typed into the 81
    fields. Field i shows cell (i % 9, i / 9); entries[i] is the digit in it,
    0 for an empty field, and editable[i] tells whether it accepts input. */
module SudokuWindow {
  import opened Grid
  import opened PuzzleState
  import opened Solutions
  import SolverModule

  /** 81 fields, each empty or holding one digit. */
  predicate Fields(entries: seq<int>)
  {
    |entries| == 81 && forall i :: 0 <= i < 81 ==> 0 <= entries[i] <= 9
  }

  /** Every field holds a digit. */
  predicate Full(entries: seq<int>)
  {
    forall i :: 0 <= i < |entries| ==> entries[i] != 0
  }

  /** The grid cells with the nonempty marked fields before n written over them. */
  function Overlay(cells: seq<int>, entries: seq<int>, mask: seq<bool>, n: int): (r: seq<int>)
    requires |cells| == 81 && |entries| == 81 && |mask| == 81
    ensures |r| == 81
  {
    seq(81, i requires 0 <= i < 81 => if i < n && mask[i] && entries[i] != 0 then entries[i] else cells[i])
  }

  /** The marked fields lie over empty cells, as fillGrid leaves it: the
      fields of clues are made read-only. */
  predicate Fits(cells: seq<int>, mask: seq<bool>)
    requires |cells| == 81 && |mask| == 81
  {
    forall i :: 0 <= i < 81 && mask[i] ==> cells[i] == 0
  }

  /** Before any field is entered the grid is unchanged. */
  lemma OverlayStart(cells: seq<int>, entries: seq<int>, mask: seq<bool>)
    requires |cells| == 81 && |entries| == 81 && |mask| == 81
    ensures Overlay(cells, entries, mask, 0) == cells
  {
  }

  /** A field that is empty or not marked changes nothing. */
  lemma OverlaySkip(cells: seq<int>, entries: seq<int>, mask: seq<bool>, i: int)
    requires |cells| == 81 && |entries| == 81 && |mask| == 81 && 0 <= i < 81
    requires !mask[i] || entries[i] == 0
    ensures Overlay(cells, entries, mask, i + 1) == Overlay(cells, entries, mask, i)
  {
  }

  /** Entering the digit of field i on the grid of the fields before it:
      setSquare accepts it exactly when the grid with field i added has no
      conflict, and then yields that grid with consistent counters. */
  lemma EnterStep(b: Board, cells: seq<int>, entries: seq<int>, mask: seq<bool>, i: int)
    requires Fields(entries) && |cells| == 81 && |mask| == 81 && Fits(cells, mask)
    requires 0 <= i < 81 && mask[i] && entries[i] != 0
    requires Consistent(b) && NoConflict(b.cells) && b.cells == Overlay(cells, entries, mask, i)
    ensures TrySet(b, i % 9, i / 9, entries[i]).0 <==> NoConflict(Overlay(cells, entries, mask, i + 1))
    ensures TrySet(b, i % 9, i / 9, entries[i]).0 ==>
      Consistent(TrySet(b, i % 9, i / 9, entries[i]).1)
      && TrySet(b, i % 9, i / 9, entries[i]).1.cells == Overlay(cells, entries, mask, i + 1)
  {
    Decompose(i);
    var v := entries[i];
    var next := Overlay(cells, entries, mask, i + 1);
    SetKeepsInvariant(b, i % 9, i / 9, v);
    assert next == b.cells[i := v];
    if NoConflict(next) {
      forall j | 0 <= j < 81 && Sees(j, i)
        ensures b.cells[j] != v
      {
        if j != i {
          PeersSymmetric(i, j);
          assert Peers(i, j);
        }
      }
    }
  }

  /** A conflict among the fields entered so far stays in the whole grid,
      as long as the marked fields lie over empty cells. */
  lemma ConflictPersists(cells: seq<int>, entries: seq<int>, mask: seq<bool>, i: int)
    requires Fields(entries) && |cells| == 81 && |mask| == 81 && Fits(cells, mask) && 0 <= i <= 81
    requires !NoConflict(Overlay(cells, entries, mask, i))
    ensures !NoConflict(Overlay(cells, entries, mask, 81))
  {
    var part := Overlay(cells, entries, mask, i);
    var whole := Overlay(cells, entries, mask, 81);
    var p, c :| 0 <= p < 81 && 0 <= c < 81 && Peers(p, c) && part[p] != 0 && part[p] == part[c];
    assert whole[p] == part[p] && whole[c] == part[c];
  }

  /** The grid is full exactly when getEmptySquares would find nothing. */
  lemma FullIff(entries: seq<int>)
    requires |entries| == 81
    ensures Full(entries) <==> |Empties(entries)| == 0
  {
    EmptiesUpToSpec(entries, 81);
    if |Empties(entries)| > 0 {
      assert Empties(entries)[0] in Empties(entries);
    }
  }

  /** Counting the empty fields: i - |EmptiesUpTo(entries, i)| nonempty ones. */
  lemma EmptiesStep(entries: seq<int>, i: nat)
    requires i < |entries|
    ensures |EmptiesUpTo(entries, i + 1)| == |EmptiesUpTo(entries, i)| + (if entries[i] == 0 then 1 else 0)
  {
  }

  /** Under every field, with none marked off. */
  function AllFields(): (mask: seq<bool>)
    ensures |mask| == 81 && forall i :: 0 <= i < 81 ==> mask[i]
  {
    seq(81, _ => true)
  }

  /** Writing every field over an empty grid gives the fields themselves. */
  lemma OverlayAll(entries: seq<int>)
    requires Fields(entries)
    ensures Overlay(EmptyBoard().cells, entries, AllFields(), 81) == entries
    ensures Fits(EmptyBoard().cells, AllFields())
  {
  }

  /** After every field went in without a rejection, the list of the empty
      fields is exactly what the searches expect. */
  lemma AllEntered(b: Board, entries: seq<int>, L: seq<int>)
    requires Fields(entries) && Consistent(b) && NoConflict(b.cells)
    requires b.cells == entries && L == EmptiesUpTo(entries, 81)
    ensures L == Empties(entries) && Ready(b, L)
  {
    EmptiesUpToSpec(entries, 81);
    AscendingDistinct(L);
  }

  /** The loop of validatePuzzle: enters the nonempty fields, in field
      order, on a fresh puzzle, stops at the first rejection, and collects
      the empty fields; count is the number of nonempty fields entered. */
  method EnterFields(tmpPuzzle: SudokuPuzzle, entries: seq<int>)
    returns (ok: bool, emptySquares: seq<int>, count: int)
    requires Fields(entries) && tmpPuzzle.Valid() && tmpPuzzle.Model() == EmptyBoard()
    modifies tmpPuzzle.grid, tmpPuzzle.aux
    ensures tmpPuzzle.Valid()
    ensures ok <==> NoConflict(entries)
    ensures ok ==> Consistent(tmpPuzzle.Model()) && tmpPuzzle.Model().cells == entries
    ensures ok ==> emptySquares == Empties(entries) && Ready(tmpPuzzle.Model(), emptySquares)
    ensures ok ==> count == 81 - |Empties(entries)|
  {
    ghost var base := EmptyBoard().cells;
    ghost var mask := AllFields();
    OverlayStart(base, entries, mask);
    OverlayAll(entries);
    EmptyBoardInvariant();
    emptySquares := [];
    count := 0;
    var i := 0;
    while i < 81
      invariant 0 <= i <= 81
      invariant tmpPuzzle.Valid() && Consistent(tmpPuzzle.Model())
      invariant NoConflict(tmpPuzzle.Model().cells) && tmpPuzzle.Model().cells == Overlay(base, entries, mask, i)
      invariant emptySquares == EmptiesUpTo(entries, i) && count == i - |emptySquares|
    {
      EmptiesStep(entries, i);
      if entries[i] != 0 {
        count := count + 1;
        EnterStep(tmpPuzzle.Model(), base, entries, mask, i);
        Decompose(i);
        var placed := tmpPuzzle.SetSquare(i % 9, i / 9, entries[i]);
        if !placed {
          ConflictPersists(base, entries, mask, i + 1);
          return false, emptySquares, count;
        }
      } else {
        OverlaySkip(base, entries, mask, i);
        emptySquares := emptySquares + [i];
      }
      i := i + 1;
    }
    assert tmpPuzzle.Model().cells == entries;
    AllEntered(tmpPuzzle.Model(), entries, emptySquares);
    ok := true;
  }

  /** The state of validateMoves' copy after the fields before i: while no
      field was rejected it holds exactly those fields, and once one was
      rejected the whole overlay has a conflict. */
  ghost predicate Entering(t: Board, cells: seq<int>, entries: seq<int>, mask: seq<bool>, i: int, isValid: int)
    requires |cells| == 81 && |entries| == 81 && |mask| == 81 && 0 <= i <= 81
  {
    (isValid == 1 ==> Consistent(t) && NoConflict(t.cells) && t.cells == Overlay(cells, entries, mask, i))
    && (isValid == 0 ==> !NoConflict(Overlay(cells, entries, mask, 81)))
  }

  /** One pass of validateMoves' loop for field i, apart from the count:
      a nonempty editable field is entered on the copy, and a rejection
      clears isValid. */
  method EnterMove(tmpPuzzle: SudokuPuzzle, ghost cells: seq<int>, entries: seq<int>, mask: seq<bool>,
                   i: int, isValid: int, ghost fits: bool) returns (next: int)
    requires tmpPuzzle.Valid() && Fields(entries) && |cells| == 81 && |mask| == 81 && 0 <= i < 81
    requires isValid == 0 || isValid == 1
    requires fits ==> Fits(cells, mask) && Entering(tmpPuzzle.Model(), cells, entries, mask, i, isValid)
    modifies tmpPuzzle.grid, tmpPuzzle.aux
    ensures tmpPuzzle.Valid() && (next == 0 || next == 1)
    ensures fits ==> Entering(tmpPuzzle.Model(), cells, entries, mask, i + 1, next)
  {
    next := isValid;
    if entries[i] != 0 && mask[i] {
      if fits && isValid == 1 {
        EnterStep(tmpPuzzle.Model(), cells, entries, mask, i);
      }
      Decompose(i);
      var ok := tmpPuzzle.SetSquare(i % 9, i / 9, entries[i]);
      if !ok {
        if fits && isValid == 1 {
          ConflictPersists(cells, entries, mask, i + 1);
        }
        next := 0;
      }
    } else if fits && isValid == 1 {
      OverlaySkip(cells, entries, mask, i);
    }
  }

  class SudokuWindow {
    /** The puzzle shown; the Java field starts out null. */
    var sudoku: SudokuPuzzle

    constructor (initial: SudokuPuzzle)
      ensures sudoku == initial
    {
      sudoku := initial;
    }

    /** validatePuzzle: 1 if the typed digits conflict, 2 if fewer than 17
        are given, 0 if they have exactly one solution (the typed puzzle
        then becomes the window's puzzle), 3 otherwise. */
    method ValidatePuzzle(entries: seq<int>) returns (status: int)
      requires Fields(entries)
      modifies this
      ensures status == 1 <==> !NoConflict(entries)
      ensures status == 2 <==> NoConflict(entries) && 81 - |Empties(entries)| < 17
      ensures status == 0 <==> (NoConflict(entries) && 81 - |Empties(entries)| >= 17
        && |Completions(entries, Empties(entries))| == 1)
      ensures status == 3 <==> (NoConflict(entries) && 81 - |Empties(entries)| >= 17
        && |Completions(entries, Empties(entries))| != 1)
      ensures status == 0 ==> (fresh(sudoku) && sudoku.Valid() && Consistent(sudoku.Model())
        && sudoku.Model().cells == entries)
      ensures status != 0 ==> sudoku == old(sudoku)
    {
      var tmpPuzzle := new SudokuPuzzle();
      var ok, emptySquares, count := EnterFields(tmpPuzzle, entries);
      if !ok {
        return 1;
      }
      if count < 17 {
        return 2;
      }
      var solutions := SolverModule.SpecialSolver(tmpPuzzle, emptySquares);
      if solutions == 1 {
        sudoku := tmpPuzzle;
        return 0;
      }
      return 3;
    }

    /** The loop of validateMoves: enters the nonempty editable fields, in
        field order, on a copy of the puzzle, goes on after a rejection, and
        counts the nonempty fields. isValid is 0 once a field was rejected. */
    method CheckMoves(entries: seq<int>, editable: seq<bool>) returns (isValid: int, spacesCount: int)
      requires sudoku.Valid() && Fields(entries) && |editable| == 81
      ensures isValid == 0 || isValid == 1
      ensures spacesCount == 81 - |Empties(entries)|
      ensures (Consistent(sudoku.Model()) && NoConflict(sudoku.Model().cells)
        && Fits(sudoku.Model().cells, editable)) ==>
        (isValid == 1 <==> NoConflict(Overlay(sudoku.Model().cells, entries, editable, 81)))
    {
      isValid := 1;
      var tmpPuzzle := sudoku.Clone();
      ghost var base := sudoku.Model().cells;
      ghost var fits := Consistent(sudoku.Model()) && NoConflict(base) && Fits(base, editable);
      OverlayStart(base, entries, editable);
      spacesCount := 0;
      var i := 0;
      while i < 81
        invariant 0 <= i <= 81 && tmpPuzzle.Valid() && (isValid == 0 || isValid == 1)
        invariant fresh(tmpPuzzle.grid) && fresh(tmpPuzzle.aux) && sudoku.Model().cells == base
        invariant spacesCount == i - |EmptiesUpTo(entries, i)|
        invariant fits ==> Entering(tmpPuzzle.Model(), base, entries, editable, i, isValid)
      {
        EmptiesStep(entries, i);
        if entries[i] != 0 {
          spacesCount := spacesCount + 1;
        }
        isValid := EnterMove(tmpPuzzle, base, entries, editable, i, isValid, fits);
        i := i + 1;
      }
    }

    /** validateMoves as written: 2 whenever every field holds a digit, even
        when one of them was rejected; otherwise 0 if a field was rejected
        and 1 if none was. */
    method ValidateMoves(entries: seq<int>, editable: seq<bool>) returns (isValid: int)
      requires sudoku.Valid() && Fields(entries) && |editable| == 81
      ensures isValid == 2 <==> Full(entries)
      ensures !Full(entries) ==> isValid == 0 || isValid == 1
      ensures (Consistent(sudoku.Model()) && NoConflict(sudoku.Model().cells)
        && Fits(sudoku.Model().cells, editable) && !Full(entries)) ==>
        (isValid == 1 <==> NoConflict(Overlay(sudoku.Model().cells, entries, editable, 81)))
    {
      var spacesCount;
      isValid, spacesCount := CheckMoves(entries, editable);
      FullIff(entries);
      if spacesCount == 81 {
        isValid := 2;
      }
    }

    /** validateMoves as intended: 2 only for a full grid all of whose
        entered fields were accepted. */
    method ValidateMovesCorrected(entries: seq<int>, editable: seq<bool>) returns (isValid: int)
      requires sudoku.Valid() && Fields(entries) && |editable| == 81
      ensures isValid == 2 ==> Full(entries)
      ensures 0 <= isValid <= 2
      ensures (Consistent(sudoku.Model()) && NoConflict(sudoku.Model().cells)
        && Fits(sudoku.Model().cells, editable)) ==>
        (isValid == 0 <==> !NoConflict(Overlay(sudoku.Model().cells, entries, editable, 81)))
        && (isValid == 2 <==> Full(entries) && NoConflict(Overlay(sudoku.Model().cells, entries, editable, 81)))
    {
      var spacesCount;
      isValid, spacesCount := CheckMoves(entries, editable);
      FullIff(entries);
      if spacesCount == 81 && isValid == 1 {
        isValid := 2;
      }
    }
  }

  /** The fields fillGrid leaves editable: those over empty cells; the
      fields of clues are made read-only. */
  function Editable(cells: seq<int>): (mask: seq<bool>)
    requires |cells| == 81
    ensures |mask| == 81 && Fits(cells, mask)
    ensures forall i :: 0 <= i < 81 ==> (mask[i] <==> cells[i] == 0)
  {
    seq(81, i requires 0 <= i < 81 => cells[i] == 0)
  }

  /** Inputs on which validateMoves as written reports completion although
      a placement is wrong. Take any puzzle the window can hold: consistent
      and conflict-free with empty cells L, as after generateSudoku or a
      successful validatePuzzle. Take a completion g of it. Type g into
      the editable fields, except that an empty cell p gets the digit of a
      clue q in its row, column or box. Every field then holds a digit and
      the read-only fields show the clues. The grid conflicts, but the
      fields are full, so the status is 2. */
  lemma CompletedDespiteConflict(b: Board, L: seq<int>, g: seq<int>, p: int, q: int)
    requires Ready(b, L) && |g| == 81 && g in Completions(b.cells, L)
    requires 0 <= p < 81 && 0 <= q < 81 && b.cells[p] == 0 && b.cells[q] != 0 && Peers(p, q)
    ensures Fields(g[p := b.cells[q]]) && Full(g[p := b.cells[q]])
    ensures forall i :: 0 <= i < 81 && b.cells[i] != 0 ==> g[p := b.cells[q]][i] == b.cells[i]
    ensures Consistent(b) && NoConflict(b.cells) && Fits(b.cells, Editable(b.cells))
    ensures !NoConflict(Overlay(b.cells, g[p := b.cells[q]], Editable(b.cells), 81))
  {
    CompletionSolved(b, L, g);
    var o := Overlay(b.cells, g[p := b.cells[q]], Editable(b.cells), 81);
    assert o[p] == b.cells[q] == o[q];
  }
}
