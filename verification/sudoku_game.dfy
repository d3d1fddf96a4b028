/** The player-facing state machine of `SudokuViewModel`: selection, pen and
    pencil input, erasing, undo over a board history, new games, and the win
    check with its daily-streak update. Saving boards is a no-op here. */
module SudokuGame {
  import opened Wrappers
  import opened SudokuModels
  import opened SudokuGenerator
  import opened SudokuValidation

  /** The persisted daily streak of the "sudoku" game (epoch days). */
  datatype Streak = Streak(count: int, lastDay: Option<int>)

  /** The view-model's state. `selected` is a snapshot of a cell, as in the
      source, and `history` is the undo stack whose top is the shown board. */
  datatype Game = Game(
    board: Board,
    selected: Option<Cell>,
    won: bool,
    pencil: bool,
    history: seq<Board>,
    daily: bool,
    streak: Streak)

  /** What every transition keeps: a non-empty history topped by the shown
      board, well-formed boards that all share the shown board's hints, and a
      selection inside the grid whose hint flag is the board's. */
  ghost predicate Valid(g: Game)
  {
    && HistoryOk(g.history, g.board)
    && SelectionOk(g.selected, g.board)
  }

  ghost predicate HistoryOk(history: seq<Board>, board: Board)
  {
    && |history| >= 1
    && board == history[|history| - 1]
    && WellFormed(board)
    && forall k :: 0 <= k < |history| ==> WellFormed(history[k]) && SameHints(history[k], board)
  }

  ghost predicate SelectionOk(selected: Option<Cell>, board: Board)
    requires WellFormed(board)
  {
    selected.Some? ==>
      var s := selected.value;
      0 <= s.row < 9 && 0 <= s.col < 9 && s.isHint == At(board, s.row, s.col).isHint
  }

  lemma SameHintsTrans(a: Board, b: Board, c: Board)
    requires |a.cells| == 81 && |b.cells| == 81 && |c.cells| == 81
    requires SameHints(a, b) && SameHints(b, c)
    ensures SameHints(a, c)
  {
  }

  lemma StartValid(g: Game)
    requires WellFormed(g.board) && g.history == [g.board] && g.selected.None?
    ensures Valid(g)
  {
  }

  /** Hint cells are fixed: player actions never add, remove or move one. */
  ghost predicate SameHints(a: Board, b: Board)
    requires |a.cells| == 81 && |b.cells| == 81
  {
    forall r, c :: 0 <= r < 9 && 0 <= c < 9 ==> At(a, r, c).isHint == At(b, r, c).isHint
  }

  predicate Complete(b: Board)
  {
    forall i :: 0 <= i < |b.cells| ==> b.cells[i].number != 0
  }

  predicate NoErrors(b: Board)
  {
    forall i :: 0 <= i < |b.cells| ==> !b.cells[i].isError
  }

  /** A solved grid in Sudoku's own terms: every square filled and no digit
      repeated among peers. */
  ghost predicate Solved(b: Board)
  {
    forall i :: 0 <= i < |b.cells| ==> b.cells[i].number != 0 && !Conflicting(Entries(b.cells), i)
  }

  /** A fresh session on a board: history holds just that board. */
  function Start(board: Board, daily: bool, streak: Streak): (g: Game)
    requires WellFormed(board)
    ensures Valid(g) && g.history == [board] && !g.won && g.selected.None?
  {
    var g := Game(board, None, false, false, [board], daily, streak);
    StartValid(g);
    g
  }

  /** `onCellSelected`: the selection becomes the board's cell at (row, col). */
  function SelectCell(g: Game, row: int, col: int): (r: Game)
    requires Valid(g) && 0 <= row < 9 && 0 <= col < 9
    ensures Valid(r)
    ensures r.selected == GetCell(g.board, row, col) && r.selected == Some(At(g.board, row, col))
    ensures r.(selected := g.selected) == g
  {
    GetCellWellFormed(g.board, row, col);
    g.(selected := GetCell(g.board, row, col))
  }

  function TogglePencil(g: Game): Game
  {
    g.(pencil := !g.pencil)
  }

  /** The edit `onNumberInput` applies to the selected cell. */
  function InputCell(c: Cell, number: int, pencil: bool): Cell
  {
    if pencil then
      var marks := if number in c.pencilMarks then c.pencilMarks - {number} else c.pencilMarks + {number};
      c.(pencilMarks := marks, number := 0)
    else
      c.(number := if c.number == number then 0 else number, pencilMarks := {})
  }

  /** The edit `onErase` applies to the selected cell. */
  function EraseCell(c: Cell): Cell
  {
    c.(number := 0, pencilMarks := {})
  }

  function ApplyEdit(c: Cell, input: bool, number: int, pencil: bool): Cell
  {
    if input then InputCell(c, number, pencil) else EraseCell(c)
  }

  /** The `cells.map { ... }` step: the cell at `target` is edited, the rest kept. */
  function ReplaceAt(b: Board, target: Coord, input: bool, number: int, pencil: bool): (e: Board)
    requires WellFormed(b) && 0 <= target.0 < 9 && 0 <= target.1 < 9
    ensures WellFormed(e)
    ensures forall r, c :: 0 <= r < 9 && 0 <= c < 9 ==>
      At(e, r, c) == if (r, c) == target then ApplyEdit(At(b, r, c), input, number, pencil) else At(b, r, c)
  {
    var cells := seq(81, i requires 0 <= i < 81 =>
      var c := b.cells[i];
      if CoordOf(c) == target then ApplyEdit(c, input, number, pencil) else c);
    var e := Board(cells);
    forall r, c | 0 <= r < 9 && 0 <= c < 9
      ensures CoordOf(At(e, r, c)) == (r, c)
      ensures At(e, r, c) == if (r, c) == target then ApplyEdit(At(b, r, c), input, number, pencil) else At(b, r, c)
    {
      assert CoordOf(At(b, r, c)) == (r, c);
    }
    e
  }

  /** The edited board after `validateBoard`. */
  function EditAt(b: Board, target: Coord, input: bool, number: int, pencil: bool): (v: Board)
    requires WellFormed(b) && 0 <= target.0 < 9 && 0 <= target.1 < 9
    ensures WellFormed(v)
    ensures forall r, c :: 0 <= r < 9 && 0 <= c < 9 && (r, c) != target ==>
      At(v, r, c).(isError := false) == At(b, r, c).(isError := false)
    ensures At(v, target.0, target.1).(isError := false)
      == ApplyEdit(At(b, target.0, target.1), input, number, pencil).(isError := false)
    ensures forall i :: 0 <= i < 81 ==> (v.cells[i].isError <==> Conflicting(Entries(v.cells), i))
    ensures SameHints(b, v)
  {
    var edited := ReplaceAt(b, target, input, number, pencil);
    ValidatePreservesWellFormed(edited);
    var v := Validate(edited);
    forall i | 0 <= i < 81
      ensures v.cells[i].isError <==> Conflicting(Entries(v.cells), i)
    {
      ValidateWellFormed(edited, i);
      assert Entries(v.cells) == Entries(edited.cells);
    }
    v
  }

  /** `checkWinCondition`: a complete board without errors wins; a daily win on
      a new day extends the streak when the last win was yesterday and restarts
      it at 1 otherwise. */
  function CheckWin(g: Game, today: int): (r: Game)
    ensures r.(won := g.won, streak := g.streak) == g
    ensures r.won == (g.won || (Complete(g.board) && NoErrors(g.board)))
    ensures r.streak != g.streak ==> g.daily && r.won && g.streak.lastDay != Some(today)
  {
    if Complete(g.board) && NoErrors(g.board) then
      var s := g.streak;
      var s' :=
        if g.daily && s.lastDay != Some(today) then
          Streak(if s.lastDay == Some(today - 1) then s.count + 1 else 1, Some(today))
        else s;
      g.(won := true, streak := s')
    else g
  }

  /** A push of a new board: it becomes the shown board and the history top,
      and the selection is refreshed from it. */
  function Commit(g: Game, v: Board, at: Coord): (r: Game)
    requires Valid(g) && WellFormed(v) && SameHints(g.board, v) && 0 <= at.0 < 9 && 0 <= at.1 < 9
    ensures Valid(r)
  {
    GetCellWellFormed(v, at.0, at.1);
    var h := g.history + [v];
    forall k | 0 <= k < |h|
      ensures WellFormed(h[k]) && SameHints(h[k], v)
    {
      if k < |g.history| {
        SameHintsTrans(h[k], g.board, v);
      }
    }
    g.(board := v, selected := GetCell(v, at.0, at.1), history := h)
  }

  /** An input or erase has an effect: the game is not yet won (for input),
      some cell is selected and it is not a hint. */
  predicate Effective(g: Game, input: bool)
  {
    (!input || !g.won) && g.selected.Some? && !g.selected.value.isHint
  }

  /** `onNumberInput`. Ignored once won, without a selection, or on a hint;
      otherwise the edited and validated board is pushed on the history, the
      selection is refreshed from it, and the win check runs on it. What the
      edit does is stated by `NumberInputEdits`. */
  function NumberInput(g: Game, number: int, today: int): (r: Game)
    requires Valid(g)
    ensures Valid(r)
    ensures !Effective(g, true) ==> r == g
    ensures Effective(g, true) ==>
      var at := CoordOf(g.selected.value);
      && r.history == g.history + [r.board]
      && r.selected == Some(At(r.board, at.0, at.1))
      && r.pencil == g.pencil && r.daily == g.daily
      && (r.won <==> Complete(r.board) && NoErrors(r.board))
  {
    if !Effective(g, true) then g
    else
      var at := CoordOf(g.selected.value);
      var v := EditAt(g.board, at, true, number, g.pencil);
      GetCellWellFormed(v, at.0, at.1);
      CheckWin(Commit(g, v, at), today)
  }

  /** The board after an effective input: in pencil mode the digit's pencil
      mark is toggled and the number cleared; in pen mode re-entering the
      cell's digit clears it, another digit sets it, and pencil marks are
      dropped. Every other cell changes at most in its error flag, and the
      error flags are exactly the conflicts. */
  lemma NumberInputEdits(g: Game, number: int, today: int)
    requires Valid(g) && Effective(g, true)
    ensures var r := NumberInput(g, number, today);
      var at := CoordOf(g.selected.value);
      var prev := At(g.board, at.0, at.1);
      var next := At(r.board, at.0, at.1);
      && (g.pencil ==>
            && next.number == 0
            && next.pencilMarks == (if number in prev.pencilMarks then prev.pencilMarks - {number} else prev.pencilMarks + {number}))
      && (!g.pencil ==> next.number == (if prev.number == number then 0 else number) && next.pencilMarks == {})
      && next.isHint == prev.isHint
      && (forall rr, cc :: 0 <= rr < 9 && 0 <= cc < 9 && (rr, cc) != at ==>
            At(r.board, rr, cc).(isError := false) == At(g.board, rr, cc).(isError := false))
      && (forall i :: 0 <= i < 81 ==> (r.board.cells[i].isError <==> Conflicting(Entries(r.board.cells), i)))
  {
    var at := CoordOf(g.selected.value);
    var v := EditAt(g.board, at, true, number, g.pencil);
    assert NumberInput(g, number, today).board == v;
  }

  /** `onErase`: a selected non-hint cell is edited like an input and pushed on
      the history; unlike input it does not look at the won flag, and it runs
      no win check. */
  function Erase(g: Game): (r: Game)
    requires Valid(g)
    ensures Valid(r)
    ensures !Effective(g, false) ==> r == g
    ensures Effective(g, false) ==>
      && r.history == g.history + [r.board]
      && r.won == g.won && r.streak == g.streak
  {
    if !Effective(g, false) then g
    else
      var at := CoordOf(g.selected.value);
      var v := EditAt(g.board, at, false, 0, false);
      Commit(g, v, at)
  }

  /** After an effective erase the selected cell is empty without pencil marks
      and every other cell changes at most in its error flag. */
  lemma EraseEdits(g: Game)
    requires Valid(g) && Effective(g, false)
    ensures var r := Erase(g);
      var at := CoordOf(g.selected.value);
      var next := At(r.board, at.0, at.1);
      && next.number == 0 && next.pencilMarks == {}
      && (forall rr, cc :: 0 <= rr < 9 && 0 <= cc < 9 && (rr, cc) != at ==>
            At(r.board, rr, cc).(isError := false) == At(g.board, rr, cc).(isError := false))
  {
    var at := CoordOf(g.selected.value);
    var v := EditAt(g.board, at, false, 0, false);
    assert Erase(g).board == v;
  }

  /** `undo`: with more than one board in the history the top is dropped and the
      board below is shown; a single board is never popped. */
  function Undo(g: Game): (r: Game)
    requires Valid(g)
    ensures Valid(r)
    ensures |g.history| > 1 ==> r.history == g.history[..|g.history| - 1]
    ensures |g.history| == 1 ==> r == g
    ensures r.(board := g.board, history := g.history) == g
  {
    if |g.history| > 1 then
      var h := g.history[..|g.history| - 1];
      g.(board := h[|h| - 1], history := h)
    else g
  }

  /** `newGame`: a generated board, a one-board history, not won, nothing selected. */
  function NewGame(g: Game, seed: int): (r: Game)
    ensures Valid(r)
    ensures r.history == [r.board] && r.board == Generate(seed)
    ensures !r.won && r.selected.None?
    ensures r.pencil == g.pencil && r.daily == g.daily && r.streak == g.streak
  {
    var b := Generate(seed);
    var r := Game(b, None, false, g.pencil, [b], g.daily, g.streak);
    StartValid(r);
    r
  }

  /** `newGame` builds its board with the corrected generator: wherever the
      generator as written produces a board, the new game shows that board, and
      the seeds where it throws are exactly the negative odd ones. */
  lemma NewGameAsWritten(g: Game, seed: int)
    ensures GenerateAsWritten(seed).Some? ==> NewGame(g, seed).board == GenerateAsWritten(seed).value
    ensures GenerateAsWritten(seed).None? <==> seed < 0 && seed % 2 == 1
  {
    CorrectedAgreesWhereWrittenSucceeds(seed);
  }

  // ---------------------------------------------------------------------------

  /** Undo after a push restores the board and history from before it. */
  lemma UndoAfterPush(g: Game, r: Game)
    requires Valid(g) && Valid(r) && r.history == g.history + [r.board]
    ensures Undo(r).board == g.board && Undo(r).history == g.history
  {
    assert r.history[..|r.history| - 1] == g.history;
  }

  /** Undo after an effective input restores the board and history from before it. */
  lemma UndoAfterInput(g: Game, number: int, today: int)
    requires Valid(g) && Effective(g, true)
    ensures Undo(NumberInput(g, number, today)).board == g.board
    ensures Undo(NumberInput(g, number, today)).history == g.history
  {
    UndoAfterPush(g, NumberInput(g, number, today));
  }

  /** Undo after an effective erase restores the board and history from before it. */
  lemma UndoAfterErase(g: Game)
    requires Valid(g) && Effective(g, false)
    ensures Undo(Erase(g)).board == g.board
    ensures Undo(Erase(g)).history == g.history
  {
    UndoAfterPush(g, Erase(g));
  }

  /** Undo can always be repeated: the history never empties. */
  lemma UndoNeverEmpties(g: Game, n: nat)
    requires Valid(g)
    ensures |UndoTimes(g, n).history| >= 1
    ensures |UndoTimes(g, n).history| == if n < |g.history| then |g.history| - n else 1
  {
    if n > 0 {
      UndoNeverEmpties(g, n - 1);
    }
  }

  function UndoTimes(g: Game, n: nat): (r: Game)
    requires Valid(g)
    ensures Valid(r)
  {
    if n == 0 then g else Undo(UndoTimes(g, n - 1))
  }

  /** A pencil input leaves the game open with the same cell selected. */
  lemma PencilInputStaysEffective(g: Game, number: int, today: int)
    requires Valid(g) && Effective(g, true) && g.pencil
    ensures var once := NumberInput(g, number, today);
      Effective(once, true) && once.pencil && CoordOf(once.selected.value) == CoordOf(g.selected.value)
  {
    var at := CoordOf(g.selected.value);
    var once := NumberInput(g, number, today);
    NumberInputEdits(g, number, today);
    var mid := At(once.board, at.0, at.1);
    assert !Complete(once.board) by {
      assert once.board.cells[at.0 * 9 + at.1].number == 0;
    }
    assert CoordOf(mid) == at;
  }

  /** Toggling a mark twice gives back the original marks. */
  lemma ToggleTwice(marks: set<int>, number: int)
    ensures var once := if number in marks then marks - {number} else marks + {number};
      (if number in once then once - {number} else once + {number}) == marks
  {
  }

  /** In pencil mode the same digit entered twice restores the cell's pencil
      marks (its number staying cleared). */
  lemma PencilToggleTwice(g: Game, number: int, today: int)
    requires Valid(g) && Effective(g, true) && g.pencil
    ensures var at := CoordOf(g.selected.value);
      var twice := NumberInput(NumberInput(g, number, today), number, today);
      At(twice.board, at.0, at.1).pencilMarks == At(g.board, at.0, at.1).pencilMarks
      && At(twice.board, at.0, at.1).number == 0
  {
    var once := NumberInput(g, number, today);
    NumberInputEdits(g, number, today);
    PencilInputStaysEffective(g, number, today);
    NumberInputEdits(once, number, today);
    var at := CoordOf(g.selected.value);
    ToggleTwice(At(g.board, at.0, at.1).pencilMarks, number);
  }

  /** Once the board is validated, the win check's "complete without errors"
      is exactly a solved Sudoku. */
  lemma WinIsSolved(g: Game, number: int, today: int)
    requires Valid(g) && Effective(g, true)
    ensures NumberInput(g, number, today).won <==> Solved(NumberInput(g, number, today).board)
  {
    NumberInputEdits(g, number, today);
  }

  /** A win that happens on a daily board records today as the last day; the
      count grows by one after a win yesterday, stays after a win earlier
      today, and is 1 otherwise. */
  lemma DailyStreak(g: Game, today: int)
    requires g.daily && !g.won && Complete(g.board) && NoErrors(g.board)
    ensures var s := CheckWin(g, today).streak;
      && s.lastDay == Some(today)
      && s.count == (if g.streak.lastDay == Some(today) then g.streak.count
                     else if g.streak.lastDay == Some(today - 1) then g.streak.count + 1
                     else 1)
  {
  }

  /** The streak is untouched outside daily mode and by a board that does not win. */
  lemma StreakOnlyOnDailyWin(g: Game, today: int)
    requires !g.daily || !(Complete(g.board) && NoErrors(g.board))
    ensures CheckWin(g, today).streak == g.streak
  {
  }
}
