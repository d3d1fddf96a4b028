/** The Sudoku cell and board records and the board's coordinate lookup. */
module SudokuModels {
  import opened Wrappers

  /** One square of the 9x9 grid; `number` 0 means empty. */
  datatype Cell = Cell(
    row: int,
    col: int,
    number: int,
    isHint: bool,
    isError: bool,
    pencilMarks: set<int>)

  /** A board is the list of its cells; two boards are equal exactly when their
      cell lists are equal, which is Dafny's structural equality on `Board`. */
  datatype Board = Board(cells: seq<Cell>)

  type Coord = (int, int)

  function CoordOf(c: Cell): Coord
  {
    (c.row, c.col)
  }

  /** The board every generator and player action produces: 81 cells in
      row-major order. */
  ghost predicate WellFormed(b: Board)
  {
    && |b.cells| == 81
    && forall r, c :: 0 <= r < 9 && 0 <= c < 9 ==> CoordOf(At(b, r, c)) == (r, c)
  }

  /** The cell stored at row-major index row * 9 + col. */
  function At(b: Board, row: int, col: int): Cell
    requires |b.cells| == 81 && 0 <= row < 9 && 0 <= col < 9
  {
    b.cells[row * 9 + col]
  }

  /** Every index of a well-formed board is some row * 9 + col. */
  lemma IndexIsRowMajor(i: int) returns (row: int, col: int)
    requires 0 <= i < 81
    ensures 0 <= row < 9 && 0 <= col < 9 && i == row * 9 + col
  {
    row, col := i / 9, i % 9;
  }

  /** Index of the last cell of `cells` at coordinates `p`, or -1 when there is none. */
  function LastIndexAt(cells: seq<Cell>, p: Coord): (i: int)
    ensures -1 <= i < |cells|
    ensures i >= 0 ==> CoordOf(cells[i]) == p
    ensures forall j :: i < j < |cells| ==> CoordOf(cells[j]) != p
  {
    if |cells| == 0 then -1
    else if CoordOf(cells[|cells| - 1]) == p then |cells| - 1
    else LastIndexAt(cells[..|cells| - 1], p)
  }

  /** `cells.associateBy { it.row to it.col }`: later cells overwrite earlier
      ones that share their coordinates. */
  function AssociateBy(cells: seq<Cell>): (m: map<Coord, Cell>)
    ensures forall p :: p in m <==> LastIndexAt(cells, p) >= 0
    ensures forall p :: p in m ==> m[p] == cells[LastIndexAt(cells, p)]
  {
    if |cells| == 0 then map[]
    else
      var last := cells[|cells| - 1];
      AssociateBy(cells[..|cells| - 1])[CoordOf(last) := last]
  }

  /** `SudokuBoard.getCell`: `None` stands for the IllegalStateException thrown
      when no cell has the coordinates. */
  function GetCell(b: Board, row: int, col: int): (r: Option<Cell>)
    ensures r.Some? <==> exists i :: 0 <= i < |b.cells| && CoordOf(b.cells[i]) == (row, col)
    ensures r.Some? ==> r.value.row == row && r.value.col == col
    ensures r.Some? ==> r.value == b.cells[LastIndexAt(b.cells, (row, col))]
  {
    var m := AssociateBy(b.cells);
    if (row, col) in m then Some(m[(row, col)]) else None
  }

  /** On a well-formed board every in-range lookup succeeds and returns the cell
      at index row * 9 + col. */
  lemma GetCellWellFormed(b: Board, row: int, col: int)
    requires WellFormed(b)
    requires 0 <= row < 9 && 0 <= col < 9
    ensures GetCell(b, row, col) == Some(At(b, row, col))
  {
    var k := row * 9 + col;
    assert CoordOf(At(b, row, col)) == (row, col);
    var i := LastIndexAt(b.cells, (row, col));
    var r, c := IndexIsRowMajor(i);
    assert CoordOf(At(b, r, c)) == (r, c);
  }

  /** On a well-formed board a lookup outside the grid fails. */
  lemma GetCellOutOfRange(b: Board, row: int, col: int)
    requires WellFormed(b)
    requires !(0 <= row < 9 && 0 <= col < 9)
    ensures GetCell(b, row, col) == None
  {
    if LastIndexAt(b.cells, (row, col)) >= 0 {
      var r, c := IndexIsRowMajor(LastIndexAt(b.cells, (row, col)));
      assert CoordOf(At(b, r, c)) == (r, c);
    }
  }

  /** `SudokuBoard` overrides `equals` to compare the cell lists only (the cell
      map is derived from them): datatype equality on `Board` is that content
      equality, and equal boards answer every lookup alike. */
  lemma BoardEquality(a: Board, b: Board)
    ensures a == b <==> a.cells == b.cells
    ensures a.cells == b.cells ==> forall r, c :: GetCell(a, r, c) == GetCell(b, r, c)
  {
  }
}
