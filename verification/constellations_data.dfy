/** The Constellations board: an N×N grid of cells, each in one region, each
    EMPTY, a STAR or a CROSS, and CROSSes either placed by hand or automatic. */
module ConstellationsData {

  /** A (row, column) coordinate. */
  type Pos = (int, int)

  datatype CellState = Empty | Star | Cross

  datatype Cell = Cell(row: int, col: int, regionId: int, state: CellState, isAuto: bool)

  datatype Puzzle = Puzzle(size: int, cells: seq<seq<Cell>>, regions: map<int, seq<Pos>>)

  predicate InGrid(p: Pos, size: int)
  {
    0 <= p.0 < size && 0 <= p.1 < size
  }

  /** All coordinates of a size×size grid. */
  function AllCells(size: int): (s: set<Pos>)
    ensures forall p :: p in s <==> InGrid(p, size)
  {
    set r, c | 0 <= r < size && 0 <= c < size :: (r, c)
  }

  /** A square grid whose cell at [r][c] records its own coordinates. */
  ghost predicate Square(cells: seq<seq<Cell>>)
  {
    forall r :: 0 <= r < |cells| ==> |cells[r]| == |cells|
  }

  ghost predicate Labelled(cells: seq<seq<Cell>>)
    requires Square(cells)
  {
    forall r, c :: 0 <= r < |cells| && 0 <= c < |cells| ==> cells[r][c].row == r && cells[r][c].col == c
  }

  ghost predicate WellFormed(p: Puzzle)
  {
    && |p.cells| == p.size
    && Square(p.cells)
    && Labelled(p.cells)
  }

  /** The four orthogonal neighbours, in the order the generator lists them:
      up, down, left, right. */
  function Neighbours(p: Pos): (ns: seq<Pos>)
    ensures |ns| == 4
  {
    [(p.0 - 1, p.1), (p.0 + 1, p.1), (p.0, p.1 - 1), (p.0, p.1 + 1)]
  }

  predicate Orthogonal(a: Pos, b: Pos)
  {
    (a.0 == b.0 && (a.1 == b.1 + 1 || a.1 + 1 == b.1)) || (a.1 == b.1 && (a.0 == b.0 + 1 || a.0 + 1 == b.0))
  }

  lemma NeighboursAreOrthogonal(p: Pos, q: Pos)
    ensures q in Neighbours(p) <==> Orthogonal(p, q)
  {
  }

  function Abs(x: int): nat
  {
    if x < 0 then -x else x
  }

  /** Chebyshev distance at most one: the same cell or one of its eight neighbours. */
  predicate Touching(a: Pos, b: Pos)
  {
    Abs(a.0 - b.0) <= 1 && Abs(a.1 - b.1) <= 1
  }
}
