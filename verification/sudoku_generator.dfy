/** `SudokuGenerator.generate`: no solving; one of two fixed grids is chosen by
    the seed's parity and turned into 81 cells, the non-zero ones being hints. */
module SudokuGenerator {
  import opened Wrappers
  import opened SudokuModels

  predicate IsGrid(puzzle: seq<seq<int>>)
  {
    |puzzle| == 9 && forall r :: 0 <= r < 9 ==> |puzzle[r]| == 9
  }

  /** A 9x9 grid of numbers, 0 meaning an empty square. */
  type Grid = g: seq<seq<int>> | IsGrid(g) witness seq(9, _ => seq(9, _ => 0))

  /** The two hard-coded grids of the puzzle bank. */
  const Bank: seq<Grid> := [
    [
      [5, 3, 0, 0, 7, 0, 0, 0, 0],
      [6, 0, 0, 1, 9, 5, 0, 0, 0],
      [0, 9, 8, 0, 0, 0, 0, 6, 0],
      [8, 0, 0, 0, 6, 0, 0, 0, 3],
      [4, 0, 0, 8, 0, 3, 0, 0, 1],
      [7, 0, 0, 0, 2, 0, 0, 0, 6],
      [0, 6, 0, 0, 0, 0, 2, 8, 0],
      [0, 0, 0, 4, 1, 9, 0, 0, 5],
      [0, 0, 0, 0, 8, 0, 0, 7, 9]
    ],
    [
      [0, 0, 0, 2, 6, 0, 7, 0, 1],
      [6, 8, 0, 0, 7, 0, 0, 9, 0],
      [1, 9, 0, 0, 0, 4, 5, 0, 0],
      [8, 2, 0, 1, 0, 0, 0, 4, 0],
      [0, 0, 4, 6, 0, 2, 9, 0, 0],
      [0, 5, 0, 0, 0, 3, 0, 2, 8],
      [0, 0, 9, 3, 0, 0, 0, 7, 4],
      [0, 4, 0, 0, 5, 0, 0, 3, 6],
      [7, 0, 3, 0, 1, 8, 0, 0, 0]
    ]
  ]

  /** A cell as the generator creates it. */
  function FreshCell(puzzle: seq<seq<int>>, row: int, col: int): Cell
    requires IsGrid(puzzle) && 0 <= row < 9 && 0 <= col < 9
  {
    Cell(row, col, puzzle[row][col], puzzle[row][col] != 0, false, {})
  }

  /** The inner `for (col in col..8)` loop for one row. */
  function RowCells(puzzle: seq<seq<int>>, row: int, col: int): (cells: seq<Cell>)
    requires IsGrid(puzzle) && 0 <= row < 9 && 0 <= col <= 9
    ensures |cells| == 9 - col
    ensures forall i :: 0 <= i < |cells| ==> cells[i] == FreshCell(puzzle, row, col + i)
    decreases 9 - col
  {
    if col == 9 then [] else [FreshCell(puzzle, row, col)] + RowCells(puzzle, row, col + 1)
  }

  /** The outer `for (row in row..8)` loop. */
  function GridCells(puzzle: seq<seq<int>>, row: int): (cells: seq<Cell>)
    requires IsGrid(puzzle) && 0 <= row <= 9
    ensures |cells| == (9 - row) * 9
    ensures forall r, c :: 0 <= r < 9 - row && 0 <= c < 9 ==> CellAt(cells, r, c) == FreshCell(puzzle, row + r, c)
    decreases 9 - row
  {
    if row == 9 then []
    else
      var head := RowCells(puzzle, row, 0);
      var tail := GridCells(puzzle, row + 1);
      forall r, c | 0 <= r < 9 - row && 0 <= c < 9
        ensures CellAt(head + tail, r, c) == FreshCell(puzzle, row + r, c)
      {
        AppendRow(head, tail, r, c);
      }
      head + tail
  }

  /** Cell (r, c) of a row of nine followed by more rows is the first row's
      cell c when r is 0, and cell (r - 1, c) of the rest otherwise. */
  lemma AppendRow(head: seq<Cell>, tail: seq<Cell>, r: int, c: int)
    requires |head| == 9 && 0 <= r && 0 <= c < 9 && r * 9 + c < 9 + |tail|
    ensures r * 9 + c < |head + tail|
    ensures r == 0 ==> CellAt(head + tail, r, c) == head[c]
    ensures r > 0 ==> (r - 1) * 9 + c < |tail| && CellAt(head + tail, r, c) == CellAt(tail, r - 1, c)
  {
  }

  function CellAt(cells: seq<Cell>, r: int, c: int): Cell
    requires 0 <= r && 0 <= c < 9 && r * 9 + c < |cells|
  {
    cells[r * 9 + c]
  }

  /** The board built from one bank grid: 81 cells in row-major order, the cell
      at index row * 9 + col holding that row, that col and the grid's entry;
      hints are exactly the non-zero entries; no errors and no pencil marks. */
  function BuildBoard(puzzle: seq<seq<int>>): (b: Board)
    requires IsGrid(puzzle)
    ensures WellFormed(b)
    ensures forall r, c :: 0 <= r < 9 && 0 <= c < 9 ==>
      var cell := At(b, r, c);
      cell.number == puzzle[r][c] && (cell.isHint <==> puzzle[r][c] != 0)
      && !cell.isError && cell.pencilMarks == {}
  {
    var b := Board(GridCells(puzzle, 0));
    assert forall r, c :: 0 <= r < 9 && 0 <= c < 9 ==> At(b, r, c) == CellAt(b.cells, r, c);
    b
  }

  /** Kotlin's `%` on integers: the remainder takes the sign of the dividend. */
  function KotlinRem(a: int, m: int): (r: int)
    requires m > 0
    ensures -m < r < m
    ensures a >= 0 ==> r == a % m
    ensures a < 0 ==> r <= 0
    ensures (a - r) % m == 0
  {
    if a >= 0 then
      RemDifference(a, m);
      a % m
    else
      RemDifference(-a, m);
      -((-a) % m)
  }

  /** A number and its remainder differ by a multiple of m, either way round. */
  lemma RemDifference(n: int, m: int)
    requires m > 0
    ensures (n - n % m) % m == 0
    ensures (n % m - n) % m == 0
  {
    var q := n / m;
    assert n - n % m == q * m;
    assert n % m - n == (-q) * m;
    MultipleMod(q, m);
    MultipleMod(-q, m);
  }

  /** A multiple of m leaves no remainder. */
  lemma MultipleMod(k: int, m: int)
    requires m > 0
    ensures (k * m) % m == 0
  {
    var q, rem := (k * m) / m, (k * m) % m;
    assert rem == m * (k - q);
    if k - q >= 1 {
      assert false;
    } else if k - q <= -1 {
      assert false;
    }
  }

  /** `generate(seed)` as written: the index is `(seed % puzzles.size).toInt()`;
      `None` stands for the IndexOutOfBoundsException of `puzzles[-1]`. */
  function GenerateAsWritten(seed: int): (r: Option<Board>)
    ensures seed >= 0 ==> r.Some?
  {
    var index := KotlinRem(seed, |Bank|);
    if 0 <= index < |Bank| then Some(BuildBoard(Bank[index])) else None
  }

  /** The generator with a valid bank index for every seed (floor modulo). */
  function Generate(seed: int): (b: Board)
    ensures WellFormed(b)
  {
    BuildBoard(Bank[seed % |Bank|])
  }

  /** A negative odd seed makes the written generator index the bank at -1. */
  lemma NegativeOddSeedFails(seed: int)
    requires seed < 0 && seed % 2 == 1
    ensures GenerateAsWritten(seed) == None
  {
    assert KotlinRem(seed, 2) == -1;
  }

  /** Concretely: the seed -1, which `Random.nextLong()` can return. */
  lemma SeedMinusOneFails()
    ensures GenerateAsWritten(-1) == None
  {
    NegativeOddSeedFails(-1);
  }

  /** Where the written generator does not fail, it agrees with the corrected one. */
  lemma CorrectedAgreesWhereWrittenSucceeds(seed: int)
    ensures GenerateAsWritten(seed).Some? ==> GenerateAsWritten(seed).value == Generate(seed)
    ensures GenerateAsWritten(seed).Some? <==> seed >= 0 || seed % 2 == 0
  {
    if seed < 0 {
      if seed % 2 == 0 {
        assert KotlinRem(seed, 2) == 0;
      } else {
        assert KotlinRem(seed, 2) == -1;
      }
    }
  }

  /** The generated board is the bank grid chosen by the seed's parity: every
      cell's number is the bank entry and it is a hint exactly when non-zero. */
  lemma GenerateFromBank(seed: int)
    ensures var b := Generate(seed);
      forall r, c :: 0 <= r < 9 && 0 <= c < 9 ==>
        var cell := At(b, r, c);
        cell.row == r && cell.col == c
        && cell.number == Bank[seed % 2][r][c] && (cell.isHint <==> cell.number != 0)
        && !cell.isError && cell.pencilMarks == {}
  {
    var k := seed % 2;
    var g := Bank[k];
    var b := BuildBoard(g);
    assert Generate(seed) == b;
    forall r, c | 0 <= r < 9 && 0 <= c < 9
      ensures At(b, r, c).row == r && At(b, r, c).col == c
      ensures At(b, r, c).number == g[r][c]
    {
      assert CoordOf(At(b, r, c)) == (r, c);
    }
  }

  /** Generation depends on the seed's parity only. */
  lemma SameParitySameBoard(s1: int, s2: int)
    requires s1 % 2 == s2 % 2
    ensures Generate(s1) == Generate(s2)
  {
  }

  /** The two parities give different boards. */
  lemma DifferentParityDifferentBoard(s1: int, s2: int)
    requires s1 % 2 != s2 % 2
    ensures Generate(s1) != Generate(s2)
  {
    GenerateFromBank(s1);
    GenerateFromBank(s2);
    var b1 := Generate(s1);
    var b2 := Generate(s2);
    assert Bank[s1 % 2][0][0] != Bank[s2 % 2][0][0];
    assert At(b1, 0, 0).number != At(b2, 0, 0).number;
  }
}
