/** `ConstellationsViewModel`: clicks cycle a cell's mark, drags paint manual
    crosses, every change recomputes all automatic crosses from the stars, and
    a win check follows. */
module ConstellationsGame {
  import opened Oracle
  import opened ConstellationsData
  import opened ConstellationsStars
  import opened ConstellationsGenerator

  type Grid = seq<seq<Cell>>

  datatype Game = Game(puzzle: Puzzle, won: bool)

  /** Every listed region cell lies in the grid, so the win check can read it. */
  ghost predicate RegionsInGrid(p: Puzzle)
  {
    forall i, j :: i in p.regions && 0 <= j < |p.regions[i]| ==> 0 <= p.regions[i][j].0 < p.size && 0 <= p.regions[i][j].1 < p.size
  }

  ghost predicate Valid(g: Game)
  {
    WellFormed(g.puzzle) && RegionsInGrid(g.puzzle)
  }

  /** Two grids of the same shape whose cells differ at most in their marks. */
  ghost predicate SameLayout(a: Grid, b: Grid)
  {
    && |a| == |b| && Square(a) && Square(b)
    && forall i, j :: 0 <= i < |a| && 0 <= j < |a| ==>
         a[i][j].row == b[i][j].row && a[i][j].col == b[i][j].col && a[i][j].regionId == b[i][j].regionId
  }

  /** An automatic cross. */
  function Mark(x: Cell): Cell
  {
    x.(state := Cross, isAuto := true)
  }

  // ---------------------------------------------------------------------------
  // Crossing out.

  /** `crossOut`: an out-of-grid coordinate is ignored; an EMPTY cell becomes an
      automatic cross; a STAR or a CROSS is never overwritten. */
  function CrossOut(cells: Grid, r: int, c: int): (res: Grid)
    requires Square(cells)
    ensures SameLayout(cells, res)
    ensures !InGrid((r, c), |cells|) ==> res == cells
    ensures InGrid((r, c), |cells|) && cells[r][c].state == Empty ==> res[r][c] == Mark(cells[r][c])
    ensures forall i, j :: 0 <= i < |cells| && 0 <= j < |cells| && res[i][j] != cells[i][j] ==>
      (i, j) == (r, c) && cells[i][j].state == Empty
  {
    if InGrid((r, c), |cells|) && cells[r][c].state == Empty then
      cells[r := cells[r][c := Mark(cells[r][c])]]
    else cells
  }

  /** `crossOut` over a list of coordinates, in order. */
  function CrossAll(cells: Grid, ps: seq<Pos>): (res: Grid)
    requires Square(cells)
    ensures SameLayout(cells, res)
    decreases |ps|
  {
    if |ps| == 0 then cells else CrossAll(CrossOut(cells, ps[0].0, ps[0].1), ps[1..])
  }

  /** The result of crossing out a list does not depend on the order: exactly
      the EMPTY cells the list names become automatic crosses. */
  lemma {:induction false} CrossAllEffect(cells: Grid, ps: seq<Pos>, i: int, j: int)
    requires Square(cells) && 0 <= i < |cells| && 0 <= j < |cells|
    ensures CrossAll(cells, ps)[i][j] ==
      if cells[i][j].state == Empty && (i, j) in ps then Mark(cells[i][j]) else cells[i][j]
    decreases |ps|
  {
    if |ps| > 0 {
      var next := CrossOut(cells, ps[0].0, ps[0].1);
      CrossAllEffect(next, ps[1..], i, j);
      assert ps == [ps[0]] + ps[1..];
    }
  }

  /** The cells one star crosses out, in the order `updateCellState` visits
      them: its row, its column, its region's list (when the region id has
      one), and its 3×3 neighbourhood. */
  function Targets(star: Cell, size: int, regions: map<int, seq<Pos>>): seq<Pos>
    requires size >= 0
  {
    seq(size, c => (star.row, c))
    + seq(size, r => (r, star.col))
    + (if star.regionId in regions then regions[star.regionId] else [])
    + [(star.row - 1, star.col - 1), (star.row - 1, star.col), (star.row - 1, star.col + 1),
       (star.row, star.col - 1), (star.row, star.col), (star.row, star.col + 1),
       (star.row + 1, star.col - 1), (star.row + 1, star.col), (star.row + 1, star.col + 1)]
  }

  /** What a star rules out: its row, its column, its region and the cells
      touching it. */
  predicate Attacks(star: Cell, q: Pos, regions: map<int, seq<Pos>>)
  {
    || q.0 == star.row
    || q.1 == star.col
    || (star.regionId in regions && q in regions[star.regionId])
    || Touching((star.row, star.col), q)
  }

  lemma TargetsAreAttacked(star: Cell, size: int, regions: map<int, seq<Pos>>, q: Pos)
    requires size >= 0 && InGrid(q, size)
    ensures q in Targets(star, size, regions) <==> Attacks(star, q, regions)
  {
    var row := seq(size, c => (star.row, c));
    var col := seq(size, r => (r, star.col));
    if q.0 == star.row {
      assert row[q.1] == q;
    }
    if q.1 == star.col {
      assert col[q.0] == q;
    }
  }

  /** The crossing loop over all stars, in order. */
  function CoverAll(cells: Grid, stars: seq<Cell>, size: int, regions: map<int, seq<Pos>>): (res: Grid)
    requires Square(cells) && size >= 0
    ensures SameLayout(cells, res)
    decreases |stars|
  {
    if |stars| == 0 then cells
    else CoverAll(CrossAll(cells, Targets(stars[0], size, regions)), stars[1..], size, regions)
  }

  lemma {:induction false} CoverAllEffect(cells: Grid, stars: seq<Cell>, size: int, regions: map<int, seq<Pos>>, i: int, j: int)
    requires Square(cells) && size >= 0 && 0 <= i < |cells| && 0 <= j < |cells|
    ensures CoverAll(cells, stars, size, regions)[i][j] ==
      if cells[i][j].state == Empty && exists t :: 0 <= t < |stars| && (i, j) in Targets(stars[t], size, regions)
      then Mark(cells[i][j]) else cells[i][j]
    decreases |stars|
  {
    if |stars| > 0 {
      var next := CrossAll(cells, Targets(stars[0], size, regions));
      CrossAllEffect(cells, Targets(stars[0], size, regions), i, j);
      CoverAllEffect(next, stars[1..], size, regions, i, j);
      if exists t :: 0 <= t < |stars| && (i, j) in Targets(stars[t], size, regions) {
        var t :| 0 <= t < |stars| && (i, j) in Targets(stars[t], size, regions);
        if t > 0 {
          assert stars[1..][t - 1] == stars[t];
        }
      } else {
        forall t | 0 <= t < |stars| - 1
          ensures (i, j) !in Targets(stars[1..][t], size, regions)
        {
          assert stars[1..][t] == stars[t + 1];
        }
      }
    }
  }

  // ---------------------------------------------------------------------------
  // The stars of a grid, in row-major order.

  function StarsOfRow(row: seq<Cell>): (s: seq<Cell>)
    ensures forall x :: x in s <==> x in row && x.state == Star
  {
    if |row| == 0 then []
    else
      var rest := StarsOfRow(row[..|row| - 1]);
      var x := row[|row| - 1];
      assert row == row[..|row| - 1] + [x];
      if x.state == Star then rest + [x] else rest
  }

  function StarCells(cells: Grid): (s: seq<Cell>)
    ensures forall x :: x in s <==> exists r :: 0 <= r < |cells| && x in cells[r] && x.state == Star
  {
    if |cells| == 0 then []
    else
      var n := |cells| - 1;
      var rest := StarCells(cells[..n]);
      assert forall r :: 0 <= r < n ==> cells[..n][r] == cells[r];
      rest + StarsOfRow(cells[n])
  }

  // ---------------------------------------------------------------------------
  // updateCellState.

  /** The automatic crosses cleared: every auto cell becomes a manual EMPTY. */
  function ClearAutos(cells: Grid): (res: Grid)
    ensures |res| == |cells|
    ensures forall r :: 0 <= r < |cells| ==> |res[r]| == |cells[r]|
    ensures forall r, c :: 0 <= r < |cells| && 0 <= c < |cells[r]| ==>
      !res[r][c].isAuto && (cells[r][c].isAuto ==> res[r][c].state == Empty) && (!cells[r][c].isAuto ==> res[r][c] == cells[r][c])
  {
    seq(|cells|, r requires 0 <= r < |cells| =>
      seq(|cells[r]|, c requires 0 <= c < |cells[r]| =>
        if cells[r][c].isAuto then cells[r][c].(state := Empty, isAuto := false) else cells[r][c]))
  }

  /** The manual marks of a grid after the target cell is set by hand. */
  function Base(cells: Grid, row: int, col: int, state: CellState): (res: Grid)
    requires Square(cells) && InGrid((row, col), |cells|)
    ensures SameLayout(cells, res)
  {
    ClearAutos(cells[row := cells[row][col := cells[row][col].(state := state, isAuto := false)]])
  }

  /** `updateCellState(row, col, state, isAuto = false)` on the grid. */
  function UpdateCells(p: Puzzle, row: int, col: int, state: CellState): (res: Grid)
    requires WellFormed(p) && InGrid((row, col), p.size)
    ensures SameLayout(p.cells, res)
  {
    var base := Base(p.cells, row, col, state);
    CoverAll(base, StarCells(base), p.size, p.regions)
  }

  /** Some star of the grid rules out the cell. */
  ghost predicate Covered(cells: Grid, regions: map<int, seq<Pos>>, q: Pos)
    requires Square(cells)
  {
    exists r, c :: 0 <= r < |cells| && 0 <= c < |cells| && cells[r][c].state == Star && Attacks(cells[r][c], q, regions)
  }

  /** After an update a cell is an automatic cross exactly when it is EMPTY
      among the manual marks and some star's row, column, region or
      neighbourhood contains it; every other cell keeps its manual mark. */
  lemma UpdateEffect(p: Puzzle, row: int, col: int, state: CellState, i: int, j: int)
    requires WellFormed(p) && InGrid((row, col), p.size) && InGrid((i, j), p.size)
    ensures var base := Base(p.cells, row, col, state);
      UpdateCells(p, row, col, state)[i][j] ==
        if base[i][j].state == Empty && Covered(base, p.regions, (i, j)) then Mark(base[i][j]) else base[i][j]
  {
    var base := Base(p.cells, row, col, state);
    CoverAllEffect(base, StarCells(base), p.size, p.regions, i, j);
    StarsHitIffCovered(base, p.regions, (i, j));
  }

  /** A cell some listed star targets is covered by a star of the grid. */
  lemma HitIsCovered(base: Grid, regions: map<int, seq<Pos>>, q: Pos, t: int)
    requires Square(base) && InGrid(q, |base|)
    requires 0 <= t < |StarCells(base)| && q in Targets(StarCells(base)[t], |base|, regions)
    ensures Covered(base, regions, q)
  {
    var star := StarCells(base)[t];
    TargetsAreAttacked(star, |base|, regions, q);
    assert star in StarCells(base);
    var r :| 0 <= r < |base| && star in base[r] && star.state == Star;
    var c :| 0 <= c < |base[r]| && base[r][c] == star;
    assert base[r][c].state == Star && Attacks(base[r][c], q, regions);
  }

  /** A covered cell is targeted by some listed star. */
  lemma CoveredIsHit(base: Grid, regions: map<int, seq<Pos>>, q: Pos)
    requires Square(base) && InGrid(q, |base|) && Covered(base, regions, q)
    ensures exists t :: 0 <= t < |StarCells(base)| && q in Targets(StarCells(base)[t], |base|, regions)
  {
    var stars := StarCells(base);
    var r, c :| 0 <= r < |base| && 0 <= c < |base| && base[r][c].state == Star && Attacks(base[r][c], q, regions);
    assert base[r][c] in base[r];
    assert base[r][c] in stars;
    var t :| 0 <= t < |stars| && stars[t] == base[r][c];
    TargetsAreAttacked(stars[t], |base|, regions, q);
  }

  /** Some star in the row-major star list targets the cell exactly when the
      cell is covered by a star of the grid. */
  lemma StarsHitIffCovered(base: Grid, regions: map<int, seq<Pos>>, q: Pos)
    requires Square(base) && InGrid(q, |base|)
    ensures (exists t :: 0 <= t < |StarCells(base)| && q in Targets(StarCells(base)[t], |base|, regions))
        <==> Covered(base, regions, q)
  {
    if exists t :: 0 <= t < |StarCells(base)| && q in Targets(StarCells(base)[t], |base|, regions) {
      var t :| 0 <= t < |StarCells(base)| && q in Targets(StarCells(base)[t], |base|, regions);
      HitIsCovered(base, regions, q, t);
    }
    if Covered(base, regions, q) {
      CoveredIsHit(base, regions, q);
    }
  }

  /** The manual mark of every cell but the target is kept, and the target
      gets the requested manual state. */
  lemma UpdateKeepsManualMarks(p: Puzzle, row: int, col: int, state: CellState, i: int, j: int)
    requires WellFormed(p) && InGrid((row, col), p.size) && InGrid((i, j), p.size)
    ensures var res := ClearAutos(UpdateCells(p, row, col, state));
      res[i][j] == if (i, j) == (row, col) then p.cells[i][j].(state := state, isAuto := false)
                   else ClearAutos(p.cells)[i][j]
  {
    UpdateEffect(p, row, col, state, i, j);
  }

  /** The result depends only on the manual marks: grids that differ only in
      their automatic crosses update to the same grid. */
  lemma UpdateIgnoresAutos(p: Puzzle, q: Puzzle, row: int, col: int, state: CellState)
    requires WellFormed(p) && WellFormed(q) && p.size == q.size && p.regions == q.regions
    requires ClearAutos(p.cells) == ClearAutos(q.cells)
    requires InGrid((row, col), p.size)
    ensures UpdateCells(p, row, col, state) == UpdateCells(q, row, col, state)
  {
    SetThenClear(p.cells, row, col, state);
    SetThenClear(q.cells, row, col, state);
  }

  /** Setting the target and then clearing automatic crosses is clearing
      first and then setting the target. */
  lemma SetThenClear(cells: Grid, row: int, col: int, state: CellState)
    requires Square(cells) && InGrid((row, col), |cells|)
    ensures Base(cells, row, col, state) == ClearAutos(cells)[row := ClearAutos(cells)[row][col := cells[row][col].(state := state, isAuto := false)]]
  {
    var a := Base(cells, row, col, state);
    var cleared := ClearAutos(cells);
    var b := cleared[row := cleared[row][col := cells[row][col].(state := state, isAuto := false)]];
    forall r | 0 <= r < |a|
      ensures a[r] == b[r]
    {
      assert |a[r]| == |b[r]|;
      forall c | 0 <= c < |a[r]|
        ensures a[r][c] == b[r][c]
      {
      }
    }
  }

  /** Clearing the automatic crosses of an updated grid gives back its manual marks. */
  lemma ClearAfterUpdate(p: Puzzle, row: int, col: int, state: CellState)
    requires WellFormed(p) && InGrid((row, col), p.size)
    ensures ClearAutos(UpdateCells(p, row, col, state)) == Base(p.cells, row, col, state)
  {
    var a := ClearAutos(UpdateCells(p, row, col, state));
    var base := Base(p.cells, row, col, state);
    forall i | 0 <= i < |a|
      ensures a[i] == base[i]
    {
      assert |a[i]| == |base[i]|;
      forall j | 0 <= j < |a[i]|
        ensures a[i][j] == base[i][j]
      {
        UpdateEffect(p, row, col, state, i, j);
      }
    }
  }

  /** Setting a cell of a grid to the value it already has changes nothing. */
  lemma RewriteSame(g: Grid, row: int, col: int, x: Cell)
    requires 0 <= row < |g| && 0 <= col < |g[row]| && x == g[row][col]
    ensures g[row := g[row][col := x]] == g
  {
    assert g[row][col := x] == g[row];
  }

  /** The target cell of an update, set again by hand, is its manual mark. */
  lemma TargetAfterUpdate(p: Puzzle, row: int, col: int, state: CellState)
    requires WellFormed(p) && InGrid((row, col), p.size)
    ensures UpdateCells(p, row, col, state)[row][col].(state := state, isAuto := false) == Base(p.cells, row, col, state)[row][col]
  {
    UpdateEffect(p, row, col, state, row, col);
  }

  /** The manual marks seen by a second update are those of the first. */
  lemma BaseAfterUpdate(p: Puzzle, row: int, col: int, state: CellState)
    requires WellFormed(p) && InGrid((row, col), p.size)
    ensures var once := UpdateCells(p, row, col, state);
      Square(once) && Base(once, row, col, state) == Base(p.cells, row, col, state)
  {
    var once := UpdateCells(p, row, col, state);
    var base := Base(p.cells, row, col, state);
    ClearAfterUpdate(p, row, col, state);
    SetThenClear(once, row, col, state);
    TargetAfterUpdate(p, row, col, state);
    RewriteSame(base, row, col, once[row][col].(state := state, isAuto := false));
  }

  /** Repeating an update changes nothing. */
  lemma UpdateIdempotent(p: Puzzle, row: int, col: int, state: CellState)
    requires WellFormed(p) && InGrid((row, col), p.size)
    ensures var once := p.(cells := UpdateCells(p, row, col, state));
      WellFormed(once) && UpdateCells(once, row, col, state) == once.cells
  {
    var once := p.(cells := UpdateCells(p, row, col, state));
    assert WellFormed(once);
    BaseAfterUpdate(p, row, col, state);
  }

  // ---------------------------------------------------------------------------
  // checkWinCondition.

  predicate StarAt(cells: Grid, r: int, c: int)
    requires Square(cells)
  {
    InGrid((r, c), |cells|) && cells[r][c].state == Star
  }

  ghost predicate RowHasOne(cells: Grid, r: int)
    requires Square(cells)
  {
    exists c :: StarAt(cells, r, c) && forall c' :: StarAt(cells, r, c') ==> c' == c
  }

  ghost predicate ColumnHasOne(cells: Grid, c: int)
    requires Square(cells)
  {
    exists r :: StarAt(cells, r, c) && forall r' :: StarAt(cells, r', c) ==> r' == r
  }

  /** Exactly one entry of the region's list is a star (an entry listed twice
      counts twice, as in the source's count). */
  ghost predicate RegionHasOne(cells: Grid, ps: seq<Pos>)
    requires Square(cells)
  {
    exists j :: 0 <= j < |ps| && StarAt(cells, ps[j].0, ps[j].1) &&
      forall j' :: 0 <= j' < |ps| && StarAt(cells, ps[j'].0, ps[j'].1) ==> j' == j
  }

  /** No two stars touch, diagonals included. */
  ghost predicate Apart(cells: Grid)
    requires Square(cells)
  {
    forall r, c, r', c' :: StarAt(cells, r, c) && StarAt(cells, r', c') && (r, c) != (r', c') ==> !Touching((r, c), (r', c'))
  }

  /** The rules of the puzzle: one star in every row, every column and every
      region, and no two stars touching. */
  ghost predicate Winning(cells: Grid, regions: map<int, seq<Pos>>)
    requires Square(cells)
  {
    && (forall r :: 0 <= r < |cells| ==> RowHasOne(cells, r))
    && (forall c :: 0 <= c < |cells| ==> ColumnHasOne(cells, c))
    && (forall i :: i in regions ==> RegionHasOne(cells, regions[i]))
    && Apart(cells)
  }

  function CountStars(cs: seq<Cell>): (n: nat)
    ensures n <= |cs|
  {
    if |cs| == 0 then 0
    else CountStars(cs[..|cs| - 1]) + (if cs[|cs| - 1].state == Star then 1 else 0)
  }

  ghost predicate IsStar(cs: seq<Cell>, j: int)
  {
    0 <= j < |cs| && cs[j].state == Star
  }

  /** Entry j is the only star of cs. */
  ghost predicate OnlyStar(cs: seq<Cell>, j: int)
  {
    IsStar(cs, j) && forall j' :: IsStar(cs, j') ==> j' == j
  }

  ghost predicate OneStar(cs: seq<Cell>)
  {
    exists j :: OnlyStar(cs, j)
  }

  lemma {:induction false} CountNone(cs: seq<Cell>)
    ensures CountStars(cs) == 0 <==> forall j :: 0 <= j < |cs| ==> cs[j].state != Star
  {
    if |cs| > 0 {
      var init := cs[..|cs| - 1];
      CountNone(init);
      assert forall j :: 0 <= j < |init| ==> init[j] == cs[j];
    }
  }

  /** Counting one star is having exactly one star. */
  lemma {:induction false} CountOne(cs: seq<Cell>)
    ensures CountStars(cs) == 1 <==> OneStar(cs)
  {
    if |cs| > 0 {
      var n := |cs| - 1;
      var init := cs[..n];
      CountOne(init);
      CountNone(init);
      assert forall j :: 0 <= j < n ==> init[j] == cs[j];
      assert forall j :: IsStar(init, j) <==> 0 <= j < n && IsStar(cs, j);
      if cs[n].state == Star {
        if CountStars(cs) == 1 {
          assert OnlyStar(cs, n);
        }
        if OneStar(cs) {
          var j :| OnlyStar(cs, j);
          assert IsStar(cs, n);
          forall j' | 0 <= j' < n ensures init[j'].state != Star {
            assert init[j'] == cs[j'] && !IsStar(cs, j');
          }
        }
      } else {
        if OneStar(cs) {
          var j :| OnlyStar(cs, j);
          assert OnlyStar(init, j);
        }
        if OneStar(init) {
          var j :| OnlyStar(init, j);
          assert OnlyStar(cs, j);
        }
      }
    }
  }

  function Column(cells: Grid, c: int): (col: seq<Cell>)
    requires Square(cells) && 0 <= c < |cells|
    ensures |col| == |cells| && forall r :: 0 <= r < |cells| ==> col[r] == cells[r][c]
  {
    seq(|cells|, r requires 0 <= r < |cells| => cells[r][c])
  }

  ghost predicate ListedInGrid(ps: seq<Pos>, size: int)
  {
    forall j :: 0 <= j < |ps| ==> 0 <= ps[j].0 < size && 0 <= ps[j].1 < size
  }

  ghost predicate AllListedInGrid(regions: map<int, seq<Pos>>, size: int)
  {
    forall i :: i in regions ==> ListedInGrid(regions[i], size)
  }

  function RegionCells(cells: Grid, ps: seq<Pos>): (cs: seq<Cell>)
    requires Square(cells) && ListedInGrid(ps, |cells|)
    ensures |cs| == |ps| && forall j :: 0 <= j < |ps| ==> cs[j] == cells[ps[j].0][ps[j].1]
  {
    seq(|ps|, j requires 0 <= j < |ps| => cells[ps[j].0][ps[j].1])
  }

  /** The row loop of `checkWinCondition`: a star count of one in every row. */
  function RowsOk(cells: Grid): (ok: bool)
    requires Square(cells)
    ensures ok <==> forall r :: 0 <= r < |cells| ==> RowHasOne(cells, r)
  {
    RowCounts(cells);
    forall r | 0 <= r < |cells| :: CountStars(cells[r]) == 1
  }

  lemma RowCount(cells: Grid, r: int)
    requires Square(cells) && 0 <= r < |cells|
    ensures CountStars(cells[r]) == 1 <==> RowHasOne(cells, r)
  {
    CountOne(cells[r]);
    assert forall c :: StarAt(cells, r, c) <==> IsStar(cells[r], c);
    if OneStar(cells[r]) {
      var c :| OnlyStar(cells[r], c);
      assert StarAt(cells, r, c);
    }
    if RowHasOne(cells, r) {
      var c :| StarAt(cells, r, c) && forall c' :: StarAt(cells, r, c') ==> c' == c;
      assert OnlyStar(cells[r], c);
    }
  }

  lemma RowCounts(cells: Grid)
    requires Square(cells)
    ensures forall r :: 0 <= r < |cells| ==> (CountStars(cells[r]) == 1 <==> RowHasOne(cells, r))
  {
    forall r | 0 <= r < |cells|
      ensures CountStars(cells[r]) == 1 <==> RowHasOne(cells, r)
    {
      RowCount(cells, r);
    }
  }

  /** The column loop: a star count of one in every column. */
  function ColumnsOk(cells: Grid): (ok: bool)
    requires Square(cells)
    ensures ok <==> forall c :: 0 <= c < |cells| ==> ColumnHasOne(cells, c)
  {
    ColumnCounts(cells);
    forall c | 0 <= c < |cells| :: CountStars(Column(cells, c)) == 1
  }

  lemma ColumnCount(cells: Grid, c: int)
    requires Square(cells) && 0 <= c < |cells|
    ensures CountStars(Column(cells, c)) == 1 <==> ColumnHasOne(cells, c)
  {
    var col := Column(cells, c);
    CountOne(col);
    assert forall r :: StarAt(cells, r, c) <==> IsStar(col, r);
    if OneStar(col) {
      var r :| OnlyStar(col, r);
      assert StarAt(cells, r, c);
    }
    if ColumnHasOne(cells, c) {
      var r :| StarAt(cells, r, c) && forall r' :: StarAt(cells, r', c) ==> r' == r;
      assert OnlyStar(col, r);
    }
  }

  lemma ColumnCounts(cells: Grid)
    requires Square(cells)
    ensures forall c :: 0 <= c < |cells| ==> (CountStars(Column(cells, c)) == 1 <==> ColumnHasOne(cells, c))
  {
    forall c | 0 <= c < |cells|
      ensures CountStars(Column(cells, c)) == 1 <==> ColumnHasOne(cells, c)
    {
      ColumnCount(cells, c);
    }
  }

  /** The region loop: a star count of one in every region's list. */
  function RegionsOk(cells: Grid, regions: map<int, seq<Pos>>): (ok: bool)
    requires Square(cells) && AllListedInGrid(regions, |cells|)
    ensures ok <==> forall i :: i in regions ==> RegionHasOne(cells, regions[i])
  {
    RegionCounts(cells, regions);
    forall i | i in regions :: CountStars(RegionCells(cells, regions[i])) == 1
  }

  lemma RegionCounts(cells: Grid, regions: map<int, seq<Pos>>)
    requires Square(cells) && AllListedInGrid(regions, |cells|)
    ensures forall i :: i in regions ==> (CountStars(RegionCells(cells, regions[i])) == 1 <==> RegionHasOne(cells, regions[i]))
  {
    forall i | i in regions
      ensures CountStars(RegionCells(cells, regions[i])) == 1 <==> RegionHasOne(cells, regions[i])
    {
      var ps := regions[i];
      var cs := RegionCells(cells, ps);
      CountOne(cs);
      assert forall j :: IsStar(cs, j) <==> 0 <= j < |ps| && StarAt(cells, ps[j].0, ps[j].1);
      if OneStar(cs) {
        var j :| OnlyStar(cs, j);
        assert StarAt(cells, ps[j].0, ps[j].1);
      }
      if RegionHasOne(cells, ps) {
        var j :| 0 <= j < |ps| && StarAt(cells, ps[j].0, ps[j].1) &&
          forall j' :: 0 <= j' < |ps| && StarAt(cells, ps[j'].0, ps[j'].1) ==> j' == j;
        assert OnlyStar(cs, j);
      }
    }
  }

  /** The neighbour loop: no star has a star among its eight in-grid neighbours. */
  function NeighboursOk(cells: Grid): (ok: bool)
    requires Square(cells)
    ensures ok <==> Apart(cells)
  {
    var size := |cells|;
    ApartIfNeighboursOk(cells);
    NeighboursOkIfApart(cells);
    forall r, c, dr, dc | 0 <= r < size && 0 <= c < size && -1 <= dr <= 1 && -1 <= dc <= 1 ::
      NeighbourClear(cells, r, c, dr, dc)
  }

  predicate NeighbourClear(cells: Grid, r: int, c: int, dr: int, dc: int)
    requires Square(cells) && InGrid((r, c), |cells|)
  {
    cells[r][c].state == Star && (dr, dc) != (0, 0) && InGrid((r + dr, c + dc), |cells|) ==>
      cells[r + dr][c + dc].state != Star
  }

  lemma NeighboursOkIfApart(cells: Grid)
    requires Square(cells)
    ensures Apart(cells) ==> forall r, c, dr, dc | 0 <= r < |cells| && 0 <= c < |cells| && -1 <= dr <= 1 && -1 <= dc <= 1 ::
      NeighbourClear(cells, r, c, dr, dc)
  {
    if !Apart(cells) {
      return;
    }
    forall r, c, dr, dc | 0 <= r < |cells| && 0 <= c < |cells| && -1 <= dr <= 1 && -1 <= dc <= 1
      ensures NeighbourClear(cells, r, c, dr, dc)
    {
      if cells[r][c].state == Star && (dr, dc) != (0, 0) && InGrid((r + dr, c + dc), |cells|) {
        assert StarAt(cells, r, c);
        assert Touching((r, c), (r + dr, c + dc));
      }
    }
  }

  lemma ApartIfNeighboursOk(cells: Grid)
    requires Square(cells)
    ensures (forall r, c, dr, dc | 0 <= r < |cells| && 0 <= c < |cells| && -1 <= dr <= 1 && -1 <= dc <= 1 ::
      NeighbourClear(cells, r, c, dr, dc)) ==> Apart(cells)
  {
    if forall r, c, dr, dc | 0 <= r < |cells| && 0 <= c < |cells| && -1 <= dr <= 1 && -1 <= dc <= 1 ::
      NeighbourClear(cells, r, c, dr, dc)
    {
      forall r, c, r', c' | StarAt(cells, r, c) && StarAt(cells, r', c') && (r, c) != (r', c')
        ensures !Touching((r, c), (r', c'))
      {
        var dr, dc := r' - r, c' - c;
        assert r' == r + dr && c' == c + dc;
        assert Touching((r, c), (r', c')) ==> NeighbourClear(cells, r, c, dr, dc);
      }
    }
  }

  /** `checkWinCondition` decides exactly the rules of the puzzle. */
  function CheckWin(cells: Grid, regions: map<int, seq<Pos>>): (won: bool)
    requires Square(cells) && AllListedInGrid(regions, |cells|)
    ensures won <==> Winning(cells, regions)
  {
    RowsOk(cells) && ColumnsOk(cells) && RegionsOk(cells, regions) && NeighboursOk(cells)
  }

  // ---------------------------------------------------------------------------
  // The view-model's transitions.

  /** The click cycle EMPTY → CROSS → STAR → EMPTY. */
  function Cycle(s: CellState): (t: CellState)
    ensures t != s
  {
    match s
    case Empty => Cross
    case Cross => Star
    case Star => Empty
  }

  lemma CycleOfThree(s: CellState)
    ensures Cycle(Cycle(Cycle(s))) == s
  {
  }

  /** `updateCellState` followed by `checkWinCondition`: the grid is
      recomputed, and the flag is raised when the new grid wins. */
  function Settle(g: Game, row: int, col: int, state: CellState): (r: Game)
    requires Valid(g) && InGrid((row, col), g.puzzle.size)
    ensures Valid(r)
    ensures r.puzzle.size == g.puzzle.size && r.puzzle.regions == g.puzzle.regions
    ensures r.won <==> g.won || Winning(r.puzzle.cells, r.puzzle.regions)
  {
    var cells := UpdateCells(g.puzzle, row, col, state);
    var p := g.puzzle.(cells := cells);
    SameLayoutKeepsValid(g, cells);
    Game(p, g.won || CheckWin(cells, p.regions))
  }

  lemma SameLayoutKeepsValid(g: Game, cells: Grid)
    requires Valid(g) && SameLayout(g.puzzle.cells, cells)
    ensures Valid(Game(g.puzzle.(cells := cells), g.won))
    ensures AllListedInGrid(g.puzzle.regions, |cells|)
  {
  }

  /** `onCellClicked`: nothing once the game is won; otherwise the cell's
      state moves one step around the cycle as a manual mark. */
  function OnCellClicked(g: Game, row: int, col: int): (r: Game)
    requires Valid(g) && InGrid((row, col), g.puzzle.size)
    ensures Valid(r)
    ensures g.won ==> r == g
    ensures !g.won ==> r == Settle(g, row, col, Cycle(g.puzzle.cells[row][col].state))
  {
    if g.won then g
    else Settle(g, row, col, Cycle(g.puzzle.cells[row][col].state))
  }

  /** `onDragOver` (and `onDragStart`, which delegates to it): an EMPTY cell
      or an automatic cross becomes a manual cross; a STAR or a manual cross
      is left alone, and so is everything once the game is won. */
  function OnDragOver(g: Game, row: int, col: int): (r: Game)
    requires Valid(g) && InGrid((row, col), g.puzzle.size)
    ensures Valid(r)
    ensures (|| g.won
             || g.puzzle.cells[row][col].state == Star
             || (g.puzzle.cells[row][col].state == Cross && !g.puzzle.cells[row][col].isAuto)) ==> r == g
    ensures !g.won && (g.puzzle.cells[row][col].state == Empty
                       || (g.puzzle.cells[row][col].state == Cross && g.puzzle.cells[row][col].isAuto)) ==>
      r == Settle(g, row, col, Cross)
  {
    var cell := g.puzzle.cells[row][col];
    if g.won then g
    else if cell.state == Empty || (cell.state == Cross && cell.isAuto) then Settle(g, row, col, Cross)
    else g
  }

  /** After a click on an unfinished game the clicked cell holds the next
      state of the cycle as a manual mark, and every other cell's manual mark
      is unchanged. */
  lemma ClickSetsManualMark(g: Game, row: int, col: int, i: int, j: int)
    requires Valid(g) && !g.won && InGrid((row, col), g.puzzle.size) && InGrid((i, j), g.puzzle.size)
    ensures var after := ClearAutos(OnCellClicked(g, row, col).puzzle.cells);
      && ((i, j) == (row, col) ==> after[i][j].state == Cycle(g.puzzle.cells[row][col].state) && !after[i][j].isAuto)
      && ((i, j) != (row, col) ==> after[i][j] == ClearAutos(g.puzzle.cells)[i][j])
  {
    UpdateKeepsManualMarks(g.puzzle, row, col, Cycle(g.puzzle.cells[row][col].state), i, j);
  }

  /** A drag over an EMPTY cell or an automatic cross of an unfinished game
      leaves a manual cross there and keeps every other manual mark. */
  lemma DragSetsManualCross(g: Game, row: int, col: int, i: int, j: int)
    requires Valid(g) && !g.won && InGrid((row, col), g.puzzle.size) && InGrid((i, j), g.puzzle.size)
    requires g.puzzle.cells[row][col].state == Empty || (g.puzzle.cells[row][col].state == Cross && g.puzzle.cells[row][col].isAuto)
    ensures var after := ClearAutos(OnDragOver(g, row, col).puzzle.cells);
      && ((i, j) == (row, col) ==> after[i][j].state == Cross && !after[i][j].isAuto)
      && ((i, j) != (row, col) ==> after[i][j] == ClearAutos(g.puzzle.cells)[i][j])
  {
    UpdateKeepsManualMarks(g.puzzle, row, col, Cross, i, j);
  }

  /** The flag only rises: a won game stays won under clicks and drags, and a
      click, or a drag that marks a cell, on an unfinished game raises it
      exactly when the new grid obeys the rules. (A drag over a STAR or a
      manual cross changes nothing, as `OnDragOver` states.) */
  lemma WonFlag(g: Game, row: int, col: int)
    requires Valid(g) && InGrid((row, col), g.puzzle.size)
    ensures g.won ==> OnCellClicked(g, row, col).won && OnDragOver(g, row, col).won
    ensures !g.won ==> (OnCellClicked(g, row, col).won <==>
      Winning(OnCellClicked(g, row, col).puzzle.cells, g.puzzle.regions))
    ensures !g.won && (g.puzzle.cells[row][col].state == Empty
                       || (g.puzzle.cells[row][col].state == Cross && g.puzzle.cells[row][col].isAuto)) ==>
      (OnDragOver(g, row, col).won <==> Winning(OnDragOver(g, row, col).puzzle.cells, g.puzzle.regions))
  {
    var cell := g.puzzle.cells[row][col];
    if !g.won && (cell.state == Empty || (cell.state == Cross && cell.isAuto)) {
      assert OnDragOver(g, row, col) == Settle(g, row, col, Cross);
    }
  }

  /** `loadNewPuzzle`: a fresh 8×8 puzzle, partitioned into eight connected
      regions, all cells EMPTY, and the flag cleared. */
  method LoadNewPuzzle(rng: Stream, pick: Stream) returns (g: Game)
    ensures Valid(g) && !g.won && g.puzzle.size == 8
    ensures Partition(g.puzzle, 8) && Blank(g.puzzle)
  {
    var p := Generate(8, rng, pick);
    g := Game(p, false);
  }
}
