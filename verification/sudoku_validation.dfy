/** `SudokuViewModel.validateBoard`: duplicate detection over the 9 rows, the 9
    columns and the 9 boxes, recomputed from scratch after every edit. */
module SudokuValidation {
  import opened SudokuModels

  /** The part of a cell that validation reads. */
  datatype Entry = Entry(row: int, col: int, number: int)

  function EntryOf(c: Cell): Entry
  {
    Entry(c.row, c.col, c.number)
  }

  function Entries(cells: seq<Cell>): (es: seq<Entry>)
    ensures |es| == |cells|
    ensures forall i :: 0 <= i < |cells| ==> es[i] == EntryOf(cells[i])
  {
    seq(|cells|, i requires 0 <= i < |cells| => EntryOf(cells[i]))
  }

  /** A group the validator scans: `Row(i)` and `Col(i)` for i in 0..8, and
      `Box(i, j)` for the boxes whose top-left corner is (i, j). */
  datatype Unit = Row(i: int) | Col(j: int) | Box(i: int, j: int)

  predicate InUnit(e: Entry, u: Unit)
  {
    match u
    case Row(i) => e.row == i
    case Col(j) => e.col == j
    case Box(i, j) => i <= e.row < i + 3 && j <= e.col < j + 3
  }

  /** Rows and columns in the order of the first loop, i from `from` to 8. */
  function LineUnits(from: nat): seq<Unit>
    decreases 9 - from
  {
    if from >= 9 then [] else [Row(from), Col(from)] + LineUnits(from + 1)
  }

  const BoxUnits: seq<Unit> := [
    Box(0, 0), Box(0, 3), Box(0, 6),
    Box(3, 0), Box(3, 3), Box(3, 6),
    Box(6, 0), Box(6, 3), Box(6, 6)]

  function AllUnits(): seq<Unit>
  {
    LineUnits(0) + BoxUnits
  }

  /** How many entries of the unit carry `number` (the size of its `groupBy` bucket). */
  function Count(es: seq<Entry>, u: Unit, number: int): nat
  {
    if |es| == 0 then 0
    else
      var last := es[|es| - 1];
      Count(es[..|es| - 1], u, number) + (if InUnit(last, u) && last.number == number then 1 else 0)
  }

  /** Positions of the unit's non-zero entries whose bucket holds more than one entry. */
  function UnitErrors(es: seq<Entry>, u: Unit): set<Coord>
  {
    set x | 0 <= x < |es| && InUnit(es[x], u) && es[x].number != 0 && Count(es, u, es[x].number) > 1
      :: (es[x].row, es[x].col)
  }

  /** `errorPositions` after scanning `units`. */
  function ErrorPositions(es: seq<Entry>, units: seq<Unit>): set<Coord>
  {
    if |units| == 0 then {} else UnitErrors(es, units[0]) + ErrorPositions(es, units[1..])
  }

  /** The validated board: errors are reset, then a cell is an error exactly
      when its coordinates are among the error positions. */
  function Validate(b: Board): (v: Board)
    ensures |v.cells| == |b.cells|
    ensures forall i :: 0 <= i < |b.cells| ==> v.cells[i].(isError := false) == b.cells[i].(isError := false)
  {
    var cleared := seq(|b.cells|, i requires 0 <= i < |b.cells| => b.cells[i].(isError := false));
    var errors := ErrorPositions(Entries(cleared), AllUnits());
    Board(seq(|cleared|, i requires 0 <= i < |cleared| => cleared[i].(isError := CoordOf(cleared[i]) in errors)))
  }

  // ---------------------------------------------------------------------------
  // The reference definition: two entries are peers when they share a row, a
  // column or a box of the 9x9 grid.

  ghost predicate SameBox(a: Entry, b: Entry)
  {
    && 0 <= a.row < 9 && 0 <= a.col < 9 && 0 <= b.row < 9 && 0 <= b.col < 9
    && a.row / 3 == b.row / 3 && a.col / 3 == b.col / 3
  }

  ghost predicate Peers(a: Entry, b: Entry)
  {
    || (a.row == b.row && 0 <= a.row < 9)
    || (a.col == b.col && 0 <= a.col < 9)
    || SameBox(a, b)
  }

  /** Entry x holds a digit that another entry among its peers also holds. */
  ghost predicate Conflicting(es: seq<Entry>, x: int)
    requires 0 <= x < |es|
  {
    es[x].number != 0 &&
    exists y :: 0 <= y < |es| && y != x && es[y].number == es[x].number && Peers(es[x], es[y])
  }

  // ---------------------------------------------------------------------------

  lemma CountZero(es: seq<Entry>, u: Unit, number: int)
    ensures Count(es, u, number) == 0 <==>
      forall y :: 0 <= y < |es| ==> !(InUnit(es[y], u) && es[y].number == number)
  {
    if |es| > 0 {
      var init := es[..|es| - 1];
      CountZero(init, u, number);
      assert forall y :: 0 <= y < |init| ==> init[y] == es[y];
    }
  }

  /** A bucket holds more than one entry exactly when a second entry is in it. */
  lemma {:induction false} CountAtLeastTwo(es: seq<Entry>, u: Unit, x: int)
    requires 0 <= x < |es| && InUnit(es[x], u)
    ensures Count(es, u, es[x].number) > 1 <==>
      exists y :: 0 <= y < |es| && y != x && InUnit(es[y], u) && es[y].number == es[x].number
  {
    var n := es[x].number;
    var init := es[..|es| - 1];
    var last := |es| - 1;
    assert forall y :: 0 <= y < |init| ==> init[y] == es[y];
    if x == last {
      CountZero(init, u, n);
    } else {
      assert init[x] == es[x];
      CountAtLeastTwo(init, u, x);
      if InUnit(es[last], u) && es[last].number == n {
        CountZero(init, u, n);
      }
    }
  }

  lemma LineUnitsMembers(from: nat, u: Unit)
    ensures u in LineUnits(from) <==> (u.Row? || u.Col?) && from <= (if u.Row? then u.i else u.j) < 9
    decreases 9 - from
  {
    if from < 9 {
      LineUnitsMembers(from + 1, u);
    }
  }

  /** Membership in a box, in terms of the box's corner. */
  lemma InBox(e: Entry, i: int, j: int)
    requires i in {0, 3, 6} && j in {0, 3, 6}
    ensures InUnit(e, Box(i, j)) <==>
      0 <= e.row < 9 && 0 <= e.col < 9 && e.row / 3 == i / 3 && e.col / 3 == j / 3
  {
  }

  /** The 27 units the validator scans, described without the scan order. */
  predicate Scanned(u: Unit)
  {
    match u
    case Row(i) => 0 <= i < 9
    case Col(j) => 0 <= j < 9
    case Box(i, j) => i in {0, 3, 6} && j in {0, 3, 6}
  }

  lemma AllUnitsMembers(u: Unit)
    ensures u in AllUnits() <==> Scanned(u)
  {
    LineUnitsMembers(0, u);
  }

  lemma SharedUnitPeers(a: Entry, b: Entry, u: Unit)
    requires Scanned(u) && InUnit(a, u) && InUnit(b, u)
    ensures Peers(a, b)
  {
    if u.Box? {
      InBox(a, u.i, u.j);
      InBox(b, u.i, u.j);
    }
  }

  lemma PeersSharedUnit(a: Entry, b: Entry) returns (u: Unit)
    requires Peers(a, b)
    ensures u in AllUnits() && InUnit(a, u) && InUnit(b, u)
  {
    if a.row == b.row && 0 <= a.row < 9 {
      u := Row(a.row);
      LineUnitsMembers(0, u);
    } else if a.col == b.col && 0 <= a.col < 9 {
      u := Col(a.col);
      LineUnitsMembers(0, u);
    } else {
      u := Box(a.row / 3 * 3, a.col / 3 * 3);
      assert u in BoxUnits;
      InBox(a, u.i, u.j);
      InBox(b, u.i, u.j);
    }
  }

  lemma ErrorPositionsMembers(es: seq<Entry>, units: seq<Unit>, p: Coord)
    ensures p in ErrorPositions(es, units) <==> exists k :: 0 <= k < |units| && p in UnitErrors(es, units[k])
  {
    if |units| > 0 {
      ErrorPositionsMembers(es, units[1..], p);
      assert forall k :: 1 <= k < |units| ==> units[k] == units[1..][k - 1];
    }
  }

  /** A coordinate is an error position exactly when some entry at it conflicts. */
  lemma ErrorPositionIff(es: seq<Entry>, p: Coord)
    ensures p in ErrorPositions(es, AllUnits()) <==>
      exists x :: 0 <= x < |es| && (es[x].row, es[x].col) == p && Conflicting(es, x)
  {
    var units := AllUnits();
    ErrorPositionsMembers(es, units, p);
    if p in ErrorPositions(es, units) {
      var k :| 0 <= k < |units| && p in UnitErrors(es, units[k]);
      var u := units[k];
      AllUnitsMembers(u);
      var x :| 0 <= x < |es| && InUnit(es[x], u) && es[x].number != 0 && Count(es, u, es[x].number) > 1
        && (es[x].row, es[x].col) == p;
      CountAtLeastTwo(es, u, x);
      var y :| 0 <= y < |es| && y != x && InUnit(es[y], u) && es[y].number == es[x].number;
      SharedUnitPeers(es[x], es[y], u);
      assert Conflicting(es, x);
    }
    if exists x :: 0 <= x < |es| && (es[x].row, es[x].col) == p && Conflicting(es, x) {
      var x :| 0 <= x < |es| && (es[x].row, es[x].col) == p && Conflicting(es, x);
      var y :| 0 <= y < |es| && y != x && es[y].number == es[x].number && Peers(es[x], es[y]);
      var u := PeersSharedUnit(es[x], es[y]);
      var k :| 0 <= k < |units| && units[k] == u;
      CountAtLeastTwo(es, u, x);
      assert p in UnitErrors(es, u);
    }
  }

  /** `validateBoard` marks a cell as an error exactly when some cell at its
      coordinates holds a non-zero digit that a peer also holds. */
  lemma ValidateErrorIff(b: Board, i: int)
    requires 0 <= i < |b.cells|
    ensures Validate(b).cells[i].isError <==>
      exists x :: 0 <= x < |b.cells| && CoordOf(b.cells[x]) == CoordOf(b.cells[i])
        && Conflicting(Entries(b.cells), x)
  {
    var cleared := seq(|b.cells|, j requires 0 <= j < |b.cells| => b.cells[j].(isError := false));
    assert Entries(cleared) == Entries(b.cells);
    ErrorPositionIff(Entries(b.cells), CoordOf(b.cells[i]));
  }

  /** On a well-formed board that is: the cell's own digit is non-zero and
      repeated among its peers. */
  lemma ValidateWellFormed(b: Board, i: int)
    requires WellFormed(b) && 0 <= i < 81
    ensures Validate(b).cells[i].isError <==> Conflicting(Entries(b.cells), i)
  {
    ValidateErrorIff(b, i);
    forall x | 0 <= x < 81 && CoordOf(b.cells[x]) == CoordOf(b.cells[i])
      ensures x == i
    {
      var r1, c1 := IndexIsRowMajor(x);
      var r2, c2 := IndexIsRowMajor(i);
      assert CoordOf(At(b, r1, c1)) == (r1, c1);
      assert CoordOf(At(b, r2, c2)) == (r2, c2);
    }
  }

  /** Validation reads only coordinates and digits, which it preserves, so
      validating twice is validating once. */
  lemma ValidateIdempotent(b: Board)
    ensures Validate(Validate(b)) == Validate(b)
  {
    var v := Validate(b);
    var cleared := seq(|b.cells|, j requires 0 <= j < |b.cells| => b.cells[j].(isError := false));
    var cleared2 := seq(|v.cells|, j requires 0 <= j < |v.cells| => v.cells[j].(isError := false));
    assert cleared2 == cleared;
  }

  /** Validation keeps a board well-formed. */
  lemma ValidatePreservesWellFormed(b: Board)
    requires WellFormed(b)
    ensures WellFormed(Validate(b))
  {
    var v := Validate(b);
    forall r, c | 0 <= r < 9 && 0 <= c < 9
      ensures CoordOf(At(v, r, c)) == (r, c)
    {
      assert CoordOf(At(b, r, c)) == (r, c);
      assert At(v, r, c).(isError := false) == At(b, r, c).(isError := false);
    }
  }
}
