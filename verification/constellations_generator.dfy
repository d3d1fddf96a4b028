/** `ConstellationsPuzzleGenerator.generate`: stars first, then one region
    grown around each star, then the cell grid. */
module ConstellationsGenerator {
  import opened Oracle
  import opened ConstellationsData
  import opened ConstellationsStars
  import opened ConstellationsRegions

  /** The regions partition the grid into `n` regions: ids 0 .. n-1, every
      cell listed once, in the region its own `regionId` names. */
  ghost predicate Partition(p: Puzzle, n: int)
    requires WellFormed(p)
  {
    && (forall i :: i in p.regions <==> 0 <= i < n)
    && (forall r, c :: 0 <= r < p.size && 0 <= c < p.size ==>
          0 <= p.cells[r][c].regionId < n && (r, c) in p.regions[p.cells[r][c].regionId])
    && (forall i, j :: i in p.regions && 0 <= j < |p.regions[i]| ==>
          InGrid(p.regions[i][j], p.size) && p.cells[p.regions[i][j].0][p.regions[i][j].1].regionId == i)
    && Distinct(p.regions)
  }

  /** Every cell starts EMPTY and manual. */
  ghost predicate Blank(p: Puzzle)
    requires WellFormed(p)
  {
    forall r, c :: 0 <= r < p.size && 0 <= c < p.size ==> p.cells[r][c].state == Empty && !p.cells[r][c].isAuto
  }

  /** `grid.map { it.toList() }` over the final region assignment. */
  function CellGrid(size: int, owner: Owner): (cells: seq<seq<Cell>>)
    requires size >= 0 && owner.Keys == AllCells(size)
    ensures |cells| == size && Square(cells) && Labelled(cells)
    ensures forall r, c :: 0 <= r < size && 0 <= c < size ==>
      cells[r][c] == Cell(r, c, owner[(r, c)], Empty, false)
  {
    seq(size, r requires 0 <= r < size =>
      seq(size, c requires 0 <= c < size => Cell(r, c, owner[(r, c)], Empty, false)))
  }

  lemma PlacedAreStars(stars: seq<Pos>, size: int)
    requires Placed(stars, size) && |stars| <= size
    ensures Stars(stars, size)
  {
  }

  /** The properties the generated puzzle has, given the stars it was grown from. */
  ghost predicate GrownFrom(p: Puzzle, stars: seq<Pos>)
    requires WellFormed(p)
  {
    && (|stars| > 0 ==>
          && Partition(p, |stars|)
          && Connected(p.regions)
          && forall i :: 0 <= i < |stars| ==> |p.regions[i]| > 0 && p.regions[i][0] == stars[i])
    && (stars == [] ==>
          p.regions == map[] && forall r, c :: 0 <= r < p.size && 0 <= c < p.size ==> p.cells[r][c].regionId == 0)
  }

  /** `generate(size, seed)`: `rng` is `Random(seed)`, `pick` the unseeded
      default source. With stars placed, the regions partition the grid into
      one 4-connected region per star, region i containing star i first. When
      placement fails every cell falls back to region 0 and no region list
      exists. On the default 8×8 grid placement never fails. */
  method Generate(size: int, rng: Stream, pick: Stream) returns (p: Puzzle)
    requires size >= 0
    ensures WellFormed(p) && p.size == size && Blank(p)
    ensures GrownFrom(p, PlaceStars(size, rng, 0).0)
    ensures size == 8 ==> Partition(p, 8) && Connected(p.regions)
  {
    var placed := PlaceStars(size, rng, 0);
    var stars := placed.0;
    PlacedAreStars(stars, size);
    var owner, regions, _ := GenerateRegions(stars, size, rng, placed.1, pick);
    p := Puzzle(size, CellGrid(size, owner), regions);
    Assemble(p, stars, owner);
    if size == 8 {
      EightStarsAlwaysPlaced(rng, 0);
    }
  }

  lemma Assemble(p: Puzzle, stars: seq<Pos>, owner: Owner)
    requires p.size >= 0 && owner.Keys == AllCells(p.size) && p.cells == CellGrid(p.size, owner)
    requires |stars| > 0 ==> Grown(stars, p.size, owner, p.regions)
    requires |stars| == 0 ==> p.regions == map[] && forall q :: q in owner ==> owner[q] == 0
    ensures WellFormed(p) && Blank(p) && GrownFrom(p, stars)
  {
    if |stars| > 0 {
      PartitionFromGrowth(p, stars, owner);
    } else {
      forall r, c | 0 <= r < p.size && 0 <= c < p.size
        ensures p.cells[r][c].regionId == 0
      {
        assert (r, c) in owner;
      }
    }
  }

  lemma PartitionFromGrowth(p: Puzzle, stars: seq<Pos>, owner: Owner)
    requires p.size >= 0 && owner.Keys == AllCells(p.size) && p.cells == CellGrid(p.size, owner)
    requires Grown(stars, p.size, owner, p.regions)
    ensures WellFormed(p) && Partition(p, |stars|)
  {
    forall r, c | 0 <= r < p.size && 0 <= c < p.size
      ensures 0 <= p.cells[r][c].regionId < |stars| && (r, c) in p.regions[p.cells[r][c].regionId]
    {
      assert (r, c) in owner;
    }
  }
}
