/** Region growth of `ConstellationsPuzzleGenerator.generateRegions`: every
    star seeds a region, a randomized flood fill grows the regions over
    orthogonal neighbours until no region can grow, and a final pass gives any
    unclaimed cell the region of a claimed neighbour. */
module ConstellationsRegions {
  import opened Wrappers
  import opened Oracle
  import opened ConstellationsData

  /** Which region has claimed a cell; unclaimed cells (`regionId == -1` in the
      source) are absent. */
  type Owner = map<Pos, int>

  type Regions = map<int, seq<Pos>>

  /** A frontier entry: a claimed cell and its region id. */
  type Entry = (Pos, int)

  predicate Free(q: Pos, size: int, owner: Owner)
  {
    InGrid(q, size) && q !in owner
  }

  /** The neighbours of a cell that are in the grid and unclaimed, in the
      order up, down, left, right. */
  function FreeAmong(qs: seq<Pos>, size: int, owner: Owner): (ns: seq<Pos>)
    ensures forall q :: q in ns <==> q in qs && Free(q, size, owner)
  {
    if |qs| == 0 then []
    else
      var rest := FreeAmong(qs[..|qs| - 1], size, owner);
      var q := qs[|qs| - 1];
      assert qs == qs[..|qs| - 1] + [q];
      if Free(q, size, owner) then rest + [q] else rest
  }

  // ---------------------------------------------------------------------------
  // Invariants of the growth.

  ghost predicate Inside(owner: Owner, size: int)
  {
    forall p :: p in owner ==> InGrid(p, size)
  }

  /** Region i exists for every star i and starts with that star. */
  ghost predicate Seeded(stars: seq<Pos>, regions: Regions)
  {
    && (forall i :: i in regions <==> 0 <= i < |stars|)
    && (forall i :: 0 <= i < |stars| ==> |regions[i]| >= 1 && regions[i][0] == stars[i])
  }

  /** The owner map and the region lists describe the same assignment. */
  ghost predicate Agree(owner: Owner, regions: Regions)
  {
    && (forall i, j :: i in regions && 0 <= j < |regions[i]| ==> regions[i][j] in owner && owner[regions[i][j]] == i)
    && (forall p :: p in owner ==> owner[p] in regions && p in regions[owner[p]])
  }

  ghost predicate Distinct(regions: Regions)
  {
    forall i, a, b :: i in regions && 0 <= a < b < |regions[i]| ==> regions[i][a] != regions[i][b]
  }

  /** Every cell of a region after the first touches an earlier one, so each
      region is 4-connected. */
  ghost predicate Connected(regions: Regions)
  {
    forall i, j :: i in regions && 0 < j < |regions[i]| ==> Linked(regions[i], j)
  }

  /** The cell at position j of a region touches one listed before it. */
  ghost predicate Linked(cells: seq<Pos>, j: int)
    requires 0 <= j < |cells|
  {
    exists m :: 0 <= m < j && Orthogonal(cells[m], cells[j])
  }

  ghost predicate FrontierOwned(frontier: seq<Entry>, owner: Owner)
  {
    forall t :: 0 <= t < |frontier| ==> frontier[t].0 in owner && owner[frontier[t].0] == frontier[t].1
  }

  ghost predicate OnFrontier(frontier: seq<Entry>, p: Pos)
  {
    exists t :: 0 <= t < |frontier| && frontier[t].0 == p
  }

  /** Every in-grid neighbour of the cell is claimed. */
  ghost predicate Surrounded(p: Pos, size: int, owner: Owner)
  {
    forall q :: q in Neighbours(p) && InGrid(q, size) ==> q in owner
  }

  /** A claimed cell that has left the frontier cannot grow any more. */
  ghost predicate Closed(frontier: seq<Entry>, owner: Owner, size: int)
  {
    forall p :: p in owner ==> OnFrontier(frontier, p) || Surrounded(p, size, owner)
  }

  ghost predicate Grown(stars: seq<Pos>, size: int, owner: Owner, regions: Regions)
  {
    && Inside(owner, size)
    && Seeded(stars, regions)
    && Agree(owner, regions)
    && Distinct(regions)
    && Connected(regions)
  }

  ghost predicate Growing(stars: seq<Pos>, size: int, owner: Owner, regions: Regions, frontier: seq<Entry>)
  {
    && Grown(stars, size, owner, regions)
    && FrontierOwned(frontier, owner)
    && Closed(frontier, owner, size)
  }

  // ---------------------------------------------------------------------------
  // Seeding.

  ghost predicate Stars(stars: seq<Pos>, size: int)
  {
    && (forall i :: 0 <= i < |stars| ==> InGrid(stars[i], size))
    && (forall i, j :: 0 <= i < j < |stars| ==> stars[i] != stars[j])
  }

  /** The `forEachIndexed` passes: star i's cell gets region i, region i is
      exactly that cell, and every star is on the frontier with its region. */
  function Seed(stars: seq<Pos>, size: int): (r: (Owner, Regions, seq<Entry>))
    requires Stars(stars, size)
    ensures forall i :: 0 <= i < |stars| ==> stars[i] in r.0 && r.0[stars[i]] == i
    ensures forall p :: p in r.0 ==> exists i :: 0 <= i < |stars| && stars[i] == p
    ensures forall i :: i in r.1 <==> 0 <= i < |stars|
    ensures forall i :: 0 <= i < |stars| ==> r.1[i] == [stars[i]]
    ensures |r.2| == |stars| && forall i :: 0 <= i < |stars| ==> r.2[i] == (stars[i], i)
  {
    var owner := map i | 0 <= i < |stars| :: stars[i] := i;
    var regions := map i | 0 <= i < |stars| :: [stars[i]];
    var frontier := seq(|stars|, i requires 0 <= i < |stars| => (stars[i], i));
    (owner, regions, frontier)
  }

  lemma SeedIsGrowing(stars: seq<Pos>, size: int)
    requires Stars(stars, size)
    ensures Growing(stars, size, Seed(stars, size).0, Seed(stars, size).1, Seed(stars, size).2)
  {
    var (owner, regions, frontier) := Seed(stars, size);
    SeedClosed(stars, size);
    SeedAgree(stars, size);
    assert Seeded(stars, regions);
  }

  lemma SeedClosed(stars: seq<Pos>, size: int)
    requires Stars(stars, size)
    ensures var (owner, regions, frontier) := Seed(stars, size);
            Closed(frontier, owner, size) && Inside(owner, size) && FrontierOwned(frontier, owner)
  {
    var (owner, regions, frontier) := Seed(stars, size);
    forall p | p in owner
      ensures OnFrontier(frontier, p) && InGrid(p, size)
    {
      var i :| 0 <= i < |stars| && stars[i] == p;
      assert frontier[i].0 == p;
    }
  }

  lemma SeedAgree(stars: seq<Pos>, size: int)
    requires Stars(stars, size)
    ensures var (owner, regions, frontier) := Seed(stars, size);
            Agree(owner, regions) && Distinct(regions) && Connected(regions)
  {
    var (owner, regions, frontier) := Seed(stars, size);
    forall p | p in owner ensures owner[p] in regions && p in regions[owner[p]] {
      var i :| 0 <= i < |stars| && stars[i] == p;
      assert regions[owner[p]] == [p];
    }
  }

  // ---------------------------------------------------------------------------
  // The two steps of the growth loop.

  /** Claiming a free neighbour q of a frontier cell for that cell's region. */
  lemma ClaimKeeps(stars: seq<Pos>, size: int, owner: Owner, regions: Regions, frontier: seq<Entry>, t: nat, q: Pos)
    requires Growing(stars, size, owner, regions, frontier)
    requires t < |frontier| && q in Neighbours(frontier[t].0) && Free(q, size, owner)
    ensures var rid := frontier[t].1;
      Growing(stars, size, owner[q := rid], regions[rid := regions[rid] + [q]], frontier + [(q, rid)])
  {
    var (p, rid) := frontier[t];
    var regions' := regions[rid := regions[rid] + [q]];
    ClaimAgree(owner, regions, rid, q);
    ClaimDistinct(owner, regions, rid, q);
    assert p in regions[rid];
    ClaimConnected(regions, rid, p, q);
    ClaimSeeded(stars, regions, rid, q);
    ClaimFrontier(frontier, owner, q, rid, size);
  }

  lemma ClaimSeeded(stars: seq<Pos>, regions: Regions, rid: int, q: Pos)
    requires Seeded(stars, regions) && rid in regions
    ensures Seeded(stars, regions[rid := regions[rid] + [q]])
  {
  }

  lemma ClaimAgree(owner: Owner, regions: Regions, rid: int, q: Pos)
    requires Agree(owner, regions) && rid in regions && q !in owner
    ensures Agree(owner[q := rid], regions[rid := regions[rid] + [q]])
  {
    var owner' := owner[q := rid];
    var regions' := regions[rid := regions[rid] + [q]];
    forall i, j | i in regions' && 0 <= j < |regions'[i]|
      ensures regions'[i][j] in owner' && owner'[regions'[i][j]] == i
    {
      if i == rid && j == |regions[rid]| {
      } else {
        assert regions'[i][j] == regions[i][j];
      }
    }
  }

  lemma ClaimDistinct(owner: Owner, regions: Regions, rid: int, q: Pos)
    requires Agree(owner, regions) && Distinct(regions) && rid in regions && q !in owner
    ensures Distinct(regions[rid := regions[rid] + [q]])
  {
    var regions' := regions[rid := regions[rid] + [q]];
    forall i, a, b | i in regions' && 0 <= a < b < |regions'[i]|
      ensures regions'[i][a] != regions'[i][b]
    {
      if i == rid && b == |regions[rid]| {
        assert regions[rid][a] in owner;
      } else {
        assert regions'[i][a] == regions[i][a] && regions'[i][b] == regions[i][b];
      }
    }
  }

  lemma ClaimConnected(regions: Regions, rid: int, p: Pos, q: Pos)
    requires Connected(regions) && rid in regions && p in regions[rid] && q in Neighbours(p)
    ensures Connected(regions[rid := regions[rid] + [q]])
  {
    var grown := regions[rid] + [q];
    var m :| 0 <= m < |regions[rid]| && regions[rid][m] == p;
    NeighboursAreOrthogonal(p, q);
    forall j | 0 < j < |grown|
      ensures Linked(grown, j)
    {
      if j == |regions[rid]| {
        assert grown[m] == p && grown[j] == q;
      } else {
        assert Linked(regions[rid], j);
        var m' :| 0 <= m' < j && Orthogonal(regions[rid][m'], regions[rid][j]);
        assert grown[m'] == regions[rid][m'] && grown[j] == regions[rid][j];
      }
    }
  }

  lemma ClaimFrontier(frontier: seq<Entry>, owner: Owner, q: Pos, rid: int, size: int)
    requires FrontierOwned(frontier, owner) && Closed(frontier, owner, size) && q !in owner
    ensures FrontierOwned(frontier + [(q, rid)], owner[q := rid])
    ensures Closed(frontier + [(q, rid)], owner[q := rid], size)
  {
    var owner' := owner[q := rid];
    var frontier' := frontier + [(q, rid)];
    forall p' | p' in owner'
      ensures OnFrontier(frontier', p') || Surrounded(p', size, owner')
    {
      if p' == q {
        assert frontier'[|frontier|].0 == q;
      } else if OnFrontier(frontier, p') {
        var t' :| 0 <= t' < |frontier| && frontier[t'].0 == p';
        assert frontier'[t'].0 == p';
      }
    }
  }

  /** Dropping a frontier entry whose cell has no free neighbour. */
  lemma DropKeeps(frontier: seq<Entry>, owner: Owner, size: int, t: nat)
    requires FrontierOwned(frontier, owner) && Closed(frontier, owner, size)
    requires t < |frontier| && FreeAmong(Neighbours(frontier[t].0), size, owner) == []
    ensures FrontierOwned(frontier[..t] + frontier[t + 1..], owner)
    ensures Closed(frontier[..t] + frontier[t + 1..], owner, size)
  {
    var frontier' := frontier[..t] + frontier[t + 1..];
    var p := frontier[t].0;
    assert Surrounded(p, size, owner);
    forall p' | p' in owner
      ensures OnFrontier(frontier', p') || Surrounded(p', size, owner)
    {
      if p' != p && OnFrontier(frontier, p') {
        var t' :| 0 <= t' < |frontier| && frontier[t'].0 == p';
        if t' < t {
          assert frontier'[t'].0 == p';
        } else {
          assert frontier'[t' - 1].0 == p';
        }
      }
    }
  }

  lemma ClaimShrinks(size: int, owner: Owner, q: Pos, rid: int)
    requires Inside(owner, size) && Free(q, size, owner)
    ensures |AllCells(size) - owner[q := rid].Keys| < |AllCells(size) - owner.Keys|
  {
    assert AllCells(size) - owner[q := rid].Keys == (AllCells(size) - owner.Keys) - {q};
  }

  datatype Growth = Growth(owner: Owner, regions: Regions, frontier: seq<Entry>, next: nat, picks: nat)

  /** One iteration of the growth loop: pick a frontier entry with `rng`; if
      its cell has free neighbours, claim one of them (chosen with `pick`) for
      the entry's region and put it on the frontier, otherwise drop the entry. */
  function Step(stars: seq<Pos>, size: int, g: Growth, rng: Stream, pick: Stream): (r: Growth)
    requires Growing(stars, size, g.owner, g.regions, g.frontier) && |g.frontier| > 0
    ensures Growing(stars, size, r.owner, r.regions, r.frontier)
    ensures r.next == g.next + 1
    ensures || |AllCells(size) - r.owner.Keys| < |AllCells(size) - g.owner.Keys|
            || (r.owner == g.owner && |r.frontier| < |g.frontier|)
  {
    var t := NextInt(rng, g.next, |g.frontier|);
    var p := g.frontier[t].0;
    var rid := g.frontier[t].1;
    var free := FreeAmong(Neighbours(p), size, g.owner);
    if |free| > 0 then
      var q := free[NextInt(pick, g.picks, |free|)];
      ClaimKeeps(stars, size, g.owner, g.regions, g.frontier, t, q);
      ClaimShrinks(size, g.owner, q, rid);
      Growth(g.owner[q := rid], g.regions[rid := g.regions[rid] + [q]], g.frontier + [(q, rid)], g.next + 1, g.picks + 1)
    else
      DropKeeps(g.frontier, g.owner, size, t);
      Growth(g.owner, g.regions, g.frontier[..t] + g.frontier[t + 1..], g.next + 1, g.picks)
  }

  /** The growth loop. `rng` is the generator's seeded source, which picks the
      frontier entry; `pick` is the unseeded default source the source code
      uses to choose among the free neighbours. */
  method Grow(stars: seq<Pos>, size: int, rng: Stream, k: nat, pick: Stream) returns (owner: Owner, regions: Regions, next: nat)
    requires Stars(stars, size)
    ensures Grown(stars, size, owner, regions)
    ensures forall p :: p in owner ==> Surrounded(p, size, owner)
    ensures next >= k
  {
    var seed := Seed(stars, size);
    SeedIsGrowing(stars, size);
    var g := Growth(seed.0, seed.1, seed.2, k, 0);
    while |g.frontier| > 0
      invariant Growing(stars, size, g.owner, g.regions, g.frontier)
      invariant g.next >= k
      decreases |AllCells(size) - g.owner.Keys|, |g.frontier|
    {
      g := Step(stars, size, g, rng, pick);
    }
    owner, regions, next := g.owner, g.regions, g.next;
  }

  // ---------------------------------------------------------------------------
  // A claimed set closed under in-grid neighbours covers the whole grid.

  ghost predicate AllSurrounded(owner: Owner, size: int)
  {
    forall p :: p in owner ==> Surrounded(p, size, owner)
  }

  lemma {:induction false} SpreadAlongRow(owner: Owner, size: int, r: int, c: int, c2: int)
    requires AllSurrounded(owner, size)
    requires (r, c) in owner && InGrid((r, c), size) && InGrid((r, c2), size)
    ensures (r, c2) in owner
    decreases Abs(c2 - c)
  {
    if c2 > c {
      assert (r, c + 1) == Neighbours((r, c))[3];
      SpreadAlongRow(owner, size, r, c + 1, c2);
    } else if c2 < c {
      assert (r, c - 1) == Neighbours((r, c))[2];
      SpreadAlongRow(owner, size, r, c - 1, c2);
    }
  }

  lemma {:induction false} SpreadAlongColumn(owner: Owner, size: int, r: int, c: int, r2: int)
    requires AllSurrounded(owner, size)
    requires (r, c) in owner && InGrid((r, c), size) && InGrid((r2, c), size)
    ensures (r2, c) in owner
    decreases Abs(r2 - r)
  {
    if r2 > r {
      assert (r + 1, c) == Neighbours((r, c))[1];
      SpreadAlongColumn(owner, size, r + 1, c, r2);
    } else if r2 < r {
      assert (r - 1, c) == Neighbours((r, c))[0];
      SpreadAlongColumn(owner, size, r - 1, c, r2);
    }
  }

  lemma Flood(owner: Owner, size: int, s: Pos)
    requires AllSurrounded(owner, size) && Inside(owner, size) && s in owner
    ensures owner.Keys == AllCells(size)
  {
    forall p | InGrid(p, size)
      ensures p in owner
    {
      SpreadAlongRow(owner, size, s.0, s.1, p.1);
      SpreadAlongColumn(owner, size, s.0, p.1, p.0);
    }
  }

  /** With at least one star the growth claims every cell of the grid. */
  method GrowCovers(stars: seq<Pos>, size: int, rng: Stream, k: nat, pick: Stream) returns (owner: Owner, regions: Regions, next: nat)
    requires Stars(stars, size)
    ensures Grown(stars, size, owner, regions)
    ensures |stars| > 0 ==> owner.Keys == AllCells(size)
    ensures |stars| == 0 ==> owner == map[] && regions == map[]
    ensures next >= k
  {
    owner, regions, next := Grow(stars, size, rng, k, pick);
    if |stars| > 0 {
      assert stars[0] in owner by {
        assert regions[0][0] == stars[0];
      }
      Flood(owner, size, stars[0]);
    } else {
      assert forall i :: i !in regions;
      assert regions.Keys == {};
      assert forall p :: p !in owner;
      assert owner.Keys == {};
    }
  }

  // ---------------------------------------------------------------------------
  // Hole filling.

  /** The grid's cells in row-major order, from row r on. */
  function RowMajor(size: int, r: int): (ps: seq<Pos>)
    requires 0 <= r
    ensures forall p :: p in ps <==> InGrid(p, size) && r <= p.0
    decreases size - r
  {
    if r >= size then []
    else
      var row := seq(size, c => (r, c));
      assert forall p :: p in row <==> p.0 == r && 0 <= p.1 < size by {
        forall p: Pos | p.0 == r && 0 <= p.1 < size
          ensures p in row
        {
          assert row[p.1] == p;
        }
      }
      row + RowMajor(size, r + 1)
  }

  /** `firstOrNull` over the neighbours: the first that is in the grid and claimed. */
  function FirstClaimed(qs: seq<Pos>, size: int, owner: Owner): (r: Option<Pos>)
    ensures r.Some? ==> r.value in qs && InGrid(r.value, size) && r.value in owner
    ensures r.None? ==> forall q :: q in qs && InGrid(q, size) ==> q !in owner
  {
    if |qs| == 0 then None
    else if InGrid(qs[0], size) && qs[0] in owner then Some(qs[0])
    else FirstClaimed(qs[1..], size, owner)
  }

  /** Adds a cell to a region's list; a region id without a list is ignored,
      as `regions[regionId]?.add(..)` does. */
  function AddTo(regions: Regions, rid: int, p: Pos): Regions
  {
    if rid in regions then regions[rid := regions[rid] + [p]] else regions
  }

  /** One step of the hole-filling pass. */
  function FillOne(p: Pos, size: int, owner: Owner, regions: Regions): (r: (Owner, Regions))
    ensures p in owner ==> r == (owner, regions)
    ensures p in r.0 && forall q :: q in owner ==> q in r.0 && r.0[q] == owner[q]
    ensures forall q :: q in r.0 ==> q in owner || q == p
  {
    if p in owner then (owner, regions)
    else
      var n := FirstClaimed(Neighbours(p), size, owner);
      var rid := if n.Some? then owner[n.value] else 0;
      (owner[p := rid], AddTo(regions, rid, p))
  }

  /** The hole-filling pass over the listed cells in order. */
  function Fill(ps: seq<Pos>, size: int, owner: Owner, regions: Regions): (r: (Owner, Regions))
    ensures forall p :: p in r.0 <==> p in owner || p in ps
    ensures forall p :: p in owner ==> r.0[p] == owner[p]
    ensures (forall p :: p in ps ==> p in owner) ==> r == (owner, regions)
    ensures regions == map[] ==> r.1 == map[]
    decreases |ps|
  {
    if |ps| == 0 then (owner, regions)
    else
      var (o, g) := FillOne(ps[0], size, owner, regions);
      Fill(ps[1..], size, o, g)
  }

  /** With no stars every cell ends in region 0, through the fallback or
      through a neighbour already filled. */
  lemma {:induction false} FillWithoutRegions(ps: seq<Pos>, size: int, owner: Owner)
    requires forall p :: p in owner ==> owner[p] == 0
    ensures forall p :: p in Fill(ps, size, owner, map[]).0 ==> Fill(ps, size, owner, map[]).0[p] == 0
    decreases |ps|
  {
    if |ps| > 0 {
      var (o, g) := FillOne(ps[0], size, owner, map[]);
      FillWithoutRegions(ps[1..], size, o);
    }
  }

  /** `generateRegions`: the owner map (the grid's `regionId`s) and the region
      lists. */
  method GenerateRegions(stars: seq<Pos>, size: int, rng: Stream, k: nat, pick: Stream) returns (owner: Owner, regions: Regions, next: nat)
    requires Stars(stars, size)
    ensures owner.Keys == AllCells(size)
    ensures |stars| > 0 ==> Grown(stars, size, owner, regions)
    ensures |stars| == 0 ==> regions == map[] && forall p :: p in owner ==> owner[p] == 0
    ensures next >= k
  {
    owner, regions, next := GrowCovers(stars, size, rng, k, pick);
    var ps := RowMajor(size, 0);
    if |stars| == 0 {
      FillWithoutRegions(ps, size, owner);
    }
    owner, regions := Fill(ps, size, owner, regions).0, Fill(ps, size, owner, regions).1;
  }
}
