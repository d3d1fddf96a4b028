/** Deriving the connections between Bonza fragments from the ownership map.

    For every fragment, every cell of it, and each of the cell's four
    neighbours (right and left count as HORIZONTAL, down and up as VERTICAL),
    a connection (fragment id, neighbour's owner id, direction) is recorded
    when the neighbour is owned by a fragment with a larger id and that pair
    has not been recorded yet. */
module BonzaConnections {
  import opened BonzaLayout
  import opened BonzaFragments

  /** `BonzaConnection(fragment1Id, fragment2Id, direction)`. */
  datatype Connection = Connection(f1: int, f2: int, dir: Direction)

  /** The direction the generator attaches to its n-th neighbour. */
  function NeighbourDir(n: int): Direction
  {
    if n < 2 then Horizontal else Vertical
  }

  /** The axis along which two adjacent cells lie. */
  function Axis(p: Pos, q: Pos): Direction
  {
    if p.1 == q.1 then Horizontal else Vertical
  }

  lemma NeighbourDirIsAxis(p: Pos, n: int)
    requires 0 <= n < 4
    ensures NeighbourDir(n) == Axis(p, Neighbours(p)[n])
  {
  }

  /** `connections.none { it.fragment1Id == a && it.fragment2Id == b }`, negated. */
  predicate Present(acc: seq<Connection>, a: int, b: int)
  {
    exists c :: c in acc && c.f1 == a && c.f2 == b
  }

  /** No (fragment1Id, fragment2Id) pair is recorded twice. */
  ghost predicate Unique(acc: seq<Connection>)
  {
    forall a, b :: 0 <= a < b < |acc| ==> !(acc[a].f1 == acc[b].f1 && acc[a].f2 == acc[b].f2)
  }

  /** The neighbour n of cell t of f is owned by a fragment with a larger id. */
  predicate Candidate(f: Fragment, owners: Owners, t: int, n: int)
    requires 0 <= n < 4
  {
    var q := Neighbours(FragCell(f, t))[n];
    q in owners && f.id < owners[q]
  }

  /** c records neighbour n of cell t of f. */
  ghost predicate Via(f: Fragment, owners: Owners, t: int, n: int, c: Connection)
    requires 0 <= n < 4
  {
    var q := Neighbours(FragCell(f, t))[n];
    c.f1 == f.id && q in owners && c.f2 == owners[q] && c.dir == NeighbourDir(n)
  }

  /** c records one of the neighbours n.. of cell t of f. */
  ghost predicate ViaFrom(f: Fragment, owners: Owners, t: int, n: int, c: Connection)
  {
    exists e :: 0 <= e && n <= e < 4 && Via(f, owners, t, e, c)
  }

  ghost predicate Linked(f: Fragment, owners: Owners, c: Connection)
  {
    exists t, n :: 0 <= t < |f.text| && 0 <= n < 4 && Via(f, owners, t, n, c)
  }

  ghost predicate LinkedSome(frags: seq<Fragment>, owners: Owners, c: Connection)
  {
    exists m :: 0 <= m < |frags| && Linked(frags[m], owners, c)
  }

  /** r is acc with elements appended. */
  ghost predicate Grows(acc: seq<Connection>, r: seq<Connection>)
  {
    |acc| <= |r| && forall k :: 0 <= k < |acc| ==> r[k] == acc[k]
  }

  lemma PresentKept(acc: seq<Connection>, r: seq<Connection>, a: int, b: int)
    requires Grows(acc, r) && Present(acc, a, b)
    ensures Present(r, a, b)
  {
    var c :| c in acc && c.f1 == a && c.f2 == b;
    var k :| 0 <= k < |acc| && acc[k] == c;
    assert r[k] == c;
  }

  /** Every neighbour of cell t of f that is owned by a fragment with a larger
      id has its pair recorded in r. */
  ghost predicate NeighbourDone(f: Fragment, owners: Owners, t: int, e: int, r: seq<Connection>)
    requires 0 <= e < 4
  {
    Candidate(f, owners, t, e) ==> Present(r, f.id, owners[Neighbours(FragCell(f, t))[e]])
  }

  ghost predicate CellDone(f: Fragment, owners: Owners, t: int, r: seq<Connection>)
  {
    forall e :: 0 <= e < 4 ==> NeighbourDone(f, owners, t, e, r)
  }

  lemma CellDoneKept(f: Fragment, owners: Owners, t: int, acc: seq<Connection>, r: seq<Connection>)
    requires Grows(acc, r) && CellDone(f, owners, t, acc)
    ensures CellDone(f, owners, t, r)
  {
    forall e | 0 <= e < 4 ensures NeighbourDone(f, owners, t, e, r) {
      if Candidate(f, owners, t, e) {
        assert NeighbourDone(f, owners, t, e, acc);
        PresentKept(acc, r, f.id, owners[Neighbours(FragCell(f, t))[e]]);
      }
    }
  }

  /** The check of neighbour n of cell t of f. */
  function Consider(f: Fragment, owners: Owners, t: int, n: int, acc: seq<Connection>): (r: seq<Connection>)
    requires 0 <= n < 4
    ensures Grows(acc, r) && |r| <= |acc| + 1
    ensures forall k :: |acc| <= k < |r| ==> r[k].f1 < r[k].f2 && Via(f, owners, t, n, r[k])
    ensures NeighbourDone(f, owners, t, n, r)
  {
    var q := Neighbours(FragCell(f, t))[n];
    if q in owners && owners[q] != f.id && f.id < owners[q] && !Present(acc, f.id, owners[q]) then
      var r := acc + [Connection(f.id, owners[q], NeighbourDir(n))];
      assert r[|acc|] in r;
      r
    else acc
  }

  /** The neighbour loop for cell t, resumed at neighbour n. */
  function ScanNeighbours(f: Fragment, owners: Owners, t: int, n: nat, acc: seq<Connection>): (r: seq<Connection>)
    requires n <= 4
    ensures Grows(acc, r)
    ensures forall k :: |acc| <= k < |r| ==> r[k].f1 < r[k].f2 && ViaFrom(f, owners, t, n, r[k])
    ensures forall e :: n <= e < 4 ==> NeighbourDone(f, owners, t, e, r)
    decreases 4 - n
  {
    if n == 4 then acc
    else
      var a := Consider(f, owners, t, n, acc);
      var r := ScanNeighbours(f, owners, t, n + 1, a);
      assert NeighbourDone(f, owners, t, n, r) by {
        if Candidate(f, owners, t, n) {
          PresentKept(a, r, f.id, owners[Neighbours(FragCell(f, t))[n]]);
        }
      }
      r
  }

  /** The cell loop for f, resumed at cell t. */
  function ScanCells(f: Fragment, owners: Owners, t: nat, acc: seq<Connection>): (r: seq<Connection>)
    ensures Grows(acc, r)
    decreases |f.text| - t
  {
    if t >= |f.text| then acc
    else ScanCells(f, owners, t + 1, ScanNeighbours(f, owners, t, 0, acc))
  }

  /** Every connection of r from index `from` on has the smaller id first and
      is linked to a neighbour of one of f's cells. */
  ghost predicate AllLinked(f: Fragment, owners: Owners, r: seq<Connection>, from: nat)
  {
    forall k :: from <= k < |r| ==> r[k].f1 < r[k].f2 && Linked(f, owners, r[k])
  }

  lemma AllLinkedChain(f: Fragment, owners: Owners, acc: seq<Connection>, a: seq<Connection>, r: seq<Connection>)
    requires Grows(acc, a) && Grows(a, r)
    requires AllLinked(f, owners, a, |acc|) && AllLinked(f, owners, r, |a|)
    ensures AllLinked(f, owners, r, |acc|)
  {
    forall k | |acc| <= k < |r| ensures r[k].f1 < r[k].f2 && Linked(f, owners, r[k]) {
      if k < |a| {
        assert r[k] == a[k];
      }
    }
  }

  lemma NeighboursLinked(f: Fragment, owners: Owners, t: int, acc: seq<Connection>)
    requires 0 <= t < |f.text|
    ensures AllLinked(f, owners, ScanNeighbours(f, owners, t, 0, acc), |acc|)
  {
    var a := ScanNeighbours(f, owners, t, 0, acc);
    forall k | |acc| <= k < |a| ensures a[k].f1 < a[k].f2 && Linked(f, owners, a[k]) {
      var e :| 0 <= e < 4 && Via(f, owners, t, e, a[k]);
    }
  }

  /** Every connection the cell loop adds has the smaller id first and is
      linked to a neighbour of one of f's cells. */
  lemma {:induction false} ScanCellsLinked(f: Fragment, owners: Owners, t: nat, acc: seq<Connection>)
    ensures AllLinked(f, owners, ScanCells(f, owners, t, acc), |acc|)
    decreases |f.text| - t
  {
    if t < |f.text| {
      var a := ScanNeighbours(f, owners, t, 0, acc);
      var r := ScanCells(f, owners, t + 1, a);
      assert ScanCells(f, owners, t, acc) == r;
      ScanCellsLinked(f, owners, t + 1, a);
      NeighboursLinked(f, owners, t, acc);
      AllLinkedChain(f, owners, acc, a, r);
    }
  }

  /** The cell loop records every pair it should from cell t on. */
  lemma {:induction false} ScanCellsComplete(f: Fragment, owners: Owners, t: nat, acc: seq<Connection>)
    ensures forall u :: t <= u < |f.text| ==> CellDone(f, owners, u, ScanCells(f, owners, t, acc))
    decreases |f.text| - t
  {
    if t < |f.text| {
      var a := ScanNeighbours(f, owners, t, 0, acc);
      var r := ScanCells(f, owners, t + 1, a);
      ScanCellsComplete(f, owners, t + 1, a);
      assert CellDone(f, owners, t, a);
      CellDoneKept(f, owners, t, a, r);
    }
  }

  /** The fragment loop, resumed at fragment m. */
  function ScanFrags(frags: seq<Fragment>, owners: Owners, m: nat, acc: seq<Connection>): (r: seq<Connection>)
    ensures Grows(acc, r)
    decreases |frags| - m
  {
    if m >= |frags| then acc
    else ScanFrags(frags, owners, m + 1, ScanCells(frags[m], owners, 0, acc))
  }

  /** Every connection of r from index `from` on has the smaller id first and
      is linked to some fragment of frags. */
  ghost predicate AllLinkedSome(frags: seq<Fragment>, owners: Owners, r: seq<Connection>, from: nat)
  {
    forall k :: from <= k < |r| ==> r[k].f1 < r[k].f2 && LinkedSome(frags, owners, r[k])
  }

  lemma {:induction false} ScanFragsLinked(frags: seq<Fragment>, owners: Owners, m: nat, acc: seq<Connection>)
    ensures AllLinkedSome(frags, owners, ScanFrags(frags, owners, m, acc), |acc|)
    decreases |frags| - m
  {
    if m < |frags| {
      var a := ScanCells(frags[m], owners, 0, acc);
      var r := ScanFrags(frags, owners, m + 1, a);
      ScanCellsLinked(frags[m], owners, 0, acc);
      ScanFragsLinked(frags, owners, m + 1, a);
      forall k | |acc| <= k < |r| ensures r[k].f1 < r[k].f2 && LinkedSome(frags, owners, r[k]) {
        if k < |a| {
          assert r[k] == a[k];
          assert Linked(frags[m], owners, a[k]);
        }
      }
    }
  }

  lemma {:induction false} ScanFragsComplete(frags: seq<Fragment>, owners: Owners, m: nat, acc: seq<Connection>)
    ensures forall i, u :: m <= i < |frags| && 0 <= u < |frags[i].text| ==> CellDone(frags[i], owners, u, ScanFrags(frags, owners, m, acc))
    decreases |frags| - m
  {
    if m < |frags| {
      var a := ScanCells(frags[m], owners, 0, acc);
      var r := ScanFrags(frags, owners, m + 1, a);
      ScanCellsComplete(frags[m], owners, 0, acc);
      ScanFragsComplete(frags, owners, m + 1, a);
      forall u | 0 <= u < |frags[m].text| ensures CellDone(frags[m], owners, u, r) {
        CellDoneKept(frags[m], owners, u, a, r);
      }
    }
  }

  // ---------------------------------------------------------------------------
  // The `none` test keeps every pair unique

  /** The `none` test as an invariant: no connection repeats the pair of
      an earlier one. */
  ghost predicate Distinct(acc: seq<Connection>)
    decreases |acc|
  {
    |acc| == 0 ||
    (Distinct(acc[..|acc| - 1]) && !Present(acc[..|acc| - 1], acc[|acc| - 1].f1, acc[|acc| - 1].f2))
  }

  lemma {:induction false} DistinctUnique(acc: seq<Connection>)
    requires Distinct(acc)
    ensures Unique(acc)
    decreases |acc|
  {
    if |acc| > 0 {
      var p := acc[..|acc| - 1];
      DistinctUnique(p);
      forall a, b | 0 <= a < b < |acc| ensures !(acc[a].f1 == acc[b].f1 && acc[a].f2 == acc[b].f2) {
        assert acc[a] == p[a];
        if b < |p| {
          assert acc[b] == p[b];
        } else {
          assert p[a] in p;
        }
      }
    }
  }

  lemma ConsiderDistinct(f: Fragment, owners: Owners, t: int, n: int, acc: seq<Connection>)
    requires 0 <= n < 4 && Distinct(acc)
    ensures Distinct(Consider(f, owners, t, n, acc))
  {
    var r := Consider(f, owners, t, n, acc);
    if |r| > |acc| {
      assert r[..|r| - 1] == acc;
    }
  }

  lemma {:induction false} ScanNeighboursDistinct(f: Fragment, owners: Owners, t: int, n: nat, acc: seq<Connection>)
    requires n <= 4 && Distinct(acc)
    ensures Distinct(ScanNeighbours(f, owners, t, n, acc))
    decreases 4 - n
  {
    if n < 4 {
      ConsiderDistinct(f, owners, t, n, acc);
      ScanNeighboursDistinct(f, owners, t, n + 1, Consider(f, owners, t, n, acc));
    }
  }

  lemma {:induction false} ScanCellsDistinct(f: Fragment, owners: Owners, t: nat, acc: seq<Connection>)
    requires Distinct(acc)
    ensures Distinct(ScanCells(f, owners, t, acc))
    decreases |f.text| - t
  {
    if t < |f.text| {
      ScanNeighboursDistinct(f, owners, t, 0, acc);
      ScanCellsDistinct(f, owners, t + 1, ScanNeighbours(f, owners, t, 0, acc));
    }
  }

  lemma {:induction false} ScanFragsDistinct(frags: seq<Fragment>, owners: Owners, m: nat, acc: seq<Connection>)
    requires Distinct(acc)
    ensures Distinct(ScanFrags(frags, owners, m, acc))
    decreases |frags| - m
  {
    if m < |frags| {
      ScanCellsDistinct(frags[m], owners, 0, acc);
      ScanFragsDistinct(frags, owners, m + 1, ScanCells(frags[m], owners, 0, acc));
    }
  }

  /** Step 2 of the fragment phase. */
  function Connect(frags: seq<Fragment>, owners: Owners): (r: seq<Connection>)
    ensures Unique(r)
  {
    var r := ScanFrags(frags, owners, 0, []);
    assert Unique(r) by {
      ScanFragsDistinct(frags, owners, 0, []);
      DistinctUnique(r);
    }
    r
  }

  /** Every recorded connection has the smaller id first and names an owned
      neighbour of one of the first fragment's cells; every such neighbour
      pair is recorded. */
  lemma ConnectSpec(frags: seq<Fragment>, owners: Owners)
    ensures AllLinkedSome(frags, owners, Connect(frags, owners), 0)
    ensures forall i, u :: 0 <= i < |frags| && 0 <= u < |frags[i].text| ==> CellDone(frags[i], owners, u, Connect(frags, owners))
  {
    ScanFragsLinked(frags, owners, 0, []);
    ScanFragsComplete(frags, owners, 0, []);
  }

  // ---------------------------------------------------------------------------
  // Connections in terms of the fragments alone

  /** Some cell of f is orthogonally adjacent, along dir, to some cell of g. */
  ghost predicate Touch(f: Fragment, g: Fragment, dir: Direction)
  {
    exists t, u :: 0 <= t < |f.text| && 0 <= u < |g.text| &&
                   Adjacent(FragCell(f, t), FragCell(g, u)) && Axis(FragCell(f, t), FragCell(g, u)) == dir
  }

  /** Connection c joins the fragments with ids c.f1 and c.f2, which touch along c.dir. */
  ghost predicate Joins(frags: seq<Fragment>, c: Connection)
  {
    && 1 <= c.f1 <= |frags| && 1 <= c.f2 <= |frags|
    && Touch(frags[c.f1 - 1], frags[c.f2 - 1], c.dir)
  }

  /** An owned cell is a cell of its owner. */
  lemma OwnerCell(s: Seg, q: Pos) returns (u: int)
    requires OwnersKnown(s) && q in s.owners
    ensures 1 <= s.owners[q] <= |s.frags|
    ensures 0 <= u < |s.frags[s.owners[q] - 1].text| && FragCell(s.frags[s.owners[q] - 1], u) == q
  {
    var g := s.frags[s.owners[q] - 1];
    LineCells(g.solved.0, g.solved.1, g.dir, |g.text|, q);
    u := IndexOn(g.solved.0, g.solved.1, g.dir, q);
  }

  lemma TouchAt(f: Fragment, g: Fragment, t: int, u: int)
    requires 0 <= t < |f.text| && 0 <= u < |g.text| && Adjacent(FragCell(f, t), FragCell(g, u))
    ensures Touch(f, g, Axis(FragCell(f, t), FragCell(g, u)))
  {
  }

  /** A connection recording neighbour n of cell t of fragment m joins
      fragment m to the neighbour's owner. */
  lemma ViaJoins(s: Seg, m: int, t: int, n: int, c: Connection)
    requires OwnersKnown(s) && 0 <= m < |s.frags| && s.frags[m].id == m + 1
    requires 0 <= t < |s.frags[m].text| && 0 <= n < 4 && Via(s.frags[m], s.owners, t, n, c)
    ensures Joins(s.frags, c)
  {
    var f := s.frags[m];
    var p := FragCell(f, t);
    var q := Neighbours(p)[n];
    var u := OwnerCell(s, q);
    assert q in Neighbours(p);
    NeighbourDirIsAxis(p, n);
    TouchAt(f, s.frags[c.f2 - 1], t, u);
  }

  /** With numbered fragments and a faithful ownership map, a linked
      connection joins two touching fragments. */
  lemma LinkedJoins(s: Seg, c: Connection)
    requires Numbered(s) && OwnersKnown(s)
    requires LinkedSome(s.frags, s.owners, c)
    ensures Joins(s.frags, c)
  {
    var m :| 0 <= m < |s.frags| && Linked(s.frags[m], s.owners, c);
    var t, n :| 0 <= t < |s.frags[m].text| && 0 <= n < 4 && Via(s.frags[m], s.owners, t, n, c);
    ViaJoins(s, m, t, n, c);
  }

  /** A cell of the first of two touching fragments has a neighbour owned by
      the second, which has the larger id. */
  lemma TouchCandidate(s: Seg, m1: int, m2: int, dir: Direction) returns (t: int, e: int)
    requires Numbered(s) && OwnsCells(s)
    requires 0 <= m1 < m2 < |s.frags| && Touch(s.frags[m1], s.frags[m2], dir)
    ensures 0 <= t < |s.frags[m1].text| && 0 <= e < 4 && Candidate(s.frags[m1], s.owners, t, e)
    ensures s.owners[Neighbours(FragCell(s.frags[m1], t))[e]] == s.frags[m2].id
  {
    var f, g := s.frags[m1], s.frags[m2];
    var u;
    t, u :| 0 <= t < |f.text| && 0 <= u < |g.text| &&
            Adjacent(FragCell(f, t), FragCell(g, u)) && Axis(FragCell(f, t), FragCell(g, u)) == dir;
    var p, q := FragCell(f, t), FragCell(g, u);
    assert q in Neighbours(p);
    e :| 0 <= e < 4 && Neighbours(p)[e] == q;
  }

  /** Every cell of every fragment is done once the fragment loop ends. */
  lemma ConnectComplete(frags: seq<Fragment>, owners: Owners, i: int, u: int)
    requires 0 <= i < |frags| && 0 <= u < |frags[i].text|
    ensures CellDone(frags[i], owners, u, Connect(frags, owners))
  {
    ScanFragsComplete(frags, owners, 0, []);
  }

  /** With numbered fragments owning their cells, two touching fragments are
      connected, the smaller id first. */
  lemma TouchConnected(s: Seg, m1: int, m2: int, dir: Direction)
    requires Numbered(s) && OwnsCells(s)
    requires 0 <= m1 < m2 < |s.frags|
    requires Touch(s.frags[m1], s.frags[m2], dir)
    ensures Present(Connect(s.frags, s.owners), s.frags[m1].id, s.frags[m2].id)
  {
    var t, e := TouchCandidate(s, m1, m2, dir);
    ConnectComplete(s.frags, s.owners, m1, t);
    assert NeighbourDone(s.frags[m1], s.owners, t, e, Connect(s.frags, s.owners));
  }
}
