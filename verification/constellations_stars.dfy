/** Star placement of `ConstellationsPuzzleGenerator`: one star per row, found
    by backtracking over a shuffled column order, with distinct columns and no
    two stars touching, diagonals included. */
module ConstellationsStars {
  import opened Oracle
  import opened ConstellationsData

  function ColumnUsed(stars: seq<Pos>, col: int): (b: bool)
    ensures b <==> exists i :: 0 <= i < |stars| && stars[i].1 == col
  {
    if |stars| == 0 then false
    else stars[|stars| - 1].1 == col || ColumnUsed(stars[..|stars| - 1], col)
  }

  function Crowded(stars: seq<Pos>, at: Pos): (b: bool)
    ensures b <==> exists i :: 0 <= i < |stars| && Touching(stars[i], at)
  {
    if |stars| == 0 then false
    else Touching(stars[|stars| - 1], at) || Crowded(stars[..|stars| - 1], at)
  }

  /** `isValidStarPlacement`: no star already uses the column and none touches
      the cell. */
  function IsValidStarPlacement(row: int, col: int, stars: seq<Pos>): (ok: bool)
    ensures ok <==> forall i :: 0 <= i < |stars| ==> stars[i].1 != col && !Touching(stars[i], (row, col))
  {
    !ColumnUsed(stars, col) && !Crowded(stars, (row, col))
  }

  /** Stars for the first |stars| rows of a size×size grid: star i is in row
      i, columns are in range and pairwise distinct, and no two stars touch. */
  ghost predicate Placed(stars: seq<Pos>, size: int)
  {
    && (forall i :: 0 <= i < |stars| ==> stars[i].0 == i && 0 <= stars[i].1 < size)
    && (forall i, j :: 0 <= i < j < |stars| ==> stars[i].1 != stars[j].1 && !Touching(stars[i], stars[j]))
  }

  /** Some complete placement starts with `stars`. */
  ghost predicate Extendable(stars: seq<Pos>, size: int)
  {
    exists full :: |full| == size && |stars| <= size && Placed(full, size) && full[..|stars|] == stars
  }

  function Range(n: nat): (s: seq<int>)
    ensures |s| == n
    ensures forall i :: 0 <= i < n ==> s[i] == i
  {
    seq(n, i => i)
  }

  /** The outcome of a search: whether it succeeded, the star list afterwards,
      and the index of the next unused random draw. */
  datatype Search = Search(ok: bool, stars: seq<Pos>, next: nat)

  /** `solveStars(size, row, stars, random)`. On success the list holds a
      complete placement extending the input; on failure it is the input again. */
  function SolveStars(size: int, row: int, stars: seq<Pos>, rng: Stream, k: nat): (r: Search)
    requires 0 <= row <= size && |stars| == row && Placed(stars, size)
    ensures r.ok ==> |r.stars| == size && Placed(r.stars, size) && r.stars[..row] == stars
    ensures !r.ok ==> r.stars == stars
    decreases size - row, 1, 0
  {
    if row == size then Search(true, stars, k)
    else
      var cols := Shuffle(Range(size), rng, k);
      ShuffledColumns(size, rng, k);
      TryCols(size, row, stars, cols, 0, rng, k + ShuffleDraws(size))
  }

  /** The `for (col in cols)` loop of `solveStars`, from position i on. A
      failed deeper search hands back its list, whose last star is removed
      before the next column is tried. */
  function TryCols(size: int, row: int, stars: seq<Pos>, cols: seq<int>, i: nat, rng: Stream, k: nat): (r: Search)
    requires 0 <= row < size && |stars| == row && Placed(stars, size)
    requires forall j :: 0 <= j < |cols| ==> 0 <= cols[j] < size
    requires i <= |cols|
    ensures r.ok ==> |r.stars| == size && Placed(r.stars, size) && r.stars[..row] == stars
    ensures !r.ok ==> r.stars == stars
    decreases size - row, 0, |cols| - i
  {
    if i == |cols| then Search(false, stars, k)
    else
      var col := cols[i];
      if IsValidStarPlacement(row, col, stars) then
        var sub := SolveStars(size, row + 1, stars + [(row, col)], rng, k);
        if sub.ok then
          assert sub.stars[..row] == (sub.stars[..row + 1])[..row];
          sub
        else
          TryCols(size, row, sub.stars[..|sub.stars| - 1], cols, i + 1, rng, sub.next)
      else
        TryCols(size, row, stars, cols, i + 1, rng, k)
  }

  /** `placeStars`: a complete placement, or the empty list when the search fails. */
  function PlaceStars(size: int, rng: Stream, k: nat): (r: (seq<Pos>, nat))
    requires size >= 0
    ensures r.0 == [] || (|r.0| == size && Placed(r.0, size))
    ensures r.0 == [] && size > 0 ==> !Extendable([], size)
  {
    var s := SolveStars(size, 0, [], rng, k);
    SolveComplete(size, 0, [], rng, k);
    if s.ok then (s.stars, s.next) else ([], s.next)
  }

  // ---------------------------------------------------------------------------
  // Completeness of the backtracking: it fails only when no placement exists.

  lemma SolveComplete(size: int, row: int, stars: seq<Pos>, rng: Stream, k: nat)
    requires 0 <= row <= size && |stars| == row && Placed(stars, size)
    ensures Extendable(stars, size) ==> SolveStars(size, row, stars, rng, k).ok
    decreases size - row, 1, 0
  {
    if row < size && Extendable(stars, size) {
      var c := NextStep(stars, size);
      var cols := Shuffle(Range(size), rng, k);
      ShuffledColumns(size, rng, k);
      assert c in cols;
      var j :| 0 <= j < |cols| && cols[j] == c;
      TryComplete(size, row, stars, cols, 0, j, rng, k + ShuffleDraws(size));
    }
  }

  /** A placement that can be completed has a next column that is valid and
      keeps it completable. */
  lemma NextStep(stars: seq<Pos>, size: int) returns (c: int)
    requires |stars| < size && Extendable(stars, size)
    ensures IsValidStarPlacement(|stars|, c, stars)
    ensures Extendable(stars + [(|stars|, c)], size)
    ensures 0 <= c < size
  {
    var full: seq<Pos> :| |full| == size && |stars| <= size && Placed(full, size) && full[..|stars|] == stars;
    var row := |stars|;
    c := full[row].1;
    assert full[row] == (row, c);
    forall i | 0 <= i < |stars|
      ensures stars[i].1 != c && !Touching(stars[i], (row, c))
    {
      assert stars[i] == full[i];
    }
    assert full[..row + 1] == stars + [(row, c)];
  }

  lemma TryComplete(size: int, row: int, stars: seq<Pos>, cols: seq<int>, i: nat, j: nat, rng: Stream, k: nat)
    requires 0 <= row < size && |stars| == row && Placed(stars, size)
    requires forall m :: 0 <= m < |cols| ==> 0 <= cols[m] < size
    requires i <= j < |cols|
    requires IsValidStarPlacement(row, cols[j], stars) && Extendable(stars + [(row, cols[j])], size)
    ensures TryCols(size, row, stars, cols, i, rng, k).ok
    decreases size - row, 0, |cols| - i
  {
    var col := cols[i];
    if IsValidStarPlacement(row, col, stars) {
      var sub := SolveStars(size, row + 1, stars + [(row, col)], rng, k);
      if i == j {
        SolveComplete(size, row + 1, stars + [(row, col)], rng, k);
      } else if !sub.ok {
        assert sub.stars[..|sub.stars| - 1] == stars;
        TryComplete(size, row, stars, cols, i + 1, j, rng, sub.next);
      }
    } else {
      TryComplete(size, row, stars, cols, i + 1, j, rng, k);
    }
  }

  // ---------------------------------------------------------------------------

  /** The shuffled column order lists exactly the columns 0 .. size-1. */
  lemma ShuffledColumns(size: int, rng: Stream, k: nat)
    requires size >= 0
    ensures forall j :: 0 <= j < |Shuffle(Range(size), rng, k)| ==> 0 <= Shuffle(Range(size), rng, k)[j] < size
    ensures forall c :: 0 <= c < size ==> c in Shuffle(Range(size), rng, k)
  {
    var cols := Shuffle(Range(size), rng, k);
    ShuffleSameElements(Range(size), rng, k);
    forall j | 0 <= j < |cols|
      ensures 0 <= cols[j] < size
    {
      assert cols[j] in Range(size);
    }
    forall c | 0 <= c < size
      ensures c in cols
    {
      assert Range(size)[c] == c;
    }
  }

  /** The integers 0 .. n-1. */
  function Upto(n: nat): (s: set<int>)
    ensures forall c :: c in s <==> 0 <= c < n
    ensures |s| == n
  {
    if n == 0 then {} else Upto(n - 1) + {n - 1}
  }

  function Columns(stars: seq<Pos>): set<int>
  {
    set i | 0 <= i < |stars| :: stars[i].1
  }

  /** Every complete placement uses each column exactly once. */
  lemma PlacedColumnsArePermutation(stars: seq<Pos>, size: int)
    requires |stars| == size && Placed(stars, size)
    ensures Columns(stars) == Upto(size)
  {
    InjectiveImage(stars, size);
    assert stars[..size] == stars;
    assert Columns(stars) <= Upto(size);
    SubsetSameSize(Columns(stars), Upto(size));
  }

  lemma {:induction false} InjectiveImage(stars: seq<Pos>, n: nat)
    requires n <= |stars|
    requires forall i, j :: 0 <= i < j < n ==> stars[i].1 != stars[j].1
    ensures |Columns(stars[..n])| == n
  {
    if n > 0 {
      InjectiveImage(stars, n - 1);
      var prefix := stars[..n - 1];
      assert Columns(stars[..n]) == Columns(prefix) + {stars[n - 1].1} by {
        assert forall i :: 0 <= i < n - 1 ==> stars[..n][i] == prefix[i];
      }
      assert stars[n - 1].1 !in Columns(prefix);
    }
  }

  lemma {:induction false} SubsetSize<T>(a: set<T>, b: set<T>)
    requires a <= b
    ensures |a| <= |b|
    decreases a
  {
    if a != {} {
      var x :| x in a;
      SubsetSize(a - {x}, b - {x});
    }
  }

  lemma SubsetSameSize<T>(a: set<T>, b: set<T>)
    requires a <= b && |a| == |b|
    ensures a == b
  {
    if a != b {
      var x :| x in b && x !in a;
      SubsetSize(a, b - {x});
    }
  }

  /** No placement exists on a 2×2 or 3×3 grid: the stars of adjacent rows
      would need columns two apart, and no such columns are left. */
  lemma NoSmallPlacement(full: seq<Pos>, size: int)
    requires size == 2 || size == 3
    requires |full| == size
    ensures !Placed(full, size)
  {
    var a, b := full[0], full[1];
    if size == 3 {
      var c := full[2];
    }
  }

  /** So star placement on a 2×2 or 3×3 grid fails whatever the random draws. */
  lemma SmallGridsGetNoStars(size: int, rng: Stream, k: nat)
    requires size == 2 || size == 3
    ensures PlaceStars(size, rng, k).0 == []
  {
    var stars := PlaceStars(size, rng, k).0;
    if |stars| == size {
      NoSmallPlacement(stars, size);
    }
  }

  /** One placement of eight stars on the 8×8 grid. */
  const EightPlaced: seq<Pos> := [(0, 0), (1, 2), (2, 4), (3, 6), (4, 1), (5, 3), (6, 5), (7, 7)]

  lemma EightPlacedIsPlaced()
    ensures Placed(EightPlaced, 8)
  {
    var s := EightPlaced;
    forall i, j | 0 <= i < j < 8 ensures s[i].1 != s[j].1 && !Touching(s[i], s[j]) {
      if j > i + 1 {
        assert s[j].0 - s[i].0 > 1;
      } else {
        assert s[j].1 - s[i].1 > 1 || s[i].1 - s[j].1 > 1;
      }
    }
  }

  /** The default 8×8 grid always gets eight stars, whatever the random draws. */
  lemma EightStarsAlwaysPlaced(rng: Stream, k: nat)
    ensures |PlaceStars(8, rng, k).0| == 8
  {
    EightPlacedIsPlaced();
    assert EightPlaced[..0] == [];
    assert Extendable([], 8);
  }
}
