/** The Bonza crossword layout: words are written into a sparse grid of letters,
    each new word crossing an already placed one at right angles.

    Positions are (x, y) pairs of grid units; x grows to the right and y grows
    downwards, so a HORIZONTAL word occupies (x + i, y) and a VERTICAL word
    occupies (x, y + i) for each letter index i. */
module BonzaLayout {
  import opened Wrappers
  import Oracle

  datatype Direction = Horizontal | Vertical

  type Pos = (int, int)

  /** The letters written so far, keyed by cell. */
  type Grid = map<Pos, char>

  /** A word that has been written into the grid, with its first cell. */
  datatype PlacedWord = PlacedWord(word: string, x: int, y: int, dir: Direction)

  /** The cell of letter i of a word that starts at (x, y) and runs along dir. */
  function Cell(x: int, y: int, dir: Direction, i: int): Pos
  {
    if dir == Horizontal then (x + i, y) else (x, y + i)
  }

  function CellOf(w: PlacedWord, i: int): Pos
  {
    Cell(w.x, w.y, w.dir, i)
  }

  function Perpendicular(d: Direction): (e: Direction)
    ensures e != d
  {
    if d == Horizontal then Vertical else Horizontal
  }

  /** p lies on the len cells that start at (x, y) and run along dir. */
  predicate OnLine(x: int, y: int, dir: Direction, len: int, p: Pos)
  {
    if dir == Horizontal then p.1 == y && x <= p.0 < x + len
    else p.0 == x && y <= p.1 < y + len
  }

  /** The letter index at which a cell of that line sits. */
  function IndexOn(x: int, y: int, dir: Direction, p: Pos): int
  {
    if dir == Horizontal then p.0 - x else p.1 - y
  }

  predicate OnWord(w: PlacedWord, p: Pos)
  {
    OnLine(w.x, w.y, w.dir, |w.word|, p)
  }

  /** The line's cells are exactly Cell(.., i) for the indices in range. */
  lemma LineCells(x: int, y: int, dir: Direction, len: int, p: Pos)
    ensures OnLine(x, y, dir, len, p) <==>
              (0 <= IndexOn(x, y, dir, p) < len && Cell(x, y, dir, IndexOn(x, y, dir, p)) == p)
    ensures forall i :: IndexOn(x, y, dir, Cell(x, y, dir, i)) == i
  {
  }

  /** Orthogonal adjacency of two cells. */
  predicate Adjacent(p: Pos, q: Pos)
  {
    (p.1 == q.1 && (q.0 == p.0 + 1 || q.0 == p.0 - 1)) || (p.0 == q.0 && (q.1 == p.1 + 1 || q.1 == p.1 - 1))
  }

  /** The four neighbours of a cell, in the order the generator checks them:
      right, left, down, up. */
  function Neighbours(p: Pos): (ns: seq<Pos>)
    ensures |ns| == 4
    ensures forall q :: q in ns <==> Adjacent(p, q)
  {
    [(p.0 + 1, p.1), (p.0 - 1, p.1), (p.0, p.1 + 1), (p.0, p.1 - 1)]
  }

  // ---------------------------------------------------------------------------
  // findIntersection

  /** Letter i of w1 equals letter j of w2. */
  predicate Match(w1: string, w2: string, i: int, j: int)
  {
    0 <= i < |w1| && 0 <= j < |w2| && w1[i] == w2[j]
  }

  /** (a, b) comes strictly before (i, j) in the scan order: row-major over
      the indices of the new word, then of the placed word. */
  predicate Earlier(a: int, b: int, i: int, j: int)
  {
    a < i || (a == i && b < j)
  }

  /** The nested scan resumed at (i, j). */
  function FindFrom(w1: string, w2: string, i: nat, j: nat): (r: Option<(nat, nat)>)
    ensures r.Some? ==> Match(w1, w2, r.value.0, r.value.1) && !Earlier(r.value.0, r.value.1, i, j)
    ensures r.Some? ==> forall a, b :: !Earlier(a, b, i, j) && Earlier(a, b, r.value.0, r.value.1) ==> !Match(w1, w2, a, b)
    ensures r.None? ==> forall a, b :: !Earlier(a, b, i, j) ==> !Match(w1, w2, a, b)
    decreases |w1| - i, |w2| - j
  {
    if i >= |w1| then None
    else if j >= |w2| then FindFrom(w1, w2, i + 1, 0)
    else if w1[i] == w2[j] then Some((i, j))
    else FindFrom(w1, w2, i, j + 1)
  }

  /** `findIntersection(word1, word2)`: the first pair (i, j), in scan order,
      with word1[i] == word2[j]; None when the words share no letter. */
  function FindIntersection(w1: string, w2: string): (r: Option<(nat, nat)>)
    ensures r.Some? ==> Match(w1, w2, r.value.0, r.value.1)
    ensures r.Some? ==> forall a, b :: Earlier(a, b, r.value.0, r.value.1) ==> !Match(w1, w2, a, b)
    ensures r.None? <==> forall a, b :: !Match(w1, w2, a, b)
  {
    FindFrom(w1, w2, 0, 0)
  }

  /** The intersection is characterised by being the first match: any match
      with no earlier match is the one returned. */
  lemma FirstMatchIsFound(w1: string, w2: string, i: nat, j: nat)
    requires Match(w1, w2, i, j)
    requires forall a, b :: Earlier(a, b, i, j) ==> !Match(w1, w2, a, b)
    ensures FindIntersection(w1, w2) == Some((i, j))
  {
    var r := FindIntersection(w1, w2);
    assert r.Some?;
    var (a, b) := r.value;
    assert !Earlier(i, j, a, b);
    assert !Earlier(a, b, i, j);
  }

  /** No intersection exactly when the words have no letter in common. */
  lemma NoIntersectionIffDisjoint(w1: string, w2: string)
    ensures FindIntersection(w1, w2).None? <==> forall c :: !(c in w1 && c in w2)
  {
    if exists c :: c in w1 && c in w2 {
      var c :| c in w1 && c in w2;
      var i :| 0 <= i < |w1| && w1[i] == c;
      var j :| 0 <= j < |w2| && w2[j] == c;
      assert Match(w1, w2, i, j);
    } else {
      forall a, b | 0 <= a < |w1| && 0 <= b < |w2|
        ensures w1[a] != w2[b]
      {
        assert w1[a] in w1 && w2[b] in w2;
      }
    }
  }

  // ---------------------------------------------------------------------------
  // calculatePosition

  /** `calculatePosition(placedWord, charIndexInPlaced, charIndexInNew)`: the
      first cell of the new, perpendicular word. */
  function CalculatePosition(placed: PlacedWord, charIndexInPlaced: int, charIndexInNew: int): (start: Pos)
    ensures Cell(start.0, start.1, Perpendicular(placed.dir), charIndexInNew) == CellOf(placed, charIndexInPlaced)
  {
    if placed.dir == Horizontal then (placed.x + charIndexInPlaced, placed.y - charIndexInNew)
    else (placed.x - charIndexInNew, placed.y + charIndexInPlaced)
  }

  /** The alignment determines the start: any start at which the two letters
      share a cell is the computed one. */
  lemma PositionIsUnique(placed: PlacedWord, charIndexInPlaced: int, charIndexInNew: int, start: Pos)
    requires Cell(start.0, start.1, Perpendicular(placed.dir), charIndexInNew) == CellOf(placed, charIndexInPlaced)
    ensures start == CalculatePosition(placed, charIndexInPlaced, charIndexInNew)
  {
  }

  // ---------------------------------------------------------------------------
  // canPlaceWord

  /** q is the cell just before or just after letter i along the word itself. */
  predicate InFlow(len: int, x: int, y: int, dir: Direction, i: int, q: Pos)
  {
    (i > 0 && q == Cell(x, y, dir, i - 1)) || (i < len - 1 && q == Cell(x, y, dir, i + 1))
  }

  /** Every already written cell the word would cover holds the same letter. */
  ghost predicate LettersAgree(word: string, x: int, y: int, dir: Direction, grid: Grid)
  {
    forall i :: 0 <= i < |word| && Cell(x, y, dir, i) in grid ==> grid[Cell(x, y, dir, i)] == word[i]
  }

  /** No new letter of the word touches a written cell other than its own
      neighbours along the word. */
  ghost predicate NoStrayTouch(word: string, x: int, y: int, dir: Direction, grid: Grid)
  {
    forall i, q :: 0 <= i < |word| && Cell(x, y, dir, i) !in grid && Adjacent(Cell(x, y, dir, i), q) && q in grid ==>
                     InFlow(|word|, x, y, dir, i, q)
  }

  ghost predicate Legal(word: string, x: int, y: int, dir: Direction, grid: Grid)
  {
    LettersAgree(word, x, y, dir, grid) && NoStrayTouch(word, x, y, dir, grid)
  }

  /** The neighbour loop for letter i, resumed at neighbour n. */
  function NeighboursFrom(word: string, x: int, y: int, dir: Direction, grid: Grid, i: int, n: nat): (ok: bool)
    requires n <= 4
    ensures ok <==> forall m :: n <= m < 4 && Neighbours(Cell(x, y, dir, i))[m] in grid ==>
                                  InFlow(|word|, x, y, dir, i, Neighbours(Cell(x, y, dir, i))[m])
    decreases 4 - n
  {
    if n == 4 then true
    else
      var q := Neighbours(Cell(x, y, dir, i))[n];
      (q !in grid || InFlow(|word|, x, y, dir, i, q)) && NeighboursFrom(word, x, y, dir, grid, i, n + 1)
  }

  /** The check for letter i. */
  function CellAllowed(word: string, x: int, y: int, dir: Direction, grid: Grid, i: nat): (ok: bool)
    requires i < |word|
    ensures ok <==> if Cell(x, y, dir, i) in grid then grid[Cell(x, y, dir, i)] == word[i]
                    else forall q :: Adjacent(Cell(x, y, dir, i), q) && q in grid ==> InFlow(|word|, x, y, dir, i, q)
  {
    var p := Cell(x, y, dir, i);
    if p in grid then grid[p] == word[i]
    else
      var ok := NeighboursFrom(word, x, y, dir, grid, i, 0);
      assert ok <==> forall q :: q in Neighbours(p) && q in grid ==> InFlow(|word|, x, y, dir, i, q) by {
        if ok {
          forall q | q in Neighbours(p) && q in grid
            ensures InFlow(|word|, x, y, dir, i, q)
          {
            var m :| 0 <= m < 4 && Neighbours(p)[m] == q;
          }
        }
      }
      ok
  }

  /** The letter loop resumed at letter i. */
  function CanPlaceFrom(word: string, x: int, y: int, dir: Direction, grid: Grid, i: nat): (ok: bool)
    ensures ok <==> forall m :: i <= m < |word| ==> CellAllowed(word, x, y, dir, grid, m)
    decreases |word| - i
  {
    if i >= |word| then true
    else CellAllowed(word, x, y, dir, grid, i) && CanPlaceFrom(word, x, y, dir, grid, i + 1)
  }

  /** `canPlaceWord`: the word fits where every covered written cell holds its
      letter and no new letter touches a written cell off the word's own line. */
  function CanPlaceWord(word: string, x: int, y: int, dir: Direction, grid: Grid): (ok: bool)
    ensures ok <==> Legal(word, x, y, dir, grid)
  {
    var ok := CanPlaceFrom(word, x, y, dir, grid, 0);
    assert ok ==> Legal(word, x, y, dir, grid) by {
      if ok {
        forall i | 0 <= i < |word| && Cell(x, y, dir, i) in grid
          ensures grid[Cell(x, y, dir, i)] == word[i]
        {
          assert CellAllowed(word, x, y, dir, grid, i);
        }
        forall i, q | 0 <= i < |word| && Cell(x, y, dir, i) !in grid && Adjacent(Cell(x, y, dir, i), q) && q in grid
          ensures InFlow(|word|, x, y, dir, i, q)
        {
          assert CellAllowed(word, x, y, dir, grid, i);
        }
      }
    }
    assert Legal(word, x, y, dir, grid) ==> ok by {
      if Legal(word, x, y, dir, grid) {
        forall m | 0 <= m < |word| ensures CellAllowed(word, x, y, dir, grid, m) { }
      }
    }
    ok
  }

  // ---------------------------------------------------------------------------
  // placeWord

  /** The write loop resumed at letter i. */
  function PlaceFrom(word: string, x: int, y: int, dir: Direction, grid: Grid, i: nat): (g: Grid)
    ensures forall p :: p in g <==> p in grid || (OnLine(x, y, dir, |word|, p) && IndexOn(x, y, dir, p) >= i)
    ensures forall p :: OnLine(x, y, dir, |word|, p) && IndexOn(x, y, dir, p) >= i ==> g[p] == word[IndexOn(x, y, dir, p)]
    ensures forall p :: p in grid && !(OnLine(x, y, dir, |word|, p) && IndexOn(x, y, dir, p) >= i) ==> g[p] == grid[p]
    decreases |word| - i
  {
    if i >= |word| then grid
    else PlaceFrom(word, x, y, dir, grid[Cell(x, y, dir, i) := word[i]], i + 1)
  }

  /** `placeWord`: writes each letter into its cell; every other cell keeps
      what it held. */
  function PlaceWord(word: string, x: int, y: int, dir: Direction, grid: Grid): (g: Grid)
    ensures forall p :: p in g <==> p in grid || OnLine(x, y, dir, |word|, p)
    ensures forall i :: 0 <= i < |word| ==> Cell(x, y, dir, i) in g && g[Cell(x, y, dir, i)] == word[i]
    ensures forall p :: p in grid && !OnLine(x, y, dir, |word|, p) ==> g[p] == grid[p]
  {
    var g := PlaceFrom(word, x, y, dir, grid, 0);
    forall i | 0 <= i < |word| ensures g[Cell(x, y, dir, i)] == word[i] {
      LineCells(x, y, dir, |word|, Cell(x, y, dir, i));
    }
    g
  }

  /** After a successful canPlaceWord, placing the word changes no letter that
      was already written. */
  lemma PlaceKeepsLetters(word: string, x: int, y: int, dir: Direction, grid: Grid)
    requires CanPlaceWord(word, x, y, dir, grid)
    ensures forall p :: p in grid ==> p in PlaceWord(word, x, y, dir, grid) && PlaceWord(word, x, y, dir, grid)[p] == grid[p]
  {
    var g := PlaceWord(word, x, y, dir, grid);
    forall p | p in grid
      ensures g[p] == grid[p]
    {
      if OnLine(x, y, dir, |word|, p) {
        LineCells(x, y, dir, |word|, p);
        var i := IndexOn(x, y, dir, p);
        assert Cell(x, y, dir, i) in grid;
      }
    }
  }

  // ---------------------------------------------------------------------------
  // The placement loop of generatePuzzle

  /** The grid, the words written so far, and the next unused draw. */
  datatype Layout = Layout(grid: Grid, placed: seq<PlacedWord>, next: nat)

  /** Every placed word reads correctly in the grid. */
  ghost predicate Spelled(grid: Grid, placed: seq<PlacedWord>)
  {
    forall m, i :: 0 <= m < |placed| && 0 <= i < |placed[m].word| ==>
                     CellOf(placed[m], i) in grid && grid[CellOf(placed[m], i)] == placed[m].word[i]
  }

  ghost predicate OnSome(placed: seq<PlacedWord>, p: Pos)
  {
    exists m :: 0 <= m < |placed| && OnWord(placed[m], p)
  }

  /** Every written cell belongs to some placed word. */
  ghost predicate Covered(grid: Grid, placed: seq<PlacedWord>)
  {
    forall p :: p in grid ==> OnSome(placed, p)
  }

  /** Word m crosses an earlier word at right angles, sharing one cell. */
  ghost predicate CrossesEarlier(placed: seq<PlacedWord>, m: int)
    requires 0 <= m < |placed|
  {
    exists a, i, j :: 0 <= a < m && 0 <= i < |placed[m].word| && 0 <= j < |placed[a].word| &&
                      placed[m].dir == Perpendicular(placed[a].dir) && CellOf(placed[m], i) == CellOf(placed[a], j)
  }

  /** Every word after the first hangs off an earlier one. */
  ghost predicate Anchored(placed: seq<PlacedWord>)
  {
    forall m :: 0 < m < |placed| ==> CrossesEarlier(placed, m)
  }

  ghost predicate WellLaid(l: Layout)
  {
    && |l.placed| > 0
    && Spelled(l.grid, l.placed)
    && Covered(l.grid, l.placed)
    && Anchored(l.placed)
  }

  /** r is the layout of `placed` on `grid` with `word` written legally at
      the end, crossing an earlier word. */
  ghost predicate Extended(placed: seq<PlacedWord>, grid: Grid, r: Layout, word: string)
  {
    && |r.placed| == |placed| + 1
    && r.placed[..|placed|] == placed
    && var w := r.placed[|placed|];
    && w.word == word
    && Legal(word, w.x, w.y, w.dir, grid)
    && r.grid == PlaceWord(word, w.x, w.y, w.dir, grid)
    && CrossesEarlier(r.placed, |placed|)
  }

  const MaxAttempts := 100

  /** The attempt loop for one word, resumed at attempt `attempts`: pick a
      placed word with one draw, cross it at the first shared letter, and
      write the word if it fits. A word that never fits is dropped. */
  function Attempt(word: string, l: Layout, attempts: nat, rng: Oracle.Stream): (r: Layout)
    requires |l.placed| > 0
    ensures r.next >= l.next
    ensures |l.placed| <= |r.placed| <= |l.placed| + 1
    ensures forall m :: 0 <= m < |l.placed| ==> r.placed[m] == l.placed[m]
    ensures forall m :: |l.placed| <= m < |r.placed| ==> r.placed[m].word == word
    ensures |r.placed| == |l.placed| ==> r.placed == l.placed && r.grid == l.grid
    decreases MaxAttempts - attempts
  {
    if attempts >= MaxAttempts then l
    else
      var host := l.placed[Oracle.NextInt(rng, l.next, |l.placed|)];
      var k := l.next + 1;
      match FindIntersection(word, host.word)
      case None => Attempt(word, l.(next := k), attempts + 1, rng)
      case Some(ij) =>
        var dir := Perpendicular(host.dir);
        var start := CalculatePosition(host, ij.1, ij.0);
        if CanPlaceWord(word, start.0, start.1, dir, l.grid) then
          Layout(PlaceWord(word, start.0, start.1, dir, l.grid), l.placed + [PlacedWord(word, start.0, start.1, dir)], k)
        else Attempt(word, l.(next := k), attempts + 1, rng)
  }

  /** The loop over the remaining words, resumed at word i. */
  function PlaceRest(words: seq<string>, i: nat, l: Layout, rng: Oracle.Stream): (r: Layout)
    requires |l.placed| > 0 && i <= |words|
    ensures |l.placed| <= |r.placed|
    ensures forall m :: 0 <= m < |l.placed| ==> r.placed[m] == l.placed[m]
    ensures |r.placed| <= |l.placed| + (|words| - i)
    ensures forall m :: |l.placed| <= m < |r.placed| ==> r.placed[m].word in words
    decreases |words| - i
  {
    if i >= |words| then l
    else
      var a := Attempt(words[i], l, 0, rng);
      PlaceRest(words, i + 1, a, rng)
  }

  /** The first word, written at the origin with a coin for its direction. */
  function First(word: string, rng: Oracle.Stream, k: nat): (l: Layout)
    ensures |l.placed| == 1 && l.placed[0].word == word && l.placed[0].x == 0 && l.placed[0].y == 0
    ensures l.next == k + 1
  {
    var dir := if Oracle.NextBool(rng, k) then Horizontal else Vertical;
    Layout(PlaceWord(word, 0, 0, dir, map[]), [PlacedWord(word, 0, 0, dir)], k + 1)
  }

  /** The first two phases of generatePuzzle for a non-empty word list. */
  function LayOut(words: seq<string>, rng: Oracle.Stream, k: nat): (l: Layout)
    requires |words| > 0
    ensures 0 < |l.placed| <= |words|
    ensures l.placed[0].word == words[0] && l.placed[0].x == 0 && l.placed[0].y == 0
    ensures forall m :: 0 <= m < |l.placed| ==> l.placed[m].word in words
  {
    var f := First(words[0], rng, k);
    PlaceRest(words, 1, f, rng)
  }

  // ---------------------------------------------------------------------------
  // Invariants of the layout

  lemma FirstWellLaid(word: string, rng: Oracle.Stream, k: nat)
    ensures WellLaid(First(word, rng, k))
  {
    var l := First(word, rng, k);
    forall p | p in l.grid ensures OnSome(l.placed, p) {
      assert OnWord(l.placed[0], p);
    }
  }

  lemma ExtendedSpelled(l: Layout, r: Layout, word: string)
    requires Spelled(l.grid, l.placed)
    requires Extended(l.placed, l.grid, r, word)
    ensures Spelled(r.grid, r.placed)
  {
    var n := |l.placed|;
    var w := r.placed[n];
    PlaceKeepsLetters(word, w.x, w.y, w.dir, l.grid);
    forall m, i | 0 <= m < |r.placed| && 0 <= i < |r.placed[m].word|
      ensures CellOf(r.placed[m], i) in r.grid && r.grid[CellOf(r.placed[m], i)] == r.placed[m].word[i]
    {
      if m < n {
        assert r.placed[m] == l.placed[m];
      }
    }
  }

  lemma ExtendedCovered(l: Layout, r: Layout, word: string)
    requires Covered(l.grid, l.placed)
    requires Extended(l.placed, l.grid, r, word)
    ensures Covered(r.grid, r.placed)
  {
    var n := |l.placed|;
    forall p | p in r.grid ensures OnSome(r.placed, p) {
      if p in l.grid {
        var m :| 0 <= m < n && OnWord(l.placed[m], p);
        assert r.placed[m] == l.placed[m];
      } else {
        assert OnWord(r.placed[n], p);
      }
    }
  }

  /** A crossing survives appending words. */
  lemma CrossingKept(placed: seq<PlacedWord>, longer: seq<PlacedWord>, m: int)
    requires 0 <= m < |placed| <= |longer| && longer[..|placed|] == placed
    requires CrossesEarlier(placed, m)
    ensures CrossesEarlier(longer, m)
  {
    var a, i, j :| 0 <= a < m && 0 <= i < |placed[m].word| && 0 <= j < |placed[a].word| &&
                   placed[m].dir == Perpendicular(placed[a].dir) && CellOf(placed[m], i) == CellOf(placed[a], j);
    assert longer[m] == placed[m] && longer[a] == placed[a];
  }

  lemma ExtendedAnchored(placed: seq<PlacedWord>, longer: seq<PlacedWord>)
    requires Anchored(placed)
    requires |longer| == |placed| + 1 && longer[..|placed|] == placed && CrossesEarlier(longer, |placed|)
    ensures Anchored(longer)
  {
    forall m | 0 < m < |placed| ensures CrossesEarlier(longer, m) {
      CrossingKept(placed, longer, m);
    }
  }

  /** Writing a legal word keeps the earlier words spelled and every cell
      accounted for, and the new word crosses an earlier one. */
  lemma ExtendedWellLaid(l: Layout, r: Layout, word: string)
    requires WellLaid(l)
    requires Extended(l.placed, l.grid, r, word)
    ensures WellLaid(r)
  {
    ExtendedSpelled(l, r, word);
    ExtendedCovered(l, r, word);
    ExtendedAnchored(l.placed, r.placed);
  }

  /** Writing a word where it fits, crossing placed word hi at the first
      shared letter, extends the layout. */
  lemma CrossingExtends(word: string, l: Layout, hi: int, ij: (nat, nat), k: nat)
    requires 0 <= hi < |l.placed| && FindIntersection(word, l.placed[hi].word) == Some(ij)
    requires var host := l.placed[hi];
             var start := CalculatePosition(host, ij.1, ij.0);
             CanPlaceWord(word, start.0, start.1, Perpendicular(host.dir), l.grid)
    ensures var host := l.placed[hi];
            var start := CalculatePosition(host, ij.1, ij.0);
            var dir := Perpendicular(host.dir);
            Extended(l.placed, l.grid, Layout(PlaceWord(word, start.0, start.1, dir, l.grid), l.placed + [PlacedWord(word, start.0, start.1, dir)], k), word)
  {
    var host := l.placed[hi];
    var start := CalculatePosition(host, ij.1, ij.0);
    var dir := Perpendicular(host.dir);
    var placed := l.placed + [PlacedWord(word, start.0, start.1, dir)];
    assert placed[..|l.placed|] == l.placed;
    assert placed[hi] == host;
    assert CellOf(placed[|l.placed|], ij.0) == CellOf(placed[hi], ij.1);
  }

  /** Attempt number `attempts` writes nothing: the chosen word shares no
      letter with `word`, or the crossing position does not fit. */
  ghost predicate Skips(word: string, l: Layout, attempts: nat, rng: Oracle.Stream)
    requires |l.placed| > 0
  {
    && attempts < MaxAttempts
    && var host := l.placed[Oracle.NextInt(rng, l.next, |l.placed|)];
    && match FindIntersection(word, host.word)
       case None => true
       case Some(ij) =>
         var start := CalculatePosition(host, ij.1, ij.0);
         !CanPlaceWord(word, start.0, start.1, Perpendicular(host.dir), l.grid)
  }

  /** A skipped attempt only spends its draw. */
  lemma AttemptSkip(word: string, l: Layout, attempts: nat, rng: Oracle.Stream)
    requires |l.placed| > 0 && Skips(word, l, attempts, rng)
    ensures Attempt(word, l, attempts, rng) == Attempt(word, l.(next := l.next + 1), attempts + 1, rng)
  {
  }

  /** A word the attempt loop writes is written legally, crossing the word
      it was matched against. */
  lemma {:induction false} AttemptExtends(word: string, l: Layout, attempts: nat, rng: Oracle.Stream)
    requires |l.placed| > 0
    ensures var r := Attempt(word, l, attempts, rng);
            |r.placed| != |l.placed| ==> Extended(l.placed, l.grid, r, word)
    decreases MaxAttempts - attempts
  {
    if Skips(word, l, attempts, rng) {
      AttemptSkip(word, l, attempts, rng);
      AttemptExtends(word, l.(next := l.next + 1), attempts + 1, rng);
    } else if attempts < MaxAttempts {
      var hi := Oracle.NextInt(rng, l.next, |l.placed|);
      var ij := FindIntersection(word, l.placed[hi].word).value;
      CrossingExtends(word, l, hi, ij, l.next + 1);
    }
  }

  lemma {:induction false} AttemptWellLaid(word: string, l: Layout, attempts: nat, rng: Oracle.Stream)
    requires WellLaid(l)
    ensures WellLaid(Attempt(word, l, attempts, rng))
  {
    var r := Attempt(word, l, attempts, rng);
    if |r.placed| != |l.placed| {
      AttemptExtends(word, l, attempts, rng);
      ExtendedWellLaid(l, r, word);
    }
  }

  lemma {:induction false} PlaceRestWellLaid(words: seq<string>, i: nat, l: Layout, rng: Oracle.Stream)
    requires WellLaid(l) && i <= |words|
    ensures WellLaid(PlaceRest(words, i, l, rng))
    decreases |words| - i
  {
    if i < |words| {
      AttemptWellLaid(words[i], l, 0, rng);
      PlaceRestWellLaid(words, i + 1, Attempt(words[i], l, 0, rng), rng);
    }
  }

  /** After the placement loop every placed word reads correctly in the grid,
      every written cell belongs to a placed word, and every word after the
      first crosses an earlier one at right angles. */
  lemma LayOutWellLaid(words: seq<string>, rng: Oracle.Stream, k: nat)
    requires |words| > 0
    ensures WellLaid(LayOut(words, rng, k))
  {
    FirstWellLaid(words[0], rng, k);
    PlaceRestWellLaid(words, 1, First(words[0], rng, k), rng);
  }

  lemma {:induction false} NoIntersectionDropped(word: string, l: Layout, attempts: nat, rng: Oracle.Stream)
    requires |l.placed| > 0
    requires forall m :: 0 <= m < |l.placed| ==> FindIntersection(word, l.placed[m].word).None?
    ensures Attempt(word, l, attempts, rng).placed == l.placed
    ensures Attempt(word, l, attempts, rng).grid == l.grid
    decreases MaxAttempts - attempts
  {
    if attempts < MaxAttempts {
      var h := Oracle.NextInt(rng, l.next, |l.placed|);
      assert FindIntersection(word, l.placed[h].word).None?;
      NoIntersectionDropped(word, l.(next := l.next + 1), attempts + 1, rng);
    }
  }

  /** A word that shares no letter with any placed word is silently dropped:
      every attempt finds no intersection. */
  lemma DisjointWordDropped(word: string, l: Layout, rng: Oracle.Stream)
    requires |l.placed| > 0
    requires forall m, c :: 0 <= m < |l.placed| && c in l.placed[m].word ==> c !in word
    ensures Attempt(word, l, 0, rng).placed == l.placed
    ensures Attempt(word, l, 0, rng).grid == l.grid
  {
    forall m | 0 <= m < |l.placed| ensures FindIntersection(word, l.placed[m].word).None? {
      NoIntersectionIffDisjoint(word, l.placed[m].word);
    }
    NoIntersectionDropped(word, l, 0, rng);
  }
}
