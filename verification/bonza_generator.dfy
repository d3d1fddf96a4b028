/** `BonzaPuzzleGenerator.generate`: pick a theme, lay its words out as a
    crossword, cut the words into fragments, derive which fragments touch,
    scatter the fragments and shuffle them. */
module BonzaGenerator {
  import opened Wrappers
  import Oracle
  import opened BonzaLayout
  import opened BonzaFragments
  import opened BonzaConnections

  /** `BonzaPuzzleTheme(theme, words)`. */
  datatype Theme = Theme(theme: string, words: seq<string>)

  /** `BonzaPuzzle(theme, words, fragments, connections, solvedFragments)`. */
  datatype Puzzle = Puzzle(theme: string, words: seq<string>, fragments: seq<Fragment>,
                           connections: seq<Connection>, solved: seq<Fragment>)

  /** The solved layout and its segmentation, before scattering. */
  datatype Build = Build(layout: Layout, seg: Seg)

  /** A fragment with its scatter positions forgotten. */
  function Unspot(f: Fragment): Fragment
  {
    f.(initial := Zero, current := Zero)
  }

  /** The `map` of step 3: fragment m takes draws k + 2m and k + 2m + 1 as its
      x and y, for both its initial and its current position. */
  function Scatter(frags: seq<Fragment>, rng: Oracle.Stream, k: nat): (r: seq<Fragment>)
    ensures |r| == |frags|
    ensures forall m :: 0 <= m < |r| ==> r[m].initial == r[m].current == Scattered(rng(k + 2 * m), rng(k + 2 * m + 1))
    decreases |frags|
  {
    if |frags| == 0 then []
    else
      var spot := Scattered(rng(k), rng(k + 1));
      [frags[0].(initial := spot, current := spot)] + Scatter(frags[1..], rng, k + 2)
  }

  /** Scattering changes nothing but the two positions. */
  lemma {:induction false} ScatterOnlyMoves(frags: seq<Fragment>, rng: Oracle.Stream, k: nat)
    ensures forall m :: 0 <= m < |frags| ==> Unspot(Scatter(frags, rng, k)[m]) == Unspot(frags[m])
    decreases |frags|
  {
    if |frags| > 0 {
      ScatterOnlyMoves(frags[1..], rng, k + 2);
      var r := Scatter(frags, rng, k);
      forall m | 0 <= m < |frags| ensures Unspot(r[m]) == Unspot(frags[m]) {
        if m > 0 {
          assert r[m] == Scatter(frags[1..], rng, k + 2)[m - 1];
          assert frags[1..][m - 1] == frags[m];
        }
      }
    }
  }

  /** Phases 1 and 2: the first word with a coin-flip direction at draw 1,
      then the remaining words, then the segmentation. Draw 0 chose the theme. */
  function BuildFor(words: seq<string>, rng: Oracle.Stream): (b: Build)
    requires |words| > 0
    ensures 0 < |b.layout.placed| <= |words|
    ensures b.seg.next >= b.layout.next
  {
    var l := LayOut(words, rng, 1);
    Build(l, Segment(l.placed, rng, l.next))
  }

  /** The theme chosen by `puzzleThemes.random(random)`. */
  function Chosen(themes: seq<Theme>, rng: Oracle.Stream): Theme
    requires |themes| > 0
  {
    themes[Oracle.NextInt(rng, 0, |themes|)]
  }

  /** `generatePuzzle`. None where the source throws: an empty theme list
      (`random`) or a chosen theme without words (`first`). */
  function Generate(themes: seq<Theme>, rng: Oracle.Stream): (r: Option<Puzzle>)
    ensures r.None? <==> |themes| == 0 || |Chosen(themes, rng).words| == 0
    ensures r.Some? ==> r.value.theme == Chosen(themes, rng).theme && r.value.words == Chosen(themes, rng).words
    ensures r.Some? ==> |r.value.fragments| == |r.value.solved|
  {
    if |themes| == 0 then None
    else
      var th := Chosen(themes, rng);
      if |th.words| == 0 then None
      else
        var b := BuildFor(th.words, rng);
        var s := b.seg;
        var scattered := Scatter(s.frags, rng, s.next);
        var shuffled := Oracle.Shuffle(scattered, rng, s.next + 2 * |s.frags|);
        Some(Puzzle(th.theme, th.words, shuffled, Connect(s.frags, s.owners), s.frags))
  }

  // ---------------------------------------------------------------------------
  // What a generated puzzle satisfies

  /** The solved fragments are numbered 1.. in order, each with its own group
      and no position yet, and each is a non-empty piece of a theme word. */
  lemma GenerateNumbered(themes: seq<Theme>, rng: Oracle.Stream)
    requires Generate(themes, rng).Some?
    ensures var p := Generate(themes, rng).value;
            forall m :: 0 <= m < |p.solved| ==>
              && p.solved[m].id == m + 1 && p.solved[m].groupId == m + 1
              && p.solved[m].initial == Zero && p.solved[m].current == Zero
              && 0 < |p.solved[m].text|
  {
    var th := Chosen(themes, rng);
    var b := BuildFor(th.words, rng);
    SegmentSound(b.layout.placed, rng, b.layout.next);
  }

  /** Generate's result, stage by stage. */
  lemma GenerateParts(themes: seq<Theme>, rng: Oracle.Stream)
    requires Generate(themes, rng).Some?
    ensures var b := BuildFor(Chosen(themes, rng).words, rng);
            var p := Generate(themes, rng).value;
            && p.solved == b.seg.frags
            && p.connections == Connect(b.seg.frags, b.seg.owners)
            && p.fragments == Oracle.Shuffle(Scatter(b.seg.frags, rng, b.seg.next), rng, b.seg.next + 2 * |b.seg.frags|)
  {
  }

  /** text is the run of w's letters starting at letter st. */
  predicate Occurs(text: string, w: string, st: int)
  {
    0 <= st && st + |text| <= |w| && text == w[st..st + |text|]
  }

  ghost predicate InSomeWord(text: string, words: seq<string>)
  {
    exists j, st :: 0 <= j < |words| && Occurs(text, words[j], st)
  }

  /** Letter c of the solved picture sits at q on one of frags. */
  ghost predicate LetterOn(frags: seq<Fragment>, q: Pos, c: char)
  {
    exists m, t :: 0 <= m < |frags| && 0 <= t < |frags[m].text| && FragCell(frags[m], t) == q && frags[m].text[t] == c
  }

  /** Every letter of every laid-out word is on some fragment. */
  ghost predicate Tiled(placed: seq<PlacedWord>, frags: seq<Fragment>)
  {
    forall j, i :: 0 <= j < |placed| && 0 <= i < |placed[j].word| ==> LetterOn(frags, CellOf(placed[j], i), placed[j].word[i])
  }

  /** No cell is on two fragments. */
  ghost predicate Disjoint(frags: seq<Fragment>)
  {
    forall m1, m2, q :: 0 <= m1 < |frags| && 0 <= m2 < |frags| && OnFragment(frags[m1], q) && OnFragment(frags[m2], q) ==> m1 == m2
  }

  lemma BuildPieces(words: seq<string>, rng: Oracle.Stream)
    requires |words| > 0
    ensures var s := BuildFor(words, rng).seg;
            forall m :: 0 <= m < |s.frags| ==> InSomeWord(s.frags[m].text, words)
  {
    var b := BuildFor(words, rng);
    var placed := b.layout.placed;
    SegmentSound(placed, rng, b.layout.next);
    assert Pieces(b.seg, placed);
    forall m | 0 <= m < |b.seg.frags| ensures InSomeWord(b.seg.frags[m].text, words) {
      var f := b.seg.frags[m];
      assert PieceOf(f, placed);
      var i, st :| 0 <= i < |placed| && PieceAt(f, placed[i], st);
      assert placed[i].word in words;
      var j :| 0 <= j < |words| && words[j] == placed[i].word;
      assert Occurs(f.text, words[j], st);
    }
  }

  /** An owned cell of a spelled layout carries its letter on its owner. */
  lemma OwnerCarries(grid: Grid, placed: seq<PlacedWord>, s: Seg, j: int, i: int)
    requires Spelled(grid, placed) && OwnersKnown(s) && Pieces(s, placed)
    requires 0 <= j < |placed| && 0 <= i < |placed[j].word| && CellOf(placed[j], i) in s.owners
    ensures LetterOn(s.frags, CellOf(placed[j], i), placed[j].word[i])
  {
    var q := CellOf(placed[j], i);
    var t := OwnerCell(s, q);
    var m := s.owners[q] - 1;
    assert PieceOf(s.frags[m], placed);
    FragmentReadsGrid(grid, placed, s.frags[m]);
  }

  lemma SoundTiles(grid: Grid, placed: seq<PlacedWord>, s: Seg)
    requires Spelled(grid, placed) && Sound(s, placed) && WordsOwned(placed, |placed|, s.owners)
    ensures Tiled(placed, s.frags)
  {
    forall j, i | 0 <= j < |placed| && 0 <= i < |placed[j].word|
      ensures LetterOn(s.frags, CellOf(placed[j], i), placed[j].word[i])
    {
      OwnerCarries(grid, placed, s, j, i);
    }
  }

  lemma SoundDisjoint(s: Seg, placed: seq<PlacedWord>)
    requires Sound(s, placed)
    ensures Disjoint(s.frags)
  {
    forall m1, m2, q | 0 <= m1 < |s.frags| && 0 <= m2 < |s.frags| &&
                       OnFragment(s.frags[m1], q) && OnFragment(s.frags[m2], q)
      ensures m1 == m2
    {
      FragmentsDisjoint(s, placed, m1, m2, q);
    }
  }

  lemma BuildTiles(words: seq<string>, rng: Oracle.Stream)
    requires |words| > 0
    ensures var b := BuildFor(words, rng);
            Tiled(b.layout.placed, b.seg.frags) && Disjoint(b.seg.frags)
  {
    var b := BuildFor(words, rng);
    var l, s := b.layout, b.seg;
    LayOutWellLaid(words, rng, 1);
    SegmentSound(l.placed, rng, l.next);
    SoundTiles(l.grid, l.placed, s);
    SoundDisjoint(s, l.placed);
  }

  /** Every solved fragment is a run of consecutive letters of a theme word. */
  lemma GeneratePieces(themes: seq<Theme>, rng: Oracle.Stream)
    requires Generate(themes, rng).Some?
    ensures var p := Generate(themes, rng).value;
            forall m :: 0 <= m < |p.solved| ==> InSomeWord(p.solved[m].text, p.words)
  {
    GenerateParts(themes, rng);
    BuildPieces(Chosen(themes, rng).words, rng);
  }

  /** In the solved layout the fragments tile the words: every letter of
      every laid-out word lies on a solved fragment that carries that letter,
      and no cell lies on two fragments. */
  lemma GenerateTiles(themes: seq<Theme>, rng: Oracle.Stream)
    requires Generate(themes, rng).Some?
    ensures var p := Generate(themes, rng).value;
            && Tiled(BuildFor(Chosen(themes, rng).words, rng).layout.placed, p.solved)
            && Disjoint(p.solved)
  {
    GenerateParts(themes, rng);
    BuildTiles(Chosen(themes, rng).words, rng);
  }

  /** Every dealt fragment is a solved fragment with its two positions set
      to the same scattered spot. */
  lemma ShuffledAreScattered(frags: seq<Fragment>, rng: Oracle.Stream, k: nat, k2: nat)
    requires forall m :: 0 <= m < |frags| ==> frags[m].initial == Zero && frags[m].current == Zero
    ensures forall f :: f in Oracle.Shuffle(Scatter(frags, rng, k), rng, k2) ==>
                          Unspot(f) in frags && f.initial == f.current && f.initial.Scattered?
  {
    var sc := Scatter(frags, rng, k);
    Oracle.ShuffleSameElements(sc, rng, k2);
    ScatterOnlyMoves(frags, rng, k);
    forall f | f in Oracle.Shuffle(sc, rng, k2) ensures Unspot(f) in frags && f.initial == f.current && f.initial.Scattered? {
      var m :| 0 <= m < |sc| && sc[m] == f;
      assert Unspot(frags[m]) == frags[m];
    }
  }

  /** Every solved fragment is dealt, scattered. */
  lemma SolvedAreDealt(frags: seq<Fragment>, rng: Oracle.Stream, k: nat, k2: nat)
    requires forall m :: 0 <= m < |frags| ==> frags[m].initial == Zero && frags[m].current == Zero
    ensures forall g :: g in frags ==> exists f :: f in Oracle.Shuffle(Scatter(frags, rng, k), rng, k2) && Unspot(f) == g
  {
    var sc := Scatter(frags, rng, k);
    Oracle.ShuffleSameElements(sc, rng, k2);
    ScatterOnlyMoves(frags, rng, k);
    forall g | g in frags ensures exists f :: f in Oracle.Shuffle(sc, rng, k2) && Unspot(f) == g {
      var m :| 0 <= m < |frags| && frags[m] == g;
      assert Unspot(frags[m]) == frags[m];
      assert sc[m] in Oracle.Shuffle(sc, rng, k2);
    }
  }

  /** dealt holds the solved fragments, each with its two positions set to
      the same scattered spot, and nothing else. */
  ghost predicate Dealt(dealt: seq<Fragment>, solved: seq<Fragment>)
  {
    && (forall f :: f in dealt ==> Unspot(f) in solved && f.initial == f.current && f.initial.Scattered?)
    && (forall g :: g in solved ==> exists f :: f in dealt && Unspot(f) == g)
  }

  lemma DealtFrom(frags: seq<Fragment>, rng: Oracle.Stream, k: nat, k2: nat)
    requires forall m :: 0 <= m < |frags| ==> frags[m].initial == Zero && frags[m].current == Zero
    ensures Dealt(Oracle.Shuffle(Scatter(frags, rng, k), rng, k2), frags)
  {
    ShuffledAreScattered(frags, rng, k, k2);
    SolvedAreDealt(frags, rng, k, k2);
  }

  /** The fragments handed to the player are the solved fragments, scattered
      and shuffled: the same multiset of scattered fragments, each of which is
      a solved fragment apart from its two positions. */
  lemma GenerateShuffled(themes: seq<Theme>, rng: Oracle.Stream)
    requires Generate(themes, rng).Some?
    ensures var p := Generate(themes, rng).value;
            && multiset(p.fragments) == multiset(Scatter(p.solved, rng, BuildFor(Chosen(themes, rng).words, rng).seg.next))
            && Dealt(p.fragments, p.solved)
  {
    var b := BuildFor(Chosen(themes, rng).words, rng);
    GenerateParts(themes, rng);
    SegmentSound(b.layout.placed, rng, b.layout.next);
    assert Numbered(b.seg);
    DealtFrom(b.seg.frags, rng, b.seg.next, b.seg.next + 2 * |b.seg.frags|);
  }

  /** Every connection joins two distinct fragments that touch, smaller id
      first; no pair is listed twice; and every two touching fragments are
      listed. */
  lemma GenerateConnections(themes: seq<Theme>, rng: Oracle.Stream)
    requires Generate(themes, rng).Some?
    ensures var p := Generate(themes, rng).value;
            && Unique(p.connections)
            && (forall k :: 0 <= k < |p.connections| ==>
                  p.connections[k].f1 < p.connections[k].f2 && Joins(p.solved, p.connections[k]))
            && (forall m1, m2, dir :: 0 <= m1 < m2 < |p.solved| && Touch(p.solved[m1], p.solved[m2], dir) ==>
                  Present(p.connections, m1 + 1, m2 + 1))
  {
    var b := BuildFor(Chosen(themes, rng).words, rng);
    var s := b.seg;
    var p := Generate(themes, rng).value;
    SegmentSound(b.layout.placed, rng, b.layout.next);
    assert Numbered(s) && OwnersKnown(s) && OwnsCells(s);
    ConnectSpec(s.frags, s.owners);
    forall k | 0 <= k < |p.connections|
      ensures p.connections[k].f1 < p.connections[k].f2 && Joins(p.solved, p.connections[k])
    {
      LinkedJoins(s, p.connections[k]);
    }
    forall m1, m2, dir | 0 <= m1 < m2 < |p.solved| && Touch(p.solved[m1], p.solved[m2], dir)
      ensures Present(p.connections, m1 + 1, m2 + 1)
    {
      TouchConnected(s, m1, m2, dir);
    }
  }
}
