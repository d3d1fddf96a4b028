/** Cutting the laid-out Bonza words into fragments.

    Each placed word is walked letter by letter. Letters in cells that no
    fragment owns yet are collected into a segment; a segment is flushed into a
    new fragment when the walk reaches a cell some fragment already owns, when a
    split draw fires (segment of at least three letters, not at the word's last
    letter), or at the end of the word. A flushed fragment takes the next id and
    becomes the owner of its cells. */
module BonzaFragments {
  import Oracle
  import opened BonzaLayout

  /** A screen position that the model keeps opaque: the origin placeholder
      given at creation, or a scattered spot made from two float draws. */
  datatype Spot = Zero | Scattered(xDraw: nat, yDraw: nat)

  /** `WordFragment`: solved position and direction are grid units along the
      word the fragment was cut from; groupId defaults to the id. */
  datatype Fragment = Fragment(id: int, text: string, initial: Spot, current: Spot, solved: Pos, dir: Direction, groupId: int)

  /** The cell-to-fragment-id ownership map. */
  type Owners = map<Pos, int>

  /** The fragments so far, their ownership map, the next fragment id and the
      next unused draw. */
  datatype Seg = Seg(owners: Owners, frags: seq<Fragment>, nextId: int, next: nat)

  function FragCell(f: Fragment, t: int): Pos
  {
    Cell(f.solved.0, f.solved.1, f.dir, t)
  }

  predicate OnFragment(f: Fragment, p: Pos)
  {
    OnLine(f.solved.0, f.solved.1, f.dir, |f.text|, p)
  }

  // ---------------------------------------------------------------------------
  // Invariants

  /** Ids run 1, 2, 3, ... in creation order; every fragment is non-empty and
      still at its placeholder spot. */
  ghost predicate Numbered(s: Seg)
  {
    && s.nextId == |s.frags| + 1
    && forall m :: 0 <= m < |s.frags| ==>
         && s.frags[m].id == m + 1
         && s.frags[m].groupId == m + 1
         && |s.frags[m].text| > 0
         && s.frags[m].initial == Zero && s.frags[m].current == Zero
  }

  /** Every cell of every fragment is owned by that fragment. */
  ghost predicate OwnsCells(s: Seg)
  {
    forall m, t :: 0 <= m < |s.frags| && 0 <= t < |s.frags[m].text| ==>
                     FragCell(s.frags[m], t) in s.owners && s.owners[FragCell(s.frags[m], t)] == s.frags[m].id
  }

  /** Every owned cell lies on the fragment that owns it. */
  ghost predicate OwnersKnown(s: Seg)
  {
    forall p :: p in s.owners ==> 1 <= s.owners[p] <= |s.frags| && OnFragment(s.frags[s.owners[p] - 1], p)
  }

  /** The fragment is the piece of w that starts at letter st. */
  ghost predicate PieceAt(f: Fragment, w: PlacedWord, st: int)
  {
    && 0 <= st && st + |f.text| <= |w.word|
    && f.dir == w.dir
    && f.solved == CellOf(w, st)
    && f.text == w.word[st..st + |f.text|]
  }

  ghost predicate PieceOf(f: Fragment, placed: seq<PlacedWord>)
  {
    exists k, st :: 0 <= k < |placed| && PieceAt(f, placed[k], st)
  }

  ghost predicate Pieces(s: Seg, placed: seq<PlacedWord>)
  {
    forall m :: 0 <= m < |s.frags| ==> PieceOf(s.frags[m], placed)
  }

  ghost predicate Sound(s: Seg, placed: seq<PlacedWord>)
  {
    Numbered(s) && OwnsCells(s) && OwnersKnown(s) && Pieces(s, placed)
  }

  /** No owned cell changes hands: the ownership map only grows. */
  ghost predicate Extends(a: Owners, b: Owners)
  {
    forall p :: p in a ==> p in b && b[p] == a[p]
  }

  /** Every letter of word j is owned. */
  ghost predicate WordOwned(placed: seq<PlacedWord>, j: int, owners: Owners)
    requires 0 <= j < |placed|
  {
    forall t :: 0 <= t < |placed[j].word| ==> CellOf(placed[j], t) in owners
  }

  /** Every letter of the first j words is owned. */
  ghost predicate WordsOwned(placed: seq<PlacedWord>, j: int, owners: Owners)
  {
    forall k, t :: 0 <= k < j && k < |placed| && 0 <= t < |placed[k].word| ==> CellOf(placed[k], t) in owners
  }

  // ---------------------------------------------------------------------------
  // createFragment

  /** The ownership loop of createFragment, resumed at letter t. */
  function ClaimFrom(owners: Owners, origin: Pos, dir: Direction, len: nat, id: int, t: nat): (o: Owners)
    ensures forall p :: p in o <==> p in owners || (OnLine(origin.0, origin.1, dir, len, p) && IndexOn(origin.0, origin.1, dir, p) >= t)
    ensures forall p :: OnLine(origin.0, origin.1, dir, len, p) && IndexOn(origin.0, origin.1, dir, p) >= t ==> o[p] == id
    ensures forall p :: p in owners && !(OnLine(origin.0, origin.1, dir, len, p) && IndexOn(origin.0, origin.1, dir, p) >= t) ==> o[p] == owners[p]
    decreases len - t
  {
    if t >= len then owners
    else ClaimFrom(owners[Cell(origin.0, origin.1, dir, t) := id], origin, dir, len, id, t + 1)
  }

  /** `createFragment(id, text, startIndex, word, ...)`: appends a fragment that
      starts at letter `start` of w and makes it the owner of its cells. */
  function CreateFragment(id: int, text: string, start: int, w: PlacedWord, frags: seq<Fragment>, owners: Owners): (r: (seq<Fragment>, Owners))
    ensures r.0 == frags + [Fragment(id, text, Zero, Zero, CellOf(w, start), w.dir, id)]
    ensures forall p :: p in r.1 <==> p in owners || OnLine(CellOf(w, start).0, CellOf(w, start).1, w.dir, |text|, p)
    ensures forall p :: OnLine(CellOf(w, start).0, CellOf(w, start).1, w.dir, |text|, p) ==> r.1[p] == id
    ensures forall p :: p in owners && !OnLine(CellOf(w, start).0, CellOf(w, start).1, w.dir, |text|, p) ==> r.1[p] == owners[p]
  {
    var origin := CellOf(w, start);
    var o := ClaimFrom(owners, origin, w.dir, |text|, id, 0);
    forall p | OnLine(origin.0, origin.1, w.dir, |text|, p) ensures IndexOn(origin.0, origin.1, w.dir, p) >= 0 {
      LineCells(origin.0, origin.1, w.dir, |text|, p);
    }
    (frags + [Fragment(id, text, Zero, Zero, origin, w.dir, id)], o)
  }

  /** `fragmentIdCounter++` followed by createFragment. */
  function Flush(w: PlacedWord, text: string, start: int, s: Seg): (r: Seg)
    ensures r.next == s.next
  {
    var (frags, owners) := CreateFragment(s.nextId, text, start, w, s.frags, s.owners);
    Seg(owners, frags, s.nextId + 1, s.next)
  }

  // ---------------------------------------------------------------------------
  // The walk over one word

  /** The segment under construction: it is the run of word letters ending just
      before i, and none of its cells is owned; every earlier letter of the word
      is owned or pending. */
  ghost predicate Pending(w: PlacedWord, i: int, text: string, start: int, owners: Owners)
  {
    && 0 <= i <= |w.word|
    && (|text| > 0 ==> 0 <= start && start + |text| == i && text == w.word[start..i])
    && (|text| > 0 ==> forall t :: start <= t < i ==> CellOf(w, t) !in owners)
    && forall t :: 0 <= t < i ==> CellOf(w, t) in owners || (|text| > 0 && start <= t)
  }

  /** The segment under construction and the fragments so far. */
  datatype Cursor = Cursor(text: string, start: int, s: Seg)

  /** One pass of the letter loop, at letter i of w. */
  function Step(w: PlacedWord, i: nat, c: Cursor, rng: Oracle.Stream): (d: Cursor)
    requires i < |w.word|
    ensures d.s.next >= c.s.next
  {
    if CellOf(w, i) !in c.s.owners then
      var st := if |c.text| == 0 then i else c.start;
      var seg := c.text + [w.word[i]];
      if |seg| >= 3 && i < |w.word| - 1 then
        var s1 := c.s.(next := c.s.next + 1);
        if Oracle.NextFloatBelowSplit(rng, c.s.next) then Cursor("", -1, Flush(w, seg, st, s1))
        else Cursor(seg, st, s1)
      else Cursor(seg, st, c.s)
    else if |c.text| > 0 then Cursor("", -1, Flush(w, c.text, c.start, c.s))
    else c
  }

  /** The letter loop for word j of `placed`, resumed at letter i, followed by
      the final flush. */
  function Walk(placed: seq<PlacedWord>, j: nat, i: nat, c: Cursor, rng: Oracle.Stream): (r: Seg)
    requires j < |placed|
    ensures r.next >= c.s.next
    decreases |placed[j].word| - i
  {
    var w := placed[j];
    if i >= |w.word| then
      if |c.text| > 0 then Flush(w, c.text, c.start, c.s) else c.s
    else Walk(placed, j, i + 1, Step(w, i, c, rng), rng)
  }

  /** The loop over the placed words, resumed at word j. */
  function SegmentFrom(placed: seq<PlacedWord>, j: nat, s: Seg, rng: Oracle.Stream): (r: Seg)
    ensures r.next >= s.next
    decreases |placed| - j
  {
    if j >= |placed| then s
    else SegmentFrom(placed, j + 1, Walk(placed, j, 0, Cursor("", -1, s), rng), rng)
  }

  /** Step 1 of the fragment phase: ids start at 1 and the ownership map
      starts empty; `k` is the next unused draw. */
  function Segment(placed: seq<PlacedWord>, rng: Oracle.Stream, k: nat): (r: Seg)
    ensures r.next >= k
  {
    SegmentFrom(placed, 0, Seg(map[], [], 1, k), rng)
  }

  // ---------------------------------------------------------------------------
  // Proofs

  lemma EmptySound(placed: seq<PlacedWord>, k: nat)
    ensures Sound(Seg(map[], [], 1, k), placed)
  {
  }

  /** The draw counter plays no part in the invariants. */
  lemma SoundIgnoresDraws(s: Seg, placed: seq<PlacedWord>, k: nat)
    requires Sound(s, placed)
    ensures Sound(s.(next := k), placed)
  {
  }

  /** A segment that may be flushed: a non-empty run of letters of word j,
      none of whose cells is owned. */
  ghost predicate Fresh(placed: seq<PlacedWord>, j: int, text: string, start: int, owners: Owners)
  {
    && 0 <= j < |placed|
    && |text| > 0 && 0 <= start && start + |text| <= |placed[j].word|
    && text == placed[j].word[start..start + |text|]
    && forall t :: start <= t < start + |text| ==> CellOf(placed[j], t) !in owners
  }

  /** Flushing claims exactly the segment's cells, for the new id, and
      reassigns nothing. */
  lemma FlushClaims(placed: seq<PlacedWord>, j: int, text: string, start: int, s: Seg)
    requires Fresh(placed, j, text, start, s.owners)
    ensures Extends(s.owners, Flush(placed[j], text, start, s).owners)
    ensures forall t :: start <= t < start + |text| ==> CellOf(placed[j], t) in Flush(placed[j], text, start, s).owners
    ensures forall p :: p in Flush(placed[j], text, start, s).owners && p !in s.owners ==>
                          Flush(placed[j], text, start, s).owners[p] == s.nextId &&
                          OnFragment(Flush(placed[j], text, start, s).frags[|s.frags|], p)
  {
    var w := placed[j];
    var r := Flush(w, text, start, s);
    var f := r.frags[|s.frags|];
    var origin := CellOf(w, start);
    forall t | start <= t < start + |text| ensures CellOf(w, t) in r.owners {
      assert OnLine(origin.0, origin.1, w.dir, |text|, CellOf(w, t));
    }
    forall p | OnFragment(f, p) ensures p !in s.owners {
      LineCells(origin.0, origin.1, w.dir, |text|, p);
      var t := IndexOn(origin.0, origin.1, w.dir, p);
      assert CellOf(w, start + t) == p;
    }
  }

  lemma FlushNumbered(placed: seq<PlacedWord>, j: int, text: string, start: int, s: Seg)
    requires Fresh(placed, j, text, start, s.owners)
    requires Numbered(s)
    ensures Numbered(Flush(placed[j], text, start, s))
  {
  }

  lemma FlushOwnsCells(placed: seq<PlacedWord>, j: int, text: string, start: int, s: Seg)
    requires Fresh(placed, j, text, start, s.owners)
    requires Numbered(s) && OwnsCells(s)
    ensures OwnsCells(Flush(placed[j], text, start, s))
  {
    var r := Flush(placed[j], text, start, s);
    var n := |s.frags|;
    var f := r.frags[n];
    FlushClaims(placed, j, text, start, s);
    forall m, t | 0 <= m < |r.frags| && 0 <= t < |r.frags[m].text|
      ensures FragCell(r.frags[m], t) in r.owners && r.owners[FragCell(r.frags[m], t)] == r.frags[m].id
    {
      if m < n {
        assert r.frags[m] == s.frags[m];
      } else {
        assert OnFragment(f, FragCell(f, t));
      }
    }
  }

  lemma FlushOwnersKnown(placed: seq<PlacedWord>, j: int, text: string, start: int, s: Seg)
    requires Fresh(placed, j, text, start, s.owners)
    requires Numbered(s) && OwnersKnown(s)
    ensures OwnersKnown(Flush(placed[j], text, start, s))
  {
    var r := Flush(placed[j], text, start, s);
    FlushClaims(placed, j, text, start, s);
    forall p | p in r.owners ensures 1 <= r.owners[p] <= |r.frags| && OnFragment(r.frags[r.owners[p] - 1], p) {
      if p in s.owners {
        assert r.frags[s.owners[p] - 1] == s.frags[s.owners[p] - 1];
      }
    }
  }

  lemma FlushPieces(placed: seq<PlacedWord>, j: int, text: string, start: int, s: Seg)
    requires Fresh(placed, j, text, start, s.owners)
    requires Pieces(s, placed)
    ensures Pieces(Flush(placed[j], text, start, s), placed)
  {
    var r := Flush(placed[j], text, start, s);
    var n := |s.frags|;
    forall m | 0 <= m < |r.frags| ensures PieceOf(r.frags[m], placed) {
      if m < n {
        assert r.frags[m] == s.frags[m];
      } else {
        assert PieceAt(r.frags[n], placed[j], start);
      }
    }
  }

  /** Flushing a segment of unowned letters of word j keeps the invariants. */
  lemma FlushSound(placed: seq<PlacedWord>, j: int, text: string, start: int, s: Seg)
    requires Fresh(placed, j, text, start, s.owners)
    requires Sound(s, placed)
    ensures Sound(Flush(placed[j], text, start, s), placed)
  {
    FlushNumbered(placed, j, text, start, s);
    FlushOwnsCells(placed, j, text, start, s);
    FlushOwnersKnown(placed, j, text, start, s);
    FlushPieces(placed, j, text, start, s);
  }

  lemma ExtendsTransitive(a: Owners, b: Owners, c: Owners)
    requires Extends(a, b) && Extends(b, c)
    ensures Extends(a, c)
  {
  }

  /** Appending the unowned letter i to the segment. */
  lemma PendingGrow(w: PlacedWord, i: nat, text: string, start: int, owners: Owners)
    requires Pending(w, i, text, start, owners)
    requires i < |w.word| && CellOf(w, i) !in owners
    ensures Pending(w, i + 1, text + [w.word[i]], if |text| == 0 then i else start, owners)
  {
    var st := if |text| == 0 then i else start;
    assert w.word[st..i + 1] == w.word[st..i] + [w.word[i]];
  }

  /** The segment as it stands may be flushed. */
  lemma PendingFresh(placed: seq<PlacedWord>, j: nat, i: nat, text: string, start: int, owners: Owners)
    requires j < |placed|
    requires Pending(placed[j], i, text, start, owners)
    requires |text| > 0
    ensures Fresh(placed, j, text, start, owners)
  {
  }

  /** After a flush the walk goes on with an empty segment past letter i. */
  lemma PendingAfterFlush(placed: seq<PlacedWord>, j: nat, i: nat, text: string, start: int, s: Seg)
    requires j < |placed| && i < |placed[j].word|
    requires Pending(placed[j], i + 1, text, start, s.owners) || (Pending(placed[j], i, text, start, s.owners) && CellOf(placed[j], i) in s.owners)
    requires |text| > 0
    ensures Pending(placed[j], i + 1, "", -1, Flush(placed[j], text, start, s).owners)
  {
    var w := placed[j];
    var o := Flush(w, text, start, s).owners;
    FlushClaims(placed, j, text, start, s);
    forall t | 0 <= t < i + 1 ensures CellOf(w, t) in o {
      if t < i || CellOf(w, i) !in s.owners {
        assert CellOf(w, t) in s.owners || start <= t;
      }
    }
  }

  /** Letter i is already owned and there is nothing pending. */
  lemma PendingSkip(w: PlacedWord, i: nat, text: string, start: int, owners: Owners)
    requires Pending(w, i, text, start, owners)
    requires i < |w.word| && CellOf(w, i) in owners && |text| == 0
    ensures Pending(w, i + 1, text, start, owners)
  {
  }

  /** One pass of the letter loop keeps the segment's description, reassigns
      no cell, and keeps the invariants. */
  lemma StepOwns(placed: seq<PlacedWord>, j: nat, i: nat, c: Cursor, rng: Oracle.Stream)
    requires j < |placed| && i < |placed[j].word|
    requires Pending(placed[j], i, c.text, c.start, c.s.owners)
    ensures var d := Step(placed[j], i, c, rng);
            Pending(placed[j], i + 1, d.text, d.start, d.s.owners) && Extends(c.s.owners, d.s.owners)
  {
    var w := placed[j];
    var s := c.s;
    if CellOf(w, i) !in s.owners {
      var st := if |c.text| == 0 then i else c.start;
      var seg := c.text + [w.word[i]];
      PendingGrow(w, i, c.text, c.start, s.owners);
      if |seg| >= 3 && i < |w.word| - 1 {
        var s1 := s.(next := s.next + 1);
        if Oracle.NextFloatBelowSplit(rng, s.next) {
          PendingFresh(placed, j, i + 1, seg, st, s1.owners);
          FlushClaims(placed, j, seg, st, s1);
          PendingAfterFlush(placed, j, i, seg, st, s1);
        }
      }
    } else if |c.text| > 0 {
      PendingFresh(placed, j, i, c.text, c.start, s.owners);
      FlushClaims(placed, j, c.text, c.start, s);
      PendingAfterFlush(placed, j, i, c.text, c.start, s);
    } else {
      PendingSkip(w, i, c.text, c.start, s.owners);
    }
  }

  /** The pass at an unowned letter: the letter joins the segment, which a
      split draw may flush. */
  lemma StepSoundFree(placed: seq<PlacedWord>, j: nat, i: nat, c: Cursor, rng: Oracle.Stream)
    requires j < |placed| && i < |placed[j].word|
    requires Sound(c.s, placed)
    requires Pending(placed[j], i, c.text, c.start, c.s.owners)
    requires CellOf(placed[j], i) !in c.s.owners
    ensures Sound(Step(placed[j], i, c, rng).s, placed)
  {
    var w := placed[j];
    var s := c.s;
    var st := if |c.text| == 0 then i else c.start;
    var seg := c.text + [w.word[i]];
    var s1 := s.(next := s.next + 1);
    SoundIgnoresDraws(s, placed, s.next + 1);
    if |seg| >= 3 && i < |w.word| - 1 && Oracle.NextFloatBelowSplit(rng, s.next) {
      PendingGrow(w, i, c.text, c.start, s.owners);
      PendingFresh(placed, j, i + 1, seg, st, s1.owners);
      FlushSound(placed, j, seg, st, s1);
      assert Step(w, i, c, rng).s == Flush(w, seg, st, s1);
    } else if |seg| >= 3 && i < |w.word| - 1 {
      assert Step(w, i, c, rng).s == s1;
    } else {
      assert Step(w, i, c, rng).s == s;
    }
  }

  lemma StepSound(placed: seq<PlacedWord>, j: nat, i: nat, c: Cursor, rng: Oracle.Stream)
    requires j < |placed| && i < |placed[j].word|
    requires Sound(c.s, placed)
    requires Pending(placed[j], i, c.text, c.start, c.s.owners)
    ensures Sound(Step(placed[j], i, c, rng).s, placed)
  {
    if CellOf(placed[j], i) !in c.s.owners {
      StepSoundFree(placed, j, i, c, rng);
    } else if |c.text| > 0 {
      PendingFresh(placed, j, i, c.text, c.start, c.s.owners);
      FlushSound(placed, j, c.text, c.start, c.s);
    }
  }

  /** The walk over word j keeps the invariants. */
  lemma {:induction false} WalkSound(placed: seq<PlacedWord>, j: nat, i: nat, c: Cursor, rng: Oracle.Stream)
    requires j < |placed|
    requires Sound(c.s, placed)
    requires Pending(placed[j], i, c.text, c.start, c.s.owners)
    ensures Sound(Walk(placed, j, i, c, rng), placed)
    decreases |placed[j].word| - i
  {
    var w := placed[j];
    if i >= |w.word| {
      if |c.text| > 0 {
        PendingFresh(placed, j, i, c.text, c.start, c.s.owners);
        FlushSound(placed, j, c.text, c.start, c.s);
      }
    } else {
      StepOwns(placed, j, i, c, rng);
      StepSound(placed, j, i, c, rng);
      WalkSound(placed, j, i + 1, Step(w, i, c, rng), rng);
    }
  }

  /** The walk over word j reassigns no cell and leaves every letter of the
      word owned. */
  lemma {:induction false} WalkOwns(placed: seq<PlacedWord>, j: nat, i: nat, c: Cursor, rng: Oracle.Stream)
    requires j < |placed|
    requires Pending(placed[j], i, c.text, c.start, c.s.owners)
    ensures Extends(c.s.owners, Walk(placed, j, i, c, rng).owners)
    ensures WordOwned(placed, j, Walk(placed, j, i, c, rng).owners)
    decreases |placed[j].word| - i
  {
    var w := placed[j];
    if i >= |w.word| {
      if |c.text| > 0 {
        PendingFresh(placed, j, i, c.text, c.start, c.s.owners);
        FlushClaims(placed, j, c.text, c.start, c.s);
      }
    } else {
      var d := Step(w, i, c, rng);
      StepOwns(placed, j, i, c, rng);
      WalkOwns(placed, j, i + 1, d, rng);
      ExtendsTransitive(c.s.owners, d.s.owners, Walk(placed, j, i + 1, d, rng).owners);
    }
  }

  lemma WordsOwnedStep(placed: seq<PlacedWord>, j: nat, a: Owners, b: Owners)
    requires j < |placed|
    requires WordsOwned(placed, j, a) && Extends(a, b) && WordOwned(placed, j, b)
    ensures WordsOwned(placed, j + 1, b)
  {
  }

  /** The walk over word j, from its first letter with nothing pending. */
  lemma WalkWordSound(placed: seq<PlacedWord>, j: nat, s: Seg, rng: Oracle.Stream)
    requires j < |placed|
    requires Sound(s, placed)
    ensures Sound(Walk(placed, j, 0, Cursor("", -1, s), rng), placed)
  {
    var c := Cursor("", -1, s);
    assert Pending(placed[j], 0, c.text, c.start, c.s.owners);
    WalkSound(placed, j, 0, c, rng);
  }

  lemma WalkWordOwns(placed: seq<PlacedWord>, j: nat, s: Seg, rng: Oracle.Stream)
    requires j < |placed|
    requires WordsOwned(placed, j, s.owners)
    ensures Extends(s.owners, Walk(placed, j, 0, Cursor("", -1, s), rng).owners)
    ensures WordsOwned(placed, j + 1, Walk(placed, j, 0, Cursor("", -1, s), rng).owners)
  {
    var c := Cursor("", -1, s);
    assert Pending(placed[j], 0, c.text, c.start, c.s.owners);
    WalkOwns(placed, j, 0, c, rng);
    WordsOwnedStep(placed, j, s.owners, Walk(placed, j, 0, c, rng).owners);
  }

  lemma {:induction false} SegmentFromSound(placed: seq<PlacedWord>, j: nat, s: Seg, rng: Oracle.Stream)
    requires Sound(s, placed)
    ensures Sound(SegmentFrom(placed, j, s, rng), placed)
    decreases |placed| - j
  {
    if j < |placed| {
      WalkWordSound(placed, j, s, rng);
      SegmentFromSound(placed, j + 1, Walk(placed, j, 0, Cursor("", -1, s), rng), rng);
    }
  }

  lemma {:induction false} SegmentFromOwns(placed: seq<PlacedWord>, j: nat, s: Seg, rng: Oracle.Stream)
    requires WordsOwned(placed, j, s.owners)
    ensures Extends(s.owners, SegmentFrom(placed, j, s, rng).owners)
    ensures WordsOwned(placed, |placed|, SegmentFrom(placed, j, s, rng).owners)
    decreases |placed| - j
  {
    if j < |placed| {
      var s1 := Walk(placed, j, 0, Cursor("", -1, s), rng);
      WalkWordOwns(placed, j, s, rng);
      SegmentFromOwns(placed, j + 1, s1, rng);
      ExtendsTransitive(s.owners, s1.owners, SegmentFrom(placed, j + 1, s1, rng).owners);
    }
  }

  /** After segmentation: ids are 1, 2, ..., every fragment is a non-empty
      piece of a placed word, every letter of every placed word is owned, and
      each owned cell lies on the fragment that owns it. */
  lemma SegmentSound(placed: seq<PlacedWord>, rng: Oracle.Stream, k: nat)
    ensures Sound(Segment(placed, rng, k), placed)
    ensures WordsOwned(placed, |placed|, Segment(placed, rng, k).owners)
  {
    EmptySound(placed, k);
    SegmentFromSound(placed, 0, Seg(map[], [], 1, k), rng);
    SegmentFromOwns(placed, 0, Seg(map[], [], 1, k), rng);
  }

  /** Ownership is exclusive: two different fragments never share a cell. */
  lemma FragmentsDisjoint(s: Seg, placed: seq<PlacedWord>, m1: int, m2: int, p: Pos)
    requires Sound(s, placed)
    requires 0 <= m1 < |s.frags| && 0 <= m2 < |s.frags|
    requires OnFragment(s.frags[m1], p) && OnFragment(s.frags[m2], p)
    ensures m1 == m2
  {
    var f1, f2 := s.frags[m1], s.frags[m2];
    LineCells(f1.solved.0, f1.solved.1, f1.dir, |f1.text|, p);
    LineCells(f2.solved.0, f2.solved.1, f2.dir, |f2.text|, p);
    assert FragCell(f1, IndexOn(f1.solved.0, f1.solved.1, f1.dir, p)) == p;
    assert FragCell(f2, IndexOn(f2.solved.0, f2.solved.1, f2.dir, p)) == p;
  }

  /** In a grid where every placed word is spelled, each fragment reads its own
      text from its solved position along its direction. */
  lemma FragmentReadsGrid(grid: Grid, placed: seq<PlacedWord>, f: Fragment)
    requires Spelled(grid, placed)
    requires PieceOf(f, placed)
    ensures forall t :: 0 <= t < |f.text| ==> FragCell(f, t) in grid && grid[FragCell(f, t)] == f.text[t]
  {
    var k, st :| 0 <= k < |placed| && PieceAt(f, placed[k], st);
    forall t | 0 <= t < |f.text| ensures FragCell(f, t) in grid && grid[FragCell(f, t)] == f.text[t] {
      assert FragCell(f, t) == CellOf(placed[k], st + t);
    }
  }
}
