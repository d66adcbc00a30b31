/**
 * `placeWordOnGrid` (scripts.js:201-240) and the invariant that every
 * committed word keeps: the engine state of `generateLayout` is the sparse
 * grid, the letter index, the running bounds and the placement of each word
 * placed so far.
 */
module Commit {
  import opened Wrappers
  import opened Grid
  import opened Words
  import opened Legality

  /** The layout state; `placed` maps a word id to where it was written. */
  datatype Engine = Engine(grid: Grid, log: LetterLog, bounds: Bounds, placed: map<nat, Placement>)

  /** An empty grid and index, bounds at the origin, nothing placed (scripts.js:193-199). */
  const EmptyEngine := Engine(map[], [], InitialBounds, map[])

  /** Letter `i` of word `id` sits at its path cell, with that cell's slot pointing back at it. */
  predicate Claimed(g: Grid, id: nat, s: string, p: Placement, i: nat)
    requires i < |s|
  {
    At(p, i) in g && g[At(p, i)].letter == s[i] && OwnerIn(g[At(p, i)], p.orientation) == Some(Owner(id, i))
  }

  /** The cell letter `i` of `s` leaves behind: the letter, and this word in the slot of `p`'s orientation. */
  function WriteCell(g: Grid, id: nat, s: string, p: Placement, i: nat): (r: Grid)
    requires i < |s|
    ensures Claimed(r, id, s, p, i)
    ensures forall c :: c in r <==> c in g || c == At(p, i)
    ensures forall c :: c in g && c != At(p, i) ==> r[c] == g[c]
    ensures OwnerIn(r[At(p, i)], Perpendicular(p.orientation))
            == if At(p, i) in g then OwnerIn(g[At(p, i)], Perpendicular(p.orientation)) else None
  {
    var c := At(p, i);
    var existing := if c in g then g[c] else Cell(s[i], None, None);
    g[c := WithOwner(existing.(letter := s[i]), p.orientation, Owner(id, i))]
  }

  /**
   * The grid after the first `n` iterations of the loop of `placeWordOnGrid`
   * (scripts.js:206-228): every written letter is claimed, the path is added,
   * and nothing off the path changes.
   */
  function WriteCells(g: Grid, id: nat, s: string, p: Placement, n: nat): (r: Grid)
    requires n <= |s|
    ensures forall i :: 0 <= i < n ==> Claimed(r, id, s, p, i)
    ensures forall c :: c in r <==> c in g || OnPath(p, 0, n, c)
    ensures forall c :: c in g && !OnPath(p, 0, n, c) ==> r[c] == g[c]
    ensures forall c :: c in r && OnPath(p, 0, n, c) ==>
              OwnerIn(r[c], Perpendicular(p.orientation))
              == if c in g then OwnerIn(g[c], Perpendicular(p.orientation)) else None
  {
    if n == 0 then g
    else
      var mid := WriteCells(g, id, s, p, n - 1);
      var r := WriteCell(mid, id, s, p, n - 1);
      WriteCellKeepsClaims(mid, r, id, s, p, n - 1);
      r
  }

  /** Writing letter `n` leaves the claims of the earlier letters intact. */
  lemma WriteCellKeepsClaims(mid: Grid, r: Grid, id: nat, s: string, p: Placement, n: nat)
    requires n < |s| && r == WriteCell(mid, id, s, p, n)
    requires forall i :: 0 <= i < n ==> Claimed(mid, id, s, p, i)
    ensures forall i :: 0 <= i <= n ==> Claimed(r, id, s, p, i)
  {
    forall i | 0 <= i < n
      ensures Claimed(r, id, s, p, i)
    {
      assert Claimed(mid, id, s, p, i);
      assert At(p, i) != At(p, n);
    }
  }

  /** The `charMap` writes of the first `n` iterations (scripts.js:235-238): one mark per letter, in order. */
  function LogPath(log: LetterLog, s: string, p: Placement, n: nat): (r: LetterLog)
    requires n <= |s|
    ensures |r| == |log| + n
    ensures r[..|log|] == log
    ensures forall i :: 0 <= i < n ==> r[|log| + i] == Mark(s[i], At(p, i))
  {
    if n == 0 then log else LogPath(log, s, p, n - 1) + [Mark(s[n - 1], At(p, n - 1))]
  }

  /** The bounds after the first `n` iterations (scripts.js:230-233): the least box that also covers the path. */
  function GrowPath(b: Bounds, p: Placement, n: nat): (r: Bounds)
    ensures Within(b, r)
    ensures forall i :: 0 <= i < n ==> Covers(r, At(p, i))
    ensures forall outer: Bounds :: Within(b, outer) && (forall i :: 0 <= i < n ==> Covers(outer, At(p, i)))
              ==> Within(r, outer)
    ensures r.minRow == b.minRow || exists i :: 0 <= i < n && r.minRow == At(p, i).0
    ensures r.maxRow == b.maxRow || exists i :: 0 <= i < n && r.maxRow == At(p, i).0
    ensures r.minCol == b.minCol || exists i :: 0 <= i < n && r.minCol == At(p, i).1
    ensures r.maxCol == b.maxCol || exists i :: 0 <= i < n && r.maxCol == At(p, i).1
  {
    if n == 0 then b else Grow(GrowPath(b, p, n - 1), At(p, n - 1))
  }

  /**
   * `placeWordOnGrid`: every letter of the word is written and claimed on
   * its path while cells off the path keep their content, one index mark
   * per letter is appended in order, the bounds grow to cover the path, and
   * the word is recorded as placed at `p`.
   */
  function Place(st: Engine, w: Word, p: Placement): (r: Engine)
    ensures forall i :: 0 <= i < w.Length() ==> Claimed(r.grid, w.id, w.sanitized, p, i)
    ensures forall c :: c in r.grid <==> c in st.grid || OnPath(p, 0, w.Length(), c)
    ensures forall c :: c in st.grid && !OnPath(p, 0, w.Length(), c) ==> r.grid[c] == st.grid[c]
    ensures |r.log| == |st.log| + w.Length() && r.log[..|st.log|] == st.log
    ensures forall i :: 0 <= i < w.Length() ==> r.log[|st.log| + i] == Mark(w.sanitized[i], At(p, i))
    ensures Within(st.bounds, r.bounds) && forall i :: 0 <= i < w.Length() ==> Covers(r.bounds, At(p, i))
    ensures r.placed == st.placed[w.id := p]
  {
    var n := w.Length();
    Engine(WriteCells(st.grid, w.id, w.sanitized, p, n),
           LogPath(st.log, w.sanitized, p, n),
           GrowPath(st.bounds, p, n),
           st.placed[w.id := p])
  }

  /** No letter of the word at `p` conflicts with a cell already on the grid. */
  predicate Compatible(g: Grid, w: Word, p: Placement) {
    forall i :: 0 <= i < w.Length() ==> !LetterClash(g, w, p, i) && !TakenByOther(g, w, p, i)
  }

  /** Every path cell of the word at `p` is still empty (the fallback row). */
  predicate Fresh(g: Grid, w: Word, p: Placement) {
    forall i :: 0 <= i < w.Length() ==> At(p, i) !in g
  }

  lemma LegalIsCompatible(g: Grid, w: Word, p: Placement)
    requires CanPlaceWord(g, w, p) || Fresh(g, w, p)
    ensures Compatible(g, w, p)
  {
  }

  /** Where the owner `ow` of a cell in orientation `o` says the cell is, it is. */
  predicate Owns(ws: seq<Word>, placed: map<nat, Placement>, ow: Owner, o: Orientation, c: Coord) {
    && ow.wordId in placed && ow.wordId < |ws|
    && placed[ow.wordId].orientation == o
    && ow.index < ws[ow.wordId].Length()
    && At(placed[ow.wordId], ow.index) == c
  }

  /** Each edge of the bounds is the origin's or some cell's (the bounds are the least box). */
  ghost predicate Tight(g: Grid, b: Bounds) {
    && (b.minRow == 0 || exists c :: c in g && c.0 == b.minRow)
    && (b.maxRow == 0 || exists c :: c in g && c.0 == b.maxRow)
    && (b.minCol == 0 || exists c :: c in g && c.1 == b.minCol)
    && (b.maxCol == 0 || exists c :: c in g && c.1 == b.maxCol)
  }

  /** Every placed word is spelled out on its path and the grid holds nothing else. */
  ghost predicate Consistent(ws: seq<Word>, st: Engine) {
    && ValidWords(ws)
    && (forall id :: id in st.placed ==> id < |ws|)
    && (forall id, i :: id in st.placed && 0 <= i < ws[id].Length() ==>
          Claimed(st.grid, id, ws[id].sanitized, st.placed[id], i))
    && (forall c :: c in st.grid && st.grid[c].across.Some? ==> Owns(ws, st.placed, st.grid[c].across.value, Across, c))
    && (forall c :: c in st.grid && st.grid[c].down.Some? ==> Owns(ws, st.placed, st.grid[c].down.value, Down, c))
    && (forall c :: c in st.grid ==> st.grid[c].across.Some? || st.grid[c].down.Some?)
  }

  /** The bounds are exactly the least box around the origin and every cell. */
  ghost predicate BoundsExact(st: Engine) {
    && Covers(st.bounds, (0, 0))
    && (forall c :: c in st.grid ==> Covers(st.bounds, c))
    && Tight(st.grid, st.bounds)
  }

  /** `charMap` lists exactly the cells of each letter (a shared cell is listed once per write). */
  ghost predicate IndexExact(st: Engine) {
    && (forall k :: 0 <= k < |st.log| ==> st.log[k].at in st.grid && st.grid[st.log[k].at].letter == st.log[k].letter)
    && (forall c :: c in st.grid ==> Mark(st.grid[c].letter, c) in st.log)
  }

  /** The invariant of `generateLayout` between two words. */
  ghost predicate WellFormed(ws: seq<Word>, st: Engine) {
    Consistent(ws, st) && BoundsExact(st) && IndexExact(st)
  }

  lemma EmptyEngineWellFormed(ws: seq<Word>)
    requires ValidWords(ws)
    ensures WellFormed(ws, EmptyEngine)
  {
  }

  /** Cells off the path keep their content, and path cells spell the word. */
  lemma PlaceCells(ws: seq<Word>, st: Engine, id: nat, p: Placement, c: Coord)
    requires Consistent(ws, st) && id < |ws| && id !in st.placed
    requires Compatible(st.grid, ws[id], p)
    requires c in st.grid
    ensures c in Place(st, ws[id], p).grid
    ensures Place(st, ws[id], p).grid[c].letter == st.grid[c].letter
    ensures OwnerIn(Place(st, ws[id], p).grid[c], Perpendicular(p.orientation))
            == OwnerIn(st.grid[c], Perpendicular(p.orientation))
    ensures !OnPath(p, 0, ws[id].Length(), c) ==> Place(st, ws[id], p).grid[c] == st.grid[c]
    ensures OnPath(p, 0, ws[id].Length(), c) ==> OwnerIn(st.grid[c], p.orientation).None?
  {
    var w := ws[id];
    var r := Place(st, w, p);
    if OnPath(p, 0, w.Length(), c) {
      OnPathIffAt(p, 0, w.Length(), c);
      var k := Offset(p, c);
      assert Claimed(r.grid, id, w.sanitized, p, k);
      assert !LetterClash(st.grid, w, p, k) && !TakenByOther(st.grid, w, p, k);
      var o := OwnerIn(st.grid[c], p.orientation);
      if o.Some? {
        assert false;
      }
    }
  }

  /** Committing a compatible word keeps every placed word spelled out and every slot pointing home. */
  lemma {:induction false} CommitKeepsConsistent(ws: seq<Word>, st: Engine, id: nat, p: Placement)
    requires Consistent(ws, st) && id < |ws| && id !in st.placed
    requires Compatible(st.grid, ws[id], p)
    ensures Consistent(ws, Place(st, ws[id], p))
  {
    var w := ws[id];
    var n := w.Length();
    var r := Place(st, w, p);
    forall j, i | j in r.placed && 0 <= i < ws[j].Length()
      ensures Claimed(r.grid, j, ws[j].sanitized, r.placed[j], i)
    {
      if j != id {
        var c := At(st.placed[j], i);
        assert Claimed(st.grid, j, ws[j].sanitized, st.placed[j], i);
        PlaceCells(ws, st, id, p, c);
        if OnPath(p, 0, n, c) && st.placed[j].orientation == p.orientation {
          assert false;
        }
        if OnPath(p, 0, n, c) {
          assert Perpendicular(p.orientation) == st.placed[j].orientation;
        }
      }
    }
    forall c | c in r.grid
      ensures r.grid[c].across.Some? ==> Owns(ws, r.placed, r.grid[c].across.value, Across, c)
      ensures r.grid[c].down.Some? ==> Owns(ws, r.placed, r.grid[c].down.value, Down, c)
      ensures r.grid[c].across.Some? || r.grid[c].down.Some?
    {
      if OnPath(p, 0, n, c) {
        OnPathIffAt(p, 0, n, c);
        var k := Offset(p, c);
        assert Claimed(r.grid, id, w.sanitized, p, k);
        if c in st.grid {
          PlaceCells(ws, st, id, p, c);
          assert Perpendicular(Across) == Down && Perpendicular(Down) == Across;
        } else {
          assert OwnerIn(r.grid[c], Perpendicular(p.orientation)).None?;
        }
      } else {
        PlaceCells(ws, st, id, p, c);
      }
    }
  }

  /** The bounds still cover every cell after a commit. */
  lemma PlaceKeepsCover(st: Engine, w: Word, p: Placement)
    requires forall c :: c in st.grid ==> Covers(st.bounds, c)
    ensures forall c :: c in Place(st, w, p).grid ==> Covers(Place(st, w, p).bounds, c)
  {
    var n := w.Length();
    var r := Place(st, w, p);
    forall c | c in r.grid
      ensures Covers(r.bounds, c)
    {
      if OnPath(p, 0, n, c) {
        OnPathIffAt(p, 0, n, c);
        assert Covers(r.bounds, At(p, Offset(p, c)));
      }
    }
  }

  /** Committing keeps the bounds the least box around the origin and every cell. */
  lemma CommitKeepsBoundsExact(ws: seq<Word>, st: Engine, w: Word, p: Placement)
    requires BoundsExact(st)
    ensures BoundsExact(Place(st, w, p))
  {
    var n := w.Length();
    var r := Place(st, w, p);
    PlaceKeepsCover(st, w, p);
    if r.bounds.minRow != st.bounds.minRow {
      var i :| 0 <= i < n && r.bounds.minRow == At(p, i).0;
      AtOnPath(p, 0, n, i);
      assert At(p, i) in r.grid;
    }
    if r.bounds.maxRow != st.bounds.maxRow {
      var i :| 0 <= i < n && r.bounds.maxRow == At(p, i).0;
      AtOnPath(p, 0, n, i);
      assert At(p, i) in r.grid;
    }
    if r.bounds.minCol != st.bounds.minCol {
      var i :| 0 <= i < n && r.bounds.minCol == At(p, i).1;
      AtOnPath(p, 0, n, i);
      assert At(p, i) in r.grid;
    }
    if r.bounds.maxCol != st.bounds.maxCol {
      var i :| 0 <= i < n && r.bounds.maxCol == At(p, i).1;
      AtOnPath(p, 0, n, i);
      assert At(p, i) in r.grid;
    }
  }

  /** Committing a compatible word keeps `charMap` exact: old marks keep their letter, new cells are logged. */
  lemma CommitKeepsIndexExact(ws: seq<Word>, st: Engine, id: nat, p: Placement)
    requires Consistent(ws, st) && IndexExact(st) && id < |ws| && id !in st.placed
    requires Compatible(st.grid, ws[id], p)
    ensures IndexExact(Place(st, ws[id], p))
  {
    var w := ws[id];
    var n := w.Length();
    var s := w.sanitized;
    var r := Place(st, w, p);
    var m := |st.log|;
    forall k | 0 <= k < |r.log|
      ensures r.log[k].at in r.grid && r.grid[r.log[k].at].letter == r.log[k].letter
    {
      if k < m {
        assert r.log[k] == st.log[k];
        PlaceCells(ws, st, id, p, st.log[k].at);
      } else {
        assert r.log[k] == Mark(s[k - m], At(p, k - m));
        assert Claimed(r.grid, id, s, p, k - m);
      }
    }
    forall c | c in r.grid
      ensures Mark(r.grid[c].letter, c) in r.log
    {
      if OnPath(p, 0, n, c) {
        OnPathIffAt(p, 0, n, c);
        var k := Offset(p, c);
        assert Claimed(r.grid, id, s, p, k);
        assert r.log[m + k] == Mark(s[k], c);
      } else {
        PlaceCells(ws, st, id, p, c);
        var k :| 0 <= k < m && st.log[k] == Mark(st.grid[c].letter, c);
        assert r.log[k] == st.log[k];
      }
    }
  }

  /** The invariant survives every commit of a compatible word (scripts.js:363-392). */
  lemma CommitPreservesWellFormed(ws: seq<Word>, st: Engine, id: nat, p: Placement)
    requires WellFormed(ws, st) && id < |ws| && id !in st.placed
    requires CanPlaceWord(st.grid, ws[id], p) || Fresh(st.grid, ws[id], p)
    ensures WellFormed(ws, Place(st, ws[id], p))
    ensures Place(st, ws[id], p).placed.Keys == st.placed.Keys + {id}
  {
    LegalIsCompatible(st.grid, ws[id], p);
    CommitKeepsConsistent(ws, st, id, p);
    CommitKeepsBoundsExact(ws, st, ws[id], p);
    CommitKeepsIndexExact(ws, st, id, p);
  }

  /** Two placed words that share a cell agree on its letter. */
  lemma SharedCellsAgree(ws: seq<Word>, st: Engine, a: nat, i: nat, b: nat, j: nat)
    requires Consistent(ws, st) && a in st.placed && b in st.placed
    requires i < ws[a].Length() && j < ws[b].Length()
    requires At(st.placed[a], i) == At(st.placed[b], j)
    ensures ws[a].sanitized[i] == ws[b].sanitized[j]
  {
    assert Claimed(st.grid, a, ws[a].sanitized, st.placed[a], i);
    assert Claimed(st.grid, b, ws[b].sanitized, st.placed[b], j);
  }

  /** Two different placed words that share a cell cross it in different orientations. */
  lemma SharedCellsCross(ws: seq<Word>, st: Engine, a: nat, i: nat, b: nat, j: nat)
    requires Consistent(ws, st) && a in st.placed && b in st.placed && a != b
    requires i < ws[a].Length() && j < ws[b].Length()
    requires At(st.placed[a], i) == At(st.placed[b], j)
    ensures st.placed[a].orientation != st.placed[b].orientation
  {
    assert Claimed(st.grid, a, ws[a].sanitized, st.placed[a], i);
    assert Claimed(st.grid, b, ws[b].sanitized, st.placed[b], j);
  }
}
