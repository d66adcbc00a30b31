/**
 * `canPlaceWord` (scripts.js:242-306): may `w` be written at `p` on `g`?
 */
module Legality {
  import opened Wrappers
  import opened Grid
  import opened Words

  /** The neighbour of `c` on side `d` (-1 or +1) across the line of `p`. */
  function Side(p: Placement, c: Coord, d: int): Coord {
    if p.orientation == Across then (c.0 + d, c.1) else (c.0, c.1 + d)
  }

  /**
   * scripts.js:262-280: a present neighbour of a new cell blocks unless it is
   * owned in the perpendicular orientation by a different word.
   */
  predicate NeighbourBlocks(g: Grid, id: nat, o: Orientation, n: Coord) {
    n in g
    && (OwnerIn(g[n], Perpendicular(o)).None? || OwnerIn(g[n], Perpendicular(o)).value.wordId == id)
  }

  /**
   * scripts.js:284-303: the cell before the start or after the end blocks when
   * present, unless this same word already owns it in this orientation.
   */
  predicate EndBlocks(g: Grid, id: nat, o: Orientation, n: Coord) {
    n in g && (OwnerIn(g[n], o).None? || OwnerIn(g[n], o).value.wordId != id)
  }

  /** An existing target cell holds a different letter. */
  predicate LetterClash(g: Grid, w: Word, p: Placement, i: nat)
    requires i < w.Length()
  {
    At(p, i) in g && g[At(p, i)].letter != w.sanitized[i]
  }

  /** An existing target cell already belongs to another word in this orientation. */
  predicate TakenByOther(g: Grid, w: Word, p: Placement, i: nat) {
    At(p, i) in g
    && OwnerIn(g[At(p, i)], p.orientation).Some?
    && OwnerIn(g[At(p, i)], p.orientation).value.wordId != w.id
  }

  /** A new target cell has a blocking perpendicular neighbour. */
  predicate Touches(g: Grid, w: Word, p: Placement, i: nat) {
    At(p, i) !in g
    && (NeighbourBlocks(g, w.id, p.orientation, Side(p, At(p, i), -1))
        || NeighbourBlocks(g, w.id, p.orientation, Side(p, At(p, i), 1)))
  }

  /** The cell just before the start or just after the end blocks. */
  predicate EndsBlocked(g: Grid, w: Word, p: Placement) {
    EndBlocks(g, w.id, p.orientation, At(p, -1))
    || EndBlocks(g, w.id, p.orientation, At(p, w.Length()))
  }

  /** The per-letter test of the loop body (scripts.js:243-282). */
  predicate LetterFits(g: Grid, w: Word, p: Placement, i: nat)
    requires i < w.Length()
  {
    var c := At(p, i);
    if c in g then
      g[c].letter == w.sanitized[i]
      && !(OwnerIn(g[c], p.orientation).Some? && OwnerIn(g[c], p.orientation).value.wordId != w.id)
    else
      !NeighbourBlocks(g, w.id, p.orientation, Side(p, c, -1))
      && !NeighbourBlocks(g, w.id, p.orientation, Side(p, c, 1))
  }

  /** The loop of scripts.js:243-282 from letter `i` on, returning false at the first misfit. */
  function LettersFitFrom(g: Grid, w: Word, p: Placement, i: nat): (ok: bool)
    requires i <= w.Length()
    decreases w.Length() - i
    ensures ok <==> forall j :: i <= j < w.Length() ==>
                      !LetterClash(g, w, p, j) && !TakenByOther(g, w, p, j) && !Touches(g, w, p, j)
  {
    if i == w.Length() then true
    else if !LetterFits(g, w, p, i) then
      assert LetterClash(g, w, p, i) || TakenByOther(g, w, p, i) || Touches(g, w, p, i);
      false
    else LettersFitFrom(g, w, p, i + 1)
  }

  /** `canPlaceWord`: false exactly when one of the four rejection rules fires. */
  function CanPlaceWord(g: Grid, w: Word, p: Placement): (ok: bool)
    ensures ok <==>
              && (forall i :: 0 <= i < w.Length() ==> !LetterClash(g, w, p, i))
              && (forall i :: 0 <= i < w.Length() ==> !TakenByOther(g, w, p, i))
              && (forall i :: 0 <= i < w.Length() ==> !Touches(g, w, p, i))
              && !EndsBlocked(g, w, p)
  {
    LettersFitFrom(g, w, p, 0) && !EndsBlocked(g, w, p)
  }

  /** On an empty grid every placement is legal; a fixed word placed first is always honoured. */
  lemma EmptyGridAccepts(w: Word, p: Placement)
    ensures CanPlaceWord(map[], w, p)
  {
  }

  lemma FitsAt(g: Grid, w: Word, p: Placement, i: nat)
    requires i < w.Length() && LetterFits(g, w, p, i) && LettersFitFrom(g, w, p, i + 1)
    ensures LettersFitFrom(g, w, p, i)
  {
  }

  /** A letter fits on an existing cell with the same letter and a free slot. */
  lemma SharedCellFits(g: Grid, w: Word, p: Placement, i: nat)
    requires i < w.Length() && At(p, i) in g
    requires g[At(p, i)].letter == w.sanitized[i] && OwnerIn(g[At(p, i)], p.orientation).None?
    ensures LetterFits(g, w, p, i)
  {
  }

  /** A letter fits on a new cell when neither side neighbour blocks. */
  lemma NewCellFits(g: Grid, w: Word, p: Placement, i: nat)
    requires i < w.Length() && At(p, i) !in g
    requires !NeighbourBlocks(g, w.id, p.orientation, Side(p, At(p, i), -1))
    requires !NeighbourBlocks(g, w.id, p.orientation, Side(p, At(p, i), 1))
    ensures LetterFits(g, w, p, i)
  {
  }

  /**
   * The neighbour rule lets a down word start in the cell right after the
   * last letter of an across word, so the across run reads one letter longer.
   * Here word 0 runs across through (0,0) and (0,1), the cell (2,2) holds
   * `X` owned across by word 1, and a three-letter down word ending in `X`
   * (word 2) is accepted at (0,2), the cell just after word 0.
   */
  lemma AcrossRunCanBeExtended(g: Grid, w: Word, p: Placement)
    requires (0, 1) in g && g[(0, 1)].across == Some(Owner(0, 1))
    requires (2, 2) in g && g[(2, 2)] == Cell('X', Some(Owner(1, 0)), None)
    requires (0, 2) !in g && (1, 2) !in g && (1, 1) !in g && (1, 3) !in g && (0, 3) !in g
    requires (-1, 2) !in g && (3, 2) !in g
    requires w.id == 2 && |w.sanitized| == 3 && w.sanitized[2] == 'X'
    requires p == Placement(0, 2, Down)
    ensures CanPlaceWord(g, w, p)
    ensures At(p, 0) == At(Placement(0, 0, Across), 2)
  {
    assert !NeighbourBlocks(g, w.id, Down, (0, 1));
    NewCellFits(g, w, p, 0);
    NewCellFits(g, w, p, 1);
    SharedCellFits(g, w, p, 2);
    FitsAt(g, w, p, 2);
    FitsAt(g, w, p, 1);
    FitsAt(g, w, p, 0);
    assert At(p, -1) == (-1, 2) && At(p, w.Length()) == (3, 2);
  }
}
