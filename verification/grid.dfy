/**
 * The sparse grid built by `generateLayout` (scripts.js): coordinates,
 * placements, cells with one owner slot per orientation, the letter index
 * (`charMap`) and the running bounds.
 */
module Grid {
  import opened Wrappers

  datatype Orientation = Across | Down

  function Perpendicular(o: Orientation): Orientation {
    if o == Across then Down else Across
  }

  /** An absolute (row, column); negative values are allowed before materialisation. */
  type Coord = (int, int)

  /** Where a word starts and which way it runs. */
  datatype Placement = Placement(row: int, col: int, orientation: Orientation)

  /** The coordinate of letter `i` of a word placed at `p`. */
  function At(p: Placement, i: int): Coord {
    if p.orientation == Down then (p.row + i, p.col) else (p.row, p.col + i)
  }

  /** How far `c` lies along the line of `p` (meaningful when it lies on that line). */
  function Offset(p: Placement, c: Coord): int {
    if p.orientation == Down then c.0 - p.row else c.1 - p.col
  }

  /** `c` is one of the coordinates `At(p, i)` with `lo <= i < hi`. */
  predicate OnPath(p: Placement, lo: int, hi: int, c: Coord) {
    if p.orientation == Down then c.1 == p.col && p.row + lo <= c.0 < p.row + hi
    else c.0 == p.row && p.col + lo <= c.1 < p.col + hi
  }

  lemma OnPathIffAt(p: Placement, lo: int, hi: int, c: Coord)
    ensures OnPath(p, lo, hi, c) <==> lo <= Offset(p, c) < hi && At(p, Offset(p, c)) == c
  {
  }

  lemma AtOnPath(p: Placement, lo: int, hi: int, i: int)
    ensures OnPath(p, lo, hi, At(p, i)) <==> lo <= i < hi
    ensures Offset(p, At(p, i)) == i
  {
  }

  /** One word occupying a cell: which word, and which of its letters. */
  datatype Owner = Owner(wordId: nat, index: nat)

  /** A cell of the sparse grid: its letter and at most one owner per orientation. */
  datatype Cell = Cell(letter: char, across: Option<Owner>, down: Option<Owner>)

  function OwnerIn(cell: Cell, o: Orientation): Option<Owner> {
    if o == Across then cell.across else cell.down
  }

  function WithOwner(cell: Cell, o: Orientation, owner: Owner): (r: Cell)
    ensures r.letter == cell.letter
    ensures OwnerIn(r, o) == Some(owner)
    ensures OwnerIn(r, Perpendicular(o)) == OwnerIn(cell, Perpendicular(o))
  {
    if o == Across then cell.(across := Some(owner)) else cell.(down := Some(owner))
  }

  type Grid = map<Coord, Cell>

  /** One write of `placeWordOnGrid` into `charMap`: a letter and where it went. */
  datatype Mark = Mark(letter: char, at: Coord)

  /**
   * `charMap` as the log of every write, oldest first: the list that
   * `charMap.get(x)` holds is the subsequence of the log for letter `x`.
   */
  type LetterLog = seq<Mark>

  /** The `charMap` entry for letter `x`, empty when there is none: the coordinates written with `x`, in write order. */
  function Occurrences(log: LetterLog, x: char): (r: seq<Coord>)
    ensures |r| <= |log|
  {
    if log == [] then []
    else
      var last := log[|log| - 1];
      Occurrences(log[..|log| - 1], x) + (if last.letter == x then [last.at] else [])
  }

  /** Appending one write extends exactly the list of its letter (scripts.js:235-238). */
  lemma OccurrencesAppend(log: LetterLog, m: Mark, x: char)
    ensures Occurrences(log + [m], x) == Occurrences(log, x) + (if m.letter == x then [m.at] else [])
  {
    assert (log + [m])[..|log|] == log;
  }

  /** Every listed coordinate was written with that letter, and every write is listed. */
  lemma {:induction false} OccurrencesExact(log: LetterLog, x: char)
    ensures forall c :: c in Occurrences(log, x) <==> Mark(x, c) in log
  {
    if log != [] {
      var init := log[..|log| - 1];
      OccurrencesExact(init, x);
      assert log == init + [log[|log| - 1]];
    }
  }

  /** The running `minRow`, `maxRow`, `minCol`, `maxCol`. */
  datatype Bounds = Bounds(minRow: int, maxRow: int, minCol: int, maxCol: int)

  /** Bounds start at the origin (scripts.js:195-198). */
  const InitialBounds := Bounds(0, 0, 0, 0)

  predicate Covers(b: Bounds, c: Coord) {
    b.minRow <= c.0 <= b.maxRow && b.minCol <= c.1 <= b.maxCol
  }

  /** `inner` lies within `outer`. */
  predicate Within(inner: Bounds, outer: Bounds) {
    outer.minRow <= inner.minRow && inner.maxRow <= outer.maxRow
    && outer.minCol <= inner.minCol && inner.maxCol <= outer.maxCol
  }

  function Min(a: int, b: int): int { if a <= b then a else b }
  function Max(a: int, b: int): int { if a >= b then a else b }

  /** Widens the bounds to take in one coordinate (scripts.js:230-233). */
  function Grow(b: Bounds, c: Coord): (r: Bounds)
    ensures Covers(r, c)
    ensures forall x :: Covers(b, x) ==> Covers(r, x)
    ensures Within(b, r)
    ensures forall outer: Bounds :: Within(b, outer) && Covers(outer, c) ==> Within(r, outer)
    ensures (r.minRow == b.minRow || r.minRow == c.0) && (r.maxRow == b.maxRow || r.maxRow == c.0)
    ensures (r.minCol == b.minCol || r.minCol == c.1) && (r.maxCol == b.maxCol || r.maxCol == c.1)
  {
    Bounds(Min(b.minRow, c.0), Max(b.maxRow, c.0), Min(b.minCol, c.1), Max(b.maxCol, c.1))
  }
}
