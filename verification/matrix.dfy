/**
 * `buildMatrixFromGrid` (scripts.js:396-462): the sparse grid becomes a
 * dense matrix over the bounds, and each word's `cells` array is filled
 * in from the squares that name it as their across or down owner.
 */
module Matrix {
  import opened Wrappers
  import opened Grid
  import opened Words
  import opened Commit

  /** A display position: matrix row, matrix column. */
  type Pos = (nat, nat)

  /**
   * A square of the matrix: `{ isEmpty: true }`, or a letter square with its
   * global and display coordinates, its solution letter and its owners. The
   * player's letters and the numbers live in their own modules.
   */
  datatype Square =
    | Blank
    | Filled(row: int, col: int, displayRow: nat, displayCol: nat, solution: char,
             across: Option<Owner>, down: Option<Owner>)

  type Matrix = seq<seq<Square>>

  /** Bounds the matrix can be built over: the grid's bounds always hold the origin. */
  predicate Proper(b: Bounds) {
    b.minRow <= b.maxRow && b.minCol <= b.maxCol
  }

  function Height(b: Bounds): nat requires Proper(b) { b.maxRow - b.minRow + 1 }
  function Width(b: Bounds): nat requires Proper(b) { b.maxCol - b.minCol + 1 }

  /** The grid coordinate shown at display position `p`. */
  function Global(b: Bounds, p: Pos): Coord {
    (b.minRow + p.0, b.minCol + p.1)
  }

  /** The display position of a grid coordinate inside the bounds. */
  function Display(b: Bounds, c: Coord): Pos
    requires Covers(b, c)
  {
    (c.0 - b.minRow, c.1 - b.minCol)
  }

  /** An owner survives only when `state.wordsMap` knows its word (scripts.js:429-455). */
  function Known(ow: Option<Owner>, nWords: nat): Option<Owner> {
    if ow.Some? && ow.value.wordId < nWords then ow else None
  }

  /**
   * The square shown at display position `p`: blank exactly where the grid
   * has no cell, otherwise that cell's letter at its own coordinates, with
   * the owners whose words exist.
   */
  function SquareAt(g: Grid, b: Bounds, nWords: nat, p: Pos): (s: Square)
    ensures s.Blank? <==> Global(b, p) !in g
    ensures s.Filled? ==>
              && (s.row, s.col) == Global(b, p) && s.displayRow == p.0 && s.displayCol == p.1
              && s.solution == g[Global(b, p)].letter
              && s.across == Known(g[Global(b, p)].across, nWords)
              && s.down == Known(g[Global(b, p)].down, nWords)
  {
    var c := Global(b, p);
    if c !in g then Blank
    else Filled(c.0, c.1, p.0, p.1, g[c].letter, Known(g[c].across, nWords), Known(g[c].down, nWords))
  }

  /** The matrix over the bounds: one square per position, one row per grid row. */
  function BuildMatrix(g: Grid, b: Bounds, nWords: nat): (m: Matrix)
    requires Proper(b)
    ensures |m| == Height(b)
    ensures forall r :: 0 <= r < |m| ==> |m[r]| == Width(b)
    ensures forall r, c :: 0 <= r < |m| && 0 <= c < |m[r]| ==> m[r][c] == SquareAt(g, b, nWords, (r, c))
  {
    seq(Height(b), r requires 0 <= r < Height(b) =>
      seq(Width(b), c requires 0 <= c < Width(b) => SquareAt(g, b, nWords, (r, c))))
  }

  /** Every grid cell inside the bounds appears in the matrix, at its display position. */
  lemma EveryCellShown(g: Grid, b: Bounds, nWords: nat, c: Coord)
    requires Proper(b) && c in g && Covers(b, c)
    ensures var m := BuildMatrix(g, b, nWords); var p := Display(b, c);
            && p.0 < |m| && p.1 < |m[p.0]|
            && m[p.0][p.1] == Filled(c.0, c.1, p.0, p.1, g[c].letter,
                                     Known(g[c].across, nWords), Known(g[c].down, nWords))
  {
    assert Global(b, Display(b, c)) == c;
  }

  /** Display positions `a` before `b` in reading order. */
  predicate Before(a: Pos, b: Pos) {
    a.0 < b.0 || (a.0 == b.0 && a.1 < b.1)
  }

  predicate RowMajor(ps: seq<Pos>) {
    forall i, j :: 0 <= i < j < |ps| ==> Before(ps[i], ps[j])
  }

  /** The inner loop: row `r`, left to right. */
  function Row(r: nat, cols: nat): (ps: seq<Pos>)
    ensures forall p :: p in ps <==> p.0 == r && p.1 < cols
    ensures RowMajor(ps)
  {
    if cols == 0 then [] else Row(r, cols - 1) + [(r, cols - 1)]
  }

  /** The visiting order of the two nested loops: row by row, left to right. */
  function Positions(rows: nat, cols: nat): (ps: seq<Pos>)
    ensures forall p :: p in ps <==> p.0 < rows && p.1 < cols
    ensures RowMajor(ps)
  {
    if rows == 0 then [] else Positions(rows - 1, cols) + Row(rows - 1, cols)
  }

  /** The square at `p`; a position outside the matrix reads as blank, as `!cell` does. */
  function SquareIn(m: Matrix, p: Pos): Square {
    if p.0 < |m| && p.1 < |m[p.0]| then m[p.0][p.1] else Blank
  }

  /** The square at `p` names `ow` as its across or its down owner. */
  predicate HasOwner(m: Matrix, p: Pos, ow: Owner) {
    && p.0 < |m| && p.1 < |m[p.0]| && m[p.0][p.1].Filled?
    && (m[p.0][p.1].across == Some(ow) || m[p.0][p.1].down == Some(ow))
  }

  /** Records the square as cell `index` of its across owner's word, then of its down owner's. */
  function FillFrom(cells: map<Owner, Pos>, s: Square, p: Pos): map<Owner, Pos> {
    if s.Blank? then cells
    else
      var withAcross := if s.across.Some? then cells[s.across.value := p] else cells;
      if s.down.Some? then withAcross[s.down.value := p] else withAcross
  }

  /**
   * The `cells` arrays after visiting `ps`, as one map from (word, index) to
   * the display position of the square last written there: it holds exactly
   * the owners named by a visited square, each at a square naming it.
   */
  function BackFill(m: Matrix, ps: seq<Pos>): (r: map<Owner, Pos>)
    ensures forall ow :: ow in r <==> exists k :: 0 <= k < |ps| && HasOwner(m, ps[k], ow)
    ensures forall ow :: ow in r ==> HasOwner(m, r[ow], ow) && r[ow] in ps
  {
    if ps == [] then map[]
    else
      var front := ps[..|ps| - 1];
      var p := ps[|ps| - 1];
      var before := BackFill(m, front);
      assert forall k :: 0 <= k < |front| ==> front[k] == ps[k];
      FillFrom(before, SquareIn(m, p), p)
  }

  /** The matrix of an engine, over its bounds, owners checked against `ws`. */
  function MatrixOf(ws: seq<Word>, st: Engine): Matrix
    requires Proper(st.bounds)
  {
    BuildMatrix(st.grid, st.bounds, |ws|)
  }

  function AllPositions(b: Bounds): seq<Pos>
    requires Proper(b)
  {
    Positions(Height(b), Width(b))
  }

  /** Letter `i` of placed word `id` is shown at this display position. */
  function Home(st: Engine, ws: seq<Word>, id: nat, i: nat): Pos
    requires WellFormed(ws, st) && id in st.placed && i < ws[id].Length()
  {
    assert Claimed(st.grid, id, ws[id].sanitized, st.placed[id], i);
    Display(st.bounds, At(st.placed[id], i))
  }

  lemma HomeIsFilled(ws: seq<Word>, st: Engine, id: nat, i: nat)
    requires WellFormed(ws, st) && id in st.placed && i < ws[id].Length()
    ensures Proper(st.bounds)
    ensures var m := MatrixOf(ws, st); var p := Home(st, ws, id, i);
            && p in AllPositions(st.bounds)
            && HasOwner(m, p, Owner(id, i))
            && m[p.0][p.1].solution == ws[id].sanitized[i]
  {
    var c := At(st.placed[id], i);
    assert Claimed(st.grid, id, ws[id].sanitized, st.placed[id], i);
    EveryCellShown(st.grid, st.bounds, |ws|, c);
  }

  /** A letter square names the owners of the grid cell it shows. */
  lemma SquareShowsCell(g: Grid, b: Bounds, nWords: nat, p: Pos, ow: Owner)
    requires Proper(b) && HasOwner(BuildMatrix(g, b, nWords), p, ow)
    ensures Global(b, p) in g && Covers(b, Global(b, p)) && Display(b, Global(b, p)) == p
    ensures OwnerIn(g[Global(b, p)], Across) == Some(ow) || OwnerIn(g[Global(b, p)], Down) == Some(ow)
  {
    var m := BuildMatrix(g, b, nWords);
    var s := SquareAt(g, b, nWords, p);
    assert p.0 < Height(b) && p.1 < Width(b);
    DisplayOfGlobal(b, p);
    assert m[p.0][p.1] == s;
    assert s.across == Some(ow) || s.down == Some(ow);
  }

  /** Inside the matrix, the display position of the shown coordinate is the position itself. */
  lemma DisplayOfGlobal(b: Bounds, p: Pos)
    requires Proper(b) && p.0 < Height(b) && p.1 < Width(b)
    ensures Covers(b, Global(b, p)) && Display(b, Global(b, p)) == p
  {
  }

  /** In a consistent grid, an owner names a placed word whose path runs through the cell. */
  lemma OwnerIsPlaced(ws: seq<Word>, st: Engine, c: Coord, ow: Owner, o: Orientation)
    requires Consistent(ws, st) && c in st.grid && OwnerIn(st.grid[c], o) == Some(ow)
    ensures ow.wordId in st.placed && ow.index < ws[ow.wordId].Length()
    ensures At(st.placed[ow.wordId], ow.index) == c
  {
    if o == Across {
      assert Owns(ws, st.placed, st.grid[c].across.value, Across, c);
    } else {
      assert Owns(ws, st.placed, st.grid[c].down.value, Down, c);
    }
  }

  /** A square that names `ow` in a well-formed layout is that letter's home. */
  lemma OwnerSquareIsHome(ws: seq<Word>, st: Engine, p: Pos, ow: Owner)
    requires WellFormed(ws, st) && HasOwner(MatrixOf(ws, st), p, ow)
    ensures ow.wordId in st.placed && ow.index < ws[ow.wordId].Length()
    ensures p == Home(st, ws, ow.wordId, ow.index)
  {
    SquareShowsCell(st.grid, st.bounds, |ws|, p, ow);
    var c := Global(st.bounds, p);
    if OwnerIn(st.grid[c], Across) == Some(ow) {
      OwnerIsPlaced(ws, st, c, ow, Across);
    } else {
      OwnerIsPlaced(ws, st, c, ow, Down);
    }
  }

  /** The bounds of a well-formed layout hold the origin, so a matrix can be built. */
  lemma WellFormedIsProper(ws: seq<Word>, st: Engine)
    requires WellFormed(ws, st)
    ensures Proper(st.bounds)
  {
    assert Covers(st.bounds, (0, 0));
  }

  /** Letter `i` of a placed word is back-filled with its home square. */
  lemma LetterAtHome(ws: seq<Word>, st: Engine, cells: map<Owner, Pos>, id: nat, i: nat)
    requires WellFormed(ws, st) && Proper(st.bounds)
    requires cells == BackFill(MatrixOf(ws, st), AllPositions(st.bounds))
    requires id in st.placed && i < ws[id].Length()
    ensures Owner(id, i) in cells && cells[Owner(id, i)] == Home(st, ws, id, i)
  {
    HomeIsFilled(ws, st, id, i);
    var ps := AllPositions(st.bounds);
    var p := Home(st, ws, id, i);
    var k :| 0 <= k < |ps| && ps[k] == p;
    assert HasOwner(MatrixOf(ws, st), ps[k], Owner(id, i));
    OwnerSquareIsHome(ws, st, cells[Owner(id, i)], Owner(id, i));
  }

  /** Every letter of every placed word is back-filled with its home square, and nothing else is. */
  ghost predicate BackFilled(ws: seq<Word>, st: Engine, cells: map<Owner, Pos>)
    requires WellFormed(ws, st)
  {
    && (forall id, i :: id in st.placed && 0 <= i < ws[id].Length() ==>
          Owner(id, i) in cells && cells[Owner(id, i)] == Home(st, ws, id, i))
    && (forall ow :: ow in cells ==> ow.wordId in st.placed && ow.index < ws[ow.wordId].Length())
  }

  /**
   * The back-filled `cells` of a well-formed layout have no gaps: every
   * letter of every placed word sits at its home square, which shows that
   * letter.
   */
  lemma BackFillHasNoGaps(ws: seq<Word>, st: Engine, m: Matrix, cells: map<Owner, Pos>)
    requires WellFormed(ws, st) && Proper(st.bounds)
    requires m == MatrixOf(ws, st) && cells == BackFill(m, AllPositions(st.bounds))
    ensures forall id, i :: id in st.placed && 0 <= i < ws[id].Length() ==>
              && Owner(id, i) in cells && cells[Owner(id, i)] == Home(st, ws, id, i)
              && m[Home(st, ws, id, i).0][Home(st, ws, id, i).1].solution == ws[id].sanitized[i]
  {
    forall id, i | id in st.placed && 0 <= i < ws[id].Length()
      ensures && Owner(id, i) in cells && cells[Owner(id, i)] == Home(st, ws, id, i)
              && m[Home(st, ws, id, i).0][Home(st, ws, id, i).1].solution == ws[id].sanitized[i]
    {
      LetterAtHome(ws, st, cells, id, i);
      HomeIsFilled(ws, st, id, i);
    }
  }

  /** The back-filled `cells` name only letters of placed words. */
  lemma BackFillNamesOnlyPlaced(ws: seq<Word>, st: Engine, cells: map<Owner, Pos>)
    requires WellFormed(ws, st) && Proper(st.bounds)
    requires cells == BackFill(MatrixOf(ws, st), AllPositions(st.bounds))
    ensures forall ow :: ow in cells ==> ow.wordId in st.placed && ow.index < ws[ow.wordId].Length()
  {
    forall ow | ow in cells
      ensures ow.wordId in st.placed && ow.index < ws[ow.wordId].Length()
    {
      OwnerSquareIsHome(ws, st, cells[ow], ow);
    }
  }

  /** The back-fill of a well-formed layout's matrix is complete and names only placed letters. */
  lemma BackFillComplete(ws: seq<Word>, st: Engine, m: Matrix, cells: map<Owner, Pos>)
    requires WellFormed(ws, st) && Proper(st.bounds)
    requires m == MatrixOf(ws, st)
    requires cells == BackFill(m, AllPositions(st.bounds))
    ensures BackFilled(ws, st, cells)
  {
    BackFillHasNoGaps(ws, st, m, cells);
    BackFillNamesOnlyPlaced(ws, st, cells);
  }
}
