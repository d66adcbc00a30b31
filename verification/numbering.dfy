/**
 * `assignNumbers` (scripts.js:464-507): squares are visited row by row; a
 * square that starts an across word with no across word to its left, or a
 * down word with no down word above, takes the next number, and each word
 * keeps the first number offered to it.
 */
module Numbering {
  import opened Wrappers
  import opened Grid
  import opened Matrix

  /** A neighbour that does not continue a word in orientation `o`. */
  predicate Open(s: Square, o: Orientation) {
    s.Blank? || (if o == Across then s.across.None? else s.down.None?)
  }

  /** Index 0 of an across word, with no across word to its left (scripts.js:476-478). */
  predicate AcrossStart(m: Matrix, p: Pos) {
    var s := SquareIn(m, p);
    && s.Filled? && s.across.Some? && s.across.value.index == 0
    && (p.1 == 0 || Open(SquareIn(m, (p.0, p.1 - 1)), Across))
  }

  /** Index 0 of a down word, with no down word above it (scripts.js:487-489). */
  predicate DownStart(m: Matrix, p: Pos) {
    var s := SquareIn(m, p);
    && s.Filled? && s.down.Some? && s.down.value.index == 0
    && (p.0 == 0 || Open(SquareIn(m, (p.0 - 1, p.1)), Down))
  }

  /** `assignsNumber`: the square takes a number of its own. */
  predicate Start(m: Matrix, p: Pos) {
    AcrossStart(m, p) || DownStart(m, p)
  }

  /** The square at `p` offers its number to word `id`. */
  predicate StartOf(m: Matrix, p: Pos, id: nat) {
    || (AcrossStart(m, p) && SquareIn(m, p).across.value.wordId == id)
    || (DownStart(m, p) && SquareIn(m, p).down.value.wordId == id)
  }

  /** How many squares of `ps` take a number. */
  function Count(m: Matrix, ps: seq<Pos>): (r: nat)
    ensures r <= |ps|
  {
    if ps == [] then 0
    else Count(m, ps[..|ps| - 1]) + (if Start(m, ps[|ps| - 1]) then 1 else 0)
  }

  /** `Count` is the number of positions of `ps` that start a word. */
  lemma {:induction false} CountIsStarts(m: Matrix, ps: seq<Pos>)
    ensures Count(m, ps) == |set k | 0 <= k < |ps| && Start(m, ps[k])|
  {
    var now := set k | 0 <= k < |ps| && Start(m, ps[k]);
    if ps == [] {
      assert now == {};
    } else {
      var front := ps[..|ps| - 1];
      CountIsStarts(m, front);
      var before := set k | 0 <= k < |front| && Start(m, front[k]);
      var last := if Start(m, ps[|ps| - 1]) then {|ps| - 1} else {};
      forall k | k in now
        ensures k in before + last
      {
        if k < |front| {
          assert front[k] == ps[k];
        }
      }
      forall k | k in before
        ensures k in now
      {
        assert front[k] == ps[k];
      }
      assert now == before + last;
    }
  }

  /** `counter`, the squares' numbers (absent: `null`) and the words' numbers. */
  datatype Numbers = Numbers(counter: nat, cells: map<Pos, nat>, words: map<nat, nat>)

  /** A word offered the current number takes it unless it already has one. */
  function Offer(words: map<nat, nat>, id: nat, n: nat): map<nat, nat> {
    if id in words then words else words[id := n]
  }

  /** The square takes the word's number, or loses its number when the word has none. */
  function CopyNumber(cells: map<Pos, nat>, p: Pos, n: Option<nat>): map<Pos, nat> {
    if n.Some? then cells[p := n.value] else cells - {p}
  }

  function Lookup(words: map<nat, nat>, id: nat): Option<nat> {
    if id in words then Some(words[id]) else None
  }

  /**
   * The body of the inner loop for the square at `p` (scripts.js:480-503):
   * a start square takes the next number and moves the counter on; every
   * word it starts that has no number yet gets that number, and numbers
   * already given stay; no other square changes.
   */
  function Visit(m: Matrix, st: Numbers, p: Pos): (r: Numbers)
    ensures r.counter == st.counter + (if Start(m, p) then 1 else 0)
    ensures Start(m, p) ==> p in r.cells && r.cells[p] == st.counter
    ensures forall q :: q != p ==> (q in r.cells <==> q in st.cells)
    ensures forall q :: q != p && q in st.cells ==> r.cells[q] == st.cells[q]
    ensures forall id :: id in r.words <==> id in st.words || StartOf(m, p, id)
    ensures forall id :: id in st.words ==> r.words[id] == st.words[id]
    ensures forall id :: id in r.words && id !in st.words ==> r.words[id] == st.counter
  {
    var s := SquareIn(m, p);
    if s.Blank? then st
    else
      var afterAcross := if AcrossStart(m, p) then Offer(st.words, s.across.value.wordId, st.counter) else st.words;
      var words := if DownStart(m, p) then Offer(afterAcross, s.down.value.wordId, st.counter) else afterAcross;
      if Start(m, p) then Numbers(st.counter + 1, st.cells[p := st.counter], words)
      else if s.across.Some? && s.across.value.index == 0 then
        Numbers(st.counter, CopyNumber(st.cells, p, Lookup(words, s.across.value.wordId)), words)
      else if s.down.Some? && s.down.value.index == 0 then
        Numbers(st.counter, CopyNumber(st.cells, p, Lookup(words, s.down.value.wordId)), words)
      else Numbers(st.counter, st.cells, words)
  }

  const Unnumbered := Numbers(1, map[], map[])

  /** Every number handed out so far is below the counter. */
  predicate Below(st: Numbers) {
    && (forall p :: p in st.cells ==> 1 <= st.cells[p] < st.counter)
    && (forall id :: id in st.words ==> 1 <= st.words[id] < st.counter)
  }

  /** A visit keeps every number handed out below the counter. */
  lemma VisitBelow(m: Matrix, st: Numbers, p: Pos)
    requires Below(st) && st.counter >= 1
    ensures Below(Visit(m, st, p))
  {
  }

  /**
   * The numbering after visiting `ps`: the counter has moved past one number
   * per start square, and every number handed out is below the counter.
   */
  function NumberAll(m: Matrix, ps: seq<Pos>): (r: Numbers)
    ensures r.counter == Count(m, ps) + 1
    ensures Below(r)
  {
    if ps == [] then Unnumbered
    else
      var before := NumberAll(m, ps[..|ps| - 1]);
      VisitBelow(m, before, ps[|ps| - 1]);
      Visit(m, before, ps[|ps| - 1])
  }

  /** A word has a number exactly when some visited square starts it. */
  lemma {:induction false} WordsNumbered(m: Matrix, ps: seq<Pos>)
    ensures forall id :: id in NumberAll(m, ps).words <==> exists k :: 0 <= k < |ps| && StartOf(m, ps[k], id)
  {
    if ps != [] {
      var front := ps[..|ps| - 1];
      WordsNumbered(m, front);
      assert forall k :: 0 <= k < |front| ==> front[k] == ps[k];
    }
  }

  /** Visiting a square never changes a number a word already has. */
  lemma VisitKeepsWords(m: Matrix, st: Numbers, p: Pos)
    ensures forall id :: id in st.words ==> id in Visit(m, st, p).words && Visit(m, st, p).words[id] == st.words[id]
  {
  }

  /** A word's number is set once: later squares never change it. */
  lemma {:induction false} WordNumberSetOnce(m: Matrix, ps: seq<Pos>, qs: seq<Pos>)
    ensures forall id :: id in NumberAll(m, ps).words ==>
              id in NumberAll(m, ps + qs).words && NumberAll(m, ps + qs).words[id] == NumberAll(m, ps).words[id]
    decreases |qs|
  {
    if qs != [] {
      var front := qs[..|qs| - 1];
      WordNumberSetOnce(m, ps, front);
      assert (ps + qs)[..|ps + qs| - 1] == ps + front;
      VisitKeepsWords(m, NumberAll(m, ps + front), qs[|qs| - 1]);
    } else {
      assert ps + qs == ps;
    }
  }

  /** `k` is the first position of `ps` that starts word `id`. */
  predicate FirstStartOf(m: Matrix, ps: seq<Pos>, k: int, id: nat) {
    && 0 <= k < |ps| && StartOf(m, ps[k], id)
    && forall j :: 0 <= j < k ==> !StartOf(m, ps[j], id)
  }

  /** A word's number is the counter at the first square that starts it. */
  lemma {:induction false} WordNumberIsFirstStart(m: Matrix, ps: seq<Pos>, id: nat)
    requires id in NumberAll(m, ps).words
    ensures exists k :: FirstStartOf(m, ps, k, id) && NumberAll(m, ps).words[id] == Count(m, ps[..k]) + 1
  {
    var front := ps[..|ps| - 1];
    var p := ps[|ps| - 1];
    assert forall k :: 0 <= k < |front| ==> front[k] == ps[k];
    if id in NumberAll(m, front).words {
      WordNumberIsFirstStart(m, front, id);
      var k :| FirstStartOf(m, front, k, id) && NumberAll(m, front).words[id] == Count(m, front[..k]) + 1;
      assert front[..k] == ps[..k];
      VisitKeepsWords(m, NumberAll(m, front), p);
      assert FirstStartOf(m, ps, k, id);
    } else {
      var k := |ps| - 1;
      assert ps[..k] == front;
      WordsNumbered(m, front);
      assert forall j :: 0 <= j < k ==> !StartOf(m, ps[j], id);
      assert FirstStartOf(m, ps, k, id);
    }
  }

  /** No position occurs twice: each square is visited once. */
  predicate Distinct(ps: seq<Pos>) {
    forall i, j :: 0 <= i < j < |ps| ==> ps[i] != ps[j]
  }

  /** Visiting `p` leaves the numbers of all other squares alone. */
  lemma VisitKeepsOtherCells(m: Matrix, st: Numbers, p: Pos, q: Pos)
    requires q != p && q in st.cells
    ensures q in Visit(m, st, p).cells && Visit(m, st, p).cells[q] == st.cells[q]
  {
  }

  /**
   * The `k`-th visited square, when it starts a word, is numbered one more
   * than the number of start squares before it: starts are numbered 1, 2, …
   * in visiting order.
   */
  lemma {:induction false} StartNumbers(m: Matrix, ps: seq<Pos>, k: nat)
    requires Distinct(ps) && k < |ps| && Start(m, ps[k])
    ensures ps[k] in NumberAll(m, ps).cells && NumberAll(m, ps).cells[ps[k]] == Count(m, ps[..k]) + 1
  {
    var front := ps[..|ps| - 1];
    assert forall i :: 0 <= i < |front| ==> front[i] == ps[i];
    if k < |ps| - 1 {
      StartNumbers(m, front, k);
      assert front[..k] == ps[..k];
      VisitKeepsOtherCells(m, NumberAll(m, front), ps[|ps| - 1], ps[k]);
    } else {
      assert ps[..k] == front;
    }
  }

  /** Counting start squares over a longer prefix never counts fewer. */
  lemma {:induction false} CountGrows(m: Matrix, ps: seq<Pos>, i: nat, j: nat)
    requires i <= j <= |ps|
    ensures Count(m, ps[..i]) <= Count(m, ps[..j])
    ensures i < j && Start(m, ps[i]) ==> Count(m, ps[..i]) < Count(m, ps[..j])
    decreases j - i
  {
    if i < j {
      CountGrows(m, ps, i, j - 1);
      assert ps[..j][..j - 1] == ps[..j - 1];
      if i == j - 1 {
        assert ps[..j][j - 1] == ps[i];
      }
    }
  }

  /** Of two start squares, the one visited first has the smaller number. */
  lemma NumbersIncrease(m: Matrix, ps: seq<Pos>, i: nat, j: nat)
    requires Distinct(ps) && i < j < |ps| && Start(m, ps[i]) && Start(m, ps[j])
    ensures ps[i] in NumberAll(m, ps).cells && ps[j] in NumberAll(m, ps).cells
    ensures NumberAll(m, ps).cells[ps[i]] < NumberAll(m, ps).cells[ps[j]]
  {
    StartNumbers(m, ps, i);
    StartNumbers(m, ps, j);
    CountGrows(m, ps, i, j);
  }

  /** Reading order visits every position once. */
  lemma RowMajorIsDistinct(ps: seq<Pos>)
    requires RowMajor(ps)
    ensures Distinct(ps)
  {
    forall i, j | 0 <= i < j < |ps|
      ensures ps[i] != ps[j]
    {
      assert Before(ps[i], ps[j]);
    }
  }

  /**
   * The numbering of a matrix: over all its positions in reading order, the
   * start squares get 1, 2, … up to their count, increasing left to right
   * and top to bottom.
   */
  lemma StartsNumberedInReadingOrder(m: Matrix, rows: nat, cols: nat, p: Pos, q: Pos)
    requires Start(m, p) && Start(m, q) && p.0 < rows && p.1 < cols && q.0 < rows && q.1 < cols
    requires Before(p, q)
    ensures var r := NumberAll(m, Positions(rows, cols));
            p in r.cells && q in r.cells && 1 <= r.cells[p] < r.cells[q] < r.counter
  {
    var ps := Positions(rows, cols);
    RowMajorIsDistinct(ps);
    var i :| 0 <= i < |ps| && ps[i] == p;
    var j :| 0 <= j < |ps| && ps[j] == q;
    ReadingOrderIndices(ps, i, j);
    NumbersIncrease(m, ps, i, j);
  }

  /** In a row-major list, a position read earlier sits at a smaller index. */
  lemma ReadingOrderIndices(ps: seq<Pos>, i: nat, j: nat)
    requires RowMajor(ps) && i < |ps| && j < |ps| && Before(ps[i], ps[j])
    ensures i < j
  {
  }
}
