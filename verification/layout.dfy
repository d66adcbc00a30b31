/**
 * The placement loop of `generateLayout` (scripts.js:355-390): each word, in
 * sorted order, goes to its fixed position when that is legal, else to the
 * origin of an empty grid, else to the best crossing, else below the grid.
 */
module Layout {
  import opened Wrappers
  import opened Grid
  import opened Words
  import opened Legality
  import opened Commit
  import opened Search

  /** The word asks for a fixed position and has both coordinates (scripts.js:362). */
  predicate WantsFixed(w: Word) {
    w.fixWord && w.fixedRow.Some? && w.fixedCol.Some?
  }

  function FixedPlacement(w: Word): Placement
    requires WantsFixed(w)
  {
    Placement(w.fixedRow.value, w.fixedCol.value, FixedOrientation(w.preference))
  }

  /** The fixed position is requested and legal, so it wins (scripts.js:362-371). */
  predicate FixedWins(g: Grid, w: Word) {
    WantsFixed(w) && CanPlaceWord(g, w, FixedPlacement(w))
  }

  /** The fallback start: two rows below the grid plus the list position (scripts.js:387-389). */
  function Fallback(b: Bounds, w: Word, listIndex: nat): (p: Placement)
    ensures p.row > b.maxRow && p.col == b.minCol
  {
    Placement(b.maxRow + 2 + listIndex, b.minCol, OrientationOrder(w.preference).0)
  }

  /** A start below every cell leaves the whole word on empty cells. */
  lemma FallbackIsFresh(g: Grid, b: Bounds, w: Word, listIndex: nat)
    requires forall c :: c in g ==> Covers(b, c)
    ensures Fresh(g, w, Fallback(b, w, listIndex))
  {
    var p := Fallback(b, w, listIndex);
    forall i | 0 <= i < w.Length()
      ensures At(p, i) !in g
    {
      assert At(p, i).0 > b.maxRow;
    }
  }

  /** Where the loop body puts `w`, the `listIndex`-th word of the sorted list. */
  function ChoosePlacement(st: Engine, w: Word, listIndex: nat): (p: Placement)
    requires forall c :: c in st.grid ==> Covers(st.bounds, c)
    ensures CanPlaceWord(st.grid, w, p) || Fresh(st.grid, w, p)
    ensures FixedWins(st.grid, w) ==> p == FixedPlacement(w)
    ensures !FixedWins(st.grid, w) && |st.grid| == 0 ==> p == Placement(0, 0, OrientationOrder(w.preference).0)
    ensures !FixedWins(st.grid, w) && |st.grid| > 0 && !CanPlaceWord(st.grid, w, p) ==>
              p == Fallback(st.bounds, w, listIndex)
  {
    var order := OrientationOrder(w.preference);
    if FixedWins(st.grid, w) then FixedPlacement(w)
    else if |st.grid| == 0 then
      EmptyGridAccepts(w, Placement(0, 0, order.0));
      Placement(0, 0, order.0)
    else
      match FindBestPlacement(st.grid, st.log, w, order)
      case Some(p) => p
      case None =>
        FallbackIsFresh(st.grid, st.bounds, w, listIndex);
        Fallback(st.bounds, w, listIndex)
  }

  /**
   * On a non-empty grid, when the fixed position does not win: the word
   * crosses the grid at the first best proposal when any legal placement
   * crosses it, and goes to the fallback row only when none does.
   */
  lemma ChoosePlacementPriority(st: Engine, w: Word, listIndex: nat)
    requires IndexExact(st) && forall c :: c in st.grid ==> Covers(st.bounds, c)
    requires !FixedWins(st.grid, w) && |st.grid| > 0
    ensures var p := ChoosePlacement(st, w, listIndex);
            var ps := Proposals(st.log, w.sanitized, OrientationOrder(w.preference));
            && ((exists q :: CanPlaceWord(st.grid, w, q) && Crossings(st.grid, q, w.Length()) > 0) ==>
                  exists k :: FirstBest(st.grid, w, ps, k) && p == ps[k])
            && ((forall q :: CanPlaceWord(st.grid, w, q) ==> Crossings(st.grid, q, w.Length()) == 0) ==>
                  p == Fallback(st.bounds, w, listIndex))
  {
    SearchIsComplete(st, w, OrientationOrder(w.preference));
  }

  /** Every cell of the grid lies inside the bounds, as the loop body needs. */
  predicate Covered(st: Engine) {
    forall c :: c in st.grid ==> Covers(st.bounds, c)
  }

  /** The loop body for the `listIndex`-th word: choose its start, then commit it. */
  function Next(st: Engine, w: Word, listIndex: nat): (r: Engine)
    requires Covered(st)
    ensures r.placed == st.placed[w.id := ChoosePlacement(st, w, listIndex)]
  {
    Place(st, w, ChoosePlacement(st, w, listIndex))
  }

  /** `order` lists distinct words of `ws`, each under its own id. */
  predicate Arrangement(ws: seq<Word>, order: seq<Word>) {
    && (forall k :: 0 <= k < |order| ==> order[k].id < |ws| && ws[order[k].id] == order[k])
    && (forall i, j :: 0 <= i < j < |order| ==> order[i].id != order[j].id)
  }

  /** One iteration of the loop keeps the invariant and places exactly its word. */
  lemma StepPreservesWellFormed(ws: seq<Word>, st: Engine, w: Word, listIndex: nat)
    requires WellFormed(ws, st) && w.id < |ws| && ws[w.id] == w && w.id !in st.placed
    ensures Covered(st)
    ensures WellFormed(ws, Next(st, w, listIndex))
    ensures Next(st, w, listIndex).placed.Keys == st.placed.Keys + {w.id}
  {
    CommitPreservesWellFormed(ws, st, w.id, ChoosePlacement(st, w, listIndex));
  }

  /**
   * `trace[n]` is the layout before the `n`-th word of `order` is placed:
   * it starts empty and each step is the loop body.
   */
  predicate Trace(order: seq<Word>, trace: seq<Engine>) {
    && |trace| == |order| + 1 && trace[0] == EmptyEngine
    && (forall n :: 0 <= n < |order| ==> StepAt(order, trace, n))
  }

  /** Step `n` of a trace is the loop body applied to the `n`-th word. */
  predicate StepAt(order: seq<Word>, trace: seq<Engine>, n: nat)
    requires n < |order| && n + 1 < |trace|
  {
    Covered(trace[n]) && trace[n + 1] == Next(trace[n], order[n], n)
  }

  /** Two traces that agree before step `n` agree after it. */
  lemma StepIsDetermined(order: seq<Word>, t1: seq<Engine>, t2: seq<Engine>, n: nat)
    requires n < |order| && n + 1 < |t1| && n + 1 < |t2| && t1[n] == t2[n]
    requires StepAt(order, t1, n) && StepAt(order, t2, n)
    ensures t1[n + 1] == t2[n + 1]
  {
  }

  /** The loop is deterministic: two runs over the same words agree at every step. */
  lemma {:induction false} TraceIsUnique(order: seq<Word>, t1: seq<Engine>, t2: seq<Engine>, n: nat)
    requires Trace(order, t1) && Trace(order, t2) && n <= |order|
    ensures t1[n] == t2[n]
  {
    if n > 0 {
      TraceIsUnique(order, t1, t2, n - 1);
      StepIsDetermined(order, t1, t2, n - 1);
    }
  }

  /** A step depends only on the two states it joins. */
  lemma StepAtFrame(order: seq<Word>, t1: seq<Engine>, t2: seq<Engine>, n: nat)
    requires n < |order| && n + 1 < |t1| && n + 1 < |t2|
    requires t1[n] == t2[n] && t1[n + 1] == t2[n + 1] && StepAt(order, t1, n)
    ensures StepAt(order, t2, n)
  {
  }

  /** The `n`-th word is not yet placed, and placing it adds exactly its id. */
  lemma PlacedIdsStep(ws: seq<Word>, order: seq<Word>, n: nat)
    requires Arrangement(ws, order) && n < |order|
    ensures order[n].id !in set k | 0 <= k < n :: order[k].id
    ensures (set k | 0 <= k < n + 1 :: order[k].id) == (set k | 0 <= k < n :: order[k].id) + {order[n].id}
  {
    assert forall k :: 0 <= k < n ==> order[k].id != order[n].id;
  }

  /** Appending a state keeps every step a trace already had. */
  lemma TraceExtends(order: seq<Word>, trace: seq<Engine>, next: Engine, n: nat)
    requires n < |order| && |trace| == n + 1
    requires forall k :: 0 <= k < n ==> StepAt(order, trace, k)
    ensures forall k :: 0 <= k < n ==> StepAt(order, trace + [next], k)
  {
    forall k | 0 <= k < n
      ensures StepAt(order, trace + [next], k)
    {
      StepAtFrame(order, trace, trace + [next], k);
    }
  }

  /**
   * The first word goes to its fixed position when it asks for one (any
   * position is legal on the empty grid), else to the origin in its first
   * orientation; it is then the only word placed.
   */
  lemma FirstWordPlacement(order: seq<Word>, trace: seq<Engine>)
    requires Trace(order, trace) && |order| > 0
    ensures trace[1].placed.Keys == {order[0].id}
    ensures trace[1].placed[order[0].id] ==
              if WantsFixed(order[0]) then FixedPlacement(order[0])
              else Placement(0, 0, OrientationOrder(order[0].preference).0)
  {
    var w := order[0];
    assert StepAt(order, trace, 0);
    if WantsFixed(w) {
      EmptyGridAccepts(w, FixedPlacement(w));
    }
  }

  /** The loop invariant after the first `n` words: a trace of them ending at `st`. */
  ghost predicate Placing(ws: seq<Word>, order: seq<Word>, n: nat, st: Engine, trace: seq<Engine>) {
    && n <= |order| && |trace| == n + 1 && trace[0] == EmptyEngine && st == trace[n]
    && (forall k :: 0 <= k < n ==> StepAt(order, trace, k))
    && WellFormed(ws, st)
    && st.placed.Keys == set k | 0 <= k < n :: order[k].id
  }

  /** One iteration keeps the invariant. */
  lemma PlacingStep(ws: seq<Word>, order: seq<Word>, n: nat, st: Engine, trace: seq<Engine>)
    requires ValidWords(ws) && Arrangement(ws, order) && n < |order|
    requires Placing(ws, order, n, st, trace)
    ensures Covered(st)
    ensures Placing(ws, order, n + 1, Next(st, order[n], n), trace + [Next(st, order[n], n)])
  {
    var w := order[n];
    PlacedIdsStep(ws, order, n);
    StepPreservesWellFormed(ws, st, w, n);
    TraceExtends(order, trace, Next(st, w, n), n);
    assert StepAt(order, trace + [Next(st, w, n)], n);
  }

  /**
   * The loop of `generateLayout` (scripts.js:355-391): the words of `order`
   * placed one after another, each by the loop body on the layout the
   * previous words left. Every step keeps the grid well formed, and at the
   * end exactly the words of `order` are placed.
   */
  method PlaceAll(ws: seq<Word>, order: seq<Word>) returns (st: Engine, ghost trace: seq<Engine>)
    requires ValidWords(ws) && Arrangement(ws, order)
    ensures Trace(order, trace) && st == trace[|order|]
    ensures WellFormed(ws, st)
    ensures st.placed.Keys == set k | 0 <= k < |order| :: order[k].id
  {
    st := EmptyEngine;
    trace := [st];
    EmptyEngineWellFormed(ws);
    for n := 0 to |order|
      invariant Placing(ws, order, n, st, trace)
    {
      PlacingStep(ws, order, n, st, trace);
      st := Next(st, order[n], n);
      trace := trace + [st];
    }
  }

}
