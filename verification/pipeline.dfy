/**
 * `generateLayout` followed by `buildMatrixFromGrid` and `assignNumbers`
 * (scripts.js:191-507), as called when a puzzle is prepared: the words are
 * sorted, placed, drawn into the matrix and numbered.
 */
module Pipeline {
  import opened Wrappers
  import opened Grid
  import opened Words
  import opened Commit
  import opened Ordering
  import opened Layout
  import opened Matrix
  import opened Numbering
  import opened Play

  /** The sorted order is an arrangement of the input: each word under its own id, none twice. */
  lemma SortedIsArrangement(ws: seq<Word>, order: seq<Word>)
    requires ValidWords(ws) && multiset(order) == multiset(ws) && SortedByLength(order)
    ensures Arrangement(ws, order)
    ensures forall i :: 0 <= i < |ws| ==> exists k :: 0 <= k < |order| && order[k] == ws[i]
  {
    forall k | 0 <= k < |order|
      ensures order[k].id < |ws| && ws[order[k].id] == order[k]
    {
      assert order[k] in multiset(ws);
      var i :| 0 <= i < |ws| && ws[i] == order[k];
    }
    forall i, j | 0 <= i < j < |order|
      ensures order[i].id != order[j].id
    {
      assert Precedes(order[i], order[j]);
    }
    forall i | 0 <= i < |ws|
      ensures exists k :: 0 <= k < |order| && order[k] == ws[i]
    {
      assert ws[i] in multiset(order);
      assert ws[i] in order;
      var k :| 0 <= k < |order| && order[k] == ws[i];
    }
  }

  /** The ids of an arrangement that holds every input word are exactly the input's ids. */
  lemma ArrangementIds(ws: seq<Word>, order: seq<Word>, ids: set<nat>)
    requires ValidWords(ws) && Arrangement(ws, order)
    requires forall i :: 0 <= i < |ws| ==> exists k :: 0 <= k < |order| && order[k] == ws[i]
    requires ids == set k | 0 <= k < |order| :: order[k].id
    ensures forall id: nat :: id in ids <==> id < |ws|
  {
    forall id: nat | id < |ws|
      ensures id in ids
    {
      var k :| 0 <= k < |order| && order[k] == ws[id];
    }
  }

  /**
   * `generateLayout`: the words sorted longest first and placed one by one,
   * each by the loop body on the layout the longer words left. Every word is
   * placed and the layout is well formed; the matrix, the back-filled squares
   * and the numbering are then `MatrixOf`, `BackFill` and `NumberAll` of the
   * result.
   */
  method GenerateLayout(ws: seq<Word>) returns (st: Engine, ghost trace: seq<Engine>)
    requires ValidWords(ws)
    ensures Trace(SortByLength(ws), trace) && |trace| == |ws| + 1 && st == trace[|ws|]
    ensures WellFormed(ws, st) && Proper(st.bounds)
    ensures forall id: nat :: id in st.placed <==> id < |ws|
  {
    var order := SortByLength(ws);
    ValidWordsIncreasing(ws);
    SortedIsArrangement(ws, order);
    assert |order| == |multiset(order)| == |ws|;
    st, trace := PlaceAll(ws, order);
    ArrangementIds(ws, order, st.placed.Keys);
    WellFormedIsProper(ws, st);
  }

  /** With no words the grid stays empty and the matrix is one blank square. */
  lemma NoWordsOneBlank(ws: seq<Word>, st: Engine)
    requires WellFormed(ws, st) && st.placed == map[]
    ensures Proper(st.bounds)
    ensures MatrixOf(ws, st) == [[Blank]]
  {
    WellFormedIsProper(ws, st);
    assert st.grid == map[];
    assert st.bounds == InitialBounds;
    var m := MatrixOf(ws, st);
    assert |m| == 1 && |m[0]| == 1 && m[0][0] == Blank;
    assert m[0] == [Blank];
  }

  /** The words as the player sees them: each answer with its back-filled squares. */
  function Slots(ws: seq<Word>, cells: map<Owner, Pos>): (r: seq<Slot>)
    requires forall id, i :: 0 <= id < |ws| && 0 <= i < ws[id].Length() ==> Owner(id, i) in cells
    ensures |r| == |ws| && Aligned(r)
    ensures forall k :: 0 <= k < |ws| ==> r[k].solution == ws[k].sanitized
    ensures forall k, i :: 0 <= k < |ws| && 0 <= i < ws[k].Length() ==> r[k].cells[i] == cells[Owner(k, i)]
  {
    seq(|ws|, k requires 0 <= k < |ws| =>
      Slot(ws[k].sanitized, seq(ws[k].Length(), i requires 0 <= i < ws[k].Length() => cells[Owner(k, i)])))
  }

  /** Two letters shown on the same square are the same grid cell, so they agree. */
  lemma HomesAgree(ws: seq<Word>, st: Engine, a: nat, i: nat, b: nat, j: nat)
    requires WellFormed(ws, st) && a in st.placed && b in st.placed
    requires i < ws[a].Length() && j < ws[b].Length()
    requires Home(st, ws, a, i) == Home(st, ws, b, j)
    ensures ws[a].sanitized[i] == ws[b].sanitized[j]
  {
    assert At(st.placed[a], i) == At(st.placed[b], j);
    SharedCellsAgree(ws, st, a, i, b, j);
  }

  /** The squares of a generated layout agree wherever two words share one. */
  lemma GeneratedSlotsAgree(ws: seq<Word>, st: Engine, cells: map<Owner, Pos>)
    requires WellFormed(ws, st) && (forall id: nat :: id in st.placed <==> id < |ws|)
    requires BackFilled(ws, st, cells)
    ensures Agree(Slots(ws, cells))
  {
    var r := Slots(ws, cells);
    forall a, b, i, j | 0 <= a < |r| && 0 <= b < |r| && 0 <= i < |r[a].cells| && 0 <= j < |r[b].cells| &&
                        r[a].cells[i] == r[b].cells[j]
      ensures i < |r[a].solution| && j < |r[b].solution| && r[a].solution[i] == r[b].solution[j]
    {
      assert a in st.placed && b in st.placed;
      HomesAgree(ws, st, a, i, b, j);
    }
  }

  /**
   * The puzzle as prepared from a finished layout can be solved: its matrix
   * back-fills every word, and revealing then checking scores every word.
   */
  lemma PreparedPuzzleIsSolvable(ws: seq<Word>, st: Engine, cells: map<Owner, Pos>, b: Board)
    requires WellFormed(ws, st) && (forall id: nat :: id in st.placed <==> id < |ws|)
    requires Proper(st.bounds) && cells == BackFill(MatrixOf(ws, st), AllPositions(st.bounds))
    ensures BackFilled(ws, st, cells)
    ensures Check(ShowSolution(b, Slots(ws, cells)), Slots(ws, cells)).score == |ws|
  {
    BackFillComplete(ws, st, MatrixOf(ws, st), cells);
    GeneratedSlotsAgree(ws, st, cells);
    ShowSolutionThenCheck(b, Slots(ws, cells));
  }
}
