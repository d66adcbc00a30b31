/**
 * The answer state of a running puzzle: the letters typed into squares
 * (`setCellValue`, scripts.js:871-877), checking every word (`handleCheck`,
 * scripts.js:912-930), revealing the solution (`handleShowSolution`,
 * scripts.js:950-978) and starting over (`handleRetry`, scripts.js:980-1004).
 */
module Play {
  import opened Wrappers
  import opened Matrix
  import Text

  datatype Status = Pending | Correct | Wrong

  /** A word as the player sees it: its answer and its back-filled squares. */
  datatype Slot = Slot(solution: string, cells: seq<Pos>)

  /** The `normalizedChar` of each square; a square with no entry holds "". */
  type Entries = map<Pos, string>

  /** Entries, the words' statuses, `state.score` and `state.isChecked`. */
  datatype Board = Board(entries: Entries, status: seq<Status>, score: nat, checked: bool)

  function Entry(e: Entries, p: Pos): string {
    if p in e then e[p] else ""
  }

  /** Every entry is at most one character, as `normalizeChar` leaves it. */
  predicate Short(e: Entries) {
    forall p :: p in e ==> |e[p]| <= 1
  }

  /** The squares of `cells` hold one character at most. */
  predicate ShortOn(e: Entries, cells: seq<Pos>) {
    forall i :: 0 <= i < |cells| ==> |Entry(e, cells[i])| <= 1
  }

  /** What the player has typed into a word: its squares' entries joined in order, an empty square adding nothing. */
  function Input(e: Entries, cells: seq<Pos>): (r: string)
    ensures ShortOn(e, cells) ==> |r| <= |cells|
  {
    if cells == [] then ""
    else
      var front := cells[..|cells| - 1];
      assert forall i :: 0 <= i < |front| ==> front[i] == cells[i];
      Input(e, front) + Entry(e, cells[|cells| - 1])
  }

  /** A word is solved when its typed input has its length and equals its answer. */
  predicate Solved(e: Entries, w: Slot) {
    var input := Input(e, w.cells);
    |input| == |w.solution| && input == w.solution
  }

  /** How many statuses are `Correct`. */
  function Tally(ss: seq<Status>): (r: nat)
    ensures r <= |ss|
    ensures r == |ss| <==> forall k :: 0 <= k < |ss| ==> ss[k] == Correct
    ensures r == 0 <==> forall k :: 0 <= k < |ss| ==> ss[k] != Correct
  {
    if ss == [] then 0
    else
      var front := ss[..|ss| - 1];
      assert forall k :: 0 <= k < |front| ==> front[k] == ss[k];
      Tally(front) + (if ss[|ss| - 1] == Correct then 1 else 0)
  }

  /** `correctCount` is the number of words whose status is correct. */
  lemma {:induction false} TallyIsCorrectCount(ss: seq<Status>)
    ensures Tally(ss) == |set k | 0 <= k < |ss| && ss[k] == Correct|
  {
    var now := set k | 0 <= k < |ss| && ss[k] == Correct;
    if ss == [] {
      assert now == {};
    } else {
      var front := ss[..|ss| - 1];
      TallyIsCorrectCount(front);
      var before := set k | 0 <= k < |front| && front[k] == Correct;
      assert forall k :: 0 <= k < |front| ==> front[k] == ss[k];
      if ss[|ss| - 1] == Correct {
        assert now == before + {|ss| - 1};
      } else {
        assert now == before;
      }
    }
  }

  /**
   * `handleCheck`: each word is marked correct exactly when its squares spell
   * its answer, and the score counts the correct words.
   */
  function Check(b: Board, ws: seq<Slot>): (r: Board)
    ensures r.entries == b.entries && r.checked
    ensures |r.status| == |ws|
    ensures forall k :: 0 <= k < |ws| ==> (r.status[k] == Correct <==> Input(b.entries, ws[k].cells) == ws[k].solution)
    ensures forall k :: 0 <= k < |ws| ==> r.status[k] != Pending
    ensures r.score == Tally(r.status) && r.score <= |ws|
  {
    var status := seq(|ws|, k requires 0 <= k < |ws| => if Solved(b.entries, ws[k]) then Correct else Wrong);
    Board(b.entries, status, Tally(status), true)
  }

  /** Each square of `cells` holds the matching letter of `solution`. */
  predicate Spells(e: Entries, cells: seq<Pos>, solution: string)
    requires |cells| == |solution|
  {
    forall i :: 0 <= i < |cells| ==> Entry(e, cells[i]) == [solution[i]]
  }

  /** When every entry is one character at most, a word is solved exactly when each of its squares holds its letter. */
  lemma {:induction false} SolvedLetterByLetter(e: Entries, cells: seq<Pos>, solution: string)
    requires ShortOn(e, cells) && |cells| == |solution|
    ensures Input(e, cells) == solution <==> Spells(e, cells, solution)
  {
    if cells != [] {
      var n := |cells| - 1;
      var front := cells[..n];
      ShortOnPrefix(e, cells, n);
      SolvedLetterByLetter(e, front, solution[..n]);
      SpellsStep(e, cells, solution);
      var head := Input(e, front);
      var last := Entry(e, cells[n]);
      assert Input(e, cells) == head + last;
      assert |last| <= 1;
      assert solution == solution[..n] + [solution[n]];
      LastLetter(head, last, solution[..n], solution[n]);
    }
  }

  lemma ShortOnPrefix(e: Entries, cells: seq<Pos>, n: nat)
    requires ShortOn(e, cells) && n <= |cells|
    ensures ShortOn(e, cells[..n])
  {
    assert forall i :: 0 <= i < n ==> cells[..n][i] == cells[i];
  }

  lemma SpellsStep(e: Entries, cells: seq<Pos>, solution: string)
    requires 0 < |cells| == |solution|
    ensures var n := |cells| - 1;
            Spells(e, cells, solution) <==> Spells(e, cells[..n], solution[..n]) && Entry(e, cells[n]) == [solution[n]]
  {
    var n := |cells| - 1;
    assert forall i :: 0 <= i < n ==> cells[..n][i] == cells[i] && solution[..n][i] == solution[i];
  }

  /** A prefix of at most `|pre|` characters and a tail of at most one spell `pre + [x]` only piece by piece. */
  lemma LastLetter(head: string, last: string, pre: string, x: char)
    requires |head| <= |pre| && |last| <= 1
    ensures head + last == pre + [x] <==> head == pre && last == [x]
  {
    if head + last == pre + [x] {
      assert head == (head + last)[..|pre|];
    }
  }

  /**
   * Writes `solution[i]` (uncover) or "" (clear) into squares `0 .. n-1` of
   * one word: the squares it reaches hold one letter (or ""), and the squares
   * it does not reach keep their entries.
   */
  function WriteWord(e: Entries, w: Slot, n: nat, uncover: bool): (r: Entries)
    requires n <= |w.cells|
    requires uncover ==> |w.cells| <= |w.solution|
    ensures forall p :: p in r <==> p in e || p in w.cells[..n]
    ensures forall p :: p in e && p !in w.cells[..n] ==> r[p] == e[p]
    ensures forall p :: p in w.cells[..n] ==> if uncover then |r[p]| == 1 else r[p] == ""
  {
    if n == 0 then e
    else
      var before := WriteWord(e, w, n - 1, uncover);
      assert w.cells[..n] == w.cells[..n - 1] + [w.cells[n - 1]];
      before[w.cells[n - 1] := if uncover then [w.solution[n - 1]] else ""]
  }

  /** Squares whose letters agree wherever two words share a square. */
  predicate Agree(ws: seq<Slot>) {
    forall a, b, i, j ::
      (0 <= a < |ws| && 0 <= b < |ws| && 0 <= i < |ws[a].cells| && 0 <= j < |ws[b].cells| &&
       ws[a].cells[i] == ws[b].cells[j]) ==> i < |ws[a].solution| && j < |ws[b].solution| && ws[a].solution[i] == ws[b].solution[j]
  }

  /** Each word has as many squares as letters: the back-fill left no gaps. */
  predicate Aligned(ws: seq<Slot>) {
    forall k :: 0 <= k < |ws| ==> |ws[k].cells| == |ws[k].solution|
  }

  /** The entries after writing the first `n` words, as the loops of `handleShowSolution` and `handleRetry` do. */
  function WriteAll(e: Entries, ws: seq<Slot>, n: nat, uncover: bool): (r: Entries)
    requires n <= |ws| && Aligned(ws)
    ensures Short(e) ==> Short(r)
  {
    if n == 0 then e
    else WriteWord(WriteAll(e, ws, n - 1, uncover), ws[n - 1], |ws[n - 1].cells|, uncover)
  }

  /** Square `p` belongs to one of the first `n` words. */
  predicate Touched(ws: seq<Slot>, n: nat, p: Pos)
    requires n <= |ws|
  {
    exists k :: 0 <= k < n && p in ws[k].cells
  }

  lemma TouchedStep(ws: seq<Slot>, n: nat, p: Pos)
    requires 0 < n <= |ws|
    ensures Touched(ws, n, p) <==> Touched(ws, n - 1, p) || p in ws[n - 1].cells
  {
    if Touched(ws, n, p) && p !in ws[n - 1].cells {
      var k :| 0 <= k < n && p in ws[k].cells;
      assert k < n - 1;
    }
  }

  /** The squares written are those of the first `n` words. */
  lemma {:induction false} WriteAllKeys(e: Entries, ws: seq<Slot>, n: nat, uncover: bool, p: Pos)
    requires n <= |ws| && Aligned(ws)
    ensures p in WriteAll(e, ws, n, uncover) <==> p in e || Touched(ws, n, p)
  {
    if n > 0 {
      var w := ws[n - 1];
      var before := WriteAll(e, ws, n - 1, uncover);
      assert WriteAll(e, ws, n, uncover) == WriteWord(before, w, |w.cells|, uncover);
      WholeWordFrame(before, w, uncover, p);
      WriteAllKeys(e, ws, n - 1, uncover, p);
      TouchedStep(ws, n, p);
    }
  }

  /** A square none of the first `n` words occupies keeps its entry. */
  lemma {:induction false} WriteAllFrame(e: Entries, ws: seq<Slot>, n: nat, uncover: bool, p: Pos)
    requires n <= |ws| && Aligned(ws)
    requires p in e && !Touched(ws, n, p)
    ensures p in WriteAll(e, ws, n, uncover) && WriteAll(e, ws, n, uncover)[p] == e[p]
  {
    if n > 0 {
      var w := ws[n - 1];
      var before := WriteAll(e, ws, n - 1, uncover);
      assert WriteAll(e, ws, n, uncover) == WriteWord(before, w, |w.cells|, uncover);
      TouchedStep(ws, n, p);
      WriteAllFrame(e, ws, n - 1, uncover, p);
      WholeWordFrame(before, w, uncover, p);
    }
  }

  /** Writing a whole word adds its squares and leaves every other square alone. */
  lemma WholeWordFrame(e: Entries, w: Slot, uncover: bool, p: Pos)
    requires uncover ==> |w.cells| <= |w.solution|
    ensures p in WriteWord(e, w, |w.cells|, uncover) <==> p in e || p in w.cells
    ensures p in e && p !in w.cells ==> WriteWord(e, w, |w.cells|, uncover)[p] == e[p]
  {
    assert w.cells[..|w.cells|] == w.cells;
  }


  /** A square a written word occupies holds that word's letter (or "" when clearing) afterwards. */
  lemma {:induction false} WriteAllSquares(e: Entries, ws: seq<Slot>, n: nat, uncover: bool, a: nat, i: nat)
    requires n <= |ws| && Aligned(ws) && Agree(ws)
    requires a < n && i < |ws[a].cells|
    ensures Entry(WriteAll(e, ws, n, uncover), ws[a].cells[i]) == if uncover then [ws[a].solution[i]] else ""
  {
    var w := ws[n - 1];
    var before := WriteAll(e, ws, n - 1, uncover);
    var p := ws[a].cells[i];
    assert w.cells[..|w.cells|] == w.cells;
    if p in w.cells {
      var j :| 0 <= j < |w.cells| && w.cells[j] == p;
      WrittenLetter(before, w, |w.cells|, uncover, j);
    } else {
      WriteAllSquares(e, ws, n - 1, uncover, a, i);
    }
  }

  /** The square `j` of a written word holds its last writing, which is the word's letter `j` when it appears once or agrees. */
  lemma {:induction false} WrittenLetter(e: Entries, w: Slot, n: nat, uncover: bool, j: nat)
    requires n <= |w.cells| <= |w.solution| && j < n
    requires forall x, y :: 0 <= x < y < |w.cells| && w.cells[x] == w.cells[y] ==> w.solution[x] == w.solution[y]
    ensures Entry(WriteWord(e, w, n, uncover), w.cells[j]) == if uncover then [w.solution[j]] else ""
  {
    if j < n - 1 && w.cells[n - 1] != w.cells[j] {
      WrittenLetter(e, w, n - 1, uncover, j);
    }
  }

  /**
   * `handleShowSolution`: every square of every word gets that word's letter,
   * every word is marked correct and the score is the number of words.
   */
  function ShowSolution(b: Board, ws: seq<Slot>): (r: Board)
    requires Aligned(ws)
    ensures |r.status| == |ws| && r.score == |ws| && r.checked
    ensures forall k :: 0 <= k < |ws| ==> r.status[k] == Correct
    ensures Short(b.entries) ==> Short(r.entries)
  {
    Board(WriteAll(b.entries, ws, |ws|, true), seq(|ws|, k => Correct), |ws|, true)
  }

  /**
   * Revealing is what it claims: when shared squares agree, checking right
   * after `ShowSolution` finds every word correct, with the full score.
   */
  lemma ShowSolutionThenCheck(b: Board, ws: seq<Slot>)
    requires Aligned(ws) && Agree(ws)
    ensures var r := Check(ShowSolution(b, ws), ws);
            (forall k :: 0 <= k < |ws| ==> r.status[k] == Correct) && r.score == |ws|
  {
    var e := ShowSolution(b, ws).entries;
    forall k | 0 <= k < |ws|
      ensures Input(e, ws[k].cells) == ws[k].solution
    {
      forall i | 0 <= i < |ws[k].cells|
        ensures Entry(e, ws[k].cells[i]) == [ws[k].solution[i]]
      {
        WriteAllSquares(b.entries, ws, |ws|, true, k, i);
      }
      SolvedLetterByLetter(e, ws[k].cells, ws[k].solution);
    }
  }

  /**
   * `handleRetry`: every square of every word is emptied, every word is
   * pending again, the score is 0 and nothing is checked.
   */
  function Retry(b: Board, ws: seq<Slot>): (r: Board)
    requires Aligned(ws)
    ensures |r.status| == |ws| && r.score == 0 && !r.checked
    ensures forall k :: 0 <= k < |ws| ==> r.status[k] == Pending
    ensures Short(b.entries) ==> Short(r.entries)
  {
    Board(WriteAll(b.entries, ws, |ws|, false), seq(|ws|, k => Pending), 0, false)
  }

  /** After a retry every word's squares are empty, so checking scores nothing when each word has a letter. */
  lemma RetryThenCheck(b: Board, ws: seq<Slot>)
    requires Aligned(ws) && Agree(ws)
    requires forall k :: 0 <= k < |ws| ==> |ws[k].solution| > 0
    ensures var e := Retry(b, ws).entries;
            forall k, i :: 0 <= k < |ws| && 0 <= i < |ws[k].cells| ==> Entry(e, ws[k].cells[i]) == ""
    ensures Check(Retry(b, ws), ws).score == 0
  {
    var e := Retry(b, ws).entries;
    forall k, i | 0 <= k < |ws| && 0 <= i < |ws[k].cells|
      ensures Entry(e, ws[k].cells[i]) == ""
    {
      WriteAllSquares(b.entries, ws, |ws|, false, k, i);
    }
    forall k | 0 <= k < |ws|
      ensures Input(e, ws[k].cells) != ws[k].solution
    {
      EmptyInput(e, ws[k].cells);
    }
  }

  /** Squares that all hold "" spell the empty string. */
  lemma {:induction false} EmptyInput(e: Entries, cells: seq<Pos>)
    requires forall i :: 0 <= i < |cells| ==> Entry(e, cells[i]) == ""
    ensures Input(e, cells) == ""
  {
    if cells != [] {
      EmptyInput(e, cells[..|cells| - 1]);
    }
  }

  /**
   * `setCellValue`: the square keeps the first letter of the normalised key,
   * or "" when nothing survives, and every word through it is pending again.
   */
  function SetCellValue(maps: Text.CharMaps, b: Board, ws: seq<Slot>, p: Pos, value: string): (r: Board)
    requires |b.status| == |ws|
    ensures Short(b.entries) ==> Short(r.entries)
    ensures Entry(r.entries, p) == Text.NormalizeChar(maps, Some(value))
    ensures forall q :: q != p ==> Entry(r.entries, q) == Entry(b.entries, q)
    ensures |r.status| == |ws| && !r.checked && r.score == b.score
    ensures forall k :: 0 <= k < |ws| ==> r.status[k] == if p in ws[k].cells then Pending else b.status[k]
  {
    var status := seq(|ws|, k requires 0 <= k < |ws| => if p in ws[k].cells then Pending else b.status[k]);
    Board(b.entries[p := Text.NormalizeChar(maps, Some(value))], status, b.score, false)
  }
}
