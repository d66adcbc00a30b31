/**
 * `findBestPlacement` (scripts.js:308-353): every logged cell that holds one
 * of the word's letters proposes a start; the first legal proposal with the
 * most crossings wins.
 */
module Search {
  import opened Wrappers
  import opened Grid
  import opened Words
  import opened Legality
  import opened Commit

  /** Letter `index` of the word lined up with the existing cell `at`. */
  datatype Candidate = Candidate(at: Coord, index: nat)

  function Tag(cs: seq<Coord>, i: nat): (r: seq<Candidate>)
    ensures |r| == |cs| && forall k :: 0 <= k < |r| ==> r[k] == Candidate(cs[k], i)
  {
    seq(|cs|, k requires 0 <= k < |cs| => Candidate(cs[k], i))
  }

  /** Candidates for earlier letters come first. */
  predicate IndexOrdered(cs: seq<Candidate>) {
    forall k1, k2 :: 0 <= k1 < k2 < |cs| ==> cs[k1].index <= cs[k2].index
  }

  /** The candidates of `cs` that line up letter `i`, in their order. */
  function Slice(cs: seq<Candidate>, i: nat): (r: seq<Candidate>)
    ensures forall k :: 0 <= k < |r| ==> r[k].index == i
  {
    if cs == [] then [] else (if cs[0].index == i then [cs[0]] else []) + Slice(cs[1..], i)
  }

  lemma {:induction false} SliceAppend(a: seq<Candidate>, b: seq<Candidate>, i: nat)
    ensures Slice(a + b, i) == Slice(a, i) + Slice(b, i)
  {
    if a != [] {
      assert (a + b)[1..] == a[1..] + b;
      SliceAppend(a[1..], b, i);
    } else {
      assert a + b == b;
    }
  }

  /** A slice for a letter no candidate lines up is empty. */
  lemma {:induction false} SliceNone(cs: seq<Candidate>, i: nat)
    requires forall k :: 0 <= k < |cs| ==> cs[k].index != i
    ensures Slice(cs, i) == []
  {
    if cs != [] {
      assert forall k :: 0 <= k < |cs| - 1 ==> cs[1..][k] == cs[k + 1];
      SliceNone(cs[1..], i);
    }
  }

  /** A slice for a letter every candidate lines up is everything. */
  lemma {:induction false} SliceAll(cs: seq<Candidate>, i: nat)
    requires forall k :: 0 <= k < |cs| ==> cs[k].index == i
    ensures Slice(cs, i) == cs
  {
    if cs != [] {
      assert forall k :: 0 <= k < |cs| - 1 ==> cs[1..][k] == cs[k + 1];
      SliceAll(cs[1..], i);
    }
  }

  /** `candidateCells` over the first `n` letters (scripts.js:313-318). */
  function Candidates(log: LetterLog, s: string, n: nat): (r: seq<Candidate>)
    requires n <= |s|
    ensures forall k :: 0 <= k < |r| ==> r[k].index < n
  {
    if n == 0 then [] else Candidates(log, s, n - 1) + Tag(Occurrences(log, s[n - 1]), n - 1)
  }

  /** Every candidate lines up a letter of the word with a logged cell holding that letter. */
  lemma {:induction false} CandidatesSound(log: LetterLog, s: string, n: nat, k: nat)
    requires n <= |s| && k < |Candidates(log, s, n)|
    ensures var cand := Candidates(log, s, n)[k];
            Mark(s[cand.index], cand.at) in log
  {
    var prev := Candidates(log, s, n - 1);
    var tail := Tag(Occurrences(log, s[n - 1]), n - 1);
    assert Candidates(log, s, n) == prev + tail;
    if k < |prev| {
      CandidatesSound(log, s, n - 1, k);
    } else {
      OccurrencesExact(log, s[n - 1]);
      assert tail[k - |prev|].at in Occurrences(log, s[n - 1]);
    }
  }

  /** Every logged cell holding letter `i` of the word is a candidate for that letter. */
  lemma CandidatesComplete(log: LetterLog, s: string, n: nat, i: nat, c: Coord)
    requires n <= |s| && i < n && Mark(s[i], c) in log
    ensures Candidate(c, i) in Candidates(log, s, n)
  {
    CandidatesOrder(log, s, n);
    OccurrencesExact(log, s[i]);
    var occ := Occurrences(log, s[i]);
    var k :| 0 <= k < |occ| && occ[k] == c;
    assert Tag(occ, i)[k] == Candidate(c, i);
    SliceIn(Candidates(log, s, n), i, Candidate(c, i));
  }

  /** The slice of letter `i` after appending the candidates of letter `last`. */
  lemma SliceStep(prev: seq<Candidate>, tail: seq<Candidate>, last: nat, i: nat, want: seq<Candidate>)
    requires forall k :: 0 <= k < |prev| ==> prev[k].index < last
    requires forall k :: 0 <= k < |tail| ==> tail[k].index == last
    requires i <= last && (i < last ==> Slice(prev, i) == want) && (i == last ==> tail == want)
    ensures Slice(prev + tail, i) == want
  {
    SliceAppend(prev, tail, i);
    if i < last {
      SliceNone(tail, i);
    } else {
      SliceNone(prev, i);
      SliceAll(tail, i);
    }
  }

  /** Candidates of a later letter appended after ordered earlier ones stay ordered. */
  lemma OrderedAppend(prev: seq<Candidate>, tail: seq<Candidate>, last: nat)
    requires IndexOrdered(prev) && forall k :: 0 <= k < |prev| ==> prev[k].index < last
    requires forall k :: 0 <= k < |tail| ==> tail[k].index == last
    ensures IndexOrdered(prev + tail)
  {
    var all := prev + tail;
    forall k1, k2 | 0 <= k1 < k2 < |all|
      ensures all[k1].index <= all[k2].index
    {
      if k2 < |prev| {
        assert all[k1] == prev[k1] && all[k2] == prev[k2];
      } else if k1 < |prev| {
        assert all[k1] == prev[k1] && all[k2] == tail[k2 - |prev|];
      } else {
        assert all[k1] == tail[k1 - |prev|] && all[k2] == tail[k2 - |prev|];
      }
    }
  }

  /** A slice holds only candidates of the whole list. */
  lemma {:induction false} SliceIn(cs: seq<Candidate>, i: nat, x: Candidate)
    requires x in Slice(cs, i)
    ensures x in cs
  {
    if cs != [] && x != cs[0] {
      SliceIn(cs[1..], i, x);
    }
  }


  /** `cs` lists the candidates letter by letter, those of letter `i` in the order `charMap` lists its cells. */
  predicate LettersInOrder(log: LetterLog, s: string, n: nat, cs: seq<Candidate>)
    requires n <= |s|
  {
    IndexOrdered(cs) && forall i :: 0 <= i < n ==> Slice(cs, i) == Tag(Occurrences(log, s[i]), i)
  }

  /**
   * The order `candidateCells` builds: letter by letter in letter order, and
   * for letter `i` the cells `charMap` lists for it, in the order they were
   * logged.
   */
  lemma {:induction false} CandidatesOrder(log: LetterLog, s: string, n: nat)
    requires n <= |s|
    ensures LettersInOrder(log, s, n, Candidates(log, s, n))
  {
    if n > 0 {
      var prev := Candidates(log, s, n - 1);
      var tail := Tag(Occurrences(log, s[n - 1]), n - 1);
      CandidatesOrder(log, s, n - 1);
      CandidatesStep(prev, tail, log, s, n);
      assert Candidates(log, s, n) == prev + tail;
    }
  }

  /** Appending the candidates of letter `n - 1` keeps the letter order and adds exactly its slice. */
  lemma CandidatesStep(prev: seq<Candidate>, tail: seq<Candidate>, log: LetterLog, s: string, n: nat)
    requires 0 < n <= |s| && tail == Tag(Occurrences(log, s[n - 1]), n - 1)
    requires forall k :: 0 <= k < |prev| ==> prev[k].index < n - 1
    requires LettersInOrder(log, s, n - 1, prev)
    ensures LettersInOrder(log, s, n, prev + tail)
  {
    OrderedAppend(prev, tail, n - 1);
    forall i | 0 <= i < n
      ensures Slice(prev + tail, i) == Tag(Occurrences(log, s[i]), i)
    {
      SliceStep(prev, tail, n - 1, i, Tag(Occurrences(log, s[i]), i));
    }
  }

  /** The start that puts letter `cand.index` on `cand.at` (scripts.js:324-327). */
  function StartFor(cand: Candidate, o: Orientation): (p: Placement)
    ensures At(p, cand.index) == cand.at && p.orientation == o
  {
    Placement(cand.at.0 - (if o == Down then cand.index else 0),
              cand.at.1 - (if o == Across then cand.index else 0), o)
  }

  /** A placement is the start its letter `i` proposes. */
  lemma StartForRecovers(p: Placement, i: nat)
    ensures StartFor(Candidate(At(p, i), i), p.orientation) == p
  {
  }

  function Starts(cands: seq<Candidate>, o: Orientation): (r: seq<Placement>)
    ensures |r| == |cands| && forall k :: 0 <= k < |r| ==> r[k] == StartFor(cands[k], o)
  {
    seq(|cands|, k requires 0 <= k < |cands| => StartFor(cands[k], o))
  }

  /**
   * The proposals in the order they are tried (scripts.js:320-328): every
   * candidate in the preferred orientation, then every candidate in the
   * other; each puts the candidate's letter on the candidate's cell.
   */
  function Proposals(log: LetterLog, s: string, order: (Orientation, Orientation)): (r: seq<Placement>)
    ensures var cands := Candidates(log, s, |s|);
            && |r| == 2 * |cands|
            && (forall k :: 0 <= k < |cands| ==>
                  r[k].orientation == order.0 && At(r[k], cands[k].index) == cands[k].at)
            && (forall k :: |cands| <= k < |r| ==>
                  r[k].orientation == order.1 && At(r[k], cands[k - |cands|].index) == cands[k - |cands|].at)
  {
    var cands := Candidates(log, s, |s|);
    Starts(cands, order.0) + Starts(cands, order.1)
  }

  /** How many of the first `n` path cells of `p` are already on the grid (scripts.js:336-342). */
  function Crossings(g: Grid, p: Placement, n: nat): (r: nat)
    ensures r <= n
    ensures r == 0 <==> forall i :: 0 <= i < n ==> At(p, i) !in g
  {
    if n == 0 then 0 else Crossings(g, p, n - 1) + (if At(p, n - 1) in g then 1 else 0)
  }

  /** `intersections` is the number of path positions whose cell is already on the grid. */
  lemma {:induction false} CrossingsCount(g: Grid, p: Placement, n: nat)
    ensures Crossings(g, p, n) == |set i | 0 <= i < n && At(p, i) in g|
  {
    var now := set i | 0 <= i < n && At(p, i) in g;
    if n == 0 {
      assert now == {};
    } else {
      CrossingsCount(g, p, n - 1);
      var before := set i | 0 <= i < n - 1 && At(p, i) in g;
      if At(p, n - 1) in g {
        assert now == before + {n - 1};
      } else {
        assert now == before;
      }
    }
  }

  /** The running `bestPlacement` and `bestIntersections`. */
  datatype Best = Best(placement: Option<Placement>, count: int)

  /** `bestIntersections` starts at -1 so that any legal placement beats it. */
  const NoBest := Best(None, -1)

  /** One proposal (scripts.js:329-348): kept only when legal and strictly better. */
  function Step(g: Grid, w: Word, b: Best, q: Placement): (r: Best)
    ensures r.count >= b.count
    ensures r.count > b.count <==> CanPlaceWord(g, w, q) && Crossings(g, q, w.Length()) > b.count
    ensures r.count > b.count ==> r.placement == Some(q) && r.count == Crossings(g, q, w.Length())
    ensures r.count == b.count ==> r == b
  {
    var n := Crossings(g, q, w.Length());
    if CanPlaceWord(g, w, q) && n > b.count then Best(Some(q), n) else b
  }

  /** `ps[k]` is legal, crosses at least as much as every legal proposal, and more than every earlier one. */
  predicate FirstBest(g: Grid, w: Word, ps: seq<Placement>, k: int) {
    && 0 <= k < |ps| && CanPlaceWord(g, w, ps[k])
    && (forall j :: 0 <= j < |ps| && CanPlaceWord(g, w, ps[j]) ==>
          Crossings(g, ps[j], w.Length()) <= Crossings(g, ps[k], w.Length()))
    && (forall j :: 0 <= j < k && CanPlaceWord(g, w, ps[j]) ==>
          Crossings(g, ps[j], w.Length()) < Crossings(g, ps[k], w.Length()))
  }

  /** What the scan of `ps` leaves: nothing when no proposal is legal, else the first best one and its crossings. */
  ghost predicate ScanSpec(g: Grid, w: Word, ps: seq<Placement>, r: Best) {
    && (r.placement.None? <==> forall k :: 0 <= k < |ps| ==> !CanPlaceWord(g, w, ps[k]))
    && (r.placement.None? ==> r == NoBest)
    && (r.placement.Some? ==>
          exists k :: FirstBest(g, w, ps, k) && r.placement.value == ps[k]
                      && r.count == Crossings(g, ps[k], w.Length()))
  }

  /** The scan of the proposals in order: nothing when none is legal, else the first best one. */
  function Scan(g: Grid, w: Word, ps: seq<Placement>): (r: Best)
    ensures r.placement.None? <==> forall k :: 0 <= k < |ps| ==> !CanPlaceWord(g, w, ps[k])
    ensures r.placement.None? ==> r == NoBest
    ensures r.placement.Some? ==>
              exists k :: FirstBest(g, w, ps, k) && r.placement.value == ps[k]
                          && r.count == Crossings(g, ps[k], w.Length())
  {
    if ps == [] then NoBest
    else
      var init := ps[..|ps| - 1];
      var q := ps[|ps| - 1];
      var b := Scan(g, w, init);
      var r := Step(g, w, b, q);
      assert ScanSpec(g, w, init, b);
      ScanStep(g, w, ps, b, r);
      r
  }

  /** The step case of `Scan`, on its own so the solver sees only what it needs. */
  lemma ScanStep(g: Grid, w: Word, ps: seq<Placement>, b: Best, r: Best)
    requires ps != [] && ScanSpec(g, w, ps[..|ps| - 1], b)
    requires r == Step(g, w, b, ps[|ps| - 1])
    ensures ScanSpec(g, w, ps, r)
  {
    if r.count > b.count {
      ScanStepImproves(g, w, ps, b, r);
    } else {
      ScanStepKeeps(g, w, ps, b);
    }
  }

  /** A last proposal that beats the best so far becomes the first best. */
  lemma ScanStepImproves(g: Grid, w: Word, ps: seq<Placement>, b: Best, r: Best)
    requires ps != [] && ScanSpec(g, w, ps[..|ps| - 1], b)
    requires r.placement == Some(ps[|ps| - 1]) && CanPlaceWord(g, w, ps[|ps| - 1])
    requires r.count == Crossings(g, ps[|ps| - 1], w.Length()) && r.count > b.count
    ensures ScanSpec(g, w, ps, r)
  {
    var init := ps[..|ps| - 1];
    assert forall k :: 0 <= k < |ps| - 1 ==> ps[k] == init[k];
    NewBest(g, w, ps, b);
  }

  /** A last proposal that does not beat the best so far leaves it in place. */
  lemma ScanStepKeeps(g: Grid, w: Word, ps: seq<Placement>, b: Best)
    requires ps != [] && ScanSpec(g, w, ps[..|ps| - 1], b)
    requires CanPlaceWord(g, w, ps[|ps| - 1]) ==> Crossings(g, ps[|ps| - 1], w.Length()) <= b.count
    ensures ScanSpec(g, w, ps, b)
  {
    var init := ps[..|ps| - 1];
    assert forall k :: 0 <= k < |ps| - 1 ==> ps[k] == init[k];
    if b.placement.Some? {
      var k :| FirstBest(g, w, init, k) && b.placement.value == init[k]
               && b.count == Crossings(g, init[k], w.Length());
      BestStays(g, w, ps, k);
    }
  }

  /** A legal last proposal beating every earlier legal one is the first best. */
  lemma NewBest(g: Grid, w: Word, ps: seq<Placement>, b: Best)
    requires ps != [] && CanPlaceWord(g, w, ps[|ps| - 1])
    requires Crossings(g, ps[|ps| - 1], w.Length()) > b.count
    requires forall j :: 0 <= j < |ps| - 1 && CanPlaceWord(g, w, ps[j]) ==> Crossings(g, ps[j], w.Length()) <= b.count
    ensures FirstBest(g, w, ps, |ps| - 1)
  {
  }

  /** The earlier best stays first best when the last proposal does not beat it. */
  lemma BestStays(g: Grid, w: Word, ps: seq<Placement>, k: nat)
    requires ps != [] && FirstBest(g, w, ps[..|ps| - 1], k)
    requires CanPlaceWord(g, w, ps[|ps| - 1]) ==>
               Crossings(g, ps[|ps| - 1], w.Length()) <= Crossings(g, ps[k], w.Length())
    ensures FirstBest(g, w, ps, k)
  {
    assert forall j :: 0 <= j < |ps| - 1 ==> ps[j] == ps[..|ps| - 1][j];
  }

  /** `findBestPlacement`: the first legal proposal with the most crossings, if any. */
  function FindBestPlacement(g: Grid, log: LetterLog, w: Word, order: (Orientation, Orientation)): (r: Option<Placement>)
    ensures r.None? <==> forall q :: q in Proposals(log, w.sanitized, order) ==> !CanPlaceWord(g, w, q)
    ensures r.Some? ==>
              exists k :: FirstBest(g, w, Proposals(log, w.sanitized, order), k)
                          && r.value == Proposals(log, w.sanitized, order)[k]
  {
    Scan(g, w, Proposals(log, w.sanitized, order)).placement
  }

  /** Scanning one more proposal is one more step. */
  lemma ScanAppend(g: Grid, w: Word, ps: seq<Placement>, q: Placement)
    ensures Scan(g, w, ps + [q]) == Step(g, w, Scan(g, w, ps), q)
  {
    assert (ps + [q])[..|ps|] == ps;
  }

  /** A proposal seen before changes nothing: it cannot beat the best with strict `>`. */
  lemma RepeatIsIgnored(g: Grid, w: Word, ps: seq<Placement>, q: Placement)
    requires q in ps
    ensures Step(g, w, Scan(g, w, ps), q) == Scan(g, w, ps)
  {
    if CanPlaceWord(g, w, q) {
      var j :| 0 <= j < |ps| && ps[j] == q;
      var b := Scan(g, w, ps);
      var k :| FirstBest(g, w, ps, k) && b.placement.value == ps[k]
               && b.count == Crossings(g, ps[k], w.Length());
    }
  }

  /** `ps` with every repeated proposal dropped, keeping first occurrences. */
  function Dedup(ps: seq<Placement>): (r: seq<Placement>)
    ensures forall q :: q in r <==> q in ps
  {
    if ps == [] then []
    else
      var init := ps[..|ps| - 1];
      var q := ps[|ps| - 1];
      assert ps == init + [q];
      if q in init then Dedup(init) else Dedup(init) + [q]
  }

  /** Duplicate `charMap` entries are harmless: scanning with repeats is scanning without them. */
  lemma {:induction false} DuplicatesAreHarmless(g: Grid, w: Word, ps: seq<Placement>)
    ensures Scan(g, w, ps) == Scan(g, w, Dedup(ps))
  {
    if ps != [] {
      var init := ps[..|ps| - 1];
      var q := ps[|ps| - 1];
      DuplicatesAreHarmless(g, w, init);
      var before := Scan(g, w, init);
      assert Scan(g, w, ps) == Step(g, w, before, q);
      if q in init {
        RepeatIsIgnored(g, w, init, q);
        assert Dedup(ps) == Dedup(init);
      } else {
        assert Dedup(ps) == Dedup(init) + [q];
        ScanAppend(g, w, Dedup(init), q);
      }
    }
  }

  /** A path cell already on the grid is one crossing. */
  lemma {:induction false} CrossingCounts(g: Grid, p: Placement, n: nat, i: nat)
    requires i < n && At(p, i) in g
    ensures Crossings(g, p, n) >= 1
  {
    if i < n - 1 {
      CrossingCounts(g, p, n - 1, i);
    }
  }

  /** Every proposal crosses the grid at a cell with its own letter. */
  lemma ProposalsCross(st: Engine, w: Word, order: (Orientation, Orientation), q: Placement)
    requires IndexExact(st) && q in Proposals(st.log, w.sanitized, order)
    ensures exists i :: 0 <= i < w.Length() && At(q, i) in st.grid && st.grid[At(q, i)].letter == w.sanitized[i]
    ensures Crossings(st.grid, q, w.Length()) >= 1
  {
    var s := w.sanitized;
    var cands := Candidates(st.log, s, |s|);
    var k :| 0 <= k < |cands| && (q == StartFor(cands[k], order.0) || q == StartFor(cands[k], order.1));
    var cand := cands[k];
    CandidatesSound(st.log, s, |s|, k);
    var m :| 0 <= m < |st.log| && st.log[m] == Mark(s[cand.index], cand.at);
    assert At(q, cand.index) == cand.at;
    CrossingCounts(st.grid, q, w.Length(), cand.index);
  }

  /** Every legal placement that crosses the grid is among the proposals. */
  lemma CrossingPlacementIsProposed(st: Engine, w: Word, order: (Orientation, Orientation), q: Placement, i: nat)
    requires IndexExact(st) && order.0 != order.1
    requires i < w.Length() && At(q, i) in st.grid && CanPlaceWord(st.grid, w, q)
    ensures q in Proposals(st.log, w.sanitized, order)
  {
    var s := w.sanitized;
    assert !LetterClash(st.grid, w, q, i);
    assert Mark(s[i], At(q, i)) in st.log;
    var cands := Candidates(st.log, s, |s|);
    CandidatesComplete(st.log, s, |s|, i, At(q, i));
    var k :| 0 <= k < |cands| && cands[k] == Candidate(At(q, i), i);
    StartForRecovers(q, i);
    var o := q.orientation;
    if o == order.0 {
      assert Starts(cands, order.0)[k] == q;
    } else {
      assert o == order.1;
      assert Starts(cands, order.1)[k] == q;
      assert Proposals(st.log, s, order)[|cands| + k] == q;
    }
  }

  /**
   * The search fails only when no legal placement touches the grid at all;
   * when it succeeds the winner is legal and crosses at least one cell.
   */
  lemma SearchIsComplete(st: Engine, w: Word, order: (Orientation, Orientation))
    requires IndexExact(st) && order.0 != order.1
    ensures FindBestPlacement(st.grid, st.log, w, order).None? <==>
              forall q :: CanPlaceWord(st.grid, w, q) ==> Crossings(st.grid, q, w.Length()) == 0
    ensures FindBestPlacement(st.grid, st.log, w, order).Some? ==>
              var q := FindBestPlacement(st.grid, st.log, w, order).value;
              CanPlaceWord(st.grid, w, q) && Crossings(st.grid, q, w.Length()) >= 1
  {
    var r := FindBestPlacement(st.grid, st.log, w, order);
    var ps := Proposals(st.log, w.sanitized, order);
    if r.None? {
      forall q | CanPlaceWord(st.grid, w, q)
        ensures Crossings(st.grid, q, w.Length()) == 0
      {
        if Crossings(st.grid, q, w.Length()) != 0 {
          var i :| 0 <= i < w.Length() && At(q, i) in st.grid;
          CrossingPlacementIsProposed(st, w, order, q, i);
          assert false;
        }
      }
    } else {
      var k :| FirstBest(st.grid, w, ps, k) && r.value == ps[k];
      ProposalsCross(st, w, order, r.value);
    }
  }
}
