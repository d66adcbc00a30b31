/**
 * The order `generateLayout` places words in (scripts.js:192): a copy of
 * the word list sorted by decreasing answer length with a stable sort, so
 * longer words come first and words of equal length keep input order.
 */
module Ordering {
  import opened Words

  /** `a` may come before `b`: longer, or as long and earlier in the input. */
  predicate Precedes(a: Word, b: Word) {
    a.Length() > b.Length() || (a.Length() == b.Length() && a.id < b.id)
  }

  predicate SortedByLength(ws: seq<Word>) {
    forall i, j :: 0 <= i < j < |ws| ==> Precedes(ws[i], ws[j])
  }

  /** Input order: ids grow along the list. */
  predicate IdsIncreasing(ws: seq<Word>) {
    forall i, j :: 0 <= i < j < |ws| ==> ws[i].id < ws[j].id
  }

  /** Puts `w` before the first word that is not longer than it. */
  function Insert(w: Word, s: seq<Word>): (r: seq<Word>)
    ensures multiset(r) == multiset(s) + multiset{w}
    ensures forall x :: x in r <==> x == w || x in s
    ensures SortedByLength(s) && (forall x :: x in s ==> w.id < x.id) ==> SortedByLength(r)
  {
    if s == [] || w.Length() >= s[0].Length() then
      InsertAtHead(w, s);
      [w] + s
    else
      var rest := Insert(w, s[1..]);
      assert s == [s[0]] + s[1..];
      InsertBehindHead(w, s, rest);
      [s[0]] + rest
  }

  /** `w` goes first when the list is empty or its head is not longer. */
  lemma InsertAtHead(w: Word, s: seq<Word>)
    requires s == [] || w.Length() >= s[0].Length()
    ensures SortedByLength(s) && (forall x :: x in s ==> w.id < x.id) ==> SortedByLength([w] + s)
  {
    if SortedByLength(s) && (forall x :: x in s ==> w.id < x.id) {
      forall x | x in s
        ensures Precedes(w, x)
      {
        var k :| 0 <= k < |s| && s[k] == x;
        assert k == 0 || Precedes(s[0], s[k]);
      }
      ConsSorted(w, s);
    }
  }

  /** A head longer than `w` stays in front of the list `w` was inserted into. */
  lemma InsertBehindHead(w: Word, s: seq<Word>, rest: seq<Word>)
    requires s != [] && w.Length() < s[0].Length()
    requires forall x :: x in rest ==> x == w || x in s[1..]
    requires SortedByLength(s[1..]) && (forall x :: x in s[1..] ==> w.id < x.id) ==> SortedByLength(rest)
    ensures SortedByLength(s) && (forall x :: x in s ==> w.id < x.id) ==> SortedByLength([s[0]] + rest)
  {
    if SortedByLength(s) && (forall x :: x in s ==> w.id < x.id) {
      assert SortedByLength(s[1..]) && forall x :: x in s[1..] ==> x in s;
      forall x | x in rest
        ensures Precedes(s[0], x)
      {
        if x != w {
          var k :| 0 <= k < |s[1..]| && s[1..][k] == x;
          assert Precedes(s[0], s[k + 1]);
        }
      }
      ConsSorted(s[0], rest);
    }
  }

  /** A word that may precede every word of a sorted list can head it. */
  lemma ConsSorted(x: Word, s: seq<Word>)
    requires SortedByLength(s) && forall y :: y in s ==> Precedes(x, y)
    ensures SortedByLength([x] + s)
  {
    var r := [x] + s;
    forall i, j | 0 <= i < j < |r|
      ensures Precedes(r[i], r[j])
    {
      assert r[j] == s[j - 1];
      if i > 0 {
        assert r[i] == s[i - 1];
      }
    }
  }

  /** The stable descending-length sort, as an insertion sort from the back. */
  function SortByLength(ws: seq<Word>): (r: seq<Word>)
    ensures multiset(r) == multiset(ws)
    ensures IdsIncreasing(ws) ==> SortedByLength(r)
  {
    if ws == [] then []
    else
      var rest := SortByLength(ws[1..]);
      LaterIdsGreater(ws, rest);
      assert ws == [ws[0]] + ws[1..];
      Insert(ws[0], rest)
  }

  /** Every word after the first in an input-ordered list has a greater id. */
  lemma LaterIdsGreater(ws: seq<Word>, rest: seq<Word>)
    requires ws != [] && multiset(rest) == multiset(ws[1..])
    ensures IdsIncreasing(ws) ==> IdsIncreasing(ws[1..]) && forall x :: x in rest ==> ws[0].id < x.id
  {
    forall x | x in rest
      ensures x in ws[1..]
    {
      assert x in multiset(rest);
    }
  }

  /** The word list of `prepareState` is in input order. */
  lemma ValidWordsIncreasing(ws: seq<Word>)
    requires ValidWords(ws)
    ensures IdsIncreasing(ws)
  {
  }

  /**
   * A sorted arrangement of a list of distinct words is unique: the result of
   * `SortByLength` is the only permutation in which longer words come first
   * and equal lengths keep input order.
   */
  lemma {:induction false} SortedIsUnique(a: seq<Word>, b: seq<Word>)
    requires multiset(a) == multiset(b) && SortedByLength(a) && SortedByLength(b)
    ensures a == b
  {
    if a != [] {
      HeadsAgree(a, b);
      TailsAgree(a, b);
      SortedIsUnique(a[1..], b[1..]);
      assert a == [a[0]] + a[1..] && b == [b[0]] + b[1..];
    }
  }

  lemma HeadsAgree(a: seq<Word>, b: seq<Word>)
    requires a != [] && multiset(a) == multiset(b) && SortedByLength(a) && SortedByLength(b)
    ensures b != [] && a[0] == b[0]
  {
    assert a[0] in multiset(b);
    var i :| 0 <= i < |b| && b[i] == a[0];
    assert b[0] in multiset(a);
    var j :| 0 <= j < |a| && a[j] == b[0];
  }

  lemma TailsAgree(a: seq<Word>, b: seq<Word>)
    requires a != [] && b != [] && a[0] == b[0] && multiset(a) == multiset(b)
    requires SortedByLength(a) && SortedByLength(b)
    ensures multiset(a[1..]) == multiset(b[1..]) && SortedByLength(a[1..]) && SortedByLength(b[1..])
  {
    assert a == [a[0]] + a[1..] && b == [b[0]] + b[1..];
    assert multiset(a) == multiset{a[0]} + multiset(a[1..]);
    assert multiset(b) == multiset{b[0]} + multiset(b[1..]);
    assert multiset(a[1..]) == multiset(a) - multiset{a[0]};
    assert multiset(b[1..]) == multiset(b) - multiset{b[0]};
  }
}
