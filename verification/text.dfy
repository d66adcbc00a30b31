/**
 * Answer normalisation (scripts.js `normalizeAnswer`, `normalizeChar`).
 *
 * The source upper-cases the text, decomposes it to NFD, deletes the
 * combining marks U+0300..U+036F and keeps only `A`-`Z`, `0`-`9` and `-`.
 * Upper-casing and decomposition are Unicode tables; they are a parameter
 * here (`CharMaps`), applied character by character.  Canonical reordering
 * of NFD only permutes combining marks, which never survive the final
 * filter, so a per-character decomposition gives the same result.
 */
module Text {
  import opened Wrappers

  /** The characters an answer may keep. */
  predicate Allowed(c: char) {
    ('A' <= c <= 'Z') || ('0' <= c <= '9') || c == '-'
  }

  /** The combining diacritical marks the source deletes after NFD. */
  predicate CombiningMark(c: char) {
    '\U{0300}' <= c <= '\U{036F}'
  }

  predicate Unmarked(c: char) {
    !CombiningMark(c)
  }

  predicate AllAllowed(s: string) {
    forall i :: 0 <= i < |s| ==> Allowed(s[i])
  }

  /** The two Unicode tables the normaliser relies on. */
  datatype CharMaps = CharMaps(upper: char -> string, decompose: char -> string)

  /** Tables that leave already-normal characters alone, as Unicode's do. */
  ghost predicate WellBehaved(maps: CharMaps) {
    forall c :: Allowed(c) ==> maps.upper(c) == [c] && maps.decompose(c) == [c]
  }

  /** Maps every character to a string and concatenates the pieces. */
  function Expand(f: char -> string, s: string): string
  {
    if |s| == 0 then [] else f(s[0]) + Expand(f, s[1..])
  }

  /** Keeps the characters satisfying `keep`, in order. */
  function Filter(keep: char -> bool, s: string): (r: string)
    ensures |r| <= |s|
    ensures forall i :: 0 <= i < |r| ==> keep(r[i])
  {
    if |s| == 0 then []
    else (if keep(s[0]) then [s[0]] else []) + Filter(keep, s[1..])
  }

  /** `normalizeAnswer`: a falsy text gives "", anything else runs the pipeline. */
  function NormalizeAnswer(maps: CharMaps, text: Option<string>): (r: string)
    ensures AllAllowed(r)
    ensures text.None? || text == Some("") ==> r == ""
  {
    match text
    case None => ""
    case Some(t) =>
      if t == "" then ""
      else
        var upper := Expand(maps.upper, t);
        var decomposed := Expand(maps.decompose, upper);
        var stripped := Filter(Unmarked, decomposed);
        Filter(Allowed, stripped)
  }

  /** `normalizeChar`: the first character of the normalised text, if any. */
  function NormalizeChar(maps: CharMaps, text: Option<string>): (r: string)
    ensures |r| <= 1
    ensures r <= NormalizeAnswer(maps, text)
    ensures r == "" <==> NormalizeAnswer(maps, text) == ""
  {
    var n := NormalizeAnswer(maps, text);
    if |n| == 0 then "" else n[..1]
  }

  // ---------------------------------------------------------------------
  // Algebra of the pipeline

  lemma {:induction false} ExpandAppend(f: char -> string, a: string, b: string)
    ensures Expand(f, a + b) == Expand(f, a) + Expand(f, b)
    decreases |a|
  {
    if |a| == 0 {
      assert a + b == b;
    } else {
      assert (a + b)[1..] == a[1..] + b;
      ExpandAppend(f, a[1..], b);
    }
  }

  lemma {:induction false} FilterAppend(keep: char -> bool, a: string, b: string)
    ensures Filter(keep, a + b) == Filter(keep, a) + Filter(keep, b)
    decreases |a|
  {
    if |a| == 0 {
      assert a + b == b;
    } else {
      assert (a + b)[1..] == a[1..] + b;
      FilterAppend(keep, a[1..], b);
    }
  }

  lemma {:induction false} ExpandIdentity(f: char -> string, s: string)
    requires forall i :: 0 <= i < |s| ==> f(s[i]) == [s[i]]
    ensures Expand(f, s) == s
    decreases |s|
  {
    if |s| > 0 {
      ExpandIdentity(f, s[1..]);
    }
  }

  lemma {:induction false} FilterKeepsAll(keep: char -> bool, s: string)
    requires forall i :: 0 <= i < |s| ==> keep(s[i])
    ensures Filter(keep, s) == s
    decreases |s|
  {
    if |s| > 0 {
      FilterKeepsAll(keep, s[1..]);
    }
  }

  /** A string already over [A-Z0-9-] is its own normal form. */
  lemma NormalFormIsFixed(maps: CharMaps, s: string)
    requires WellBehaved(maps)
    requires AllAllowed(s)
    ensures NormalizeAnswer(maps, Some(s)) == s
  {
    if s != "" {
      ExpandIdentity(maps.upper, s);
      ExpandIdentity(maps.decompose, s);
      FilterKeepsAll(Unmarked, s);
      FilterKeepsAll(Allowed, s);
    }
  }

  /** Normalising twice is normalising once. */
  lemma NormalizeIdempotent(maps: CharMaps, text: Option<string>)
    requires WellBehaved(maps)
    ensures NormalizeAnswer(maps, Some(NormalizeAnswer(maps, text))) == NormalizeAnswer(maps, text)
  {
    NormalFormIsFixed(maps, NormalizeAnswer(maps, text));
  }

  /** The normaliser works character by character: it distributes over concatenation. */
  lemma NormalizeConcat(maps: CharMaps, a: string, b: string)
    ensures NormalizeAnswer(maps, Some(a + b))
         == NormalizeAnswer(maps, Some(a)) + NormalizeAnswer(maps, Some(b))
  {
    if a == "" {
      assert a + b == b;
    } else if b == "" {
      assert a + b == a;
    } else {
      ExpandAppend(maps.upper, a, b);
      ExpandAppend(maps.decompose, Expand(maps.upper, a), Expand(maps.upper, b));
      var da := Expand(maps.decompose, Expand(maps.upper, a));
      var db := Expand(maps.decompose, Expand(maps.upper, b));
      FilterAppend(Unmarked, da, db);
      FilterAppend(Allowed, Filter(Unmarked, da), Filter(Unmarked, db));
    }
  }

  // ---------------------------------------------------------------------
  // A concrete table for the Latin letters of Portuguese answers

  /** Upper-casing for ASCII and Latin-1 letters (`ß` becomes "SS", `ÿ` becomes `Ÿ`). */
  function LatinUpper(c: char): string {
    if 'a' <= c <= 'z' then [(c as int - 32) as char]
    else if '\U{00E0}' <= c <= '\U{00FE}' && c != '\U{00F7}' then [(c as int - 32) as char]
    else if c == '\U{00DF}' then "SS"
    else if c == '\U{00FF}' then ['\U{0178}']
    else [c]
  }

  /** Canonical decompositions of the accented capitals of Latin-1 (and `Ÿ`). */
  const LatinDecompositions: map<char, string> := map[
    '\U{00C0}' := "A\U{0300}", '\U{00C1}' := "A\U{0301}", '\U{00C2}' := "A\U{0302}",
    '\U{00C3}' := "A\U{0303}", '\U{00C4}' := "A\U{0308}", '\U{00C5}' := "A\U{030A}",
    '\U{00C7}' := "C\U{0327}",
    '\U{00C8}' := "E\U{0300}", '\U{00C9}' := "E\U{0301}", '\U{00CA}' := "E\U{0302}",
    '\U{00CB}' := "E\U{0308}",
    '\U{00CC}' := "I\U{0300}", '\U{00CD}' := "I\U{0301}", '\U{00CE}' := "I\U{0302}",
    '\U{00CF}' := "I\U{0308}",
    '\U{00D1}' := "N\U{0303}",
    '\U{00D2}' := "O\U{0300}", '\U{00D3}' := "O\U{0301}", '\U{00D4}' := "O\U{0302}",
    '\U{00D5}' := "O\U{0303}", '\U{00D6}' := "O\U{0308}",
    '\U{00D9}' := "U\U{0300}", '\U{00DA}' := "U\U{0301}", '\U{00DB}' := "U\U{0302}",
    '\U{00DC}' := "U\U{0308}",
    '\U{00DD}' := "Y\U{0301}", '\U{0178}' := "Y\U{0308}"
  ]

  function LatinDecompose(c: char): string {
    if c in LatinDecompositions then LatinDecompositions[c] else [c]
  }

  const Latin: CharMaps := CharMaps(LatinUpper, LatinDecompose)

  lemma LatinWellBehaved()
    ensures WellBehaved(Latin)
  {
  }

  /** One Latin character normalises to at most one capital. */
  lemma {:induction false} LatinSingle(c: char)
    ensures NormalizeAnswer(Latin, Some([c]))
         == Filter(Allowed, Filter(Unmarked, Expand(LatinDecompose, LatinUpper(c))))
  {
    assert Latin.upper == LatinUpper && Latin.decompose == LatinDecompose;
    assert [c][1..] == [];
    assert Expand(LatinUpper, [c]) == LatinUpper(c) + Expand(LatinUpper, []);
    assert Expand(LatinUpper, [c]) == LatinUpper(c);
  }

  lemma ExpandSingle(f: char -> string, c: char)
    ensures Expand(f, [c]) == f(c)
  {
    assert [c][1..] == [];
  }

  /** Every accented capital of the table folds to its base letter. */
  lemma {:induction false} AccentedCapitalFolds(c: char)
    requires c in LatinDecompositions
    ensures |LatinDecompositions[c]| == 2 && 'A' <= LatinDecompositions[c][0] <= 'Z'
    ensures NormalizeAnswer(Latin, Some([c])) == [LatinDecompositions[c][0]]
  {
    var d := LatinDecompositions[c];
    var base, mark := d[0], d[1];
    assert |d| == 2 && 'A' <= base <= 'Z' && CombiningMark(mark);
    assert LatinUpper(c) == [c];
    LatinSingle(c);
    ExpandSingle(LatinDecompose, c);
    assert d == [base, mark];
    assert [base, mark][1..] == [mark];
    assert Filter(Unmarked, [mark]) == [] + Filter(Unmarked, []);
    assert Filter(Unmarked, [base, mark]) == [base] + Filter(Unmarked, [mark]);
    assert Filter(Allowed, [base]) == [base] + Filter(Allowed, []);
  }

  /** A lower-case ASCII letter folds to its capital. */
  lemma {:induction false} LowerCaseFolds(c: char)
    requires 'a' <= c <= 'z'
    ensures NormalizeAnswer(Latin, Some([c])) == [(c as int - 32) as char]
  {
    var u := (c as int - 32) as char;
    assert Allowed(u);
    LatinWellBehaved();
    LatinSingle(c);
    ExpandSingle(LatinDecompose, u);
    assert LatinDecompose(u) == [u];
    assert Filter(Unmarked, [u]) == [u] + Filter(Unmarked, []);
    assert Filter(Allowed, [u]) == [u] + Filter(Allowed, []);
  }

  /** A plain capital, digit or hyphen, or an accented capital of the table, is accepted as one letter. */
  lemma KeyAccepted(k: char)
    requires Allowed(k) || k in LatinDecompositions
    ensures |NormalizeChar(Latin, Some([k]))| == 1
  {
    if k in LatinDecompositions {
      AccentedCapitalFolds(k);
    } else {
      LatinWellBehaved();
      NormalFormIsFixed(Latin, [k]);
    }
  }

  /** The letters of the source's on-screen keyboard rows. */
  const KeyboardLetters: seq<char> :=
    "ABCDEFGHIJKLMNOPQRSTUVWXYZ\U{00C7}-\U{00C1}\U{00C2}\U{00C3}\U{00C0}\U{00C9}\U{00CA}\U{00CD}\U{00D3}\U{00D4}\U{00D5}\U{00DA}\U{00DC}"

  /** Every key of the on-screen keyboard types exactly one letter. */
  lemma KeyboardKeysAccepted()
    ensures forall i :: 0 <= i < |KeyboardLetters| ==> |NormalizeChar(Latin, Some([KeyboardLetters[i]]))| == 1
  {
    forall i | 0 <= i < |KeyboardLetters|
      ensures |NormalizeChar(Latin, Some([KeyboardLetters[i]]))| == 1
    {
      var k := KeyboardLetters[i];
      assert Allowed(k) || k in LatinDecompositions;
      KeyAccepted(k);
    }
  }
}
