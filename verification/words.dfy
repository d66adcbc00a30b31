/**
 * Word preparation (scripts.js `createWord`, `toIndex`, the word list of
 * `prepareState`, and the orientation order of `generateLayout`).
 */
module Words {
  import opened Wrappers
  import opened Grid
  import Text

  /** A JavaScript value as `Number(value)` sees it: absent, not finite, or a finite number. */
  datatype NumericInput = Missing | NotFinite | Finite(value: real)

  /** One raw entry of the puzzle definition. */
  datatype Entry = Entry(
    clue: string,
    answer: Option<string>,
    orientation: Option<string>,
    fixWord: bool,
    row: NumericInput,
    column: NumericInput)

  /** The orientation hint after lower-casing; any other text counts as no hint. */
  datatype Preference = NoPreference | Prefers(orientation: Orientation)

  /** A word ready for layout; `id` is its position in the input list. */
  datatype Word = Word(
    id: nat,
    clue: string,
    answer: Option<string>,
    sanitized: string,
    preference: Preference,
    fixWord: bool,
    fixedRow: Option<nat>,
    fixedCol: Option<nat>)
  {
    function Length(): nat { |sanitized| }
  }

  datatype Error = InvalidAnswer(clue: string)

  /** `toIndex`: a 1-based position becomes a 0-based one, floored and clamped at 0. */
  function ToIndex(v: NumericInput): (r: Option<nat>)
    ensures r.Some? <==> v.Finite?
    ensures v.Finite? && v.value < 1.0 ==> r == Some(0)
    ensures v.Finite? && v.value >= 1.0 ==>
      r.value as real <= v.value - 1.0 < r.value as real + 1.0
  {
    match v
    case Missing => None
    case NotFinite => None
    case Finite(x) => Some(Max(0, (x - 1.0).Floor) as nat)
  }

  /** Converting back from a 0-based index recovers it. */
  lemma ToIndexInverse(n: nat)
    ensures ToIndex(Finite(n as real + 1.0)) == Some(n)
  {
  }

  function AsciiLower(c: char): char {
    if 'A' <= c <= 'Z' then (c as int + 32) as char else c
  }

  /** The orientation hint lower-cased over ASCII: "down" or "across" is a preference, anything else is none. */
  function ParsePreference(text: Option<string>): (r: Preference)
    ensures r == Prefers(Down) <==>
              (text.Some? && |text.value| == 4
               && forall i :: 0 <= i < 4 ==> AsciiLower(text.value[i]) == "down"[i])
    ensures r == Prefers(Across) <==>
              (text.Some? && |text.value| == 6
               && forall i :: 0 <= i < 6 ==> AsciiLower(text.value[i]) == "across"[i])
  {
    match text
    case None => NoPreference
    case Some(t) =>
      var lower := seq(|t|, i requires 0 <= i < |t| => AsciiLower(t[i]));
      if lower == "down" then Prefers(Down)
      else if lower == "across" then Prefers(Across)
      else NoPreference
  }

  /** `orientationOrder`: the preferred orientation first (scripts.js:355-360). */
  function OrientationOrder(p: Preference): (r: (Orientation, Orientation))
    ensures r.0 != r.1
    ensures p.Prefers? ==> r.0 == p.orientation
    ensures p.NoPreference? ==> r.0 == Across
  {
    match p
    case Prefers(Down) => (Down, Across)
    case _ => (Across, Down)
  }

  /** The single orientation tried at a fixed position (scripts.js:363-366). */
  function FixedOrientation(p: Preference): (r: Orientation)
    ensures r == OrientationOrder(p).0
  {
    if p.Prefers? then p.orientation else Across
  }

  /** An entry whose answer normalises to nothing. */
  predicate Invalid(maps: Text.CharMaps, e: Entry) {
    Text.NormalizeAnswer(maps, e.answer) == ""
  }

  /**
   * `createWord`: the answer normalised with the Unicode tables `maps`; an
   * answer that normalises to nothing is an error naming the clue, anything
   * else becomes a word carrying the entry's fields, with the input
   * position as its id.
   */
  function CreateWord(maps: Text.CharMaps, e: Entry, index: nat): (r: Result<Word, Error>)
    ensures r.Failure? <==> Invalid(maps, e)
    ensures r.Failure? ==> r.error == InvalidAnswer(e.clue)
    ensures r.Success? ==>
              && r.value.id == index && r.value.Length() > 0
              && r.value.sanitized == Text.NormalizeAnswer(maps, e.answer)
              && Text.AllAllowed(r.value.sanitized)
              && r.value.clue == e.clue && r.value.answer == e.answer
              && r.value.preference == ParsePreference(e.orientation)
              && r.value.fixWord == e.fixWord
              && r.value.fixedRow == ToIndex(e.row) && r.value.fixedCol == ToIndex(e.column)
  {
    var sanitized := Text.NormalizeAnswer(maps, e.answer);
    if sanitized == "" then Failure(InvalidAnswer(e.clue))
    else
      Success(Word(index, e.clue, e.answer, sanitized, ParsePreference(e.orientation),
                   e.fixWord, ToIndex(e.row), ToIndex(e.column)))
  }

  /** The words the layout works on: ids are input positions and answers are non-empty. */
  predicate ValidWords(ws: seq<Word>) {
    forall i :: 0 <= i < |ws| ==> ws[i].id == i && ws[i].Length() > 0
  }

  /** Entry `i` is the first invalid one at or after `from`. */
  predicate FirstInvalid(maps: Text.CharMaps, es: seq<Entry>, from: nat, i: nat) {
    from <= i < |es| && Invalid(maps, es[i]) && forall j :: from <= j < i ==> !Invalid(maps, es[j])
  }

  lemma FirstInvalidStep(maps: Text.CharMaps, es: seq<Entry>, from: nat, i: nat)
    requires FirstInvalid(maps, es, from + 1, i) && from < |es| && !Invalid(maps, es[from])
    ensures FirstInvalid(maps, es, from, i)
  {
  }

  /** No entry at or after `from` is invalid. */
  predicate AllValid(maps: Text.CharMaps, es: seq<Entry>, from: nat) {
    forall i :: from <= i < |es| ==> !Invalid(maps, es[i])
  }

  /** `ws` are the words created, one by one, from the entries at and after `from`. */
  predicate CreatedFrom(maps: Text.CharMaps, es: seq<Entry>, from: nat, ws: seq<Word>) {
    && |ws| == |es| - from
    && forall i :: 0 <= i < |ws| ==> CreateWord(maps, es[from + i], from + i) == Success(ws[i])
  }

  /**
   * Mapping `createWord` over the entries from position `from` on: the
   * first invalid entry aborts with its error, otherwise word `i` is the
   * word created from entry `from + i`.
   */
  function CreateWordsFrom(maps: Text.CharMaps, es: seq<Entry>, from: nat): (r: Result<seq<Word>, Error>)
    requires from <= |es|
    decreases |es| - from
    ensures r.Success? <==> AllValid(maps, es, from)
    ensures r.Success? ==> CreatedFrom(maps, es, from, r.value)
    ensures r.Failure? ==> exists i: nat :: FirstInvalid(maps, es, from, i) && r.error == InvalidAnswer(es[i].clue)
  {
    if from == |es| then Success([])
    else
      match CreateWord(maps, es[from], from)
      case Failure(e) =>
        assert FirstInvalid(maps, es, from, from);
        Failure(e)
      case Success(w) =>
        match CreateWordsFrom(maps, es, from + 1)
        case Failure(e) =>
          var i: nat :| FirstInvalid(maps, es, from + 1, i) && e == InvalidAnswer(es[i].clue);
          FirstInvalidStep(maps, es, from, i);
          Failure(e)
        case Success(rest) =>
          ConsCreated(maps, es, from, w, rest);
          Success([w] + rest)
  }

  /** Word `from` in front of the words created from `from + 1` on. */
  lemma ConsCreated(maps: Text.CharMaps, es: seq<Entry>, from: nat, w: Word, rest: seq<Word>)
    requires from < |es| && CreatedFrom(maps, es, from + 1, rest)
    requires CreateWord(maps, es[from], from) == Success(w)
    ensures AllValid(maps, es, from)
    ensures CreatedFrom(maps, es, from, [w] + rest)
  {
    var ws := [w] + rest;
    forall i | 0 <= i < |ws|
      ensures CreateWord(maps, es[from + i], from + i) == Success(ws[i])
    {
      if i > 0 {
        assert ws[i] == rest[i - 1];
        assert from + 1 + (i - 1) == from + i;
      }
    }
    forall i | from < i < |es|
      ensures !Invalid(maps, es[i])
    {
      var j := i - from - 1;
      assert CreateWord(maps, es[from + 1 + j], from + 1 + j) == Success(rest[j]);
    }
  }

  /**
   * The word list of `prepareState` (scripts.js:128-129): one word per entry,
   * created from it, with ids equal to positions and non-empty answers.
   */
  function CreateWords(maps: Text.CharMaps, es: seq<Entry>): (r: Result<seq<Word>, Error>)
    ensures r.Success? ==> ValidWords(r.value) && |r.value| == |es|
    ensures r.Success? ==> forall i :: 0 <= i < |es| ==> CreateWord(maps, es[i], i) == Success(r.value[i])
    ensures r.Success? <==> forall i :: 0 <= i < |es| ==> !Invalid(maps, es[i])
  {
    CreateWordsFrom(maps, es, 0)
  }
}
