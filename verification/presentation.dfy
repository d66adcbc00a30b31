/**
 * The small pure pieces of the interface: moving the cursor inside the
 * active word (scripts.js:808-822), the `mm:ss` clock (scripts.js:1044-1050)
 * and the result message (scripts.js:1018-1022).
 */
module Presentation {
  import opened Wrappers

  /** The square after the active one, capped at the word's last square: the smaller of the two. */
  function NextIndex(length: nat, active: int): (r: int)
    ensures r <= length - 1 && r <= active + 1
    ensures r == length - 1 || r == active + 1
  {
    if active + 1 <= length - 1 then active + 1 else length - 1
  }

  /** The square before the active one, floored at the first square: the larger of the two. */
  function PreviousIndex(active: int): (r: int)
    ensures r >= 0 && r >= active - 1
    ensures r == 0 || r == active - 1
  {
    if active - 1 >= 0 then active - 1 else 0
  }

  /**
   * Inside a word the cursor stays inside it, moves one square at most, and
   * stops at the ends instead of wrapping.
   */
  lemma CursorStaysInWord(length: nat, active: int)
    requires 0 <= active < length
    ensures 0 <= NextIndex(length, active) < length && 0 <= PreviousIndex(active) < length
    ensures NextIndex(length, active) == if active == length - 1 then active else active + 1
    ensures PreviousIndex(active) == if active == 0 then 0 else active - 1
  {
  }

  /** Stepping back undoes stepping forward, and the other way round, away from the ends. */
  lemma CursorStepsUndo(length: nat, active: int)
    requires 0 <= active < length
    ensures active < length - 1 ==> PreviousIndex(NextIndex(length, active)) == active
    ensures active > 0 ==> NextIndex(length, PreviousIndex(active)) == active
  {
  }

  /** The decimal digit of `d`. */
  function DigitChar(d: nat): char
    requires d < 10
  {
    ('0' as int + d) as char
  }

  predicate IsDigit(c: char) {
    '0' <= c <= '9'
  }

  predicate AllDigits(s: string) {
    forall i :: 0 <= i < |s| ==> IsDigit(s[i])
  }

  /** The decimal text of a whole number, as `toString` writes it: digits only, no leading zero. */
  function Decimal(n: nat): (r: string)
    ensures |r| >= 1
    ensures forall i :: 0 <= i < |r| ==> IsDigit(r[i])
    ensures |r| == 1 <==> n < 10
    ensures r[0] == '0' <==> n == 0
  {
    if n < 10 then [DigitChar(n)] else Decimal(n / 10) + [DigitChar(n % 10)]
  }

  /** The number a string of decimal digits spells. */
  function Value(s: string): nat
    requires AllDigits(s)
  {
    if s == [] then 0
    else
      var front := s[..|s| - 1];
      assert forall i :: 0 <= i < |front| ==> front[i] == s[i];
      assert IsDigit(s[|s| - 1]);
      Value(front) * 10 + (s[|s| - 1] as int - '0' as int)
  }

  /** Reading back a number's decimal text gives the number. */
  lemma {:induction false} DecimalRoundTrip(n: nat)
    ensures Value(Decimal(n)) == n
  {
    if n >= 10 {
      DecimalRoundTrip(n / 10);
      var s := Decimal(n);
      assert s[..|s| - 1] == Decimal(n / 10);
    }
  }

  /** A leading zero does not change the value. */
  lemma {:induction false} LeadingZero(s: string)
    requires AllDigits(s)
    ensures Value("0" + s) == Value(s)
  {
    if s != [] {
      var t := "0" + s;
      assert t[..|t| - 1] == "0" + s[..|s| - 1];
      LeadingZero(s[..|s| - 1]);
    }
  }

  /**
   * The decimal text padded on the left with zeros to width two, as
   * `padStart` does: at least two digits, and the text itself at the end.
   */
  function Pad2(n: nat): (r: string)
    ensures |r| >= 2 && forall i :: 0 <= i < |r| ==> IsDigit(r[i])
    ensures n < 100 ==> |r| == 2
    ensures |r| == if |Decimal(n)| < 2 then 2 else |Decimal(n)|
    ensures r[|r| - |Decimal(n)|..] == Decimal(n)
    ensures forall i :: 0 <= i < |r| - |Decimal(n)| ==> r[i] == '0'
  {
    var d := Decimal(n);
    if |d| < 2 then "0" + d else d
  }

  lemma Pad2Value(n: nat)
    ensures Value(Pad2(n)) == n
  {
    DecimalRoundTrip(n);
    if |Decimal(n)| < 2 {
      LeadingZero(Decimal(n));
    }
    if n >= 10 {
      TwoDigits(n);
    }
  }

  /** A number of two digits or more already fills the pad width. */
  lemma TwoDigits(n: nat)
    requires n >= 10
    ensures |Decimal(n)| >= 2
  {
  }

  /** The clock text `${minutes}:${seconds}` for an elapsed time. */
  function Clock(seconds: nat): (r: string)
    ensures |r| >= 5 && r[|r| - 3] == ':'
    ensures seconds < 6000 ==> |r| == 5
  {
    Pad2(seconds / 60) + ":" + Pad2(seconds % 60)
  }

  /** Reads a clock text back: minutes before the last ':', two digits of seconds after it. */
  function ReadClock(t: string): Option<nat> {
    var n := |t|;
    if n >= 4 && t[n - 3] == ':' && AllDigits(t[..n - 3]) && IsDigit(t[n - 2]) && IsDigit(t[n - 1])
    then Some(Value(t[..n - 3]) * 60 + Value(t[n - 2..]))
    else None
  }

  /** Minutes and two seconds digits are read back out of `m:ss`. */
  lemma ClockReadsBack(m: string, s: string)
    requires |m| >= 1 && |s| == 2
    requires AllDigits(m) && AllDigits(s)
    ensures ReadClock(m + ":" + s) == Some(Value(m) * 60 + Value(s))
  {
    ClockPieces(m, s);
  }

  /** The pieces of `m:ss` that `ReadClock` looks at. */
  lemma ClockPieces(m: string, s: string)
    requires |s| == 2
    ensures var t := m + ":" + s;
            |t| == |m| + 3 && t[..|m|] == m && t[|m|] == ':' && t[|m| + 1..] == s && t[|m| + 1] == s[0] && t[|m| + 2] == s[1]
  {
    var t := m + ":" + s;
    assert t[..|m|] == m;
    assert t[|m| + 1..] == s;
  }

  /** The clock text determines the elapsed time: reading it back gives the seconds. */
  lemma ClockRoundTrip(seconds: nat)
    ensures ReadClock(Clock(seconds)) == Some(seconds)
  {
    var minutes, rest := seconds / 60, seconds % 60;
    assert Clock(seconds) == Pad2(minutes) + ":" + Pad2(rest);
    PaddedReadsBack(minutes, rest);
    assert minutes * 60 + rest == seconds;
  }

  /** Padded minutes and seconds are read back as the time they make up. */
  lemma PaddedReadsBack(minutes: nat, rest: nat)
    requires rest < 60
    ensures ReadClock(Pad2(minutes) + ":" + Pad2(rest)) == Some(minutes * 60 + rest)
  {
    Pad2Value(minutes);
    Pad2Value(rest);
    ClockReadsBack(Pad2(minutes), Pad2(rest));
  }

  /** `pat` occurs in `s` starting at `i`. */
  predicate OccursAt(s: string, pat: string, i: nat) {
    i + |pat| <= |s| && s[i..i + |pat|] == pat
  }

  /** `i` is the first place where `pat` occurs in `s`. */
  predicate FirstAt(s: string, pat: string, i: nat) {
    OccursAt(s, pat, i) && forall j: nat :: j < i ==> !OccursAt(s, pat, j)
  }

  /** The first index at or after `from` where `pat` occurs, as `indexOf` finds it. */
  function IndexFrom(s: string, pat: string, from: nat): (r: Option<nat>)
    requires from <= |s| + 1
    ensures r.Some? ==> from <= r.value && OccursAt(s, pat, r.value)
    ensures forall j :: from <= j && (r.None? || j < r.value) ==> !OccursAt(s, pat, j)
    decreases |s| + 1 - from
  {
    if from + |pat| > |s| then None
    else if OccursAt(s, pat, from) then Some(from)
    else IndexFrom(s, pat, from + 1)
  }

  /** `String.prototype.replace` with a plain-string pattern: only the first occurrence changes. */
  function ReplaceFirst(s: string, pat: string, replacement: string): (r: string)
    ensures (forall j :: !OccursAt(s, pat, j)) ==> r == s
    ensures forall i: nat :: FirstAt(s, pat, i) ==> r == s[..i] + replacement + s[i + |pat|..]
  {
    match IndexFrom(s, pat, 0)
    case None => s
    case Some(i) => s[..i] + replacement + s[i + |pat|..]
  }

  /**
   * When the first `@` of the text begins the placeholder, the placeholder
   * is what gets replaced: everything before and after it stays.
   */
  lemma ReplaceAfterPlainText(a: string, pat: string, b: string, replacement: string)
    requires |pat| > 0 && pat[0] == '@' && '@' !in a
    ensures ReplaceFirst(a + pat + b, pat, replacement) == a + replacement + b
  {
    var s := a + pat + b;
    assert OccursAt(s, pat, |a|) by {
      assert s[|a|..|a| + |pat|] == pat;
    }
    forall j: nat | j < |a|
      ensures !OccursAt(s, pat, j)
    {
      assert s[j] == a[j] && a[j] in a;
    }
    var i := IndexFrom(s, pat, 0).value;
    assert i == |a|;
    assert s[..i] == a && s[i + |pat|..] == b;
  }

  const ScoreMark := "@score"
  const TotalMark := "@total"

  /** `formatResultMessage`: the first `@score`, then the first `@total`, become the numbers. */
  function FormatResultMessage(template: string, score: nat, total: nat): string {
    ReplaceFirst(ReplaceFirst(template, ScoreMark, Decimal(score)), TotalMark, Decimal(total))
  }

  /** A template without any `@` has no placeholder, so it comes back unchanged. */
  lemma PlainTemplateUnchanged(template: string, score: nat, total: nat)
    requires '@' !in template
    ensures FormatResultMessage(template, score, total) == template
  {
    NoMarkNoMatch(template, ScoreMark);
    NoMarkNoMatch(template, TotalMark);
  }

  /** A pattern that starts with `@` occurs nowhere in a text without `@`. */
  lemma NoMarkNoMatch(s: string, pat: string)
    requires |pat| > 0 && pat[0] == '@'
    ensures '@' !in s ==> forall j :: !OccursAt(s, pat, j)
  {
  }

  /** The default template reads "Conseguiu <score> de <total> pontos." (scripts.js:98-101). */
  const DefaultTemplate := "Conseguiu @score de @total pontos."

  /** Decimal text holds no `@`. */
  lemma NoMarkInDecimal(n: nat)
    ensures '@' !in Decimal(n)
  {
    var d := Decimal(n);
    assert forall i :: 0 <= i < |d| ==> d[i] != '@';
  }

  /** A template with plain text around one `@score` and then one `@total`. */
  lemma FormatFills(a: string, b: string, c: string, score: nat, total: nat)
    requires '@' !in a && '@' !in b
    ensures FormatResultMessage(a + ScoreMark + b + TotalMark + c, score, total)
            == a + Decimal(score) + b + Decimal(total) + c
  {
    var rest := b + TotalMark + c;
    Regroup(a, ScoreMark, b, TotalMark, c);
    ReplaceAfterPlainText(a, ScoreMark, rest, Decimal(score));
    var front := a + Decimal(score) + b;
    NoMarkInDecimal(score);
    assert '@' !in front;
    Regroup(a, Decimal(score), b, TotalMark, c);
    ReplaceAfterPlainText(front, TotalMark, c, Decimal(total));
  }

  /** Five pieces read as the first two followed by the other three. */
  lemma Regroup(x: string, y: string, z: string, u: string, v: string)
    ensures x + y + z + u + v == x + y + (z + u + v)
    ensures x + y + (z + u + v) == x + y + z + u + v
  {
    var l, r := x + y + z + u + v, x + y + (z + u + v);
    assert |l| == |r|;
    forall i | 0 <= i < |l|
      ensures l[i] == r[i]
    {
    }
  }

  lemma DefaultMessage(score: nat, total: nat)
    ensures FormatResultMessage(DefaultTemplate, score, total)
            == "Conseguiu " + Decimal(score) + " de " + Decimal(total) + " pontos."
  {
    assert DefaultTemplate == "Conseguiu " + ScoreMark + " de " + TotalMark + " pontos.";
    FormatFills("Conseguiu ", " de ", " pontos.", score, total);
  }
}
