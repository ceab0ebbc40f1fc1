/** `parse_date` of mpcereform/utils.py: a tolerant reader of free-text
    dates such as "3rd March 1778" that produces `YYYY-MM-DD`, writing
    `0000` and `00` for whatever it cannot find. Each of its three regular
    expression searches is a scanner over the characters of the string. */
module Dates {
  import opened Wrappers
  import opened Text

  /** The argument: a Python `str`, or any other value (None, a number...). */
  datatype Value = Str(s: string) | NotStr

  /** What `parse_date` gives back: None, a date string, or the KeyError
      raised for a capitalised word the month table does not know. */
  datatype Parsed = NoDate | Date(text: string) | UnknownMonth(key: string)

  /** The month table, keyed by the English three-letter abbreviation. */
  const Months: map<string, string> := map[
    "Jan" := "01", "Feb" := "02", "Mar" := "03", "Apr" := "04",
    "May" := "05", "Jun" := "06", "Jul" := "07", "Aug" := "08",
    "Sep" := "09", "Oct" := "10", "Nov" := "11", "Dec" := "12"]

  /** Every month number is two digits. */
  lemma MonthNumbers()
    ensures forall k :: k in Months ==> |Months[k]| == 2 && AllDigits(Months[k])
  {
  }

  /** `\b\d{4}\b` tried at position p. */
  function YearAt(s: string, p: nat): Option<string>
  {
    if p + 4 <= |s| && BoundaryAt(s, p) && AllDigits(s[p..p + 4]) && BoundaryAt(s, p + 4)
    then Some(s[p..p + 4]) else None
  }

  /** `[a-z]{k}\b` after the capital at p, backing off from k letters down
      to two, the way the regex engine retries a greedy `[a-z]{2,8}`. */
  function MonthLetters(s: string, p: nat, k: nat): Option<string>
    requires p + 1 + k <= |s|
    decreases k
  {
    if k < 2 then None
    else if BoundaryAt(s, p + 1 + k) then Some(s[p..p + 1 + k])
    else MonthLetters(s, p, k - 1)
  }

  /** `\b[A-Z][a-z]{2,8}\b` tried at position p. */
  function MonthAt(s: string, p: nat): Option<string>
  {
    if p < |s| && BoundaryAt(s, p) && IsUpper(s[p]) then
      var n := LowerRun(s, p + 1);
      MonthLetters(s, p, if n < 8 then n else 8)
    else None
  }

  /** What `\b[A-Z][a-z]{2,8}\b` means: a whole word of a capital and two to
      eight lowercase letters starts at p. */
  ghost predicate MonthWordAt(s: string, p: nat, w: string) {
    && p + |w| <= |s| && w == s[p..p + |w|]
    && 3 <= |w| <= 9 && IsUpper(w[0])
    && (forall i :: 1 <= i < |w| ==> IsLower(w[i]))
    && BoundaryAt(s, p) && BoundaryAt(s, p + |w|)
  }

  lemma {:induction false} MonthLettersSpec(s: string, p: nat, k: nat)
    requires p < |s| && BoundaryAt(s, p) && IsUpper(s[p])
    requires k <= 8 && p + 1 + k <= |s| && forall i :: p + 1 <= i < p + 1 + k ==> IsLower(s[i])
    ensures MonthLetters(s, p, k).Some? ==> MonthWordAt(s, p, MonthLetters(s, p, k).value)
    decreases k
  {
    if k >= 2 {
      if BoundaryAt(s, p + 1 + k) {
        var w := s[p..p + 1 + k];
        assert forall i :: 1 <= i < |w| ==> w[i] == s[p + i];
      } else {
        MonthLettersSpec(s, p, k - 1);
      }
    }
  }

  /** The scanner agrees with the regular expression: whatever it returns
      is such a word, and any such word at p is what it returns. */
  lemma MonthAtSpec(s: string, p: nat)
    ensures MonthAt(s, p).Some? ==> MonthWordAt(s, p, MonthAt(s, p).value)
    ensures forall w :: MonthWordAt(s, p, w) ==> MonthAt(s, p) == Some(w)
  {
    if p < |s| && BoundaryAt(s, p) && IsUpper(s[p]) {
      var n := LowerRun(s, p + 1);
      MonthLettersSpec(s, p, if n < 8 then n else 8);
    }
    forall w | MonthWordAt(s, p, w) ensures MonthAt(s, p) == Some(w) {
      MonthWordFound(s, p, w);
    }
  }

  /** A month word at p is what the scanner finds there. */
  lemma MonthWordFound(s: string, p: nat, w: string)
    requires MonthWordAt(s, p, w)
    ensures MonthAt(s, p) == Some(w)
  {
    var k := |w| - 1;
    assert s[p] == w[0];
    assert LowerRun(s, p + 1) == k by {
      assert forall i :: p + 1 <= i < p + 1 + k ==> s[i] == w[i - p];
      LowerRunExact(s, p + 1, k);
    }
    assert MonthLetters(s, p, k) == Some(w);
  }

  /** A lowercase run followed by a word boundary is exactly the run the
      scanner measures. */
  lemma {:induction false} LowerRunExact(s: string, p: nat, k: nat)
    requires p + k <= |s| && forall i :: p <= i < p + k ==> IsLower(s[i])
    requires k >= 1 && BoundaryAt(s, p + k)
    ensures LowerRun(s, p) == k
    decreases k
  {
    if k > 1 {
      LowerRunExact(s, p + 1, k - 1);
    } else {
      assert p + 1 == |s| || !IsWordChar(s[p + 1]);
    }
  }

  /** The lookahead `(?=[a-z]{0,2}\b)` at position j, with up to t letters
      still allowed, backing off one letter at a time. */
  function SuffixThenBoundary(s: string, j: nat, t: nat): bool
    requires j + t <= |s|
    decreases t
  {
    BoundaryAt(s, j + t) || (t > 0 && SuffixThenBoundary(s, j, t - 1))
  }

  function LookaheadAt(s: string, j: nat): bool
    requires j <= |s|
  {
    var n := LowerRun(s, j);
    SuffixThenBoundary(s, j, if n < 2 then n else 2)
  }

  /** `\b\d{1,2}(?=[a-z]{0,2}\b)` tried at position p: two digits first,
      then one. */
  function DayAt(s: string, p: nat): Option<string>
  {
    if p < |s| && BoundaryAt(s, p) && IsDigit(s[p]) then
      if p + 1 < |s| && IsDigit(s[p + 1]) && LookaheadAt(s, p + 2) then Some(s[p..p + 2])
      else if LookaheadAt(s, p + 1) then Some(s[p..p + 1])
      else None
    else None
  }

  /** What the day pattern means: one or two digits starting a word, then at
      most two lowercase letters and the end of the word. */
  ghost predicate DayWordAt(s: string, p: nat, d: string) {
    && 1 <= |d| <= 2 && p + |d| <= |s| && d == s[p..p + |d|] && AllDigits(d)
    && BoundaryAt(s, p)
    && WordEndsWithin2(s, p + |d|)
  }

  /** At most two lowercase letters from j, then the end of the word. */
  ghost predicate WordEndsWithin2(s: string, j: nat) {
    exists t :: 0 <= t <= 2 && LettersThenBoundary(s, j, t)
  }

  /** t lowercase letters from j, then a word boundary. */
  ghost predicate LettersThenBoundary(s: string, j: nat, t: nat) {
    j + t <= |s| && (forall i :: j <= i < j + t ==> IsLower(s[i])) && BoundaryAt(s, j + t)
  }

  lemma {:induction false} SuffixSpec(s: string, j: nat, t: nat)
    requires j + t <= |s| && forall i :: j <= i < j + t ==> IsLower(s[i])
    ensures SuffixThenBoundary(s, j, t) ==> exists u :: 0 <= u <= t && LettersThenBoundary(s, j, u)
    decreases t
  {
    if BoundaryAt(s, j + t) {
      assert LettersThenBoundary(s, j, t);
    } else if t > 0 {
      SuffixSpec(s, j, t - 1);
    }
  }

  /** Backing off from t letters reaches a boundary found after u <= t. */
  lemma {:induction false} SuffixReaches(s: string, j: nat, u: nat, t: nat)
    requires u <= t && j + t <= |s| && BoundaryAt(s, j + u)
    ensures SuffixThenBoundary(s, j, t)
    decreases t
  {
    if t > u {
      SuffixReaches(s, j, u, t - 1);
    }
  }

  /** The lookahead succeeds wherever the word ends within two letters. */
  lemma LookaheadComplete(s: string, j: nat)
    requires j <= |s| && WordEndsWithin2(s, j)
    ensures LookaheadAt(s, j)
  {
    var t :| 0 <= t <= 2 && LettersThenBoundary(s, j, t);
    var n := LowerRun(s, j);
    SuffixReaches(s, j, t, if n < 2 then n else 2);
  }

  /** A day word at p is what the scanner returns there: a one-digit word
      is never followed by a second digit, so the two-digit try cannot take
      over. */
  lemma DayWordFound(s: string, p: nat, d: string)
    requires DayWordAt(s, p, d)
    ensures DayAt(s, p) == Some(d)
  {
    var j := p + |d|;
    LookaheadComplete(s, j);
    assert IsDigit(s[p]) by {
      assert s[p] == d[0];
    }
    if |d| == 2 {
      assert s[p + 1] == d[1];
      assert s[p..p + 2] == d;
    } else {
      var t :| 0 <= t <= 2 && LettersThenBoundary(s, j, t);
      if p + 1 < |s| && t == 0 {
        assert !IsWordChar(s[p + 1]);
      }
      assert s[p..p + 1] == d;
    }
  }

  /** The day scanner agrees with the pattern: whatever it returns has the
      shape the pattern describes, and any day word at p is what it returns. */
  lemma DayAtSpec(s: string, p: nat)
    ensures DayAt(s, p).Some? ==> DayWordAt(s, p, DayAt(s, p).value)
    ensures forall d :: DayWordAt(s, p, d) ==> DayAt(s, p) == Some(d)
  {
    forall d | DayWordAt(s, p, d) ensures DayAt(s, p) == Some(d) {
      DayWordFound(s, p, d);
    }
    if DayAt(s, p).Some? {
      var d := DayAt(s, p).value;
      var j := p + |d|;
      var n := LowerRun(s, j);
      SuffixSpec(s, j, if n < 2 then n else 2);
      var u :| 0 <= u <= (if n < 2 then n else 2) && LettersThenBoundary(s, j, u);
      assert 0 <= u <= 2 && LettersThenBoundary(s, p + |d|, u);
      assert WordEndsWithin2(s, p + |d|);
    }
  }

  function YearMatcher(s: string): nat -> Option<string> { (p: nat) => YearAt(s, p) }
  function MonthMatcher(s: string): nat -> Option<string> { (p: nat) => MonthAt(s, p) }
  function DayMatcher(s: string): nat -> Option<string> { (p: nat) => DayAt(s, p) }

  /** `day[:-len(day_digits)] + day_digits` with `day == '00'`. */
  function PadDay(digits: string): (r: string)
    requires 1 <= |digits| <= 2
    ensures |r| == 2 && r[2 - |digits|..] == digits
    ensures |digits| == 1 ==> r[0] == '0'
  {
    DropLast("00", |digits|) + digits
  }

  /** The year component: the first standalone four-digit run, or `0000`. */
  function YearOf(s: string): (y: string)
    ensures |y| == 4 && AllDigits(y)
  {
    match Leftmost(YearMatcher(s), 0, |s|)
    case None => "0000"
    case Some(m) => assert YearAt(s, m.0) == Some(m.1); m.1
  }

  /** The day component: the first day match padded to two digits, or `00`. */
  function DayOf(s: string): (d: string)
    ensures |d| == 2 && AllDigits(d)
  {
    match Leftmost(DayMatcher(s), 0, |s|)
    case None => "00"
    case Some(m) => DayAtSpec(s, m.0); PadDay(m.1)
  }

  /** The month component: `00` without a month word, the table's number for
      the word's first three letters, or the KeyError for an unknown one. */
  function MonthOf(s: string): (r: Result<string, string>)
    ensures r.Success? ==> |r.value| == 2 && AllDigits(r.value)
    ensures r.Failure? ==> |r.error| == 3 && r.error !in Months
  {
    match Leftmost(MonthMatcher(s), 0, |s|)
    case None => Success("00")
    case Some(m) =>
      MonthAtSpec(s, m.0);
      var key := m.1[..3];
      if key in Months then MonthNumbers(); Success(Months[key]) else Failure(key)
  }

  /** `parse_date`. All three searches run before any lookup, so an unknown
      month word raises whatever the year and the day are. */
  function ParseDate(v: Value): (r: Parsed)
    ensures v.NotStr? <==> r == NoDate
    ensures r.Date? ==> |r.text| == 10 && r.text[4] == '-' && r.text[7] == '-'
    ensures r.Date? ==> forall i :: 0 <= i < 10 && i != 4 && i != 7 ==> IsDigit(r.text[i])
  {
    match v
    case NotStr => NoDate
    case Str(s) =>
      match MonthOf(s)
      case Success(month) => Date(YearOf(s) + "-" + month + "-" + DayOf(s))
      case Failure(key) => UnknownMonth(key)
  }

  /** The year is the first standalone run of four digits, or `0000`. */
  lemma YearOfFirst(s: string)
    ensures (forall p: nat :: YearAt(s, p).None?) ==> YearOf(s) == "0000"
    ensures forall p: nat :: YearAt(s, p).Some? && (forall q :: 0 <= q < p ==> YearAt(s, q).None?)
              ==> YearOf(s) == YearAt(s, p).value
  {
    assert forall p: nat :: YearMatcher(s)(p) == YearAt(s, p);
    forall p: nat | YearAt(s, p).Some? && (forall q :: 0 <= q < p ==> YearAt(s, q).None?)
      ensures YearOf(s) == YearAt(s, p).value
    {
      assert YearMatcher(s)(p) == YearAt(s, p);
      assert forall q :: 0 <= q < p ==> YearMatcher(s)(q) == YearAt(s, q);
      LeftmostFirst(YearMatcher(s), |s|, p);
    }
  }

  /** The day is the first day word of the text, padded to two digits, or
      `00` when the text has none. */
  lemma DayOfFirst(s: string)
    ensures (forall p: nat, d :: !DayWordAt(s, p, d)) ==> DayOf(s) == "00"
    ensures forall p: nat, d :: DayWordAt(s, p, d) && (forall q: nat, e :: q < p ==> !DayWordAt(s, q, e))
              ==> DayOf(s) == PadDay(d)
  {
    DayOfNone(s);
    forall p: nat, d | DayWordAt(s, p, d) && (forall q: nat, e :: q < p ==> !DayWordAt(s, q, e))
      ensures DayOf(s) == PadDay(d)
    {
      DayOfWord(s, p, d);
    }
  }

  /** A text without day words has day `00`. */
  lemma DayOfNone(s: string)
    ensures (forall p: nat, d :: !DayWordAt(s, p, d)) ==> DayOf(s) == "00"
  {
    if forall p: nat, d :: !DayWordAt(s, p, d) {
      forall p: nat ensures DayMatcher(s)(p).None? {
        DayAtSpec(s, p);
      }
    }
  }

  /** The first day word of a text gives its day. */
  lemma DayOfWord(s: string, p: nat, d: string)
    requires DayWordAt(s, p, d) && forall q: nat, e :: q < p ==> !DayWordAt(s, q, e)
    ensures DayOf(s) == PadDay(d)
  {
    DayWordFound(s, p, d);
    forall q: nat | q < p ensures DayMatcher(s)(q).None? {
      DayAtSpec(s, q);
    }
    LeftmostFirst(DayMatcher(s), |s|, p);
  }

  /** The month comes from the first capitalised word of three to nine
      letters: its first three letters are looked up, and an unknown key is
      the error. Without such a word the month is `00`. */
  lemma MonthOfFirst(s: string)
    ensures (forall p: nat :: MonthAt(s, p).None?) ==> MonthOf(s) == Success("00")
    ensures forall p: nat :: MonthAt(s, p).Some? && (forall q :: 0 <= q < p ==> MonthAt(s, q).None?)
              ==> MonthWordAt(s, p, MonthAt(s, p).value)
                  && var key := MonthAt(s, p).value[..3];
                     MonthOf(s) == if key in Months then Success(Months[key]) else Failure(key)
  {
    assert forall p: nat :: MonthMatcher(s)(p) == MonthAt(s, p);
    forall p: nat | MonthAt(s, p).Some? && (forall q :: 0 <= q < p ==> MonthAt(s, q).None?)
      ensures MonthWordAt(s, p, MonthAt(s, p).value)
      ensures var key := MonthAt(s, p).value[..3];
              MonthOf(s) == if key in Months then Success(Months[key]) else Failure(key)
    {
      MonthAtSpec(s, p);
      assert MonthMatcher(s)(p) == MonthAt(s, p);
      assert forall q :: 0 <= q < p ==> MonthMatcher(s)(q) == MonthAt(s, q);
      LeftmostFirst(MonthMatcher(s), |s|, p);
    }
  }

  const Example: string := "3rd March 1778"

  lemma ExampleYear()
    ensures YearOf(Example) == "1778"
  {
    var s := Example;
    assert s[10..14] == "1778";
    assert YearAt(s, 10) == Some("1778");
    assert forall q :: 0 <= q < 10 ==> YearAt(s, q).None?;
    YearOfFirst(s);
  }

  lemma ExampleMonth()
    ensures MonthOf(Example) == Success("03")
  {
    ExampleMonthWord();
    assert "March"[..3] == "Mar";
    MonthOfFirst(Example);
  }

  lemma ExampleMonthWord()
    ensures MonthAt(Example, 4) == Some("March")
    ensures forall q :: 0 <= q < 4 ==> MonthAt(Example, q).None?
  {
    var s := Example;
    assert LowerRun(s, 5) == 4 by {
      assert s[9] == ' ';
      LowerRunExact(s, 5, 4);
    }
    assert s[4..9] == "March";
    assert MonthLetters(s, 4, 4) == Some("March");
  }

  lemma ExampleDay()
    ensures DayOf(Example) == "03"
  {
    ExampleDayAt();
    DayOfFirst(Example);
  }

  lemma ExampleDayAt()
    ensures DayAt(Example, 0) == Some("3")
  {
    var s := Example;
    assert s[0] == '3' && s[1] == 'r' && s[2] == 'd' && s[3] == ' ';
    assert LowerRun(s, 1) == 2 by {
      LowerRunExact(s, 1, 2);
    }
    assert BoundaryAt(s, 3);
    assert LookaheadAt(s, 1);
    assert s[0..1] == "3";
  }

  /** "3rd March 1778" reads as 1778-03-03. */
  lemma ExampleDate()
    ensures ParseDate(Str(Example)) == Date("1778-03-03")
  {
    assert "1778" + "-" + "03" + "-" + "03" == "1778-03-03";
    ExampleYear();
    ExampleMonth();
    ExampleDay();
    ParseDateFields(Example, "1778", "03", "03");
  }

  /** A text whose three searches succeed reads as their results joined. */
  /** A string's result is read back field by field: the `KeyError` of an
      unknown month word, or the year, month and day parts at their places. */
  lemma ParseDateSpec(s: string)
    ensures ParseDate(Str(s)).UnknownMonth? <==> MonthOf(s).Failure?
    ensures MonthOf(s).Failure? ==> ParseDate(Str(s)) == UnknownMonth(MonthOf(s).error)
    ensures MonthOf(s).Success? ==>
              ParseDate(Str(s)).Date? &&
              var t := ParseDate(Str(s)).text;
              t[..4] == YearOf(s) && t[5..7] == MonthOf(s).value && t[8..] == DayOf(s)
  {
    if MonthOf(s).Success? {
      var t := ParseDate(Str(s)).text;
      assert t == YearOf(s) + "-" + MonthOf(s).value + "-" + DayOf(s);
    }
  }

  lemma ParseDateFields(s: string, year: string, month: string, day: string)
    requires YearOf(s) == year && MonthOf(s) == Success(month) && DayOf(s) == day
    ensures ParseDate(Str(s)) == Date(year + "-" + month + "-" + day)
  {
  }
}
