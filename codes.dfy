/** The identifier generator of mpcereform/core.py: `_get_code_sequence`,
    which hands out the next free codes of a column such as `agent_code`
    (`id00001`, `id00002`, ...), and its sibling `_get_auto_increment`.
    The column is given as the sequence of its values in fetch order. */
module Codes {
  import opened Wrappers
  import opened Text

  /** How the Python code fails: an IndexError or ValueError on an empty
      column, or an AttributeError when a regular expression finds nothing. */
  datatype CodeError =
    | EmptyColumn
    | NoFrame(code: string)
    | NoNumeral(code: string)

  /** The pattern `[a-z]+(?=0)` tried at position `p`: the greedy run of
      lowercase letters, accepted when a '0' follows it. */
  function FrameAt(s: string, p: nat): Option<string>
  {
    if p > |s| then None
    else
      var n := LowerRun(s, p);
      if n >= 1 && p + n < |s| && s[p + n] == '0' then Some(s[p..p + n]) else None
  }

  /** What `[a-z]+(?=0)` means, backtracking included: some run of k >= 1
      lowercase letters at `p` is followed by a '0'. */
  ghost predicate FrameMatchesAt(s: string, p: nat, k: nat) {
    && k >= 1 && p + k < |s| && s[p + k] == '0'
    && forall i :: p <= i < p + k ==> IsLower(s[i])
  }

  /** The greedy scanner agrees with the regular expression: it matches
      exactly when some run does, and then that run is the only one. */
  lemma FrameAtSpec(s: string, p: nat)
    ensures FrameAt(s, p).Some? ==>
              FrameMatchesAt(s, p, |FrameAt(s, p).value|) && FrameAt(s, p).value == s[p..p + |FrameAt(s, p).value|]
    ensures forall k :: FrameMatchesAt(s, p, k) ==> FrameAt(s, p) == Some(s[p..p + k])
  {
    forall k | FrameMatchesAt(s, p, k) ensures FrameAt(s, p) == Some(s[p..p + k]) {
      assert LowerRun(s, p) == k;
    }
  }

  /** The pattern `[1-9]\d*` tried at position `p`, converted with `int`. */
  function NumeralAt(s: string, p: nat): Option<nat>
  {
    if p < |s| && IsNonZeroDigit(s[p]) then Some(ParseDigits(s[p..p + DigitRun(s, p)])) else None
  }

  function NumeralMatcher(s: string): nat -> Option<nat> {
    (p: nat) => NumeralAt(s, p)
  }

  /** `int(re.search(r'[1-9]\d*', s).group(0))`, or None when nothing matches. */
  function Numeral(s: string): Option<nat>
  {
    match Leftmost(NumeralMatcher(s), 0, |s|)
    case None => None
    case Some(m) => Some(m.1)
  }

  /** A code has a numeral exactly when it contains a non-zero digit. */
  lemma NumeralExists(s: string)
    ensures Numeral(s).Some? <==> exists i :: 0 <= i < |s| && IsNonZeroDigit(s[i])
  {
    var l := Leftmost(NumeralMatcher(s), 0, |s|);
    if l.Some? {
      assert NumeralAt(s, l.value.0).Some?;
    }
    if i :| 0 <= i < |s| && IsNonZeroDigit(s[i]) {
      assert NumeralMatcher(s)(i).Some?;
    }
  }

  /** The numerals of all codes, in order; the first code without one fails. */
  function Numerals(codes: seq<string>): (r: Result<seq<nat>, CodeError>)
    ensures r.Success? <==> forall c :: c in codes ==> Numeral(c).Some?
    ensures r.Success? ==>
              |r.value| == |codes| && forall i :: 0 <= i < |codes| ==> Numeral(codes[i]) == Some(r.value[i])
    ensures r.Failure? ==> r.error.NoNumeral? && r.error.code in codes && Numeral(r.error.code).None?
    decreases |codes|
  {
    if codes == [] then Success([])
    else match Numeral(codes[0])
      case None => assert codes[0] in codes; Failure(NoNumeral(codes[0]))
      case Some(n) =>
        assert forall c :: c in codes <==> c == codes[0] || c in codes[1..];
        match Numerals(codes[1..])
        case Failure(e) => Failure(e)
        case Success(ns) =>
          assert forall i :: 1 <= i < |codes| ==> codes[i] == codes[1..][i - 1];
          Success([n] + ns)
  }

  /** `frame[:-len(str(id))] + str(id)`: the numeral replaces as many
      trailing characters of the frame as it has digits. */
  function Render(frame: string, id: nat): string
  {
    DropLast(frame, |NatToString(id)|) + NatToString(id)
  }

  /** A frame holds only lowercase letters and '0's. */
  predicate FrameChars(frame: string) {
    forall i :: 0 <= i < |frame| ==> IsLower(frame[i]) || frame[i] == '0'
  }

  /** A rendered code gives back its numeral: nothing in the frame can be
      mistaken for the start of the number. */
  lemma RenderNumeral(frame: string, id: nat)
    requires FrameChars(frame) && id >= 1
    ensures Numeral(Render(frame, id)) == Some(id)
  {
    var p := DropLast(frame, |NatToString(id)|);
    var t := p + NatToString(id);
    NumeralAfterFrame(p, id);
    forall q | 0 <= q < |p| ensures NumeralMatcher(t)(q).None? {
      assert t[q] == frame[q];
    }
    LeftmostFirst(NumeralMatcher(t), |t|, |p|);
  }

  /** The numeral written after a prefix of the frame is read back whole. */
  lemma NumeralAfterFrame(p: string, id: nat)
    requires id >= 1
    ensures NumeralAt(p + NatToString(id), |p|) == Some(id)
  {
    var d := NatToString(id);
    var t := p + d;
    ParseNatToString(id);
    assert t[|p|] == d[0];
    forall k | |p| <= k < |t| ensures IsDigit(t[k]) {
      assert t[k] == d[k - |p|];
    }
    DigitRunToEnd(t, |p|);
    assert t[|p|..|p| + |d|] == d;
  }

  /** The frame inferred from a code: its leading lowercase letters (which
      must be followed by a '0') and the number of characters after them. */
  datatype Frame = Frame(alpha: string, width: nat)

  function FrameOf(code: string): (r: Option<Frame>)
    ensures r.Some? ==> |r.value.alpha| + r.value.width == |code| && r.value.width >= 1
    ensures r.Some? ==> r.value.alpha == code[..|r.value.alpha|]
    ensures r.Some? ==> forall i :: 0 <= i < |r.value.alpha| ==> IsLower(r.value.alpha[i])
  {
    match FrameAt(code, 0)
    case None => None
    case Some(alpha) => Some(Frame(alpha, |code| - |alpha|))
  }

  /** The frame written out: `alpha` followed by `width` zeros. */
  function FrameText(f: Frame): string
  {
    f.alpha + Zeros(f.width)
  }

  /** One past the largest numeral of the column: `max(codes) + 1`. */
  function NextNumeral(codes: seq<string>): (n: nat)
    requires codes != [] && Numerals(codes).Success?
    ensures forall c :: c in codes ==> Numeral(c).Some? && Numeral(c).value < n
    ensures exists c :: c in codes && Numeral(c).value + 1 == n
  {
    var ns := Numerals(codes).value;
    var k :| 0 <= k < |ns| && ns[k] == Max(ns);
    assert codes[k] in codes;
    Max(ns) + 1
  }

  /** `_get_code_sequence`: the frame comes from the first code only, the
      numbering continues after the largest numeral of all codes. */
  function CodeSequence(codes: seq<string>, num: nat): Result<seq<string>, CodeError>
  {
    if codes == [] then Failure(EmptyColumn)
    else match FrameOf(codes[0])
      case None => Failure(NoFrame(codes[0]))
      case Some(f) =>
        match Numerals(codes)
        case Failure(e) => Failure(e)
        case Success(_) =>
          Success(Consecutive(FrameText(f), NextNumeral(codes), num))
  }

  /** The `num` codes rendered in `frame` from numeral `next` on. */
  function Consecutive(frame: string, next: nat, num: nat): (r: seq<string>)
    ensures |r| == num
    ensures forall i :: 0 <= i < num ==> r[i] == Render(frame, next + i)
  {
    seq(num, i requires 0 <= i => Render(frame, next + i))
  }

  /** The i-th code handed out, written in terms of the frame and the numeral. */
  lemma CodeSequenceAt(codes: seq<string>, num: nat, i: nat)
    requires CodeSequence(codes, num).Success? && i < num
    ensures codes != [] && FrameOf(codes[0]).Some? && Numerals(codes).Success?
    ensures |CodeSequence(codes, num).value| == num
    ensures CodeSequence(codes, num).value[i] == Render(FrameText(FrameOf(codes[0]).value), NextNumeral(codes) + i)
  {
    assert codes != [];
    var f := FrameOf(codes[0]);
    assert f.Some? && Numerals(codes).Success?;
    assert CodeSequence(codes, num).value == Consecutive(FrameText(f.value), NextNumeral(codes), num);
  }

  /** The three ways the generator fails: an empty column, a first code with
      no lowercase prefix followed by '0', or a code with no non-zero digit. */
  lemma CodeSequenceFailures(codes: seq<string>, num: nat)
    ensures CodeSequence(codes, num) == Failure(EmptyColumn) <==> codes == []
    ensures codes != [] && (forall k :: !FrameMatchesAt(codes[0], 0, k))
            ==> CodeSequence(codes, num) == Failure(NoFrame(codes[0]))
    ensures codes != [] && (exists k :: FrameMatchesAt(codes[0], 0, k))
            ==> (CodeSequence(codes, num).Failure? <==> exists c :: c in codes && Numeral(c).None?)
  {
    if codes != [] {
      FrameAtSpec(codes[0], 0);
    }
  }

  /** Exactly `num` codes are handed out, numbered consecutively from one
      past the largest existing numeral. */
  lemma CodeSequenceNumerals(codes: seq<string>, num: nat)
    requires CodeSequence(codes, num).Success?
    ensures |CodeSequence(codes, num).value| == num
    ensures forall i :: 0 <= i < num ==>
              Numeral(CodeSequence(codes, num).value[i]) == Some(NextNumeral(codes) + i)
  {
    var r := CodeSequence(codes, num).value;
    forall i | 0 <= i < num ensures Numeral(r[i]) == Some(NextNumeral(codes) + i) {
      CodeNumeral(codes, num, i);
    }
  }

  /** The numeral of one code handed out. */
  lemma CodeNumeral(codes: seq<string>, num: nat, i: nat)
    requires CodeSequence(codes, num).Success? && i < num
    ensures Numeral(CodeSequence(codes, num).value[i]) == Some(NextNumeral(codes) + i)
  {
    CodeSequenceAt(codes, num, i);
    var f := FrameOf(codes[0]).value;
    var n := NextNumeral(codes) + i;
    assert CodeSequence(codes, num).value[i] == Render(FrameText(f), n);
    FrameTextChars(f);
    RenderNumeral(FrameText(f), n);
  }

  /** A frame written out holds only its letters and zeros. */
  lemma FrameTextChars(f: Frame)
    requires forall i :: 0 <= i < |f.alpha| ==> IsLower(f.alpha[i])
    ensures FrameChars(FrameText(f))
  {
    var t := FrameText(f);
    forall i | 0 <= i < |t| ensures IsLower(t[i]) || t[i] == '0' {
      if i < |f.alpha| {
        assert t[i] == f.alpha[i];
      } else {
        assert t[i] == Zeros(f.width)[i - |f.alpha|];
      }
    }
  }

  /** `frame[:-k]` for a frame `alpha` + `width` zeros: zeros are dropped
      first, then letters. */
  lemma DropLastFrame(f: Frame, k: nat)
    requires k >= 1
    ensures k <= f.width ==> DropLast(FrameText(f), k) == f.alpha + Zeros(f.width - k)
    ensures f.width < k ==> DropLast(FrameText(f), k) == DropLast(f.alpha, k - f.width)
  {
    var t := FrameText(f);
    if k <= f.width {
      assert DropLast(t, k) == t[..|t| - k];
    } else if k - f.width < |f.alpha| {
      assert DropLast(t, k) == t[..|t| - k];
      assert t[..|t| - k] == f.alpha[..|f.alpha| - (k - f.width)];
    }
  }

  /** No new code equals an existing code, and no two new codes are equal:
      their numerals differ. */
  lemma CodeSequenceFresh(codes: seq<string>, num: nat)
    requires CodeSequence(codes, num).Success?
    ensures forall i, c :: 0 <= i < num && c in codes ==> CodeSequence(codes, num).value[i] != c
    ensures forall i, j :: 0 <= i < j < num ==> CodeSequence(codes, num).value[i] != CodeSequence(codes, num).value[j]
  {
    CodeSequenceNumerals(codes, num);
  }

  /** How a code is laid out, written independently of the slicing: the
      frame's letters, then the numeral left-padded with '0' to the width;
      a numeral wider than that eats into the letters. */
  function Layout(f: Frame, id: nat): (code: string)
    ensures |NatToString(id)| <= f.width ==> |code| == |f.alpha| + f.width
  {
    var digits := NatToString(id);
    if |digits| <= f.width then f.alpha + Zeros(f.width - |digits|) + digits
    else DropLast(f.alpha, |digits| - f.width) + digits
  }

  /** `frame[:-len(str(id))] + str(id)` is that layout. */
  lemma RenderLayout(f: Frame, id: nat)
    ensures Render(FrameText(f), id) == Layout(f, id)
  {
    DropLastFrame(f, |NatToString(id)|);
  }

  /** Every new code has the layout of its numeral in the first code's
      frame; while the numeral fits the width it is exactly as long as the
      first code. */
  lemma CodeSequenceLayout(codes: seq<string>, num: nat, i: nat)
    requires CodeSequence(codes, num).Success? && i < num
    ensures codes != [] && FrameOf(codes[0]).Some? && Numerals(codes).Success?
    ensures CodeSequence(codes, num).value[i] == Layout(FrameOf(codes[0]).value, NextNumeral(codes) + i)
    ensures |NatToString(NextNumeral(codes) + i)| <= FrameOf(codes[0]).value.width ==>
              |CodeSequence(codes, num).value[i]| == |codes[0]|
  {
    CodeSequenceAt(codes, num, i);
    RenderLayout(FrameOf(codes[0]).value, NextNumeral(codes) + i);
  }

  /** The quirk of `frame[:-len(str(id))]`: once the numeral has more digits
      than the width, letters of the prefix are dropped too. */
  lemma PrefixEatenPastWidth()
    ensures CodeSequence(["id0001", "id9999"], 1) == Success(["i10000"])
  {
    var codes := ["id0001", "id9999"];
    ExampleFrame();
    ExampleNumerals();
    ExampleRender();
    assert FrameText(Frame("id", 4)) == "id0000";
    SingleCode(codes);
  }

  /** Asked for one code, the generator hands out exactly the next one. */
  lemma SingleCode(codes: seq<string>)
    requires codes != [] && FrameOf(codes[0]).Some? && Numerals(codes).Success?
    ensures CodeSequence(codes, 1) == Success([Render(FrameText(FrameOf(codes[0]).value), NextNumeral(codes))])
  {
    var r := Consecutive(FrameText(FrameOf(codes[0]).value), NextNumeral(codes), 1);
    assert r == [r[0]];
  }

  lemma ExampleRender()
    ensures Render("id0000", 10000) == "i10000"
  {
    assert NatToString(10000) == "10000" by {
      assert NatToString(1) == "1";
      assert NatToString(10) == "10";
      assert NatToString(100) == "100";
      assert NatToString(1000) == "1000";
    }
    assert DropLast("id0000", 5) == "i";
  }

  lemma ExampleFrame()
    ensures FrameOf("id0001") == Some(Frame("id", 4))
  {
    var first := "id0001";
    assert LowerRun(first, 2) == 0;
    assert LowerRun(first, 1) == 1;
    assert LowerRun(first, 0) == 2;
    assert first[0..2] == "id";
    assert FrameAt(first, 0) == Some("id");
  }

  lemma ExampleNumerals()
    ensures Numerals(["id0001", "id9999"]) == Success([1, 9999])
    ensures NextNumeral(["id0001", "id9999"]) == 10000
  {
    var first, last := "id0001", "id9999";
    ExampleNumeralFirst();
    ExampleNumeralLast();
    var single: seq<string> := [last];
    assert single[0] == last && single[1..] == [];
    var none: seq<nat> := [];
    assert Numerals(single[1..]) == Success(none);
    assert [9999] + none == [9999];
    assert Numerals(single) == Success([9999]);
    assert [first, last][1..] == single;
    assert Numerals([first, last]) == Success([1] + [9999]);
    assert [1] + [9999] == [1, 9999];
  }

  lemma ExampleNumeralFirst()
    ensures Numeral("id0001") == Some(1)
  {
    var first := "id0001";
    assert NumeralAt(first, 5) == Some(1) by {
      assert DigitRun(first, 6) == 0;
      assert first[5..6] == "1";
      assert |"1"[..0]| == 0;
    }
    assert NumeralMatcher(first)(0).None? && NumeralMatcher(first)(1).None?;
    assert NumeralMatcher(first)(2).None? && NumeralMatcher(first)(3).None?;
    assert NumeralMatcher(first)(4).None?;
    assert NumeralMatcher(first)(5) == Some(1);
  }

  lemma ExampleNumeralLast()
    ensures Numeral("id9999") == Some(9999)
  {
    var last := "id9999";
    assert NumeralAt(last, 2) == Some(9999) by {
      DigitRunToEnd(last, 2);
      assert last[2..6] == "9999";
      assert "9999"[..3] == "999" && "999"[..2] == "99" && "99"[..1] == "9" && "9"[..0] == [];
    }
    assert NumeralMatcher(last)(0).None? && NumeralMatcher(last)(1).None?;
    assert NumeralMatcher(last)(2) == Some(9999);
  }

  function FrameMatcher(s: string): nat -> Option<string> {
    (p: nat) => FrameAt(s, p)
  }

  /** `frame_rgx.search(code).group(0)`: the leftmost lowercase run of the
      code that a '0' follows, or nothing when there is none anywhere. */
  function FrameSearch(code: string): (r: Option<string>)
    ensures r.Some? ==>
              exists p: nat :: && FrameMatchesAt(code, p, |r.value|) && r.value == code[p..p + |r.value|]
                               && (forall q: nat, k :: q < p ==> !FrameMatchesAt(code, q, k))
    ensures r.None? ==> forall p: nat, k :: !FrameMatchesAt(code, p, k)
  {
    match Leftmost(FrameMatcher(code), 0, |code|)
    case None =>
      assert forall p: nat :: FrameMatcher(code)(p) == FrameAt(code, p);
      NoFrameAnywhere(code);
      None
    case Some(m) =>
      FrameAtSpec(code, m.0);
      assert forall q: nat :: q < m.0 ==> FrameMatcher(code)(q) == FrameAt(code, q);
      NoFrameBefore(code, m.0);
      assert FrameMatchesAt(code, m.0, |m.1|);
      Some(m.1)
  }

  /** Positions where the pattern fails hold no frame. */
  lemma NoFrameBefore(code: string, p: nat)
    requires forall q: nat :: q < p ==> FrameAt(code, q).None?
    ensures forall q: nat, k :: q < p ==> !FrameMatchesAt(code, q, k)
  {
    forall q: nat, k | q < p ensures !FrameMatchesAt(code, q, k) {
      if q <= |code| {
        FrameAtSpec(code, q);
      }
    }
  }

  /** A code where the pattern fails at every position has no frame. */
  lemma NoFrameAnywhere(code: string)
    requires forall p: nat :: p <= |code| ==> FrameAt(code, p).None?
    ensures forall p: nat, k :: !FrameMatchesAt(code, p, k)
  {
    forall p: nat, k ensures !FrameMatchesAt(code, p, k) {
      if p <= |code| {
        FrameAtSpec(code, p);
      }
    }
  }

  /** `_get_auto_increment`: the next numeral and the letters of the first
      code's frame, found anywhere in it. The numerals are taken first, then
      their maximum, then the frame, so the errors come in that order. */
  function AutoIncrement(codes: seq<string>): Result<(nat, string), CodeError>
  {
    match Numerals(codes)
    case Failure(e) => Failure(e)
    case Success(ns) =>
      if codes == [] then Failure(EmptyColumn)
      else match FrameSearch(codes[0])
        case None => Failure(NoFrame(codes[0]))
        case Some(alpha) => Success((NextNumeral(codes), alpha))
  }

  /** The letters returned are those the frame search finds in the first
      code, and the call fails with `NoFrame` exactly when it finds none. */
  lemma AutoIncrementFrame(codes: seq<string>)
    ensures AutoIncrement(codes).Success? ==> codes != [] && FrameSearch(codes[0]) == Some(AutoIncrement(codes).value.1)
    ensures codes != [] && Numerals(codes).Success? ==>
              (AutoIncrement(codes) == Failure(NoFrame(codes[0])) <==> FrameSearch(codes[0]).None?)
  {
  }

  /** Where both apply, the two agree: when the first code starts with its
      frame, `_get_auto_increment` returns the numeral of the first code
      `_get_code_sequence` hands out, and the same letters. */
  lemma AutoIncrementAgreesWithSequence(codes: seq<string>, num: nat)
    requires num >= 1 && CodeSequence(codes, num).Success?
    ensures AutoIncrement(codes) == Success((NextNumeral(codes), FrameOf(codes[0]).value.alpha))
  {
    assert FrameMatcher(codes[0])(0).Some?;
    assert FrameSearch(codes[0]) == Some(FrameOf(codes[0]).value.alpha);
  }
}
