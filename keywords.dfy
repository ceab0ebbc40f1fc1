/** The keyword tables of `import_works` (mpcereform/core.py:169-209): the
    repair of keyword codes that are not five characters long, and the
    comma-separated keyword lists of the manuscript books broken out into
    one (work, keyword) row per assignment. */
module Keywords {
  import opened Wrappers
  import opened Text

  /** The ValueErrors the repair can raise: `int()` of a tail that is not a
      number, or `max()` of an empty list. */
  datatype RepairError = NotNumeric(code: string) | NoFiveCharCode

  /** A five-character code whose tail reads as the number n. */
  predicate NumberedAs(code: string, n: nat) {
    |code| == 5 && AllDigits(code[1..]) && n == ParseDigits(code[1..])
  }

  /** `[int(code[1:]) for code in codes if len(code) == 5]`, raising at the
      first five-character code whose tail is not a number. */
  function KeyIds(codes: seq<string>): (r: Result<seq<nat>, RepairError>)
    ensures r.Success? ==> forall i :: 0 <= i < |codes| && |codes[i]| == 5 ==>
              AllDigits(codes[i][1..]) && ParseDigits(codes[i][1..]) in r.value
    ensures r.Success? ==> forall n :: n in r.value ==> exists i :: 0 <= i < |codes| && NumberedAs(codes[i], n)
    ensures r.Failure? ==> r.error.NotNumeric? && r.error.code in codes
    ensures r.Failure? ==> |r.error.code| == 5 && !AllDigits(r.error.code[1..])
    decreases |codes|
  {
    if codes == [] then Success([])
    else
      var rest := KeyIds(codes[1..]);
      assert forall i :: 1 <= i < |codes| ==> codes[i] == codes[1..][i - 1];
      if |codes[0]| != 5 then rest
      else if !AllDigits(codes[0][1..]) then Failure(NotNumeric(codes[0]))
      else match rest
        case Failure(e) => Failure(e)
        case Success(ns) => Success([ParseDigits(codes[0][1..])] + ns)
  }

  /** `next_keyid`: the largest number among the five-character codes. */
  function NextKeyId(codes: seq<string>): (r: Result<nat, RepairError>)
    ensures r.Success? ==> forall i :: 0 <= i < |codes| && |codes[i]| == 5 ==>
              AllDigits(codes[i][1..]) && ParseDigits(codes[i][1..]) <= r.value
    ensures r.Success? ==> exists i :: 0 <= i < |codes| && NumberedAs(codes[i], r.value)
    ensures r == Failure(NoFiveCharCode) ==> forall i :: 0 <= i < |codes| ==> |codes[i]| != 5
  {
    match KeyIds(codes)
    case Failure(e) => Failure(e)
    case Success(ns) =>
      if ns == [] then Failure(NoFiveCharCode)
      else
        var m := Max(ns);
        assert forall n :: n in ns ==> n <= m;
        Success(m)
  }

  /** How many of `codes` are not five characters long, i.e. get a new code. */
  function Replaced(codes: seq<string>): nat
    decreases |codes|
  {
    if codes == [] then 0
    else Replaced(codes[..|codes| - 1]) + (if |codes[|codes| - 1]| != 5 then 1 else 0)
  }

  /** The keyword map, stated position by position: a five-character code
      maps to itself, and the n-th code of any other length (counting from
      zero) maps to `k` followed by `top + 1 + n`. */
  function KeywordMap(codes: seq<string>, top: nat): seq<(string, string)>
  {
    seq(|codes|, i requires 0 <= i < |codes| => KeywordEntry(codes, top, i))
  }

  function KeywordEntry(codes: seq<string>, top: nat, i: nat): (string, string)
    requires i < |codes|
  {
    if |codes[i]| == 5 then (codes[i], codes[i])
    else (codes[i], "k" + NatToString(top + 1 + Replaced(codes[..i])))
  }

  /** The loop of mpcereform/core.py:180-185 that bumps `next_keyid` once
      per code of the wrong length. */
  method RepairKeywords(codes: seq<string>) returns (r: Result<seq<(string, string)>, RepairError>)
    ensures NextKeyId(codes).Failure? ==> r == Failure(NextKeyId(codes).error)
    ensures NextKeyId(codes).Success? ==> r == Success(KeywordMap(codes, NextKeyId(codes).value))
  {
    var top := NextKeyId(codes);
    if top.Failure? {
      return Failure(top.error);
    }
    var nextKeyId := top.value;
    var keywordMap: seq<(string, string)> := [];
    var i := 0;
    while i < |codes|
      invariant 0 <= i <= |codes|
      invariant nextKeyId == top.value + Replaced(codes[..i])
      invariant keywordMap == KeywordMap(codes, top.value)[..i]
    {
      assert codes[..i + 1][..i] == codes[..i];
      assert KeywordMap(codes, top.value)[..i + 1] == keywordMap + [KeywordEntry(codes, top.value, i)];
      if |codes[i]| != 5 {
        nextKeyId := nextKeyId + 1;
        keywordMap := keywordMap + [(codes[i], "k" + NatToString(nextKeyId))];
      } else {
        keywordMap := keywordMap + [(codes[i], codes[i])];
      }
      i := i + 1;
    }
    assert codes[..i] == codes;
    assert KeywordMap(codes, top.value)[..i] == KeywordMap(codes, top.value);
    return Success(keywordMap);
  }

  lemma {:induction false} ReplacedMonotone(codes: seq<string>, i: nat, j: nat)
    requires i <= j <= |codes|
    ensures Replaced(codes[..i]) <= Replaced(codes[..j])
    ensures i < j && |codes[i]| != 5 ==> Replaced(codes[..i]) < Replaced(codes[..j])
    decreases j - i
  {
    if i < j {
      ReplacedMonotone(codes, i, j - 1);
      assert codes[..j][..j - 1] == codes[..j - 1];
      if i == j - 1 {
        assert codes[..j][j - 1] == codes[i];
      }
    }
  }

  /** The new code given to the code at a wrong-length position: `k`
      and a number above every five-character code's. */
  lemma NewCodeAt(codes: seq<string>, top: nat, i: nat)
    requires NextKeyId(codes) == Success(top)
    requires i < |codes| && |codes[i]| != 5
    ensures KeywordEntry(codes, top, i).1[1..] == NatToString(top + 1 + Replaced(codes[..i]))
    ensures ParseDigits(KeywordEntry(codes, top, i).1[1..]) == top + 1 + Replaced(codes[..i])
  {
    ParseNatToString(top + 1 + Replaced(codes[..i]));
  }

  /** Two codes of the wrong length get different new codes. */
  lemma {:induction false} NewCodesDistinct(codes: seq<string>, top: nat, i: nat, j: nat)
    requires NextKeyId(codes) == Success(top)
    requires i < j < |codes| && |codes[i]| != 5 && |codes[j]| != 5
    ensures KeywordEntry(codes, top, i).1 != KeywordEntry(codes, top, j).1
  {
    ReplacedMonotone(codes, i, j);
    NewCodeAt(codes, top, i);
    NewCodeAt(codes, top, j);
    assert KeywordEntry(codes, top, i).1[1..] != KeywordEntry(codes, top, j).1[1..];
  }

  /** A new code never equals a five-character code that is kept. */
  lemma {:induction false} NewCodeFresh(codes: seq<string>, top: nat, i: nat, j: nat)
    requires NextKeyId(codes) == Success(top)
    requires i < |codes| && j < |codes| && |codes[i]| != 5 && |codes[j]| == 5
    ensures KeywordEntry(codes, top, i).1 != codes[j]
  {
    NewCodeAt(codes, top, i);
    assert ParseDigits(codes[j][1..]) <= top;
  }

  /** The new codes never collide: two replaced codes get different new
      codes, and no new code equals a five-character code that is kept. */
  lemma {:induction false} KeywordMapFresh(codes: seq<string>, top: nat)
    requires NextKeyId(codes) == Success(top)
    ensures var m := KeywordMap(codes, top);
      forall i, j :: 0 <= i < j < |codes| && |codes[i]| != 5 && |codes[j]| != 5 ==> m[i].1 != m[j].1
    ensures var m := KeywordMap(codes, top);
      forall i, j :: 0 <= i < |codes| && 0 <= j < |codes| && |codes[i]| != 5 && |codes[j]| == 5 ==> m[i].1 != codes[j]
  {
    forall i, j | 0 <= i < j < |codes| && |codes[i]| != 5 && |codes[j]| != 5
      ensures KeywordMap(codes, top)[i].1 != KeywordMap(codes, top)[j].1
    {
      NewCodesDistinct(codes, top, i, j);
    }
    forall i, j | 0 <= i < |codes| && 0 <= j < |codes| && |codes[i]| != 5 && |codes[j]| == 5
      ensures KeywordMap(codes, top)[i].1 != codes[j]
    {
      NewCodeFresh(codes, top, i, j);
    }
  }

  /** If the old keyword codes were distinct, so are the repaired ones: the
      keyword table keeps a usable primary key. */
  lemma {:induction false} KeywordCodesDistinct(codes: seq<string>, top: nat)
    requires NextKeyId(codes) == Success(top)
    requires forall i, j :: 0 <= i < j < |codes| ==> codes[i] != codes[j]
    ensures var m := KeywordMap(codes, top);
      forall i, j :: 0 <= i < j < |codes| ==> m[i].1 != m[j].1
  {
    KeywordMapFresh(codes, top);
  }

  /** The SQL filter `CHAR_LENGTH(keywords) > 1`: NULL and one-character
      lists are not read at all. */
  predicate HasKeywords(keywords: Option<string>) {
    keywords.Some? && |keywords.value| > 1
  }

  /** One row per comma-separated piece, stripped, paired with the work. */
  function RowAssignments(work: string, keywords: string): seq<(string, string)>
  {
    var pieces := Split(keywords, ',');
    seq(|pieces|, k requires 0 <= k < |pieces| => (work, Strip(pieces[k])))
  }

  /** `keywords_split` for the rows of `manuscript_books`, in row order. */
  function Assignments(rows: seq<(string, Option<string>)>): seq<(string, string)>
    decreases |rows|
  {
    if rows == [] then []
    else
      var last := rows[|rows| - 1];
      Assignments(rows[..|rows| - 1]) +
        (if HasKeywords(last.1) then RowAssignments(last.0, last.1.value) else [])
  }

  /** The nested loop of mpcereform/core.py:207-209. */
  method SplitKeywords(rows: seq<(string, Option<string>)>) returns (keywordsSplit: seq<(string, string)>)
    ensures keywordsSplit == Assignments(rows)
  {
    keywordsSplit := [];
    var i := 0;
    while i < |rows|
      invariant 0 <= i <= |rows|
      invariant keywordsSplit == Assignments(rows[..i])
    {
      assert rows[..i + 1][..i] == rows[..i];
      var (work, keywords) := rows[i];
      if HasKeywords(keywords) {
        var pieces := Split(keywords.value, ',');
        var j := 0;
        while j < |pieces|
          invariant 0 <= j <= |pieces|
          invariant keywordsSplit == Assignments(rows[..i]) + RowAssignments(work, keywords.value)[..j]
        {
          keywordsSplit := keywordsSplit + [(work, Strip(pieces[j]))];
          j := j + 1;
        }
      }
      i := i + 1;
    }
    assert rows[..i] == rows;
  }

  /** A list with c commas gives c + 1 assignments, none of whose keywords
      holds a comma or starts or ends with whitespace. */
  lemma {:induction false} RowAssignmentsSpec(work: string, keywords: string)
    ensures |RowAssignments(work, keywords)| == Count(keywords, ',') + 1
    ensures forall a :: a in RowAssignments(work, keywords) ==> a.0 == work && Clean(a.1)
  {
    SplitCount(keywords, ',');
    var pieces := Split(keywords, ',');
    var rows := RowAssignments(work, keywords);
    forall k | 0 <= k < |rows| ensures rows[k].0 == work && Clean(rows[k].1) {
      StripEdges(pieces[k]);
      StripChars(pieces[k]);
    }
  }

  /** A keyword as it is stored: no comma, no whitespace at either end. */
  predicate Clean(keyword: string) {
    ',' !in keyword && (keyword != [] ==> !IsSpace(keyword[0]) && !IsSpace(keyword[|keyword| - 1]))
  }

  /** Every assignment comes from a row with a keyword list, carries that
      row's work code and a clean keyword; rows without a list add nothing. */
  lemma {:induction false} AssignmentsSpec(rows: seq<(string, Option<string>)>)
    ensures |Assignments(rows)| == CountAssignments(rows)
    ensures forall a :: a in Assignments(rows) ==>
              Clean(a.1) && exists i :: 0 <= i < |rows| && HasKeywords(rows[i].1) && rows[i].0 == a.0
    decreases |rows|
  {
    if rows != [] {
      var init := rows[..|rows| - 1];
      var last := rows[|rows| - 1];
      AssignmentsSpec(init);
      if HasKeywords(last.1) {
        RowAssignmentsSpec(last.0, last.1.value);
      }
      forall a | a in Assignments(rows)
        ensures Clean(a.1) && exists i :: 0 <= i < |rows| && HasKeywords(rows[i].1) && rows[i].0 == a.0
      {
        if a in Assignments(init) {
          var i :| 0 <= i < |init| && HasKeywords(init[i].1) && init[i].0 == a.0;
          assert rows[i] == init[i];
        } else {
          assert rows[|rows| - 1] == last;
        }
      }
    }
  }

  /** The number of assignments the rows yield: one more than the commas of
      each list that passes the filter. */
  function CountAssignments(rows: seq<(string, Option<string>)>): nat
    decreases |rows|
  {
    if rows == [] then 0
    else
      var last := rows[|rows| - 1];
      CountAssignments(rows[..|rows| - 1]) + (if HasKeywords(last.1) then Count(last.1.value, ',') + 1 else 0)
  }
}
