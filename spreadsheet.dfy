/** The two loops that read semicolon-separated names and client codes from
    the consignments workbook: the new clients of `resolve_agents`
    (mpcereform/core.py:1050-1070) and `_import_spreadsheet_agents`
    (mpcereform/core.py:1577-1595). Both loops are modelled once with the
    guard that decides whether a row is skipped as a parameter, so that the
    guard as written and the evidently intended one run the same body. */
module Spreadsheet {
  import opened Text
  import opened Workbook

  /** `isinstance(a, str) or ~isinstance(b, str)`, the guard as written. */
  predicate SkipAsWritten(a: Cell, b: Cell) {
    IsStr(a) || Truthy(Invert(BoolAsInt(IsStr(b))))
  }

  /** The guard as written skips every row, whatever its cells hold. */
  lemma SkipAsWrittenAlways(a: Cell, b: Cell)
    ensures SkipAsWritten(a, b)
  {
    InvertBoolTruthy(IsStr(b));
  }

  /** The evidently intended guard: skip a row unless both cells are text,
      which is what the `split` calls right after it need. */
  predicate SkipUnlessText(a: Cell, b: Cell) {
    !IsStr(a) || !IsStr(b)
  }

  /** Python's `zip`: pairs up to the shorter of the two lists. */
  function Zip<A, B>(xs: seq<A>, ys: seq<B>): (zs: seq<(A, B)>)
    ensures |zs| == if |xs| <= |ys| then |xs| else |ys|
    ensures forall i :: 0 <= i < |zs| ==> zs[i] == (xs[i], ys[i])
  {
    var n := if |xs| <= |ys| then |xs| else |ys|;
    seq(n, i requires 0 <= i < n => (xs[i], ys[i]))
  }

  // ---------------------------------------------------------------------
  // New clients in the consignments workbook

  /** The cells of a `People final` row that the loop reads: names
      (`row[2]`), codes (`row[3]`), notes, title and place. */
  datatype PeopleRow = PeopleRow(names: Cell, codes: Cell, notes: Cell, title: Cell, place: Cell)

  /** A value of `consignment_clients`: a client for `all_clients`. */
  datatype Consignee = Consignee(code: string, name: string, notes: Cell, title: Cell, place: Cell)

  /** The clients one row names, in order: the i-th code (stripped) with
      the i-th name (as it stands). */
  function RowConsignees(row: PeopleRow): seq<Consignee>
    requires row.names.Text? && row.codes.Text?
  {
    var pairs := Zip(Split(row.codes.s, ';'), Split(row.names.s, ';'));
    seq(|pairs|, i requires 0 <= i < |pairs| => Consignee(Strip(pairs[i].0), pairs[i].1, row.notes, row.title, row.place))
  }

  /** Every client the rows name, in order, before duplicates are dropped. */
  function Candidates(rows: seq<PeopleRow>, skip: (Cell, Cell) -> bool): seq<Consignee>
    decreases |rows|
  {
    if rows == [] then []
    else
      var row := rows[|rows| - 1];
      Candidates(rows[..|rows| - 1], skip) +
        (if skip(row.codes, row.names) || !row.names.Text? || !row.codes.Text? then [] else RowConsignees(row))
  }

  /** The keys of the dict, in insertion order. */
  function Codes(clients: seq<Consignee>): (codes: seq<string>)
    ensures |codes| == |clients| && forall i :: 0 <= i < |clients| ==> codes[i] == clients[i].code
  {
    seq(|clients|, i requires 0 <= i < |clients| => clients[i].code)
  }

  predicate HasCode(clients: seq<Consignee>, code: string) {
    code in Codes(clients)
  }

  /** `if code not in consignment_clients: consignment_clients[code] = ...`:
      the dict's values in insertion order, the first client with a code
      winning. */
  function FirstByCode(cands: seq<Consignee>): seq<Consignee>
    decreases |cands|
  {
    if cands == [] then []
    else
      var acc := FirstByCode(cands[..|cands| - 1]);
      var c := cands[|cands| - 1];
      if HasCode(acc, c.code) then acc else acc + [c]
  }

  /** The loop of mpcereform/core.py:1053-1070, given the guard. A row the
      guard lets through must have text in both cells: Python would raise
      on the `split` otherwise, and the model skips it. */
  method ConsignmentClients(rows: seq<PeopleRow>, skip: (Cell, Cell) -> bool) returns (clients: seq<Consignee>)
    ensures clients == FirstByCode(Candidates(rows, skip))
  {
    clients := [];
    var i := 0;
    while i < |rows|
      invariant 0 <= i <= |rows|
      invariant clients == FirstByCode(Candidates(rows[..i], skip))
    {
      CandidatesStep(rows, skip, i);
      var row := rows[i];
      if !skip(row.codes, row.names) && row.names.Text? && row.codes.Text? {
        clients := CollectRow(clients, row, Candidates(rows[..i], skip));
      }
      i := i + 1;
    }
    assert rows[..i] == rows;
  }

  /** The inner loop over one row's code/name pairs: `clients0` holds the
      first clients by code of everything `before` this row. */
  method CollectRow(clients0: seq<Consignee>, row: PeopleRow, ghost before: seq<Consignee>) returns (clients: seq<Consignee>)
    requires row.names.Text? && row.codes.Text?
    requires clients0 == FirstByCode(before)
    ensures clients == FirstByCode(before + RowConsignees(row))
  {
    clients := clients0;
    var pairs := Zip(Split(row.codes.s, ';'), Split(row.names.s, ';'));
    ghost var added := RowConsignees(row);
    assert before + added[..0] == before;
    var j := 0;
    while j < |pairs|
      invariant 0 <= j <= |pairs|
      invariant clients == FirstByCode(before + added[..j])
    {
      var code := Strip(pairs[j].0);
      var client := Consignee(code, pairs[j].1, row.notes, row.title, row.place);
      assert client == added[j];
      CollectStep(clients, before, added, j);
      if !HasCode(clients, code) {
        clients := clients + [client];
      }
      j := j + 1;
    }
    assert added[..j] == added;
  }

  lemma CandidatesStep(rows: seq<PeopleRow>, skip: (Cell, Cell) -> bool, i: nat)
    requires i < |rows|
    ensures var row := rows[i];
      skip(row.codes, row.names) || !row.names.Text? || !row.codes.Text? ==>
        Candidates(rows[..i + 1], skip) == Candidates(rows[..i], skip)
    ensures var row := rows[i];
      !skip(row.codes, row.names) && row.names.Text? && row.codes.Text? ==>
        Candidates(rows[..i + 1], skip) == Candidates(rows[..i], skip) + RowConsignees(row)
  {
    assert rows[..i + 1][..i] == rows[..i];
    assert Candidates(rows[..i], skip) + [] == Candidates(rows[..i], skip);
  }

  /** Extending a prefix by one element. */
  lemma PrefixStep<T>(before: seq<T>, s: seq<T>, j: nat)
    requires j < |s|
    ensures before + s[..j + 1] == (before + s[..j]) + [s[j]]
  {
    assert s[..j + 1] == s[..j] + [s[j]];
  }

  /** One turn of the inner loop keeps the dict equal to the first clients
      by code of everything seen so far. */
  lemma CollectStep(clients: seq<Consignee>, before: seq<Consignee>, added: seq<Consignee>, j: nat)
    requires j < |added| && clients == FirstByCode(before + added[..j])
    ensures (if HasCode(clients, added[j].code) then clients else clients + [added[j]]) == FirstByCode(before + added[..j + 1])
  {
    PrefixStep(before, added, j);
    FirstByCodeStep(before + added[..j], added[j]);
  }

  lemma FirstByCodeStep(cands: seq<Consignee>, c: Consignee)
    ensures FirstByCode(cands + [c]) ==
      if HasCode(FirstByCode(cands), c.code) then FirstByCode(cands) else FirstByCode(cands) + [c]
  {
    assert (cands + [c])[..|cands|] == cands;
  }

  /** With the guard as written no client is ever collected. */
  lemma {:induction false} CandidatesAsWritten(rows: seq<PeopleRow>)
    ensures Candidates(rows, SkipAsWritten) == []
    ensures FirstByCode(Candidates(rows, SkipAsWritten)) == []
    decreases |rows|
  {
    if rows != [] {
      var row := rows[|rows| - 1];
      SkipAsWrittenAlways(row.codes, row.names);
      CandidatesAsWritten(rows[..|rows| - 1]);
    }
  }

  lemma FirstByCodeUnfold(cands: seq<Consignee>)
    requires cands != []
    ensures var acc := FirstByCode(cands[..|cands| - 1]); var c := cands[|cands| - 1];
      FirstByCode(cands) == if c.code in Codes(acc) then acc else acc + [c]
    ensures var acc := FirstByCode(cands[..|cands| - 1]); var c := cands[|cands| - 1];
      Codes(acc + [c]) == Codes(acc) + [c.code]
  {
    CodesAppend(FirstByCode(cands[..|cands| - 1]), cands[|cands| - 1]);
  }

  /** Adding a client adds its code at the end. */
  lemma CodesAppend(clients: seq<Consignee>, c: Consignee)
    ensures Codes(clients + [c]) == Codes(clients) + [c.code]
  {
    var l, r := Codes(clients + [c]), Codes(clients) + [c.code];
    assert forall i :: 0 <= i < |clients| ==> l[i] == r[i];
  }

  /** The collected clients have distinct codes. */
  lemma {:induction false} FirstByCodeDistinct(cands: seq<Consignee>)
    ensures var r := FirstByCode(cands); forall i, j :: 0 <= i < j < |r| ==> r[i].code != r[j].code
    decreases |cands|
  {
    if cands != [] {
      var init := cands[..|cands| - 1];
      var c := cands[|cands| - 1];
      FirstByCodeDistinct(init);
      FirstByCodeUnfold(cands);
      var acc := FirstByCode(init);
      var r := FirstByCode(cands);
      if c.code !in Codes(acc) {
        forall i, j | 0 <= i < j < |r| ensures r[i].code != r[j].code {
          if j == |acc| {
            assert r[i] == acc[i] && r[j] == c;
            assert Codes(acc)[i] == acc[i].code;
          } else {
            assert r[i] == acc[i] && r[j] == acc[j];
          }
        }
      }
    }
  }

  /** Every collected client is one of the candidates. */
  lemma {:induction false} FirstByCodeFrom(cands: seq<Consignee>)
    ensures forall c :: c in FirstByCode(cands) ==> c in cands
    decreases |cands|
  {
    if cands != [] {
      var init := cands[..|cands| - 1];
      FirstByCodeFrom(init);
      FirstByCodeUnfold(cands);
      assert forall c :: c in init ==> c in cands;
    }
  }

  /** Every candidate's code is a key of the dict. */
  lemma {:induction false} FirstByCodeKeys(cands: seq<Consignee>)
    ensures forall i :: 0 <= i < |cands| ==> HasCode(FirstByCode(cands), cands[i].code)
    decreases |cands|
  {
    if cands != [] {
      var init := cands[..|cands| - 1];
      FirstByCodeKeys(init);
      FirstByCodeUnfold(cands);
      assert forall i :: 0 <= i < |init| ==> init[i] == cands[i];
    }
  }

  /** The first candidate with each code is the one collected. */
  lemma {:induction false} FirstByCodeFirst(cands: seq<Consignee>)
    ensures forall i :: 0 <= i < |cands| && (forall j :: 0 <= j < i ==> cands[j].code != cands[i].code) ==>
              cands[i] in FirstByCode(cands)
    decreases |cands|
  {
    if cands != [] {
      var init := cands[..|cands| - 1];
      var c := cands[|cands| - 1];
      FirstByCodeFirst(init);
      FirstByCodeFrom(init);
      FirstByCodeUnfold(cands);
      var acc, r := FirstByCode(init), FirstByCode(cands);
      assert forall x :: x in acc ==> x in r;
      forall i | 0 <= i < |cands| && (forall j :: 0 <= j < i ==> cands[j].code != cands[i].code)
        ensures cands[i] in r
      {
        if i < |init| {
          assert init[i] == cands[i];
          assert forall j :: 0 <= j < i ==> init[j].code != init[i].code by {
            assert forall j :: 0 <= j < i ==> init[j] == cands[j];
          }
        } else {
          forall k | 0 <= k < |acc| ensures Codes(acc)[k] != c.code {
            assert acc[k] in init;
            var j :| 0 <= j < |init| && init[j] == acc[k];
            assert cands[j] == init[j];
          }
        }
      }
    }
  }

  /** With the intended guard: a row with text in both cells contributes a
      client for each of its code/name pairs, so a row naming one new code
      is never lost. */
  lemma ConsignmentRowCollected(rows: seq<PeopleRow>, k: nat, i: nat)
    requires k < |rows| && rows[k].names.Text? && rows[k].codes.Text?
    requires i < |RowConsignees(rows[k])|
    ensures HasCode(FirstByCode(Candidates(rows, SkipUnlessText)), RowConsignees(rows[k])[i].code)
  {
    CandidatesContain(rows, k, i);
    var cands := Candidates(rows, SkipUnlessText);
    var n :| 0 <= n < |cands| && cands[n] == RowConsignees(rows[k])[i];
    FirstByCodeKeys(cands);
  }

  lemma {:induction false} CandidatesContain(rows: seq<PeopleRow>, k: nat, i: nat)
    requires k < |rows| && rows[k].names.Text? && rows[k].codes.Text?
    requires i < |RowConsignees(rows[k])|
    ensures RowConsignees(rows[k])[i] in Candidates(rows, SkipUnlessText)
    decreases |rows|
  {
    var init := rows[..|rows| - 1];
    if k < |rows| - 1 {
      assert init[k] == rows[k];
      CandidatesContain(init, k, i);
    }
  }

  // ---------------------------------------------------------------------
  // `_import_spreadsheet_agents`

  /** The cells the loop reads: the consignment id (`row[0]`), the text
      column and the code column. */
  datatype AgentRow = AgentRow(consignment: Cell, names: Cell, codes: Cell)

  /** A row of the agency table: consignment, agent code, text. */
  datatype Agency = Agency(consignment: Cell, agentCode: string, text: string)

  /** The agency rows of one worksheet row: the i-th name with the i-th
      code, both stripped. */
  function RowAgencies(row: AgentRow): seq<Agency>
    requires row.names.Text? && row.codes.Text?
  {
    var pairs := Zip(Split(row.names.s, ';'), Split(row.codes.s, ';'));
    seq(|pairs|, i requires 0 <= i < |pairs| => Agency(row.consignment, Strip(pairs[i].1), Strip(pairs[i].0)))
  }

  /** `agents` for the rows, given the guard. */
  function Agencies(rows: seq<AgentRow>, skip: (Cell, Cell) -> bool): seq<Agency>
    decreases |rows|
  {
    if rows == [] then []
    else
      var row := rows[|rows| - 1];
      Agencies(rows[..|rows| - 1], skip) +
        (if skip(row.names, row.codes) || !row.names.Text? || !row.codes.Text? then [] else RowAgencies(row))
  }

  /** The loop of mpcereform/core.py:1579-1589, given the guard. */
  method ImportSpreadsheetAgents(rows: seq<AgentRow>, skip: (Cell, Cell) -> bool) returns (agents: seq<Agency>)
    ensures agents == Agencies(rows, skip)
  {
    agents := [];
    var i := 0;
    while i < |rows|
      invariant 0 <= i <= |rows|
      invariant agents == Agencies(rows[..i], skip)
    {
      AgenciesStep(rows, skip, i);
      var row := rows[i];
      if skip(row.names, row.codes) || !row.names.Text? || !row.codes.Text? {
        i := i + 1;
        continue;
      }
      agents := AppendRowAgencies(agents, row);
      i := i + 1;
    }
    assert rows[..i] == rows;
  }

  /** The inner loop of mpcereform/core.py:1588-1589: the name and code
      pairs of one row appended to the list. */
  method AppendRowAgencies(agents: seq<Agency>, row: AgentRow) returns (r: seq<Agency>)
    requires row.names.Text? && row.codes.Text?
    ensures r == agents + RowAgencies(row)
  {
    var pairs := Zip(Split(row.names.s, ';'), Split(row.codes.s, ';'));
    r := agents;
    var j := 0;
    while j < |pairs|
      invariant 0 <= j <= |pairs|
      invariant r == agents + RowAgencies(row)[..j]
    {
      assert RowAgencies(row)[..j + 1] == RowAgencies(row)[..j] + [Agency(row.consignment, Strip(pairs[j].1), Strip(pairs[j].0))];
      r := r + [Agency(row.consignment, Strip(pairs[j].1), Strip(pairs[j].0))];
      j := j + 1;
    }
    assert RowAgencies(row)[..j] == RowAgencies(row);
  }

  lemma AgenciesStep(rows: seq<AgentRow>, skip: (Cell, Cell) -> bool, i: nat)
    requires i < |rows|
    ensures var row := rows[i];
      Agencies(rows[..i + 1], skip) == Agencies(rows[..i], skip) +
        (if skip(row.names, row.codes) || !row.names.Text? || !row.codes.Text? then [] else RowAgencies(row))
  {
    assert rows[..i + 1][..i] == rows[..i];
  }

  /** With the guard as written no agency row is ever produced. */
  lemma {:induction false} AgenciesAsWritten(rows: seq<AgentRow>)
    ensures Agencies(rows, SkipAsWritten) == []
    decreases |rows|
  {
    if rows != [] {
      var row := rows[|rows| - 1];
      SkipAsWrittenAlways(row.names, row.codes);
      AgenciesAsWritten(rows[..|rows| - 1]);
    }
  }

  /** A row's agency rows: as many as the shorter of its two lists, each
      carrying the row's consignment, with codes and texts that hold no `;`
      and no surrounding whitespace. */
  lemma RowAgenciesSpec(row: AgentRow)
    requires row.names.Text? && row.codes.Text?
    ensures var a := RowAgencies(row);
      |a| == (if Count(row.names.s, ';') <= Count(row.codes.s, ';') then Count(row.names.s, ';') else Count(row.codes.s, ';')) + 1
    ensures forall a :: a in RowAgencies(row) ==>
              a.consignment == row.consignment && Tidy(a.agentCode) && Tidy(a.text)
  {
    SplitCount(row.names.s, ';');
    SplitCount(row.codes.s, ';');
    var names := Split(row.names.s, ';');
    var codes := Split(row.codes.s, ';');
    var a := RowAgencies(row);
    forall k | 0 <= k < |a| ensures a[k].consignment == row.consignment && Tidy(a[k].agentCode) && Tidy(a[k].text) {
      StripEdges(codes[k]);
      StripChars(codes[k]);
      StripEdges(names[k]);
      StripChars(names[k]);
    }
  }

  /** A piece as stored: no `;`, no whitespace at either end. */
  predicate Tidy(s: string) {
    ';' !in s && (s != [] ==> !IsSpace(s[0]) && !IsSpace(s[|s| - 1]))
  }

  /** With the intended guard, every agency row comes from a worksheet row
      with text in both cells, and every such row contributes all of its
      pairs. */
  lemma {:induction false} AgenciesIntended(rows: seq<AgentRow>)
    ensures |Agencies(rows, SkipUnlessText)| == PairCount(rows)
    ensures forall a :: a in Agencies(rows, SkipUnlessText) ==>
              exists k :: 0 <= k < |rows| && rows[k].names.Text? && rows[k].codes.Text? && a in RowAgencies(rows[k])
    decreases |rows|
  {
    if rows != [] {
      var init := rows[..|rows| - 1];
      AgenciesIntended(init);
      forall a | a in Agencies(rows, SkipUnlessText)
        ensures exists k :: 0 <= k < |rows| && rows[k].names.Text? && rows[k].codes.Text? && a in RowAgencies(rows[k])
      {
        if a in Agencies(init, SkipUnlessText) {
          var k :| 0 <= k < |init| && init[k].names.Text? && init[k].codes.Text? && a in RowAgencies(init[k]);
          assert rows[k] == init[k];
        } else {
          assert a in RowAgencies(rows[|rows| - 1]);
        }
      }
    }
  }

  /** The number of name/code pairs over the rows with text in both cells. */
  function PairCount(rows: seq<AgentRow>): nat
    decreases |rows|
  {
    if rows == [] then 0
    else
      var row := rows[|rows| - 1];
      PairCount(rows[..|rows| - 1]) + (if row.names.Text? && row.codes.Text? then |RowAgencies(row)| else 0)
  }
}
