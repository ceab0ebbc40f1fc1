/** Author resolution in `resolve_agents` (mpcereform/core.py:910-968):
    reviewed matches from the `author_person` workbook keep their agent;
    every other author is grouped by name, and each distinct name gets one
    fresh agent code from the code generator. */
module Authors {
  import opened Wrappers
  import opened Workbook
  import Codes

  /** The cells of an `author_person` row that the loop reads: the agent
      code (`row[0]`), the author code (`row[3]`) and the reviewer's
      verdict (`row[7]`). */
  datatype AuthorPersonRow = AuthorPersonRow(agentCode: Cell, authorCode: Cell, correct: Cell)

  /** A row of `manuscripts.manuscript_authors`. */
  datatype ManuscriptAuthor = ManuscriptAuthor(name: string, code: string)

  /** The row records a match the reviewer marked correct. */
  predicate Reviewed(row: AuthorPersonRow) {
    row.correct == Text("Y")
  }

  /** `assigned_authors`: `(agent_code, author_code)` of every reviewed row,
      in workbook order. */
  function AssignedPairs(rows: seq<AuthorPersonRow>): seq<(Cell, Cell)>
    decreases |rows|
  {
    if rows == [] then []
    else
      var last := rows[|rows| - 1];
      AssignedPairs(rows[..|rows| - 1]) + if Reviewed(last) then [(last.agentCode, last.authorCode)] else []
  }

  /** The loop that fills `assigned_authors`. */
  method AssignedAuthors(rows: seq<AuthorPersonRow>) returns (pairs: seq<(Cell, Cell)>)
    ensures pairs == AssignedPairs(rows)
  {
    pairs := [];
    var i := 0;
    while i < |rows|
      invariant i <= |rows|
      invariant pairs == AssignedPairs(rows[..i])
    {
      assert rows[..i + 1][..i] == rows[..i];
      if rows[i].correct == Text("Y") {
        pairs := pairs + [(rows[i].agentCode, rows[i].authorCode)];
      }
      i := i + 1;
    }
    assert rows[..i] == rows;
  }

  /** A pair is in `assigned_authors` exactly when some reviewed row
      carries it. */
  lemma {:induction false} AssignedPairsSpec(rows: seq<AuthorPersonRow>, pair: (Cell, Cell))
    ensures pair in AssignedPairs(rows) <==>
      exists i :: 0 <= i < |rows| && Reviewed(rows[i]) && (rows[i].agentCode, rows[i].authorCode) == pair
    decreases |rows|
  {
    if rows != [] {
      var init := rows[..|rows| - 1];
      AssignedPairsSpec(init, pair);
      assert forall i :: 0 <= i < |init| ==> init[i] == rows[i];
      if pair in AssignedPairs(rows) && pair !in AssignedPairs(init) {
        assert Reviewed(rows[|rows| - 1]) && (rows[|rows| - 1].agentCode, rows[|rows| - 1].authorCode) == pair;
      }
    }
  }

  /** `author_agent` holds an agent for the author code: the `LEFT JOIN`
      of the unassigned-author query finds a row. */
  predicate HasAgent(pairs: seq<(Cell, Cell)>, code: string) {
    exists i :: 0 <= i < |pairs| && SqlText(pairs[i].1) == Some(code) && !pairs[i].0.Blank?
  }

  /** The rows of `manuscript_authors` the query returns: those without an
      agent, in table order. */
  function Unassigned(authors: seq<ManuscriptAuthor>, pairs: seq<(Cell, Cell)>): (rest: seq<ManuscriptAuthor>)
    ensures forall a :: a in rest <==> a in authors && !HasAgent(pairs, a.code)
    decreases |authors|
  {
    if authors == [] then []
    else
      var last := authors[|authors| - 1];
      Unassigned(authors[..|authors| - 1], pairs) + if HasAgent(pairs, last.code) then [] else [last]
  }

  /** `unassigned_auths = {code: name for name, code in rows}`: one entry per
      author code, the last row for a code winning. */
  function UnassignedMap(rows: seq<ManuscriptAuthor>): map<string, string>
    decreases |rows|
  {
    if rows == [] then map[]
    else
      var last := rows[|rows| - 1];
      UnassignedMap(rows[..|rows| - 1])[last.code := last.name]
  }

  /** The dictionary's keys are exactly the author codes of the rows. */
  lemma {:induction false} UnassignedMapKeys(rows: seq<ManuscriptAuthor>)
    ensures forall c :: c in UnassignedMap(rows) <==> exists i :: 0 <= i < |rows| && rows[i].code == c
    decreases |rows|
  {
    if rows != [] {
      var init := rows[..|rows| - 1];
      UnassignedMapKeys(init);
      assert forall i :: 0 <= i < |init| ==> init[i] == rows[i];
    }
  }

  /** A code maps to the name on the last row that carries it. */
  lemma {:induction false} UnassignedMapLast(rows: seq<ManuscriptAuthor>, i: nat)
    requires i < |rows|
    requires forall j :: i < j < |rows| ==> rows[j].code != rows[i].code
    ensures rows[i].code in UnassignedMap(rows) && UnassignedMap(rows)[rows[i].code] == rows[i].name
    decreases |rows|
  {
    if i < |rows| - 1 {
      var init := rows[..|rows| - 1];
      assert init[i] == rows[i];
      UnassignedMapLast(init, i);
    }
  }

  /** `order` is one iteration order of the set `names`: each name once. */
  predicate Enumerates(order: seq<string>, names: set<string>) {
    (forall i, j :: 0 <= i < j < |order| ==> order[i] != order[j])
    && (forall x :: x in order ==> x in names) && (forall x :: x in names ==> x in order)
  }

  /** A list without repetitions is as long as the set of its elements. */
  lemma {:induction false} DistinctLength(order: seq<string>)
    requires forall i, j :: 0 <= i < j < |order| ==> order[i] != order[j]
    ensures |set x | x in order| == |order|
    decreases |order|
  {
    if order != [] {
      var last := order[|order| - 1];
      var init := order[..|order| - 1];
      assert forall i :: 0 <= i < |init| ==> init[i] == order[i];
      DistinctLength(init);
      assert (set x | x in order) == (set x | x in init) + {last};
      assert last !in (set x | x in init);
    }
  }

  /** An iteration order of a set is as long as the set. */
  lemma EnumerationLength(order: seq<string>, names: set<string>)
    requires Enumerates(order, names)
    ensures |order| == |names|
  {
    assert names == set x | x in order;
    DistinctLength(order);
  }

  /** The position of a name in the iteration order. */
  function IndexOf(order: seq<string>, name: string): (i: nat)
    requires name in order
    ensures i < |order| && order[i] == name
    ensures forall j :: 0 <= j < i ==> order[j] != name
    decreases |order|
  {
    if order[0] == name then 0 else 1 + IndexOf(order[1..], name)
  }

  /** What the author resolution inserts: the new agents `(code, name)` and
      the `author_agent` rows, as a map from author code to agent code. */
  datatype Resolution = Resolution(newAgents: seq<(string, string)>, authorAgent: map<string, string>)

  /** Lines 951-963: `order` is the order in which `set(unassigned_auths.
      values())` is iterated; the i-th name in it gets the i-th fresh code. */
  function Resolve(agentCodes: seq<string>, unassigned: map<string, string>, order: seq<string>): Result<Resolution, Codes.CodeError>
    requires Enumerates(order, unassigned.Values)
  {
    match Codes.CodeSequence(agentCodes, |order|)
    case Failure(e) => Failure(e)
    case Success(codes) =>
      Codes.CodeSequenceNumerals(agentCodes, |order|);
      var newAgents := seq(|order|, i requires 0 <= i < |order| => (codes[i], order[i]));
      var authorAgent := map c | c in unassigned :: codes[IndexOf(order, unassigned[c])];
      Success(Resolution(newAgents, authorAgent))
  }

  /** The code generator decides success, and one fresh code per distinct
      name comes out. */
  lemma ResolveCodes(agentCodes: seq<string>, unassigned: map<string, string>, order: seq<string>)
    requires Enumerates(order, unassigned.Values)
    ensures Resolve(agentCodes, unassigned, order).Success? <==> Codes.CodeSequence(agentCodes, |order|).Success?
    ensures Resolve(agentCodes, unassigned, order).Success? ==>
      |Resolve(agentCodes, unassigned, order).value.newAgents| == |unassigned.Values|
  {
    EnumerationLength(order, unassigned.Values);
    if Codes.CodeSequence(agentCodes, |order|).Success? {
      Codes.CodeSequenceNumerals(agentCodes, |order|);
    }
  }

  /** Every unassigned author code gets exactly one agent code, and that
      code is the one of a new agent bearing the author's name. */
  lemma ResolveCoversAuthors(agentCodes: seq<string>, unassigned: map<string, string>, order: seq<string>)
    requires Enumerates(order, unassigned.Values)
    requires Resolve(agentCodes, unassigned, order).Success?
    ensures Resolve(agentCodes, unassigned, order).value.authorAgent.Keys == unassigned.Keys
    ensures var r := Resolve(agentCodes, unassigned, order).value;
      forall c :: c in unassigned ==> (r.authorAgent[c], unassigned[c]) in r.newAgents
  {
    var r := Resolve(agentCodes, unassigned, order).value;
    forall c | c in unassigned ensures (r.authorAgent[c], unassigned[c]) in r.newAgents {
      var i := IndexOf(order, unassigned[c]);
      assert r.newAgents[i] == (r.authorAgent[c], unassigned[c]);
    }
  }

  /** Authors share an agent code exactly when they share a name. */
  lemma ResolveGroupsByName(agentCodes: seq<string>, unassigned: map<string, string>, order: seq<string>, c1: string, c2: string)
    requires Enumerates(order, unassigned.Values)
    requires Resolve(agentCodes, unassigned, order).Success?
    requires c1 in unassigned && c2 in unassigned
    ensures var r := Resolve(agentCodes, unassigned, order).value;
      r.authorAgent[c1] == r.authorAgent[c2] <==> unassigned[c1] == unassigned[c2]
  {
    var codes := Codes.CodeSequence(agentCodes, |order|).value;
    var n1, n2 := unassigned[c1], unassigned[c2];
    assert n1 in unassigned.Values && n2 in unassigned.Values;
    var i1, i2 := IndexOf(order, n1), IndexOf(order, n2);
    ResolveAgentOf(agentCodes, unassigned, order, c1);
    ResolveAgentOf(agentCodes, unassigned, order, c2);
    if n1 != n2 {
      Codes.CodeSequenceFresh(agentCodes, |order|);
      if i1 < i2 {
        assert codes[i1] != codes[i2];
      } else {
        assert codes[i2] != codes[i1];
      }
    }
  }

  /** The agent code of one author: the fresh code at its name's position. */
  lemma ResolveAgentOf(agentCodes: seq<string>, unassigned: map<string, string>, order: seq<string>, c: string)
    requires Enumerates(order, unassigned.Values)
    requires Resolve(agentCodes, unassigned, order).Success?
    requires c in unassigned
    ensures unassigned[c] in order
    ensures var r := Resolve(agentCodes, unassigned, order).value;
      c in r.authorAgent && r.authorAgent[c] == Codes.CodeSequence(agentCodes, |order|).value[IndexOf(order, unassigned[c])]
  {
    assert unassigned[c] in unassigned.Values;
  }

  /** The new agents have distinct codes, none of them already an agent
      code, and distinct names, which are exactly the unassigned names. */
  lemma ResolveNewAgents(agentCodes: seq<string>, unassigned: map<string, string>, order: seq<string>)
    requires Enumerates(order, unassigned.Values)
    requires Resolve(agentCodes, unassigned, order).Success?
    ensures var agents := Resolve(agentCodes, unassigned, order).value.newAgents;
      (forall i, j :: 0 <= i < j < |agents| ==> agents[i].0 != agents[j].0 && agents[i].1 != agents[j].1)
      && (forall i :: 0 <= i < |agents| ==> agents[i].0 !in agentCodes)
      && (forall name :: name in unassigned.Values <==> exists i :: 0 <= i < |agents| && agents[i].1 == name)
  {
    Codes.CodeSequenceFresh(agentCodes, |order|);
    var agents := Resolve(agentCodes, unassigned, order).value.newAgents;
    forall name | name in unassigned.Values ensures exists i :: 0 <= i < |agents| && agents[i].1 == name {
      assert agents[IndexOf(order, name)].1 == name;
    }
  }

  /** The whole of lines 918-963: reviewed matches from the workbook, the
      authors left without an agent, and their resolution. */
  function ResolveAuthors(agentCodes: seq<string>, rows: seq<AuthorPersonRow>, authors: seq<ManuscriptAuthor>, order: seq<string>): Result<Resolution, Codes.CodeError>
    requires Enumerates(order, UnassignedMap(Unassigned(authors, AssignedPairs(rows))).Values)
  {
    Resolve(agentCodes, UnassignedMap(Unassigned(authors, AssignedPairs(rows))), order)
  }

  /** An author code gets a new agent exactly when no reviewed row of the
      workbook gives it one. */
  lemma ResolveAuthorsCovers(agentCodes: seq<string>, rows: seq<AuthorPersonRow>, authors: seq<ManuscriptAuthor>, order: seq<string>, code: string)
    requires Enumerates(order, UnassignedMap(Unassigned(authors, AssignedPairs(rows))).Values)
    requires ResolveAuthors(agentCodes, rows, authors, order).Success?
    ensures code in ResolveAuthors(agentCodes, rows, authors, order).value.authorAgent <==>
      (exists i :: 0 <= i < |authors| && authors[i].code == code) && !HasAgent(AssignedPairs(rows), code)
  {
    var rest := Unassigned(authors, AssignedPairs(rows));
    ResolveCoversAuthors(agentCodes, UnassignedMap(rest), order);
    UnassignedMapKeys(rest);
    if exists i :: 0 <= i < |authors| && authors[i].code == code {
      var i :| 0 <= i < |authors| && authors[i].code == code;
      assert authors[i] in authors;
      if !HasAgent(AssignedPairs(rows), code) {
        assert authors[i] in rest;
        var k :| 0 <= k < |rest| && rest[k] == authors[i];
      }
    }
    if code in UnassignedMap(rest) {
      var k :| 0 <= k < |rest| && rest[k].code == code;
      assert rest[k] in rest;
      var i :| 0 <= i < |authors| && authors[i] == rest[k];
    }
  }
}
