/** Turning clients into agents in `resolve_agents` (mpcereform/core.py:
    1097-1228): the existing client-agent links, the new agents named by the
    `clients_without_person_codes` workbook, the choice of the clients that
    need a new agent, and the loop that turns each of them into an agent
    with its places and professions. */
module Agents {
  import opened Wrappers
  import opened Text
  import opened Workbook
  import Codes
  import Clients
  import Spreadsheet

  /** A row of the temporary `client_agent` table. */
  datatype Link = Link(client: string, agent: string)

  // ---------------------------------------------------------------------
  // Existing links (lines 1110-1118)

  /** `sc.partnership` for a client code, after the `LEFT JOIN` on
      `stn_client`: NULL when no STN client has the code. */
  function Partnership(stn: seq<Clients.StnClient>, code: string): (p: Option<bool>)
    ensures p.Some? ==> exists i :: 0 <= i < |stn| && stn[i].code == code && stn[i].partnership == p
    ensures (forall i :: 0 <= i < |stn| ==> stn[i].code != code) ==> p.None?
    decreases |stn|
  {
    if stn == [] then None
    else if stn[0].code == code then
      stn[0].partnership
    else
      var p := Partnership(stn[1..], code);
      assert forall i :: 0 <= i < |stn| - 1 ==> stn[1..][i] == stn[i + 1];
      p
  }

  /** With distinct client codes, the join finds the one STN client that
      carries the code. */
  lemma {:induction false} PartnershipOf(stn: seq<Clients.StnClient>, code: string)
    requires Clients.StnCodesDistinct(stn)
    ensures Partnership(stn, code) == Some(false) <==>
      exists i :: 0 <= i < |stn| && stn[i].code == code && stn[i].partnership == Some(false)
    decreases |stn|
  {
    if stn != [] && stn[0].code != code {
      PartnershipOf(stn[1..], code);
      assert forall i :: 0 <= i < |stn| - 1 ==> stn[1..][i] == stn[i + 1];
      if exists i :: 0 <= i < |stn| && stn[i].code == code && stn[i].partnership == Some(false) {
        var i :| 0 <= i < |stn| && stn[i].code == code && stn[i].partnership == Some(false);
        assert stn[1..][i - 1] == stn[i];
      }
    }
  }

  /** The `stn_client_agent` rows copied into `client_agent`: those whose
      client is known not to be a partnership (`IS FALSE` rejects NULL). */
  function InitialLinks(stnLinks: seq<Link>, stn: seq<Clients.StnClient>): (links: seq<Link>)
    decreases |stnLinks|
  {
    if stnLinks == [] then []
    else
      var last := stnLinks[|stnLinks| - 1];
      InitialLinks(stnLinks[..|stnLinks| - 1], stn) + if Partnership(stn, last.client) == Some(false) then [last] else []
  }

  /** A link is copied exactly when an STN client with its code exists and
      is marked as no partnership; links to partnerships and to unknown
      clients stay out. */
  lemma {:induction false} InitialLinksSpec(stnLinks: seq<Link>, stn: seq<Clients.StnClient>, link: Link)
    requires Clients.StnCodesDistinct(stn)
    ensures link in InitialLinks(stnLinks, stn) <==>
      link in stnLinks && exists i :: 0 <= i < |stn| && stn[i].code == link.client && stn[i].partnership == Some(false)
    decreases |stnLinks|
  {
    if stnLinks != [] {
      var init := stnLinks[..|stnLinks| - 1];
      InitialLinksSpec(init, stn, link);
      PartnershipOf(stn, stnLinks[|stnLinks| - 1].client);
      assert stnLinks == init + [stnLinks[|stnLinks| - 1]];
    }
  }

  // ---------------------------------------------------------------------
  // Clients without person codes (lines 1120-1155)

  /** The cells of a `clients_without_person_codes` row that the loop reads:
      client code, name, the "person" and "corporate" marks, and notes. */
  datatype UncodedRow = UncodedRow(clientCode: Cell, name: Cell, person: Cell, corporate: Cell, notes: Cell)

  /** An entry of `new_cl_ls`. */
  datatype NewClient = NewClient(clientCode: Cell, name: Cell, corporate: bool, notes: Cell)

  /** One row of the loop: a person if marked so, else a corporate entity
      if marked so, else skipped. */
  function Classify(row: UncodedRow): Option<NewClient> {
    if row.person == Text("Y") then Some(NewClient(row.clientCode, row.name, false, row.notes))
    else if row.corporate == Text("Y") then Some(NewClient(row.clientCode, row.name, true, row.notes))
    else None
  }

  /** A row is kept exactly when one of its marks is `'Y'`; it is a
      corporate entity exactly when it is not marked as a person; code, name
      and notes are carried over. */
  lemma ClassifyRules(row: UncodedRow)
    ensures Classify(row).Some? <==> row.person == Text("Y") || row.corporate == Text("Y")
    ensures Classify(row).Some? ==> (Classify(row).value.corporate <==> row.person != Text("Y"))
    ensures Classify(row).Some? ==>
      (Classify(row).value.clientCode == row.clientCode && Classify(row).value.name == row.name
       && Classify(row).value.notes == row.notes)
  {
  }

  /** `new_cl_ls`: the kept rows, classified, in workbook order. */
  function Classified(rows: seq<UncodedRow>): seq<NewClient>
    decreases |rows|
  {
    if rows == [] then []
    else
      var last := rows[|rows| - 1];
      Classified(rows[..|rows| - 1]) + match Classify(last) case Some(c) => [c] case None => []
  }

  /** The loop that fills `new_cl_ls`. */
  method ClassifyClients(rows: seq<UncodedRow>) returns (newClients: seq<NewClient>)
    ensures newClients == Classified(rows)
  {
    newClients := [];
    var i := 0;
    while i < |rows|
      invariant i <= |rows|
      invariant newClients == Classified(rows[..i])
    {
      assert rows[..i + 1][..i] == rows[..i];
      var row := rows[i];
      var corporate: bool;
      if row.person == Text("Y") {
        corporate := false;
      } else if row.corporate == Text("Y") {
        corporate := true;
      } else {
        i := i + 1;
        continue;
      }
      newClients := newClients + [NewClient(row.clientCode, row.name, corporate, row.notes)];
      i := i + 1;
    }
    assert rows[..i] == rows;
  }

  /** A new client comes from exactly one classified row, and every kept row
      gives one. */
  lemma {:induction false} ClassifiedSpec(rows: seq<UncodedRow>, c: NewClient)
    ensures c in Classified(rows) <==> exists i :: 0 <= i < |rows| && Classify(rows[i]) == Some(c)
    decreases |rows|
  {
    if rows != [] {
      var init := rows[..|rows| - 1];
      ClassifiedSpec(init, c);
      assert forall i :: 0 <= i < |init| ==> init[i] == rows[i];
    }
  }

  /** The `stn_client_agent` and `client_agent` rows for the new clients:
      the i-th classified client with the i-th fresh agent code. The client
      code column is NOT NULL, so every classified row carries a code. */
  function NewClientLinks(newClients: seq<NewClient>, codes: seq<string>): (links: seq<Link>)
    requires forall i :: 0 <= i < |newClients| ==> !newClients[i].clientCode.Blank?
    ensures |links| == if |newClients| <= |codes| then |newClients| else |codes|
    ensures forall i :: 0 <= i < |links| ==>
      Some(links[i].client) == SqlText(newClients[i].clientCode) && links[i].agent == codes[i]
  {
    var n := if |newClients| <= |codes| then |newClients| else |codes|;
    seq(n, i requires 0 <= i < n => Link(SqlText(newClients[i].clientCode).value, codes[i]))
  }

  /** With the codes the generator hands out for them, every new client is
      linked to its own agent, whose code no agent had before. */
  lemma NewClientLinksFresh(agentCodes: seq<string>, newClients: seq<NewClient>)
    requires forall i :: 0 <= i < |newClients| ==> !newClients[i].clientCode.Blank?
    requires Codes.CodeSequence(agentCodes, |newClients|).Success?
    ensures var links := NewClientLinks(newClients, Codes.CodeSequence(agentCodes, |newClients|).value);
      |links| == |newClients|
      && (forall i :: 0 <= i < |links| ==> links[i].agent !in agentCodes)
      && (forall i, j :: 0 <= i < j < |links| ==> links[i].agent != links[j].agent)
  {
    Codes.CodeSequenceNumerals(agentCodes, |newClients|);
    Codes.CodeSequenceFresh(agentCodes, |newClients|);
  }

  // ---------------------------------------------------------------------
  // Clients that need a new agent (lines 1157-1176)

  /** SQL `XOR`: NULL when either side is NULL. */
  function Xor(a: Option<bool>, b: Option<bool>): (r: Option<bool>)
    ensures r.Some? <==> a.Some? && b.Some?
    ensures r.Some? ==> (r.value <==> a.value != b.value)
  {
    if a.None? || b.None? then None else Some(a.value != b.value)
  }

  /** `ac.name NOT LIKE 'null'`: a NULL name fails, and the comparison
      ignores case. */
  predicate NamePasses(row: Clients.ClientRow) {
    row.name.Some? && Lower(row.name.value) != "null"
  }

  /** `a.corporate_entity` after the `LEFT JOIN` on `agent`. */
  function AgentCorporate(agents: map<string, Option<bool>>, code: string): Option<bool> {
    if code in agents then agents[code] else None
  }

  /** The client has no row in `client_agent`. */
  predicate Unlinked(links: seq<Link>, client: string) {
    forall k :: 0 <= k < |links| ==> links[k].client != client
  }

  /** The link joins the client to an agent known to be of the other kind. */
  predicate Mismatched(entry: Clients.Entry, link: Link, agents: map<string, Option<bool>>) {
    link.client == entry.code && Xor(entry.row.corporate, AgentCorporate(agents, link.agent)) == Some(true)
  }

  /** The joined rows of one client that pass the `WHERE`: one per link to
      an agent of the other kind. */
  function MismatchedRows(entry: Clients.Entry, links: seq<Link>, agents: map<string, Option<bool>>): seq<Clients.Entry>
    decreases |links|
  {
    if links == [] then []
    else
      var last := links[|links| - 1];
      MismatchedRows(entry, links[..|links| - 1], agents) + if Mismatched(entry, last, agents) then [entry] else []
  }

  /** The positions of the links that join the client to an agent of the
      other kind. */
  function MismatchedLinks(entry: Clients.Entry, links: seq<Link>, agents: map<string, Option<bool>>): set<nat> {
    set k: nat | k < |links| && Mismatched(entry, links[k], agents)
  }

  /** The rows the query returns for one client of `all_clients`. */
  function ClientSelection(entry: Clients.Entry, links: seq<Link>, agents: map<string, Option<bool>>): seq<Clients.Entry> {
    if !NamePasses(entry.row) then []
    else if Unlinked(links, entry.code) then [entry]
    else MismatchedRows(entry, links, agents)
  }

  /** `new_agents`: the query's rows, client by client in the order the
      table is scanned, and for each client in the order of its links. */
  function Selected(clients: seq<Clients.Entry>, links: seq<Link>, agents: map<string, Option<bool>>): seq<Clients.Entry>
    decreases |clients|
  {
    if clients == [] then []
    else Selected(clients[..|clients| - 1], links, agents) + ClientSelection(clients[|clients| - 1], links, agents)
  }

  /** The joined rows of a client are copies of it, one per mismatched link. */
  lemma {:induction false} MismatchedRowsSpec(entry: Clients.Entry, links: seq<Link>, agents: map<string, Option<bool>>)
    ensures forall e :: e in MismatchedRows(entry, links, agents) ==> e == entry
    ensures MismatchedRows(entry, links, agents) != [] <==> exists k :: 0 <= k < |links| && Mismatched(entry, links[k], agents)
    decreases |links|
  {
    if links != [] {
      var init := links[..|links| - 1];
      MismatchedRowsSpec(entry, init, agents);
      assert forall k :: 0 <= k < |init| ==> init[k] == links[k];
    }
  }

  /** Dropping the last link drops its position, if any, from the
      mismatched ones. */
  lemma MismatchedLinksStep(entry: Clients.Entry, links: seq<Link>, agents: map<string, Option<bool>>)
    requires links != []
    ensures var n := |links| - 1;
      |MismatchedLinks(entry, links, agents)| ==
        |MismatchedLinks(entry, links[..n], agents)| + if Mismatched(entry, links[n], agents) then 1 else 0
  {
    var n := |links| - 1;
    var before := MismatchedLinks(entry, links[..n], agents);
    var added: set<nat> := if Mismatched(entry, links[n], agents) then {n} else {};
    assert MismatchedLinks(entry, links, agents) == before + added;
    assert n !in before;
  }

  /** There are as many joined rows as mismatched links. */
  lemma {:induction false} MismatchedRowsCount(entry: Clients.Entry, links: seq<Link>, agents: map<string, Option<bool>>)
    ensures |MismatchedRows(entry, links, agents)| == |MismatchedLinks(entry, links, agents)|
    decreases |links|
  {
    if links != [] {
      MismatchedRowsCount(entry, links[..|links| - 1], agents);
      MismatchedLinksStep(entry, links, agents);
    }
  }

  /** All copies of one value: the multiset counts it once per element. */
  lemma {:induction false} CopiesCount(r: seq<Clients.Entry>, x: Clients.Entry)
    requires forall e :: e in r ==> e == x
    ensures multiset(r) == multiset{}[x := |r|]
    decreases |r|
  {
    if r != [] {
      var init := r[..|r| - 1];
      assert r[|r| - 1] in r;
      assert forall e :: e in init ==> e in r;
      CopiesCount(init, x);
      assert r == init + [x];
    }
  }

  /** How many rows the query returns for one client: none when its name is
      `'null'`, one when it has no link, otherwise one per mismatched link. */
  function SelectionCount(entry: Clients.Entry, links: seq<Link>, agents: map<string, Option<bool>>): nat {
    if !NamePasses(entry.row) then 0
    else if Unlinked(links, entry.code) then 1
    else |MismatchedLinks(entry, links, agents)|
  }

  /** The rows for one client are `SelectionCount` copies of it. */
  lemma ClientSelectionCount(entry: Clients.Entry, links: seq<Link>, agents: map<string, Option<bool>>, e: Clients.Entry)
    ensures multiset(ClientSelection(entry, links, agents))[e] == if e == entry then SelectionCount(entry, links, agents) else 0
  {
    var r := ClientSelection(entry, links, agents);
    MismatchedRowsSpec(entry, links, agents);
    MismatchedRowsCount(entry, links, agents);
    CopiesCount(r, entry);
  }

  /** The rows for one client are copies of it, and there are some exactly
      when the `WHERE` lets one of its joined rows through. */
  lemma ClientSelectionSpec(entry: Clients.Entry, links: seq<Link>, agents: map<string, Option<bool>>, e: Clients.Entry)
    ensures e in ClientSelection(entry, links, agents) <==>
      e == entry && NamePasses(entry.row)
      && (Unlinked(links, entry.code) || exists k :: 0 <= k < |links| && Mismatched(entry, links[k], agents))
  {
    MismatchedRowsSpec(entry, links, agents);
    if NamePasses(entry.row) && !Unlinked(links, entry.code) && e == entry
      && exists k :: 0 <= k < |links| && Mismatched(entry, links[k], agents) {
      var r := MismatchedRows(entry, links, agents);
      assert r[0] in r;
    }
  }

  /** A client of `all_clients` is chosen for a new agent exactly when its
      name is not `'null'` and it either has no agent yet or is linked to an
      agent of the other kind. A client whose every agent is of its own kind,
      or of unknown kind, is not chosen. */
  lemma {:induction false} SelectedSpec(clients: seq<Clients.Entry>, links: seq<Link>, agents: map<string, Option<bool>>, e: Clients.Entry)
    ensures e in Selected(clients, links, agents) <==>
      e in clients && NamePasses(e.row)
      && (Unlinked(links, e.code) || exists k :: 0 <= k < |links| && Mismatched(e, links[k], agents))
    decreases |clients|
  {
    if clients != [] {
      var init := clients[..|clients| - 1];
      var last := clients[|clients| - 1];
      SelectedSpec(init, links, agents, e);
      ClientSelectionSpec(last, links, agents, e);
      assert clients == init + [last];
    }
  }

  /** `num_new_codes`: each client of `all_clients` comes back
      `SelectionCount` times, so one new code is drawn for every client
      without an agent and for every mismatched link of the others. */
  lemma {:induction false} SelectedCount(clients: seq<Clients.Entry>, links: seq<Link>, agents: map<string, Option<bool>>, e: Clients.Entry)
    ensures multiset(Selected(clients, links, agents))[e] == multiset(clients)[e] * SelectionCount(e, links, agents)
    decreases |clients|
  {
    if clients != [] {
      var init := clients[..|clients| - 1];
      var last := clients[|clients| - 1];
      var n := multiset(init)[e];
      var c := SelectionCount(e, links, agents);
      SelectedStep(clients, links, agents, e);
      SelectedCount(init, links, agents, e);
      ClientSelectionCount(last, links, agents, e);
      if last == e {
        MulStep(n, c);
      }
    }
  }

  /** One more client adds its own rows and its one occurrence. */
  lemma SelectedStep(clients: seq<Clients.Entry>, links: seq<Link>, agents: map<string, Option<bool>>, e: Clients.Entry)
    requires clients != []
    ensures var init := clients[..|clients| - 1];
      var last := clients[|clients| - 1];
      && multiset(Selected(clients, links, agents))[e] ==
           multiset(Selected(init, links, agents))[e] + multiset(ClientSelection(last, links, agents))[e]
      && multiset(clients)[e] == multiset(init)[e] + if last == e then 1 else 0
  {
    var init := clients[..|clients| - 1];
    var last := clients[|clients| - 1];
    assert Selected(clients, links, agents) == Selected(init, links, agents) + ClientSelection(last, links, agents);
    assert clients == init + [last];
  }

  lemma MulStep(n: nat, c: nat)
    ensures (n + 1) * c == n * c + c
  {
  }

  // ---------------------------------------------------------------------
  // Gender (lines 1195-1203)

  /** The gender and corporate flag of a new agent: "mixed..." makes a
      corporate entity without gender, "m..." and "f..." become `'M'` and
      `'F'`, anything else stays as it is. */
  function NormaliseGender(gender: Option<string>, corporate: Option<bool>): (Option<string>, Option<bool>) {
    if gender.None? then (gender, corporate)
    else if StartsWith(Lower(gender.value), "mixed") then (None, Some(true))
    else if StartsWith(Lower(gender.value), "m") then (Some("M"), corporate)
    else if StartsWith(Lower(gender.value), "f") then (Some("F"), corporate)
    else (gender, corporate)
  }

  /** The rules, case by case; the corporate flag changes only for "mixed". */
  lemma NormaliseGenderRules(gender: Option<string>, corporate: Option<bool>)
    ensures var (g, c) := NormaliseGender(gender, corporate);
      (c != corporate ==> gender.Some? && StartsWith(Lower(gender.value), "mixed"))
      && (g.Some? && g != gender ==> g == Some("M") || g == Some("F"))
      && (gender.Some? && StartsWith(Lower(gender.value), "mixed") ==> g.None? && c == Some(true))
      && (gender.Some? && !StartsWith(Lower(gender.value), "mixed") && StartsWith(Lower(gender.value), "m")
          ==> g == Some("M") && c == corporate)
      && (gender.Some? && !StartsWith(Lower(gender.value), "m") && StartsWith(Lower(gender.value), "f")
          ==> g == Some("F") && c == corporate)
      && (gender.Some? && !StartsWith(Lower(gender.value), "m") && !StartsWith(Lower(gender.value), "f") ==> g == gender && c == corporate)
      && (gender.None? ==> g.None? && c == corporate)
  {
  }

  /** Normalising twice changes nothing more. */
  lemma NormaliseGenderIdempotent(gender: Option<string>, corporate: Option<bool>)
    ensures var (g, c) := NormaliseGender(gender, corporate); NormaliseGender(g, c) == (g, c)
  {
    var (g, c) := NormaliseGender(gender, corporate);
    if g == Some("M") {
      assert Lower("M") == "m";
      assert !StartsWith(Lower("M"), "mixed");
    } else if g == Some("F") {
      assert Lower("F") == "f";
    }
  }

  // ---------------------------------------------------------------------
  // `re.split(r',\s*|;\s*', s)`

  predicate IsDelimiter(c: char) { c == ',' || c == ';' }

  /** The first `,` or `;` of `s` from position `p`, or `|s|`. */
  function NextDelimiter(s: string, p: nat): (i: nat)
    requires p <= |s|
    ensures p <= i <= |s| && (i < |s| ==> IsDelimiter(s[i]))
    ensures forall j :: p <= j < i ==> !IsDelimiter(s[j])
    decreases |s| - p
  {
    if p == |s| || IsDelimiter(s[p]) then p else NextDelimiter(s, p + 1)
  }

  /** Where a match starting with the delimiter at `i` ends: after the
      delimiter and all the whitespace that follows it. */
  function MatchEnd(s: string, i: nat): (j: nat)
    requires i < |s|
    ensures i < j <= |s|
    ensures forall k :: i < k < j ==> IsSpace(s[k])
    ensures j == |s| || !IsSpace(s[j])
  {
    i + 1 + SpaceRun(s, i + 1)
  }

  /** The pieces between the matches of `,\s*|;\s*`. */
  function SplitList(s: string): (pieces: seq<string>)
    ensures |pieces| >= 1
    decreases |s|
  {
    var i := NextDelimiter(s, 0);
    if i == |s| then [s]
    else [s[..i]] + SplitList(s[MatchEnd(s, i)..])
  }

  /** The text of each match, in order. */
  function Separators(s: string): (seps: seq<string>)
    ensures |seps| + 1 == |SplitList(s)|
    decreases |s|
  {
    var i := NextDelimiter(s, 0);
    if i == |s| then []
    else [s[i..MatchEnd(s, i)]] + Separators(s[MatchEnd(s, i)..])
  }

  /** A match: a delimiter followed by whitespace only. */
  predicate IsSeparator(sep: string) {
    |sep| >= 1 && IsDelimiter(sep[0]) && forall k :: 1 <= k < |sep| ==> IsSpace(sep[k])
  }

  /** Pieces and separators, interleaved. */
  function Interleave(pieces: seq<string>, seps: seq<string>): string
    requires |pieces| == |seps| + 1
    decreases |seps|
  {
    if seps == [] then pieces[0] else pieces[0] + seps[0] + Interleave(pieces[1..], seps[1..])
  }

  /** One step of the split: the piece before the first match, the match,
      and the split of what follows it. */
  lemma SplitStep(s: string)
    requires NextDelimiter(s, 0) < |s|
    ensures var i := NextDelimiter(s, 0); var j := MatchEnd(s, i);
      SplitList(s)[0] == s[..i] && SplitList(s)[1..] == SplitList(s[j..])
      && Separators(s)[0] == s[i..j] && Separators(s)[1..] == Separators(s[j..])
  {
    var i := NextDelimiter(s, 0);
    var j := MatchEnd(s, i);
    assert SplitList(s) == [s[..i]] + SplitList(s[j..]);
    assert Separators(s) == [s[i..j]] + Separators(s[j..]);
  }

  /** Every match the split consumed is a delimiter and whitespace. */
  lemma {:induction false} SeparatorsShape(s: string)
    ensures forall k :: 0 <= k < |Separators(s)| ==> IsSeparator(Separators(s)[k])
    decreases |s|
  {
    var i := NextDelimiter(s, 0);
    if i < |s| {
      var j := MatchEnd(s, i);
      SeparatorsShape(s[j..]);
      SplitStep(s);
      var seps, tail := Separators(s), Separators(s[j..]);
      assert IsSeparator(s[i..j]);
      forall k | 0 <= k < |seps| ensures IsSeparator(seps[k]) {
        if k > 0 {
          assert seps[k] == tail[k - 1];
        }
      }
    }
  }

  /** The split loses nothing and reorders nothing: putting the matches back
      between the pieces gives the original string. */
  lemma {:induction false} SplitListRejoin(s: string)
    ensures Interleave(SplitList(s), Separators(s)) == s
    decreases |s|
  {
    var i := NextDelimiter(s, 0);
    if i < |s| {
      var j := MatchEnd(s, i);
      var head, sep, rest := s[..i], s[i..j], s[j..];
      assert s == head + sep + rest;
      SplitListRejoin(rest);
      SplitStep(s);
      assert Interleave(SplitList(s), Separators(s)) == head + sep + Interleave(SplitList(rest), Separators(rest));
    }
  }

  /** No piece holds a comma or a semicolon. */
  lemma {:induction false} SplitListClean(s: string)
    ensures var pieces := SplitList(s);
      forall k, j :: 0 <= k < |pieces| && 0 <= j < |pieces[k]| ==> !IsDelimiter(pieces[k][j])
    decreases |s|
  {
    var i := NextDelimiter(s, 0);
    if i < |s| {
      var rest := s[MatchEnd(s, i)..];
      SplitListClean(rest);
      SplitStep(s);
      var pieces, tail := SplitList(s), SplitList(rest);
      forall k, m | 0 <= k < |pieces| && 0 <= m < |pieces[k]| ensures !IsDelimiter(pieces[k][m]) {
        if k == 0 {
          assert pieces[0][m] == s[m];
        } else {
          assert pieces[k] == tail[k - 1];
        }
      }
    }
  }

  /** The first piece is a prefix of the string. */
  lemma SplitListHead(s: string)
    ensures SplitList(s)[0] <= s
  {
  }

  /** Every piece but the first starts with something other than
      whitespace (or is empty): the match swallowed the whitespace. */
  lemma {:induction false} SplitListNoLeadingSpace(s: string)
    ensures var pieces := SplitList(s);
      forall k :: 1 <= k < |pieces| && pieces[k] != [] ==> !IsSpace(pieces[k][0])
    decreases |s|
  {
    var i := NextDelimiter(s, 0);
    if i < |s| {
      var j := MatchEnd(s, i);
      var rest := s[j..];
      SplitListNoLeadingSpace(rest);
      SplitStep(s);
      var pieces, tail := SplitList(s), SplitList(rest);
      forall k | 1 <= k < |pieces| && pieces[k] != [] ensures !IsSpace(pieces[k][0]) {
        assert pieces[k] == tail[k - 1];
        if k == 1 {
          SplitListHead(rest);
          assert tail[0][0] == rest[0] == s[j];
        }
      }
    }
  }

  /** A match adds exactly one comma or semicolon to the count. */
  lemma {:induction false} MatchCount(s: string, i: nat, c: char)
    requires i < |s| && NextDelimiter(s, 0) == i && IsDelimiter(c)
    ensures Count(s, c) == (if s[i] == c then 1 else 0) + Count(s[MatchEnd(s, i)..], c)
  {
    var j := MatchEnd(s, i);
    CountSkip(s, i, c);
    CountHead(s[i..], c);
    assert s[i..][1..] == s[i + 1..];
    CountSkip(s[i + 1..], j - (i + 1), c);
    assert s[i + 1..][j - (i + 1)..] == s[j..];
  }

  /** Skipping a stretch without `c` leaves the count of `c` as it is. */
  lemma {:induction false} CountSkip(s: string, k: nat, c: char)
    requires k <= |s| && forall j :: 0 <= j < k ==> s[j] != c
    ensures Count(s, c) == Count(s[k..], c)
  {
    assert s == s[..k] + s[k..];
    CountAppend(s[..k], s[k..], c);
    CountAbsent(s[..k], c);
  }

  /** The first character counts once if it is `c`. */
  lemma CountHead(s: string, c: char)
    requires s != []
    ensures Count(s, c) == (if s[0] == c then 1 else 0) + Count(s[1..], c)
  {
  }

  /** There is one piece more than there are commas and semicolons. */
  lemma {:induction false} SplitListCount(s: string)
    ensures |SplitList(s)| == Count(s, ',') + Count(s, ';') + 1
    decreases |s|
  {
    var i := NextDelimiter(s, 0);
    if i == |s| {
      CountAbsent(s, ',');
      CountAbsent(s, ';');
    } else {
      var rest := s[MatchEnd(s, i)..];
      SplitListCount(rest);
      MatchCount(s, i, ',');
      MatchCount(s, i, ';');
    }
  }

  /** A list without a comma or semicolon is a single piece. */
  lemma SplitListSingle(s: string)
    requires forall j :: 0 <= j < |s| ==> !IsDelimiter(s[j])
    ensures SplitList(s) == [s]
  {
  }

  // ---------------------------------------------------------------------
  // The synthesis loop (lines 1187-1218)

  /** A row of `processed_agents`: agent code, name, other names, sex,
      corporate flag and title. */
  datatype ProcessedAgent = ProcessedAgent(
    code: string, name: Option<string>, otherNames: Option<string>,
    sex: Option<string>, corporate: Option<bool>, title: Option<string>)

  /** The processed agent for one client and its code. */
  function Process(client: Clients.Entry, code: string): (a: ProcessedAgent)
    ensures a.code == code && a.name == client.row.name && a.otherNames == client.row.altName && a.title == client.row.title
    ensures (a.sex, a.corporate) == NormaliseGender(client.row.gender, client.row.corporate)
  {
    var (sex, corporate) := NormaliseGender(client.row.gender, client.row.corporate);
    ProcessedAgent(code, client.row.name, client.row.altName, sex, corporate, client.row.title)
  }

  /** `(agent_code, piece)` for every piece of a NULL-able list. */
  function Tagged(code: string, list: Option<string>): (pairs: seq<(string, string)>)
    ensures list.None? ==> pairs == []
    ensures list.Some? ==>
      (|pairs| == |SplitList(list.value)| && forall k :: 0 <= k < |pairs| ==> pairs[k] == (code, SplitList(list.value)[k]))
  {
    if list.None? then []
    else
      var pieces := SplitList(list.value);
      seq(|pieces|, k requires 0 <= k < |pieces| => (code, pieces[k]))
  }

  /** The two lists a client carries. */
  datatype Column = Places | Professions

  function ListOf(row: Clients.ClientRow, column: Column): Option<string> {
    match column
    case Places => row.placeCodes
    case Professions => row.profCodes
  }

  /** `processed_agents` for the zipped clients and codes. */
  function ProcessedAll(pairs: seq<(Clients.Entry, string)>): (agents: seq<ProcessedAgent>)
    ensures |agents| == |pairs|
    ensures forall i :: 0 <= i < |pairs| ==> agents[i] == Process(pairs[i].0, pairs[i].1)
  {
    seq(|pairs|, i requires 0 <= i < |pairs| => Process(pairs[i].0, pairs[i].1))
  }

  /** `new_place_assigns` or `new_prof_assigns` for the zipped clients and
      codes, in order. */
  function Assigns(pairs: seq<(Clients.Entry, string)>, column: Column): seq<(string, string)>
    decreases |pairs|
  {
    if pairs == [] then []
    else
      var last := pairs[|pairs| - 1];
      Assigns(pairs[..|pairs| - 1], column) + Tagged(last.1, ListOf(last.0.row, column))
  }

  /** Appends `(code, piece)` for each piece, one at a time. */
  method AppendTagged(acc: seq<(string, string)>, code: string, list: Option<string>) returns (r: seq<(string, string)>)
    ensures r == acc + Tagged(code, list)
  {
    r := acc;
    if list.Some? {
      var pieces := SplitList(list.value);
      var k := 0;
      while k < |pieces|
        invariant k <= |pieces|
        invariant r == acc + Tagged(code, list)[..k]
      {
        r := r + [(code, pieces[k])];
        k := k + 1;
      }
    }
  }

  /** One more client extends each list by what that client gives. */
  lemma SynthesisStep(pairs: seq<(Clients.Entry, string)>, i: nat)
    requires i < |pairs|
    ensures ProcessedAll(pairs[..i + 1]) == ProcessedAll(pairs[..i]) + [Process(pairs[i].0, pairs[i].1)]
    ensures forall column :: Assigns(pairs[..i + 1], column) == Assigns(pairs[..i], column) + Tagged(pairs[i].1, ListOf(pairs[i].0.row, column))
  {
    assert pairs[..i + 1][..i] == pairs[..i];
  }

  /** The loop over `zip(new_agents, code_list)`. */
  method Synthesise(newAgents: seq<Clients.Entry>, codes: seq<string>)
    returns (processed: seq<ProcessedAgent>, places: seq<(string, string)>, professions: seq<(string, string)>)
    ensures var pairs := Spreadsheet.Zip(newAgents, codes);
      processed == ProcessedAll(pairs) && places == Assigns(pairs, Places) && professions == Assigns(pairs, Professions)
  {
    var pairs := Spreadsheet.Zip(newAgents, codes);
    processed, places, professions := [], [], [];
    var i := 0;
    while i < |pairs|
      invariant i <= |pairs|
      invariant processed == ProcessedAll(pairs[..i])
      invariant places == Assigns(pairs[..i], Places)
      invariant professions == Assigns(pairs[..i], Professions)
    {
      SynthesisStep(pairs, i);
      var (client, code) := pairs[i];
      places := AppendTagged(places, code, client.row.placeCodes);
      professions := AppendTagged(professions, code, client.row.profCodes);
      processed := processed + [Process(client, code)];
      i := i + 1;
    }
    assert pairs[..i] == pairs;
  }

  /** The assignment pairs the client's agent code with a piece of its list. */
  predicate FromClient(pair: (Clients.Entry, string), column: Column, a: (string, string)) {
    a.0 == pair.1 && ListOf(pair.0.row, column).Some? && a.1 in SplitList(ListOf(pair.0.row, column).value)
  }

  /** Every assignment pairs one client's agent code with one piece of that
      client's list, and no piece holds a comma or a semicolon. */
  lemma {:induction false} AssignsSpec(pairs: seq<(Clients.Entry, string)>, column: Column, a: (string, string))
    requires a in Assigns(pairs, column)
    ensures exists i :: 0 <= i < |pairs| && FromClient(pairs[i], column, a)
    ensures forall j :: 0 <= j < |a.1| ==> !IsDelimiter(a.1[j])
    decreases |pairs|
  {
    var init := pairs[..|pairs| - 1];
    var last := pairs[|pairs| - 1];
    if a in Assigns(init, column) {
      AssignsSpec(init, column, a);
      var i :| 0 <= i < |init| && FromClient(init[i], column, a);
      assert init[i] == pairs[i];
    } else {
      var tagged := Tagged(last.1, ListOf(last.0.row, column));
      assert a in tagged;
      var k :| 0 <= k < |tagged| && tagged[k] == a;
      var list := ListOf(last.0.row, column).value;
      assert a.1 == SplitList(list)[k];
      SplitListClean(list);
      assert FromClient(pairs[|pairs| - 1], column, a);
    }
  }

  /** Each client's pieces come in the order of its list, right after those
      of the clients before it. */
  lemma AssignsAppend(pairs: seq<(Clients.Entry, string)>, client: Clients.Entry, code: string, column: Column)
    ensures Assigns(pairs + [(client, code)], column) == Assigns(pairs, column) + Tagged(code, ListOf(client.row, column))
  {
    assert (pairs + [(client, code)])[..|pairs|] == pairs;
  }

  // ---------------------------------------------------------------------
  // New codes for the chosen clients (lines 1177-1185)

  /** The `client_agent` rows added for the chosen clients: each with the
      code handed out at its position. */
  function ChosenLinks(chosen: seq<Clients.Entry>, codes: seq<string>): (links: seq<Link>)
    ensures |links| == if |chosen| <= |codes| then |chosen| else |codes|
    ensures forall i :: 0 <= i < |links| ==> links[i] == Link(chosen[i].code, codes[i])
  {
    var pairs := Spreadsheet.Zip(chosen, codes);
    seq(|pairs|, i requires 0 <= i < |pairs| => Link(pairs[i].0.code, pairs[i].1))
  }

  /** With the generator's codes, every chosen row gets one link and one
      processed agent, each with a code that is new and used once. */
  lemma ChosenAgentsFresh(agentCodes: seq<string>, chosen: seq<Clients.Entry>)
    requires Codes.CodeSequence(agentCodes, |chosen|).Success?
    ensures var codes := Codes.CodeSequence(agentCodes, |chosen|).value;
      var links := ChosenLinks(chosen, codes);
      var agents := ProcessedAll(Spreadsheet.Zip(chosen, codes));
      |links| == |chosen| && |agents| == |chosen|
      && (forall i :: 0 <= i < |chosen| ==> links[i].client == chosen[i].code && agents[i].code == links[i].agent)
      && (forall i :: 0 <= i < |chosen| ==> links[i].agent !in agentCodes)
      && (forall i, j :: 0 <= i < j < |chosen| ==> links[i].agent != links[j].agent)
  {
    Codes.CodeSequenceNumerals(agentCodes, |chosen|);
    Codes.CodeSequenceFresh(agentCodes, |chosen|);
  }
}
