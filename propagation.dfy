/** The last steps of `resolve_agents` (mpcereform/core.py:1230-1407): the
    filter on new addresses, the merge of client notes into agent notes, and
    the rewriting of client codes into agent codes throughout the
    database. */
module Propagation {
  import opened Wrappers
  import Agents

  // ---------------------------------------------------------------------
  // New addresses (lines 1245-1247)

  /** `[a for a in new_place_assigns if a not in existing_addresses]`. */
  function NewAddresses(assigns: seq<(string, string)>, existing: set<(string, string)>): seq<(string, string)>
    decreases |assigns|
  {
    if assigns == [] then []
    else
      var last := assigns[|assigns| - 1];
      NewAddresses(assigns[..|assigns| - 1], existing) + if last in existing then [] else [last]
  }

  /** A pair survives exactly when it is new, and as often as it was
      offered: duplicates inside the new list are kept. */
  lemma {:induction false} NewAddressesSpec(assigns: seq<(string, string)>, existing: set<(string, string)>)
    ensures forall a :: a in NewAddresses(assigns, existing) <==> a in assigns && a !in existing
    ensures forall a :: multiset(NewAddresses(assigns, existing))[a] == if a in existing then 0 else multiset(assigns)[a]
    decreases |assigns|
  {
    if assigns != [] {
      var init := assigns[..|assigns| - 1];
      var last := assigns[|assigns| - 1];
      NewAddressesSpec(init, existing);
      assert assigns == init + [last];
    }
  }

  /** The filter keeps the order: filtering a concatenation is the
      concatenation of the filtered parts. */
  lemma {:induction false} NewAddressesAppend(a: seq<(string, string)>, b: seq<(string, string)>, existing: set<(string, string)>)
    ensures NewAddresses(a + b, existing) == NewAddresses(a, existing) + NewAddresses(b, existing)
    decreases |b|
  {
    if b == [] {
      assert a + b == a;
    } else {
      var init := b[..|b| - 1];
      NewAddressesAppend(a, init, existing);
      assert (a + b)[..|a + b| - 1] == a + init;
    }
  }

  // ---------------------------------------------------------------------
  // Notes (lines 1263-1268)

  /** MySQL `TRIM(s)`: leading and trailing spaces removed (spaces only,
      not other whitespace). */
  function TrimSpaces(s: string): (r: string)
    ensures |r| <= |s|
    ensures r != [] ==> r[0] != ' ' && r[|r| - 1] != ' '
    ensures (s == [] || (s[0] != ' ' && s[|s| - 1] != ' ')) ==> r == s
    decreases |s|
  {
    if s == [] then s
    else if s[0] == ' ' then TrimSpaces(s[1..])
    else if s[|s| - 1] == ' ' then TrimSpaces(s[..|s| - 1])
    else s
  }

  /** `r` is `s` with a run of `i` spaces taken off the front and a run of
      spaces taken off the back. */
  ghost predicate SpacesAround(s: string, i: nat, r: string) {
    && i + |r| <= |s| && s[i..i + |r|] == r
    && (forall k :: 0 <= k < i ==> s[k] == ' ')
    && (forall k :: i + |r| <= k < |s| ==> s[k] == ' ')
  }

  /** A space in front extends the leading run. */
  lemma SpacesAroundFront(s: string, i: nat, r: string)
    requires s != [] && s[0] == ' ' && SpacesAround(s[1..], i, r)
    ensures SpacesAround(s, i + 1, r)
  {
    assert s[i + 1..i + 1 + |r|] == s[1..][i..i + |r|];
    assert forall k :: 1 <= k < |s| ==> s[k] == s[1..][k - 1];
  }

  /** A space behind extends the trailing run. */
  lemma SpacesAroundBack(s: string, i: nat, r: string)
    requires s != [] && s[|s| - 1] == ' ' && SpacesAround(s[..|s| - 1], i, r)
    ensures SpacesAround(s, i, r)
  {
    var t := s[..|s| - 1];
    assert s[i..i + |r|] == t[i..i + |r|];
    assert forall k :: 0 <= k < |t| ==> s[k] == t[k];
  }

  /** `TRIM` removes only spaces, and only at the ends. */
  lemma {:induction false} TrimSpacesSpec(s: string)
    ensures exists i: nat :: SpacesAround(s, i, TrimSpaces(s))
    decreases |s|
  {
    var r := TrimSpaces(s);
    if s == [] {
      assert SpacesAround(s, 0, r);
    } else if s[0] == ' ' {
      TrimSpacesSpec(s[1..]);
      var i: nat :| SpacesAround(s[1..], i, r);
      SpacesAroundFront(s, i, r);
    } else if s[|s| - 1] == ' ' {
      TrimSpacesSpec(s[..|s| - 1]);
      var i: nat :| SpacesAround(s[..|s| - 1], i, r);
      SpacesAroundBack(s, i, r);
    } else {
      assert s[0..|s|] == r;
      assert SpacesAround(s, 0, r);
    }
  }

  /** `IFNULL(notes, '')`. */
  function IfNull(notes: Option<string>): string {
    if notes.Some? then notes.value else ""
  }

  /** `TRIM(CONCAT(IFNULL(a.notes, ''), ' ', ac.notes))` as written: a
      client without notes makes the agent's notes NULL. */
  function MergeNotesAsWritten(agentNotes: Option<string>, clientNotes: Option<string>): (r: Option<string>)
    ensures r.Some? <==> clientNotes.Some?
    ensures r.Some? ==> exists i: nat :: SpacesAround(IfNull(agentNotes) + " " + clientNotes.value, i, r.value)
    ensures r.Some? && r.value != [] ==> r.value[0] != ' ' && r.value[|r.value| - 1] != ' '
  {
    if clientNotes.None? then None
    else
      TrimSpacesSpec(IfNull(agentNotes) + " " + clientNotes.value);
      Some(TrimSpaces(IfNull(agentNotes) + " " + clientNotes.value))
  }

  /** An agent without notes, the case of every agent inserted by the
      synthesis loop (lines 1219-1225), takes the client's notes trimmed. */
  lemma MergeNotesAsWrittenNoAgentNotes(c: string)
    ensures MergeNotesAsWritten(None, Some(c)) == Some(TrimSpaces(c))
  {
    assert ("" + " " + c)[1..] == c;
  }

  /** The update as written erases the notes of an agent whose client has
      none. */
  lemma MergeNotesAsWrittenErases()
    ensures MergeNotesAsWritten(Some("Libraire"), None) == None
  {
  }

  /** The evidently intended merge: the client's notes are appended when it
      has some, and the agent's notes are left alone otherwise. */
  function MergeNotes(agentNotes: Option<string>, clientNotes: Option<string>): (r: Option<string>)
    ensures clientNotes.Some? ==> r == MergeNotesAsWritten(agentNotes, clientNotes)
  {
    if clientNotes.None? then agentNotes
    else MergeNotesAsWritten(agentNotes, clientNotes)
  }

  /** The intended merge loses no notes: an agent without new notes keeps
      its own, and an agent with notes keeps having notes. */
  lemma MergeNotesKeeps(agentNotes: Option<string>, clientNotes: Option<string>)
    ensures clientNotes.None? ==> MergeNotes(agentNotes, clientNotes) == agentNotes
    ensures agentNotes.Some? || clientNotes.Some? ==> MergeNotes(agentNotes, clientNotes).Some?
  {
  }

  /** Two notes without stray spaces at their outer ends are joined by one
      space. */
  lemma MergeNotesJoins(a: string, c: string)
    requires a != [] && a[0] != ' ' && c != [] && c[|c| - 1] != ' '
    ensures MergeNotes(Some(a), Some(c)) == Some(a + " " + c)
  {
    var s := a + " " + c;
    assert s[0] == a[0] && s[|s| - 1] == c[|c| - 1];
  }

  /** The agent notes after the update as written: each agent linked to a
      client of `all_clients` takes `MergeNotesAsWritten` of its notes and
      that client's; the others keep theirs. */
  function UpdatedNotesAsWritten(notes: map<string, Option<string>>, clientOf: map<string, string>, clientNotes: map<string, Option<string>>): map<string, Option<string>> {
    map a | a in notes ::
      if a in clientOf && clientOf[a] in clientNotes then MergeNotesAsWritten(notes[a], clientNotes[clientOf[a]]) else notes[a]
  }

  /** The update as written changes no agent outside the join, and leaves
      NULL notes on every joined agent whose client has NULL notes, whatever
      the agent had before. */
  lemma UpdatedNotesAsWrittenSpec(notes: map<string, Option<string>>, clientOf: map<string, string>, clientNotes: map<string, Option<string>>, a: string)
    requires a in notes
    ensures UpdatedNotesAsWritten(notes, clientOf, clientNotes).Keys == notes.Keys
    ensures !(a in clientOf && clientOf[a] in clientNotes) ==> UpdatedNotesAsWritten(notes, clientOf, clientNotes)[a] == notes[a]
    ensures a in clientOf && clientOf[a] in clientNotes && clientNotes[clientOf[a]].None? ==>
              UpdatedNotesAsWritten(notes, clientOf, clientNotes)[a].None?
    ensures a in clientOf && clientOf[a] in clientNotes && clientNotes[clientOf[a]].Some? ==>
              UpdatedNotesAsWritten(notes, clientOf, clientNotes)[a] == MergeNotes(notes[a], clientNotes[clientOf[a]])
  {
  }

  /** The corrected update: as `UpdatedNotesAsWritten`, but with the merge
      that keeps the agent's notes when its client has none. */
  function UpdatedNotesIntended(notes: map<string, Option<string>>, clientOf: map<string, string>, clientNotes: map<string, Option<string>>): map<string, Option<string>> {
    map a | a in notes ::
      if a in clientOf && clientOf[a] in clientNotes then MergeNotes(notes[a], clientNotes[clientOf[a]]) else notes[a]
  }

  /** The corrected update changes no agent outside the join and empties no
      notes; where the client has notes it agrees with the update as
      written. */
  lemma UpdatedNotesIntendedSpec(notes: map<string, Option<string>>, clientOf: map<string, string>, clientNotes: map<string, Option<string>>, a: string)
    requires a in notes
    ensures a in UpdatedNotesIntended(notes, clientOf, clientNotes)
    ensures !(a in clientOf && clientOf[a] in clientNotes) ==> UpdatedNotesIntended(notes, clientOf, clientNotes)[a] == notes[a]
    ensures notes[a].Some? ==> UpdatedNotesIntended(notes, clientOf, clientNotes)[a].Some?
    ensures UpdatedNotesIntended(notes, clientOf, clientNotes).Keys == notes.Keys
    ensures (a in clientOf && clientOf[a] in clientNotes ==> clientNotes[clientOf[a]].Some?) ==>
              UpdatedNotesIntended(notes, clientOf, clientNotes)[a] == UpdatedNotesAsWritten(notes, clientOf, clientNotes)[a]
  {
    if a in clientOf && clientOf[a] in clientNotes {
      MergeNotesKeeps(notes[a], clientNotes[clientOf[a]]);
    }
  }

  // ---------------------------------------------------------------------
  // Client codes become agent codes (lines 1272-1407)

  /** Every client has at most one agent in `client_agent`. */
  predicate Functional(links: seq<Agents.Link>) {
    forall i, j :: 0 <= i < |links| && 0 <= j < |links| && links[i].client == links[j].client ==> links[i].agent == links[j].agent
  }

  /** `client_agent` read as a map from client code to agent code. */
  function LinkMap(links: seq<Agents.Link>): map<string, string>
    decreases |links|
  {
    if links == [] then map[]
    else
      var last := links[|links| - 1];
      LinkMap(links[..|links| - 1])[last.client := last.agent]
  }

  /** For a functional `client_agent`, the map holds exactly its rows. */
  lemma {:induction false} LinkMapSpec(links: seq<Agents.Link>, client: string, agent: string)
    requires Functional(links)
    ensures (client in LinkMap(links) && LinkMap(links)[client] == agent) <==> Agents.Link(client, agent) in links
    decreases |links|
  {
    if links != [] {
      var init := links[..|links| - 1];
      var last := links[|links| - 1];
      assert forall i :: 0 <= i < |init| ==> init[i] == links[i];
      LinkMapSpec(init, client, agent);
      assert links == init + [last];
      if Agents.Link(client, agent) in init && client == last.client {
        var i :| 0 <= i < |init| && init[i] == Agents.Link(client, agent);
        assert links[i].client == links[|links| - 1].client;
      }
    }
  }

  /** `SET col = ca.agent_code` after `LEFT JOIN client_agent ON col =
      ca.client_code`, for one cell: NULL unless the code is a client. */
  function Lookup(cell: Option<string>, clientAgent: map<string, string>): Option<string> {
    if cell.Some? && cell.value in clientAgent then Some(clientAgent[cell.value]) else None
  }

  /** The whole column after the update. */
  function Resolved(column: seq<Option<string>>, clientAgent: map<string, string>): (r: seq<Option<string>>)
    ensures |r| == |column|
  {
    seq(|column|, i requires 0 <= i < |column| => Lookup(column[i], clientAgent))
  }

  /** One `UPDATE tbl LEFT JOIN client_agent ... SET tbl.col = ca.agent_code`,
      row by row. */
  method ResolveColumn(column: array<Option<string>>, clientAgent: map<string, string>)
    modifies column
    ensures column[..] == Resolved(old(column[..]), clientAgent)
  {
    var i := 0;
    while i < column.Length
      invariant i <= column.Length
      invariant forall k :: 0 <= k < i ==> column[k] == Lookup(old(column[k]), clientAgent)
      invariant forall k :: i <= k < column.Length ==> column[k] == old(column[k])
    {
      var cell := column[i];
      if cell.Some? && cell.value in clientAgent {
        column[i] := Some(clientAgent[cell.value]);
      } else {
        column[i] := None;
      }
      i := i + 1;
    }
  }

  /** A client code becomes its agent's code; any other value, and NULL,
      becomes NULL; so every value left is an agent code. */
  lemma ResolvedSpec(column: seq<Option<string>>, clientAgent: map<string, string>, i: nat)
    requires i < |column|
    ensures column[i].Some? && column[i].value in clientAgent ==> Resolved(column, clientAgent)[i] == Some(clientAgent[column[i].value])
    ensures !(column[i].Some? && column[i].value in clientAgent) ==> Resolved(column, clientAgent)[i].None?
    ensures Resolved(column, clientAgent)[i].Some? ==> Resolved(column, clientAgent)[i].value in clientAgent.Values
  {
  }

  /** The update cannot be run twice: when no agent code is also a client
      code, a second run leaves nothing but NULL. */
  lemma ResolvedTwice(column: seq<Option<string>>, clientAgent: map<string, string>)
    requires forall c :: c in clientAgent ==> clientAgent[c] !in clientAgent
    ensures forall i :: 0 <= i < |column| ==> Resolved(Resolved(column, clientAgent), clientAgent)[i].None?
  {
  }
}
