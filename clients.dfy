/** The temporary `all_clients` table of `resolve_agents`
    (mpcereform/core.py:1006-1090): one row per client code, filled from five
    sources in turn. The first source to name a code fixes its columns; a
    later row with the same code only extends `notes` with a labelled
    suffix (`ON DUPLICATE KEY UPDATE notes = CONCAT(IFNULL(notes, ''),
    label, new)`). */
module Clients {
  import opened Wrappers
  import opened Text
  import opened Workbook
  import Spreadsheet

  /** The columns of `all_clients` besides its key; SQL NULL is `None`. */
  datatype ClientRow = ClientRow(
    name: Option<string>, altName: Option<string>, profCodes: Option<string>,
    placeCodes: Option<string>, gender: Option<string>, title: Option<string>,
    notes: Option<string>, corporate: Option<bool>)

  /** A row offered to the table under its client code. */
  datatype Entry = Entry(code: string, row: ClientRow)

  /** The two rows agree on every column except perhaps `notes`. */
  predicate SameButNotes(a: ClientRow, b: ClientRow) {
    a.(notes := b.notes) == b
  }

  /** The labels each source puts in front of the notes it appends. */
  const StockSalesLabel := " Stock Sales Notes: "
  const EstampillageLabel := " Estampillage Notes: "
  const ConfiscationsLabel := " Confiscations notes: "
  const PermissionSimpleLabel := " Permission simple notes: "

  /** `CONCAT(IFNULL(before, ''), label, added)`: SQL `CONCAT` is NULL as soon
      as one argument is, so a NULL added note makes the whole result NULL. */
  function ConcatNotes(before: Option<string>, tag: string, added: Option<string>): (r: Option<string>)
    ensures r.None? <==> added.None?
    ensures r.Some? && before.Some? ==> before.value <= r.value
    ensures r.Some? ==> |tag + added.value| <= |r.value| && r.value[|r.value| - |tag + added.value|..] == tag + added.value
    ensures r.Some? ==> |r.value| == (if before.Some? then |before.value| else 0) + |tag| + |added.value|
  {
    if added.None? then None
    else
      var prefix := if before.Some? then before.value else "";
      assert (prefix + (tag + added.value))[|prefix|..] == tag + added.value;
      assert prefix + tag + added.value == prefix + (tag + added.value);
      Some(prefix + tag + added.value)
  }

  /** The table after one `INSERT ... ON DUPLICATE KEY UPDATE` row. */
  function Upserted(rows: map<string, ClientRow>, code: string, row: ClientRow, tag: string): (r: map<string, ClientRow>)
    ensures r.Keys == rows.Keys + {code}
    ensures code !in rows ==> r[code] == row
    ensures code in rows ==> SameButNotes(r[code], rows[code]) && r[code].notes == ConcatNotes(rows[code].notes, tag, row.notes)
    ensures forall c :: c in rows && c != code ==> r[c] == rows[c]
  {
    if code in rows then rows[code := rows[code].(notes := ConcatNotes(rows[code].notes, tag, row.notes))]
    else rows[code := row]
  }

  /** The table after a whole batch of upserts, in order. */
  function UpsertedAll(rows: map<string, ClientRow>, batch: seq<Entry>, tag: string): map<string, ClientRow>
    decreases |batch|
  {
    if batch == [] then rows
    else
      var last := batch[|batch| - 1];
      Upserted(UpsertedAll(rows, batch[..|batch| - 1], tag), last.code, last.row, tag)
  }

  /** The client codes a batch names. */
  function BatchCodes(batch: seq<Entry>): set<string> {
    set i | 0 <= i < |batch| :: batch[i].code
  }

  /** No two entries of the batch share a code. */
  predicate DistinctCodes(batch: seq<Entry>) {
    forall i, j :: 0 <= i < j < |batch| ==> batch[i].code != batch[j].code
  }

  /** The table holds exactly the codes it held and those the batch names. */
  lemma {:induction false} UpsertedAllKeys(rows: map<string, ClientRow>, batch: seq<Entry>, tag: string)
    ensures UpsertedAll(rows, batch, tag).Keys == rows.Keys + BatchCodes(batch)
    decreases |batch|
  {
    if batch != [] {
      var init := batch[..|batch| - 1];
      UpsertedAllKeys(rows, init, tag);
      assert BatchCodes(batch) == BatchCodes(init) + {batch[|batch| - 1].code} by {
        forall c | c in BatchCodes(batch) ensures c in BatchCodes(init) + {batch[|batch| - 1].code} {
          var i :| 0 <= i < |batch| && batch[i].code == c;
          if i < |batch| - 1 { assert init[i] == batch[i]; }
        }
        forall c | c in BatchCodes(init) ensures c in BatchCodes(batch) {
          var i :| 0 <= i < |init| && init[i].code == c;
          assert batch[i] == init[i];
        }
      }
    }
  }

  /** A code already in the table keeps every column but `notes`,
      whatever the batch offers for it. */
  lemma {:induction false} UpsertedAllKeepsFirst(rows: map<string, ClientRow>, batch: seq<Entry>, tag: string, code: string)
    requires code in rows
    ensures code in UpsertedAll(rows, batch, tag)
    ensures SameButNotes(UpsertedAll(rows, batch, tag)[code], rows[code])
    decreases |batch|
  {
    if batch != [] {
      UpsertedAllKeepsFirst(rows, batch[..|batch| - 1], tag, code);
    }
  }

  /** A code that is new to the table gets every column but `notes` from
      the first entry of the batch that names it. */
  lemma {:induction false} UpsertedAllFirstWins(rows: map<string, ClientRow>, batch: seq<Entry>, tag: string, i: nat)
    requires i < |batch| && batch[i].code !in rows
    requires forall j :: 0 <= j < i ==> batch[j].code != batch[i].code
    ensures batch[i].code in UpsertedAll(rows, batch, tag)
    ensures SameButNotes(UpsertedAll(rows, batch, tag)[batch[i].code], batch[i].row)
    decreases |batch|
  {
    var init := batch[..|batch| - 1];
    var code := batch[i].code;
    if i == |batch| - 1 {
      UpsertedAllKeys(rows, init, tag);
      assert code !in BatchCodes(init) by {
        forall j | 0 <= j < |init| ensures init[j].code != code {
          assert init[j] == batch[j];
        }
      }
    } else {
      assert init[i] == batch[i];
      UpsertedAllFirstWins(rows, init, tag, i);
      var mid, last := UpsertedAll(rows, init, tag), batch[|batch| - 1];
      var r := Upserted(mid, last.code, last.row, tag);
      assert UpsertedAll(rows, batch, tag) == r;
      if last.code == code {
        SameButNotesTrans(r[code], mid[code], batch[i].row);
      }
    }
  }

  lemma SameButNotesTrans(a: ClientRow, b: ClientRow, c: ClientRow)
    requires SameButNotes(a, b) && SameButNotes(b, c)
    ensures SameButNotes(a, c)
  {
  }

  /** A code the batch does not name keeps its row exactly. */
  lemma {:induction false} UpsertedAllUntouched(rows: map<string, ClientRow>, batch: seq<Entry>, tag: string, code: string)
    requires code in rows
    requires forall j :: 0 <= j < |batch| ==> batch[j].code != code
    ensures code in UpsertedAll(rows, batch, tag)
    ensures UpsertedAll(rows, batch, tag)[code] == rows[code]
    decreases |batch|
  {
    if batch != [] {
      var init := batch[..|batch| - 1];
      assert forall j :: 0 <= j < |init| ==> init[j] == batch[j];
      UpsertedAllUntouched(rows, init, tag, code);
      UpsertedAllKeys(rows, init, tag);
    }
  }

  /** While every later row for a code carries a note, the notes only grow:
      the notes the code had are a prefix of its notes afterwards. */
  lemma {:induction false} UpsertedAllNotesGrow(rows: map<string, ClientRow>, batch: seq<Entry>, tag: string, code: string)
    requires code in rows && rows[code].notes.Some?
    requires forall j :: 0 <= j < |batch| && batch[j].code == code ==> batch[j].row.notes.Some?
    ensures code in UpsertedAll(rows, batch, tag)
    ensures UpsertedAll(rows, batch, tag)[code].notes.Some?
    ensures rows[code].notes.value <= UpsertedAll(rows, batch, tag)[code].notes.value
    decreases |batch|
  {
    if batch != [] {
      var init := batch[..|batch| - 1];
      assert forall j :: 0 <= j < |init| ==> init[j] == batch[j];
      UpsertedAllNotesGrow(rows, init, tag, code);
    }
  }

  /** A later row without notes erases whatever notes the code had
      gathered. */
  lemma UpsertNullNoteErases(rows: map<string, ClientRow>, code: string, row: ClientRow, tag: string)
    requires code in rows && row.notes.None?
    ensures Upserted(rows, code, row, tag)[code].notes.None?
    ensures SameButNotes(Upserted(rows, code, row, tag)[code], rows[code])
  {
  }

  /** The `all_clients` table, updated in place one row at a time. */
  class AllClients {
    var rows: map<string, ClientRow>

    /** `CREATE TEMPORARY TABLE mpce.all_clients`: empty. */
    constructor()
      ensures rows == map[]
    {
      rows := map[];
    }

    /** A plain `INSERT`: the key must be new, as the primary key demands. */
    method Insert(code: string, row: ClientRow)
      requires code !in rows
      modifies this
      ensures rows == old(rows)[code := row]
    {
      rows := rows[code := row];
    }

    /** `INSERT ... ON DUPLICATE KEY UPDATE notes = CONCAT(...)`. */
    method Upsert(code: string, row: ClientRow, tag: string)
      modifies this
      ensures rows == Upserted(old(rows), code, row, tag)
    {
      if code in rows {
        var merged := rows[code].(notes := ConcatNotes(rows[code].notes, tag, row.notes));
        rows := rows[code := merged];
      } else {
        rows := rows[code := row];
      }
    }

    /** Plain inserts of a batch whose codes are distinct and new. */
    method InsertAll(batch: seq<Entry>)
      requires DistinctCodes(batch)
      requires forall j :: 0 <= j < |batch| ==> batch[j].code !in rows
      modifies this
      ensures rows == UpsertedAll(old(rows), batch, "")
    {
      var i := 0;
      while i < |batch|
        invariant i <= |batch|
        invariant rows == UpsertedAll(old(rows), batch[..i], "")
      {
        assert batch[..i + 1][..i] == batch[..i];
        UpsertedAllKeys(old(rows), batch[..i], "");
        assert batch[i].code !in BatchCodes(batch[..i]);
        Insert(batch[i].code, batch[i].row);
        i := i + 1;
      }
      assert batch[..i] == batch;
    }

    /** Upserts of a batch, in order, under one label. */
    method UpsertAll(batch: seq<Entry>, tag: string)
      modifies this
      ensures rows == UpsertedAll(old(rows), batch, tag)
    {
      var i := 0;
      while i < |batch|
        invariant i <= |batch|
        invariant rows == UpsertedAll(old(rows), batch[..i], tag)
      {
        assert batch[..i + 1][..i] == batch[..i];
        Upsert(batch[i].code, batch[i].row, tag);
        i := i + 1;
      }
      assert batch[..i] == batch;
    }
  }

  // ---------------------------------------------------------------------
  // The five sources

  /** A row of `mpce.stn_client`. */
  datatype StnClient = StnClient(code: string, name: Option<string>, gender: Option<string>, partnership: Option<bool>, notes: Option<string>)

  /** A row of `manuscripts.manuscript_dealers`. */
  datatype Dealer = Dealer(code: string, name: Option<string>, altName: Option<string>, profCode: Option<string>, placeCode: Option<string>, notes: Option<string>)

  /** A row of `manuscripts.manuscript_agents_inspectors`. */
  datatype Inspector = Inspector(code: string, name: Option<string>, placeCode: Option<string>, notes: Option<string>)

  function StnEntries(stn: seq<StnClient>): (batch: seq<Entry>)
    ensures |batch| == |stn|
    ensures forall i :: 0 <= i < |stn| ==> batch[i].code == stn[i].code
  {
    seq(|stn|, i requires 0 <= i < |stn| =>
      var c := stn[i];
      Entry(c.code, ClientRow(c.name, None, None, None, c.gender, None, c.notes, c.partnership)))
  }

  function DealerEntries(dealers: seq<Dealer>): (batch: seq<Entry>)
    ensures |batch| == |dealers|
    ensures forall i :: 0 <= i < |dealers| ==> batch[i].code == dealers[i].code
  {
    seq(|dealers|, i requires 0 <= i < |dealers| =>
      var d := dealers[i];
      Entry(d.code, ClientRow(d.name, d.altName, d.profCode, d.placeCode, None, None, d.notes, None)))
  }

  function InspectorEntries(inspectors: seq<Inspector>): (batch: seq<Entry>)
    ensures |batch| == |inspectors|
    ensures forall i :: 0 <= i < |inspectors| ==> batch[i].code == inspectors[i].code
  {
    seq(|inspectors|, i requires 0 <= i < |inspectors| =>
      var a := inspectors[i];
      Entry(a.code, ClientRow(a.name, None, None, a.placeCode, None, None, a.notes, None)))
  }

  function ConsigneeEntries(consignees: seq<Spreadsheet.Consignee>): (batch: seq<Entry>)
    ensures |batch| == |consignees|
    ensures forall i :: 0 <= i < |consignees| ==> batch[i].code == consignees[i].code
  {
    seq(|consignees|, i requires 0 <= i < |consignees| =>
      var c := consignees[i];
      Entry(c.code, ClientRow(Some(c.name), None, None, SqlText(c.place), None, SqlText(c.title), SqlText(c.notes), None)))
  }

  /** The rows of the `Clients` sheet of the permission-simple workbook
      that are read: sheet rows 2 to 249, that is the first 248 data rows. */
  function SimpleRowsRead(simple: seq<seq<Cell>>): (read: seq<seq<Cell>>)
    ensures |read| <= 248 && read <= simple
    ensures |simple| <= 248 ==> read == simple
  {
    if |simple| <= 248 then simple else simple[..248]
  }

  /** Every permission-simple row carries the columns read and a client
      code. */
  predicate SimpleRowsReadable(simple: seq<seq<Cell>>) {
    forall i :: 0 <= i < |simple| ==> |simple[i]| >= 9 && !simple[i][0].Blank?
  }

  /** `(r[0], r[1], r[2], r[3], r[5], r[7], r[8])`: code, name, alternative
      name, gender, professions, places and notes. */
  function SimpleEntries(simple: seq<seq<Cell>>): (batch: seq<Entry>)
    requires SimpleRowsReadable(simple)
    ensures |batch| == |simple|
    ensures forall i :: 0 <= i < |simple| ==> Some(batch[i].code) == SqlText(simple[i][0])
  {
    seq(|simple|, i requires 0 <= i < |simple| =>
      var r := simple[i];
      Entry(SqlText(r[0]).value, ClientRow(SqlText(r[1]), SqlText(r[2]), SqlText(r[5]), SqlText(r[7]), SqlText(r[3]), None, SqlText(r[8]), None)))
  }

  /** `all_clients` once all five sources have been read, in source order. */
  function AllClientsOf(stn: seq<StnClient>, dealers: seq<Dealer>, inspectors: seq<Inspector>,
                        consignees: seq<Spreadsheet.Consignee>, simple: seq<seq<Cell>>): map<string, ClientRow>
    requires SimpleRowsReadable(SimpleRowsRead(simple))
  {
    var t0 := UpsertedAll(map[], StnEntries(stn), "");
    var t1 := UpsertedAll(t0, DealerEntries(dealers), StockSalesLabel);
    var t2 := UpsertedAll(t1, InspectorEntries(inspectors), EstampillageLabel);
    var t3 := UpsertedAll(t2, ConsigneeEntries(consignees), ConfiscationsLabel);
    UpsertedAll(t3, SimpleEntries(SimpleRowsRead(simple)), PermissionSimpleLabel)
  }

  /** The STN client codes are the key of `stn_client`, so they are distinct. */
  predicate StnCodesDistinct(stn: seq<StnClient>) {
    forall i, j :: 0 <= i < j < |stn| ==> stn[i].code != stn[j].code
  }

  /** Builds `all_clients` from the five sources, in the order the source
      reads them. */
  method CollectClients(stn: seq<StnClient>, dealers: seq<Dealer>, inspectors: seq<Inspector>,
                        consignees: seq<Spreadsheet.Consignee>, simple: seq<seq<Cell>>) returns (table: AllClients)
    requires StnCodesDistinct(stn)
    requires SimpleRowsReadable(SimpleRowsRead(simple))
    ensures fresh(table)
    ensures table.rows == AllClientsOf(stn, dealers, inspectors, consignees, simple)
  {
    table := new AllClients();
    table.InsertAll(StnEntries(stn));
    table.UpsertAll(DealerEntries(dealers), StockSalesLabel);
    table.UpsertAll(InspectorEntries(inspectors), EstampillageLabel);
    table.UpsertAll(ConsigneeEntries(consignees), ConfiscationsLabel);
    table.UpsertAll(SimpleEntries(SimpleRowsRead(simple)), PermissionSimpleLabel);
  }

  /** Every client code of every source is in the table, and no other. */
  lemma AllClientsKeys(stn: seq<StnClient>, dealers: seq<Dealer>, inspectors: seq<Inspector>,
                       consignees: seq<Spreadsheet.Consignee>, simple: seq<seq<Cell>>)
    requires SimpleRowsReadable(SimpleRowsRead(simple))
    ensures AllClientsOf(stn, dealers, inspectors, consignees, simple).Keys ==
      BatchCodes(StnEntries(stn)) + BatchCodes(DealerEntries(dealers)) + BatchCodes(InspectorEntries(inspectors))
      + BatchCodes(ConsigneeEntries(consignees)) + BatchCodes(SimpleEntries(SimpleRowsRead(simple)))
  {
    var t0 := UpsertedAll(map[], StnEntries(stn), "");
    var t1 := UpsertedAll(t0, DealerEntries(dealers), StockSalesLabel);
    var t2 := UpsertedAll(t1, InspectorEntries(inspectors), EstampillageLabel);
    var t3 := UpsertedAll(t2, ConsigneeEntries(consignees), ConfiscationsLabel);
    UpsertedAllKeys(map[], StnEntries(stn), "");
    UpsertedAllKeys(t0, DealerEntries(dealers), StockSalesLabel);
    UpsertedAllKeys(t1, InspectorEntries(inspectors), EstampillageLabel);
    UpsertedAllKeys(t2, ConsigneeEntries(consignees), ConfiscationsLabel);
    UpsertedAllKeys(t3, SimpleEntries(SimpleRowsRead(simple)), PermissionSimpleLabel);
  }

  /** An STN client keeps its name, gender and partnership (as `corporate`)
      whatever the later sources say about the same code; only its notes
      may change. */
  lemma AllClientsStnFirst(stn: seq<StnClient>, dealers: seq<Dealer>, inspectors: seq<Inspector>,
                           consignees: seq<Spreadsheet.Consignee>, simple: seq<seq<Cell>>, i: nat)
    requires StnCodesDistinct(stn) && i < |stn|
    requires SimpleRowsReadable(SimpleRowsRead(simple))
    ensures stn[i].code in AllClientsOf(stn, dealers, inspectors, consignees, simple)
    ensures var row := AllClientsOf(stn, dealers, inspectors, consignees, simple)[stn[i].code];
      row.name == stn[i].name && row.gender == stn[i].gender && row.corporate == stn[i].partnership
      && row.altName.None? && row.profCodes.None? && row.placeCodes.None? && row.title.None?
  {
    var code := stn[i].code;
    var t0 := UpsertedAll(map[], StnEntries(stn), "");
    var t1 := UpsertedAll(t0, DealerEntries(dealers), StockSalesLabel);
    var t2 := UpsertedAll(t1, InspectorEntries(inspectors), EstampillageLabel);
    var t3 := UpsertedAll(t2, ConsigneeEntries(consignees), ConfiscationsLabel);
    UpsertedAllFirstWins(map[], StnEntries(stn), "", i);
    UpsertedAllKeepsFirst(t0, DealerEntries(dealers), StockSalesLabel, code);
    UpsertedAllKeepsFirst(t1, InspectorEntries(inspectors), EstampillageLabel, code);
    UpsertedAllKeepsFirst(t2, ConsigneeEntries(consignees), ConfiscationsLabel, code);
    UpsertedAllKeepsFirst(t3, SimpleEntries(SimpleRowsRead(simple)), PermissionSimpleLabel, code);
  }
}
