# mpcereform agent and identifier logic in Dafny

`mpcereform` rebuilds the MPCE book-trade database out of the older
`manuscripts` database and a few spreadsheets. It talks to MySQL and
openpyxl, but the interesting part of it is Python that runs on the rows it
has fetched. This project models that part. The cursor results and worksheet
rows become input sequences, the temporary tables become maps and sequences,
and a table the code updates in place becomes a class or an array.

The modules:

- `Wrappers`: `Option` and `Result`.
- `Text`: character classes over the first 128 code points, digit strings and their values, `split`,
  `join`, `strip`, and `Leftmost`. `Leftmost` is the scan `re.search` makes:
  the first position where a matcher succeeds.
- `Codes`: `_get_code_sequence` and `_get_auto_increment`. They generate
  fresh `id0001`-style codes from a frame and the largest numeral in use.
- `Dates`: `parse_date` from `mpcereform/utils.py`. It is three regex
  searches, each written as an explicit scanner.
- `Keywords`: the repair of malformed keyword codes and the comma split of
  keyword assignments in `import_works`.
- `Auctions`: the parsing of auction administrators with
  `(c[a-z][0-9]{3,4}) \((\w+)\)`.
- `Darnton`: the client-name lookup and the date reshaping for Robert
  Darnton's sample of STN orders.
- `Workbook`: worksheet cells, Python's `~` on a boolean, and SQL's view of a
  cell.
- `Spreadsheet`: the two semicolon-zip splitters. One reads consignment
  clients; the other is `_import_spreadsheet_agents`. Each is modelled
  twice: with its guard as written and with the evidently intended guard.
- `Clients`: the temporary `all_clients` table. It is a class over a map
  keyed by client code, filled from five sources with
  `INSERT ... ON DUPLICATE KEY UPDATE notes = CONCAT(...)`.
- `Authors`: how authors without agents get new agent codes, one code per
  distinct name.
- `Agents`: how clients become agents. This covers:
  - the initial `client_agent` links;
  - classification of clients without person codes;
  - the selection of clients that need new agents;
  - the synthesis loop: gender normalisation and the `,\s*|;\s*` split of
    place and profession lists.
- `Propagation`: the final steps of agent resolution:
  - the new-address filter;
  - the notes merge, as written and corrected;
  - the rewriting of client codes into agent codes, one column at a time.

Where each source function is defined in the model (the lemmas about each
are in the table below):

| source | definition |
|---|---|
| `_get_code_sequence`, mpcereform/core.py:1530-1575 | `Codes.CodeSequence` |
| `_get_auto_increment`, mpcereform/core.py:1597-1618 | `Codes.AutoIncrement` |
| `parse_date`, mpcereform/utils.py:5-47 | `Dates.ParseDate` |
| keyword repair, mpcereform/core.py:172-185 | `Keywords.KeywordMap`, computed by `Keywords.RepairKeywords` |
| one administrator piece, mpcereform/core.py:491-499 | `Auctions.PieceEntry` |
| the Darnton sample import, mpcereform/core.py:723-744 | `Darnton.Orders`, computed by `Darnton.ImportSample` |
| the `all_clients` table, mpcereform/core.py:1006-1090 | `Clients.AllClientsOf`, built by `Clients.CollectClients` |
| new agents for authors, mpcereform/core.py:940-963 | `Authors.Resolve` |
| the selection of clients for new agents, mpcereform/core.py:1160-1176 | `Agents.Selected` |
| gender normalisation, mpcereform/core.py:1195-1203 | `Agents.NormaliseGender` |
| `re.split(r',\s*\|;\s*', ...)`, mpcereform/core.py:1207 and 1212 | `Agents.SplitList` |
| the new-address filter, mpcereform/core.py:1245-1247 | `Propagation.NewAddresses` |
| the notes update, mpcereform/core.py:1264-1268 | `Propagation.UpdatedNotesAsWritten` (corrected: `Propagation.UpdatedNotesIntended`) |

SQL NULL is `Option.None`. The model follows MySQL's rules for NULL:

- `CONCAT` with a NULL argument is NULL.
- `XOR` with a NULL argument is NULL.
- `IS FALSE` does not hold for NULL.
- A `LEFT JOIN` that finds nothing gives NULL.
- `NOT LIKE 'null'` compares without regard to case, and fails on a NULL
  name.

## Model

| member | source | states |
|---|---|---|
| Codes.FrameAtSpec | mpcereform/core.py:1547 | `[a-z]+(?=0)` at a position matches the longest lowercase run followed by `0`, and nothing else |
| Codes.NumeralExists | mpcereform/core.py:1546 | `[1-9]\d*` finds a numeral exactly when the code has a non-zero digit |
| Codes.Numerals | mpcereform/core.py:1565-1566 | succeeds exactly when every code has a numeral, and then gives each code's numeral in order; otherwise it names a code without one |
| Codes.RenderNumeral | mpcereform/core.py:1575 | a rendered code reads back as the numeral it was rendered from |
| Codes.NumeralAfterFrame | mpcereform/core.py:1575 | the digits appended after any prefix of the frame are read back whole as their numeral |
| Codes.FrameOf | mpcereform/core.py:1560-1562 | the frame is a lowercase prefix of the first code plus a width of at least one, together as long as that code |
| Codes.NextNumeral | mpcereform/core.py:1572 | the next numeral is one more than the largest existing numeral, so it exceeds all of them |
| Codes.CodeSequenceAt | mpcereform/core.py:1560-1575 | a successful call returns exactly `num` codes; the i-th renders numeral `max + 1 + i` in the frame of the first code |
| Codes.CodeSequenceFailures | mpcereform/core.py:1560-1566 | fails on an empty column, on a first code with no frame, and (given a frame) exactly when some code has no numeral |
| Codes.CodeNumeral | mpcereform/core.py:1565-1575 | the i-th new code reads back as numeral `max + 1 + i` |
| Codes.SingleCode | mpcereform/core.py:1572-1575 | asked for one code, the generator returns exactly the next code in the first code's frame |
| Codes.CodeSequenceNumerals | mpcereform/core.py:1565-1575 | the new codes carry the numerals `max+1 ... max+num`, in order |
| Codes.CodeSequenceFresh | mpcereform/core.py:1565-1575 | no new code equals an existing code, and the new codes are pairwise distinct |
| Codes.Layout | mpcereform/core.py:1560-1575 | the layout of a code stated without slicing: the frame's letters, then the numeral zero-padded to the width; while the numeral fits, the code is as long as the frame |
| Codes.RenderLayout | mpcereform/core.py:1575 | `frame[:-len(str(id))] + str(id)` equals that layout for every frame and numeral |
| Codes.CodeSequenceLayout | mpcereform/core.py:1560-1575 | each new code is the layout of its numeral in the first code's frame, and is as long as the first code while the numeral fits the width |
| Codes.PrefixEatenPastWidth | mpcereform/core.py:1575 | after `id9999` the next code is `i10000`: the slice `frame[:-len(str(id))]` drops a prefix letter |
| Codes.ExampleNumerals | mpcereform/core.py:1565-1572 | `id0001` and `id9999` have numerals 1 and 9999, and the next numeral is 10000 |
| Codes.FrameSearch | mpcereform/core.py:1604-1616 | `re.search(r'[a-z]+(?=0)', ...)`: a result is the leftmost lowercase run followed by `0`, with no such run at any earlier position; no result means no such run anywhere |
| Codes.AutoIncrementFrame | mpcereform/core.py:1612-1616 | the letters returned are those the search finds in the first code; given numerals, the call fails for want of a frame exactly when the search finds none |
| Codes.AutoIncrementAgreesWithSequence | mpcereform/core.py:1597-1618 | `_get_auto_increment` returns the same next numeral and letter prefix that `_get_code_sequence` uses |
| Dates.MonthNumbers | mpcereform/utils.py:8-21 | every month abbreviation maps to a two-digit number |
| Dates.MonthWordFound | mpcereform/utils.py:32 | a month word at a position is what the scanner returns there |
| Dates.MonthAtSpec | mpcereform/utils.py:32 | a month match at a position is a word of one capital and 2-8 lowercase letters between word boundaries, and every such word is found |
| Dates.SuffixReaches | mpcereform/utils.py:33 | the backtracking lookahead `(?=[a-z]{0,2}\b)` tried from its longest letter run succeeds whenever a shorter run reaches a boundary |
| Dates.LookaheadComplete | mpcereform/utils.py:33 | the lookahead succeeds wherever the word ends within two lowercase letters |
| Dates.DayWordFound | mpcereform/utils.py:33 | a day word at a position is what the scanner returns there, so a one-digit day is never taken for the start of a two-digit one |
| Dates.DayAtSpec | mpcereform/utils.py:33 | a day match is 1-2 digits at a word boundary, followed by at most two lowercase letters and a boundary, and every such word is found |
| Dates.PadDay | mpcereform/utils.py:40-42 | the day is two characters, ending with the matched digits and left-padded with `0` |
| Dates.YearOf | mpcereform/utils.py:24-37 | the year part is always four digits |
| Dates.DayOf | mpcereform/utils.py:26-42 | the day part is always two digits |
| Dates.MonthOf | mpcereform/utils.py:25-39 | the month part is two digits, or the lookup fails with a three-letter key that is no abbreviation (`KeyError`) |
| Dates.ParseDate | mpcereform/utils.py:5-47 | a non-string gives no date; a string gives `YYYY-MM-DD` (ten characters, `-` at positions 4 and 7, digits elsewhere) unless its month word is unknown, which fails with its key |
| Dates.ParseDateSpec | mpcereform/utils.py:24-47 | a string fails with the `KeyError` exactly when its month lookup does, with that key; otherwise the result holds the year, month and day parts at positions 0-3, 5-6 and 8-9 |
| Dates.ParseDateFields | mpcereform/utils.py:24-47 | a string whose year, month and day parts are known parses to those parts joined by `-` |
| Dates.YearOfFirst | mpcereform/utils.py:31-37 | the year is the first standalone four-digit run, or `0000` when there is none |
| Dates.MonthOfFirst | mpcereform/utils.py:32-39 | the month comes from the first three letters of the first capitalised 3-9 letter word, or is `00` when there is none |
| Dates.DayOfFirst | mpcereform/utils.py:33-42 | the day is the first day word of the text (1-2 digits at a boundary, then at most two lowercase letters and a boundary), padded, or `00` when the text has none |
| Dates.DayOfNone | mpcereform/utils.py:33-42 | a text without a day word has day `00` |
| Dates.DayOfWord | mpcereform/utils.py:33-42 | the first day word of a text, padded, is its day |
| Dates.ExampleDate | mpcereform/utils.py:5-47 | `3rd March 1778` parses to `1778-03-03` |
| Keywords.KeyIds | mpcereform/core.py:172-173 | every five-character code's number is listed, and every number listed is one of theirs; fails on a five-character code whose tail is not digits (`int()` raises) |
| Keywords.NextKeyId | mpcereform/core.py:172-173 | the start counter is the largest number among the five-character codes; it fails when there is no such code (`max` of an empty list) |
| Keywords.RepairKeywords | mpcereform/core.py:179-185 | the loop gives the keyword map of the specification function, or the error of the counter |
| Keywords.NewCodeAt | mpcereform/core.py:181-183 | the new code of a malformed code carries, after its first letter, the counter plus one plus the number of malformed codes before it |
| Keywords.KeywordMapFresh | mpcereform/core.py:179-185 | new codes are pairwise distinct, and none equals a kept five-character code |
| Keywords.KeywordCodesDistinct | mpcereform/core.py:179-185 | distinct old codes give distinct new codes |
| Keywords.SplitKeywords | mpcereform/core.py:206-209 | the nested loop gives exactly the assignments of the specification function |
| Keywords.RowAssignmentsSpec | mpcereform/core.py:208-209 | a keyword cell with c commas gives c + 1 stripped keywords, all for the same work |
| Keywords.AssignmentsSpec | mpcereform/core.py:200-209 | each assignment is a stripped keyword of a work whose keyword cell passes `CHAR_LENGTH(keywords) > 1`; the count is the sum over those rows |
| Auctions.AdminAtSpec | mpcereform/core.py:476 | the matcher at a position finds exactly the code-space-parenthesised-role pattern of the regex |
| Auctions.MatchUnique | mpcereform/core.py:476 | at a given position the regex can match in only one way |
| Auctions.RoleTableSpec | mpcereform/core.py:483-485 | the role dict has exactly the role names; a name listed twice keeps its last id |
| Auctions.ParseAdministrators | mpcereform/core.py:488-499 | the outer loop gives exactly the administrators of the specification function, or its first error |
| Auctions.SaleAdministrators | mpcereform/core.py:491-499 | the inner loop gives exactly the rows of one sale's pieces, or the first unknown role |
| Auctions.PieceEntrySpec | mpcereform/core.py:491-499 | a piece without a match is kept whole with no role; a piece with a match never comes back without a role; the leftmost match (no match at any earlier position) gives the code and the id of its role, or fails with `KeyError` when its role is unknown |
| Auctions.PieceEntriesCount | mpcereform/core.py:491 | one row per comma-separated piece, each carrying its sale |
| Auctions.AdministratorsCount | mpcereform/core.py:488-499 | on success, there are as many rows as pieces over all sales |
| Auctions.PrefixFailure | mpcereform/core.py:488-499 | the first failing sale stops the import |
| Auctions.ExampleCodePiece | mpcereform/core.py:492-495 | the piece `cl0335 (seller)` gives `cl0335` with the seller id |
| Auctions.ExampleTextPiece | mpcereform/core.py:496-498 | the piece ` Dupont` has no match and is kept as it stands, with no role |
| Auctions.ExampleSale | mpcereform/core.py:491-499 | `cl0335 (seller), Dupont` gives `cl0335` with the seller id, then ` Dupont` with no role |
| Darnton.DarntonClientsWellFormed | mpcereform/core.py:67-84 | every known name maps to a `cl` + four-digit code, and no code is itself a known name |
| Darnton.LookupClient | mpcereform/core.py:731-732 | a known name becomes the client code `DARNTON_CLIENTS` gives it, a well-formed `cl` code; anything else is kept |
| Darnton.LookupClientIdempotent | mpcereform/core.py:731-732 | looking up twice is the same as looking up once |
| Darnton.ReplaceUnknown | mpcereform/core.py:735 | every `?` becomes `0` and nothing else changes |
| Darnton.ReshapeDateSpec | mpcereform/core.py:735-739 | the result has no `?`; a date of ten or more characters gives ten characters with `-` at 4 and 7 |
| Darnton.ReshapeDayMonthYear | mpcereform/core.py:736-739 | `DD/MM/YYYY...` becomes `YYYY-MM-DD` with unknown digits zeroed |
| Darnton.ExampleDates | mpcereform/core.py:735-739 | `1?/03/1778` becomes `1778-03-10`; an empty date becomes `--` |
| Darnton.ImportSample | mpcereform/core.py:723-744 | the loop gives exactly the orders of the specification function |
| Darnton.OrdersSpec | mpcereform/core.py:723-744 | the import succeeds exactly when every date cell is text, and then gives one order per row, in order |
| Darnton.OrdersFirstFailure | mpcereform/core.py:731-739 | a failed import names the first row whose date cell is not text |
| Workbook.Invert | mpcereform/core.py:1055 | Python's `~n` is `-n - 1` |
| Workbook.InvertBoolTruthy | mpcereform/core.py:1055 | `~True` is -2 and `~False` is -1, and both are truthy (the same guard recurs at line 1583) |
| Workbook.SqlText | mpcereform/core.py:1070-1077 | an empty cell is NULL and a text cell is its text |
| Spreadsheet.SkipAsWrittenAlways | mpcereform/core.py:1055 | the guard as written holds for every row (the same guard recurs at line 1583) |
| Spreadsheet.Zip | mpcereform/core.py:1067 | pairs up to the shorter list (`zip` is used the same way at line 1588) |
| Spreadsheet.ConsignmentClients | mpcereform/core.py:1053-1070 | the loop keeps, for each client code, the first candidate with that code |
| Spreadsheet.CandidatesAsWritten | mpcereform/core.py:1053-1070 | with the guard as written, no consignment client is collected |
| Spreadsheet.FirstByCodeDistinct | mpcereform/core.py:1067-1070 | the collected clients have distinct codes |
| Spreadsheet.FirstByCodeFrom | mpcereform/core.py:1067-1070 | every collected client is a candidate |
| Spreadsheet.FirstByCodeKeys | mpcereform/core.py:1067-1070 | every candidate's code is collected |
| Spreadsheet.FirstByCodeFirst | mpcereform/core.py:1067-1070 | the first candidate with each code is the one kept |
| Spreadsheet.ConsignmentRowCollected | mpcereform/core.py:1053-1070 | with the intended guard, every code of a row with text in both cells is collected |
| Spreadsheet.ImportSpreadsheetAgents | mpcereform/core.py:1577-1589 | the loop gives exactly the agencies of the specification function |
| Spreadsheet.AppendRowAgencies | mpcereform/core.py:1588-1589 | the inner loop appends exactly the stripped (code, name) pairs of one row, in order |
| Spreadsheet.AgenciesAsWritten | mpcereform/core.py:1583-1584 | with the guard as written, no agency row is produced |
| Spreadsheet.RowAgenciesSpec | mpcereform/core.py:1586-1589 | a row gives min(names, codes) pairs; each carries the row's consignment, and its code and text hold no `;` and no outer whitespace |
| Spreadsheet.AgenciesIntended | mpcereform/core.py:1577-1589 | with the intended guard, the rows with text in both cells give all their pairs, and only those |
| Clients.ConcatNotes | mpcereform/core.py:1036 | `CONCAT(IFNULL(old,''), label, new)` is NULL when the new note is, and otherwise starts with the old note (none when NULL), ends with the label and the new note, and has nothing in between |
| Clients.Upserted | mpcereform/core.py:1029-1036 | a new code is inserted with its row; an existing code changes only its notes; other codes are untouched |
| Clients.UpsertedAllKeys | mpcereform/core.py:1029-1088 | after a batch, the codes are the old codes plus the batch's codes |
| Clients.UpsertedAllKeepsFirst | mpcereform/core.py:1029-1088 | a row already present keeps every column but notes |
| Clients.UpsertedAllFirstWins | mpcereform/core.py:1029-1088 | the first batch row with a new code fixes every column but notes |
| Clients.UpsertedAllUntouched | mpcereform/core.py:1029-1088 | a code not in the batch is unchanged |
| Clients.UpsertedAllNotesGrow | mpcereform/core.py:1029-1088 | notes only grow while every later note for the code is non-NULL |
| Clients.UpsertNullNoteErases | mpcereform/core.py:1036 | a duplicate with a NULL note makes the notes NULL and leaves the other columns |
| Clients.AllClients.constructor | mpcereform/core.py:1006-1018 | the table starts empty |
| Clients.AllClients.Insert | mpcereform/core.py:1020-1026 | a plain insert of a new code |
| Clients.AllClients.Upsert | mpcereform/core.py:1029-1036 | one `INSERT ... ON DUPLICATE KEY UPDATE` row gives the upserted map |
| Clients.AllClients.InsertAll | mpcereform/core.py:1020-1026 | inserting distinct new codes is upserting them with no label |
| Clients.AllClients.UpsertAll | mpcereform/core.py:1029-1088 | a batch upsert is the row-by-row fold |
| Clients.StnEntries | mpcereform/core.py:1020-1026 | one row per STN client, under its code |
| Clients.DealerEntries | mpcereform/core.py:1028-1037 | one row per dealer, under its code |
| Clients.InspectorEntries | mpcereform/core.py:1039-1047 | one row per inspector, under its code |
| Clients.ConsigneeEntries | mpcereform/core.py:1071-1077 | one row per consignment client, under its code |
| Clients.SimpleRowsRead | mpcereform/core.py:1090 | only sheet rows 2 to 249 are read |
| Clients.SimpleEntries | mpcereform/core.py:1083-1090 | one row per permission-simple row, under the code in its first cell |
| Clients.CollectClients | mpcereform/core.py:1006-1090 | the five inserts give a fresh table holding `AllClientsOf` |
| Clients.AllClientsKeys | mpcereform/core.py:1006-1090 | the table's codes are the union of the five sources' codes |
| Clients.AllClientsStnFirst | mpcereform/core.py:1020-1026 | an STN client keeps its name and gender, and its partnership becomes `corporate`; the columns STN does not fill stay NULL |
| Authors.AssignedAuthors | mpcereform/core.py:918-925 | the loop gives exactly the reviewed pairs |
| Authors.AssignedPairsSpec | mpcereform/core.py:918-925 | a pair is assigned exactly when some row with `Y` in the `correct` column carries it |
| Authors.Unassigned | mpcereform/core.py:942-950 | an author is unassigned exactly when no assigned pair with a non-NULL agent names its code |
| Authors.UnassignedMapKeys | mpcereform/core.py:951 | the dict has exactly the unassigned author codes |
| Authors.UnassignedMapLast | mpcereform/core.py:951 | an author code listed twice keeps its last name |
| Authors.IndexOf | mpcereform/core.py:956-957 | the first position of a name in the enumeration |
| Authors.EnumerationLength | mpcereform/core.py:953-954 | `num` is the number of distinct names |
| Authors.ResolveCodes | mpcereform/core.py:953-959 | author resolution succeeds exactly when the code generator does, and makes one agent per distinct name |
| Authors.ResolveCoversAuthors | mpcereform/core.py:963 | every unassigned author code gets an agent, and that agent bears its name |
| Authors.ResolveAgentOf | mpcereform/core.py:956-963 | an author's agent code is the fresh code at its name's position in the iteration order |
| Authors.ResolveGroupsByName | mpcereform/core.py:956-963 | two authors get the same agent exactly when they share a name |
| Authors.ResolveNewAgents | mpcereform/core.py:953-961 | the new agents have distinct codes and distinct names, no code is already in use, and their names are exactly the unassigned names |
| Authors.ResolveAuthorsCovers | mpcereform/core.py:918-963 | an author code gets a new agent exactly when it is an author's code with no reviewed agent |
| Agents.Partnership | mpcereform/core.py:1114-1117 | the joined `partnership` comes from an STN client with that code, and is NULL when there is none |
| Agents.InitialLinksSpec | mpcereform/core.py:1111-1118 | a link is copied exactly when its client is an STN client whose partnership is false |
| Agents.ClassifyRules | mpcereform/core.py:1128-1137 | a row is kept exactly when it has `Y` for person or for corporate; person wins, and the other cells are kept |
| Agents.ClassifyClients | mpcereform/core.py:1126-1137 | the loop gives exactly the classified rows |
| Agents.ClassifiedSpec | mpcereform/core.py:1126-1137 | a new client is listed exactly when some row classifies to it |
| Agents.NewClientLinks | mpcereform/core.py:1146-1154 | the i-th new client is linked to the i-th new code |
| Agents.NewClientLinksFresh | mpcereform/core.py:1138-1154 | every new client gets its own code, not in use before |
| Agents.Xor | mpcereform/core.py:1171 | SQL XOR: NULL when either side is, otherwise true exactly when the sides differ |
| Agents.MismatchedRowsSpec | mpcereform/core.py:1165-1172 | the join yields copies of the client only, and some exactly when it has a link to an agent of a different corporate status |
| Agents.MismatchedRowsCount | mpcereform/core.py:1165-1172 | the join yields the client once per link to an agent of a different corporate status |
| Agents.ClientSelectionCount | mpcereform/core.py:1160-1176 | the query returns a client no times when its name is `null`, once when it has no link, otherwise once per mismatched link |
| Agents.ClientSelectionSpec | mpcereform/core.py:1160-1176 | a client is selected when its name passes and it has no link or a mismatched link |
| Agents.SelectedSpec | mpcereform/core.py:1160-1176 | a client is selected exactly when it is in `all_clients`, its name is not `null`, and it has no agent or an agent of a different corporate status |
| Agents.SelectedCount | mpcereform/core.py:1160-1179 | `num_new_codes` counts each client of `all_clients` once per row the query returns for it, so one code is drawn per unlinked client and per mismatched link |
| Agents.NormaliseGenderRules | mpcereform/core.py:1195-1203 | `mixed...` gives no gender and corporate; any other `m...` gives `M` and `f...` gives `F`, the corporate flag unchanged; anything else, and NULL, is unchanged; corporate changes only for `mixed` |
| Agents.NormaliseGenderIdempotent | mpcereform/core.py:1195-1203 | normalising twice is normalising once |
| Agents.NextDelimiter | mpcereform/core.py:1206-1213 | finds the first `,` or `;` from a position |
| Agents.MatchEnd | mpcereform/core.py:1206-1213 | a separator match takes the delimiter and all the whitespace after it |
| Agents.Separators | mpcereform/core.py:1206-1213 | there is one separator fewer than pieces |
| Agents.SplitStep | mpcereform/core.py:1206-1213 | the split is the text before the first match, then the split of what follows the match |
| Agents.SeparatorsShape | mpcereform/core.py:1206-1213 | each separator is `,` or `;` followed by whitespace |
| Agents.SplitListRejoin | mpcereform/core.py:1206-1213 | interleaving pieces and separators gives back the original string, so the pieces keep their order |
| Agents.SplitListClean | mpcereform/core.py:1206-1213 | no piece contains `,` or `;` |
| Agents.SplitListHead | mpcereform/core.py:1206-1213 | the first piece is a prefix of the string |
| Agents.SplitListNoLeadingSpace | mpcereform/core.py:1206-1213 | a non-empty piece after the first never starts with whitespace |
| Agents.SplitListCount | mpcereform/core.py:1206-1213 | the number of pieces is the number of `,` and `;` plus one |
| Agents.SplitListSingle | mpcereform/core.py:1206-1213 | a string without delimiters is one piece |
| Agents.Process | mpcereform/core.py:1192-1218 | the processed agent carries its code, the client's name, alternative name and title, and the normalised gender and corporate status |
| Agents.Tagged | mpcereform/core.py:1206-1213 | a NULL list gives nothing; otherwise each piece, in order, is paired with the agent code |
| Agents.ProcessedAll | mpcereform/core.py:1191-1218 | one processed agent per (client, code) pair, in order |
| Agents.AppendTagged | mpcereform/core.py:1207-1213 | the inner loop appends the tagged pieces |
| Agents.SynthesisStep | mpcereform/core.py:1191-1218 | one more pair adds one processed agent and that client's tagged places and professions |
| Agents.Synthesise | mpcereform/core.py:1188-1218 | the loop gives the processed agents, places and professions of the specification functions over `zip(new_agents, code_list)` |
| Agents.AssignsSpec | mpcereform/core.py:1206-1213 | every place or profession assignment comes from one client's list under that client's code, and holds no delimiter |
| Agents.AssignsAppend | mpcereform/core.py:1206-1213 | assignments of a longer list extend those of the shorter |
| Agents.ChosenLinks | mpcereform/core.py:1182-1185 | the i-th selected client is linked to the i-th new code |
| Agents.ChosenAgentsFresh | mpcereform/core.py:1177-1218 | each selected client gets one new agent whose code is its link, unused before and distinct from the others |
| Propagation.NewAddressesSpec | mpcereform/core.py:1245-1247 | a pair survives exactly when it is not an existing address, as often as it was offered (duplicates in the new list are kept) |
| Propagation.NewAddressesAppend | mpcereform/core.py:1247 | the filter keeps the order: filtering a concatenation concatenates the filtered parts |
| Propagation.TrimSpaces | mpcereform/core.py:1266 | MySQL `TRIM` leaves no outer spaces and keeps a string that has none |
| Propagation.TrimSpacesSpec | mpcereform/core.py:1266 | `TRIM` gives the middle of the string: what it removes in front and behind is spaces only |
| Propagation.MergeNotesAsWritten | mpcereform/core.py:1264-1268 | the update as written gives non-NULL notes exactly when the client's notes are non-NULL, and then gives `IFNULL(agent notes, '') + ' ' + client notes` with only its outer spaces removed |
| Propagation.MergeNotesAsWrittenNoAgentNotes | mpcereform/core.py:1264-1268 | an agent with NULL notes, as every agent inserted without notes at mpcereform/core.py:1219-1225 is, takes its client's notes trimmed |
| Propagation.MergeNotesAsWrittenErases | mpcereform/core.py:1264-1268 | an agent with notes `Libraire` whose client has NULL notes ends with NULL notes |
| Propagation.MergeNotes | mpcereform/core.py:1264-1268 | the corrected merge agrees with the one as written whenever the client has notes |
| Propagation.MergeNotesKeeps | mpcereform/core.py:1264-1268 | the corrected merge keeps the agent's notes when the client has none, and never loses notes |
| Propagation.MergeNotesJoins | mpcereform/core.py:1266 | two notes are joined by one space |
| Propagation.UpdatedNotesAsWrittenSpec | mpcereform/core.py:1264-1268 | the update as written keeps the set of agents and the notes of agents outside the join, merges the client's notes into a joined agent's, and leaves NULL on a joined agent whose client has NULL notes |
| Propagation.UpdatedNotesIntendedSpec | mpcereform/core.py:1264-1268 | the corrected update (not what the program does): agents outside the join keep their notes, the set of agents is unchanged, no notes are emptied, and it agrees with the update as written wherever the client has notes |
| Propagation.LinkMapSpec | mpcereform/core.py:1273-1407 | for a functional `client_agent`, the map holds exactly its links |
| Propagation.Resolved | mpcereform/core.py:1273-1407 | the column keeps its length |
| Propagation.ResolveColumn | mpcereform/core.py:1273-1285 | one `UPDATE ... LEFT JOIN client_agent ... SET col = ca.agent_code` rewrites the array into the resolved column |
| Propagation.ResolvedSpec | mpcereform/core.py:1273-1407 | a client code becomes its agent's code; any other value and NULL become NULL; every value left is an agent code |
| Propagation.ResolvedTwice | mpcereform/core.py:1273-1407 | running the update twice leaves only NULL when no agent code is a client code |

## Left out

- Database access, openpyxl and `uuid1`. Cursor results and worksheet rows
  are parameters; `print`, `commit` and the connection are not modelled.
- `\d`, `\w`, `\s`, `str.lower` and `str.strip` are modelled on the first
  128 code points only: `\s` and `str.strip` take tab to carriage return,
  `\x1c` to `\x1f` and space. Python's Unicode classes are wider (`\x85`,
  `\xa0`, other Unicode digits, letters and spaces).
- `int()` is modelled on plain digit strings. Signs, underscores and
  surrounding whitespace, which `int()` also accepts, are not modelled.
- String comparisons use exact equality. MySQL's case-insensitive collations
  (in the joins and the `PRIMARY KEY` of `all_clients`) are not modelled.
  The one exception is `NOT LIKE 'null'`, which is modelled without regard
  to case.
- Cells are text, integers or empty. Float and datetime cells are not
  modelled.
- The import of `manuscripts.people` and `clients_people` at the start of
  `resolve_agents` (mpcereform/core.py:845-905) is not modelled. It is
  straight SQL; `parse_date` is modelled on its own.
- The authorship and profession inserts (mpcereform/core.py:970-1000) are
  not modelled. They are `INSERT ... SELECT` with no Python logic.
- The `clients_addresses` copy (mpcereform/core.py:1232-1238) and the
  `INSERT IGNORE` of professions (mpcereform/core.py:1255-1259) are not
  modelled. The professions insert dedupes in the database, not in Python.
- The `GROUP_CONCAT` collector and censor strings
  (mpcereform/core.py:1287-1345) are not modelled. Their order is
  unspecified without `ORDER BY`.
- The `is_member_of` insert (mpcereform/core.py:1410-1424) is not modelled.
  It is a plain `INSERT ... SELECT`.
- The final keyword copy (mpcereform/core.py:190-196) and the work-keyword
  insert after the split are not modelled.
- Authors.Resolve: the iteration order of `set(unassigned_auths.values())`
  depends on string hashing. It is a parameter `order`, required only to
  list each distinct name once.
- Authors.AssignedPairs: the `PRIMARY KEY(author_code, agent_code)` of
  the temporary `author_agent` table (mpcereform/core.py:927-937) is not
  modelled. A reviewed pair listed twice, or one with an empty agent cell,
  makes that insert raise; the model accepts both, and `HasAgent` ignores
  the pair with no agent.
- Authors.Unassigned: the row order of the unassigned-authors query
  (mpcereform/core.py:940-951) is fixed as the order of
  `manuscript_authors`. MySQL does not promise one without `ORDER BY`, and
  the order decides which name wins in `UnassignedMap` for a code listed
  twice.
- The `INSERT` of an agent for each classified new client
  (mpcereform/core.py:1141-1145) is not modelled beyond the codes drawn and
  the links made (`Agents.NewClientLinks`). Nothing ties the `agents` map
  given to `Agents.Selected` to the corporate flags of those inserts or of
  any other agent rows.
- Agents.Selected: the row order of the selection query is fixed as the
  `all_clients` order times the `client_agent` order. MySQL does not promise
  an order without `ORDER BY`.
- Propagation.LinkMap: `client_agent` is read as a function from client to
  agent. The program does not keep it one: the insert at
  mpcereform/core.py:1182-1185 adds a second link for every client
  re-selected because of a mismatched agent and leaves the old link in
  place. A client linked to several agents makes the multi-table `UPDATE`
  pick one row unpredictably, which is not modelled; `LinkMapSpec` and
  `ResolvedSpec` are stated only for a functional `client_agent`.
- Propagation.UpdatedNotesAsWritten: each agent merges the notes of one client.
  An agent reached through several clients gets only one of their notes
  appended.
- Clients.CollectClients: a NULL client code, which MySQL would reject as
  a primary key, is not modelled. Codes from the database are strings, and
  the first cell of each permission-simple row is required to be
  non-empty. STN client codes are required to be distinct because they are
  the key of `stn_client`.
- Agents.NewClientLinks: the client code cells are required to be
  non-empty, since `client_agent.client_code` is `NOT NULL`.
- Clients.Upserted: on a duplicate code only the notes change. Empty
  columns are not filled from the later source; the code updates notes
  only.
- Darnton.DarntonClientsWellFormed: it does not state that the map is
  injective. Two names never share a code in the constant, but nothing
  relies on it.
- Nothing corrects the quirk shown by Codes.PrefixEatenPastWidth: it is
  modelled as written. A numeral wider than the zero run eats prefix
  letters, and for real agent codes this only happens after `id999999`.

## Findings

| source | as written | input that shows it | evidently intended | confidence | as-written member | corrected member |
|---|---|---|---|---|---|---|
| mpcereform/core.py:1055 | `if isinstance(row[3], str) or ~isinstance(row[2], str): continue`. `~` on a bool is -1 or -2, always truthy, so every row is skipped | any row, e.g. codes `cl0001;cl0002` and names `A;B` | skip the row unless both cells are text | high (not executed) | Spreadsheet.CandidatesAsWritten | Spreadsheet.ConsignmentRowCollected |
| mpcereform/core.py:1583 | `if isinstance(names, str) or ~isinstance(codes, str): continue` skips every row for the same reason, so no agency relation is ever inserted | any row, e.g. names `A;B` and codes `cl0001;cl0002` | skip the row unless both cells are text | high (not executed) | Spreadsheet.AgenciesAsWritten | Spreadsheet.AgenciesIntended |
| mpcereform/core.py:1264-1268 | `SET a.notes = TRIM(CONCAT(IFNULL(a.notes, ''), ' ', ac.notes))` is NULL whenever the client's notes are NULL, erasing the agent's own notes | an agent with notes `Libraire` linked to a client whose notes are NULL | keep the agent's notes when the client has none | medium (not executed) | Propagation.UpdatedNotesAsWrittenSpec | Propagation.UpdatedNotesIntendedSpec |
