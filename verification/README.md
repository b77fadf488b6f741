# Wedding RSVP handlers: Dafny model

The wedding RSVP site runs on two serverless handlers around one Google
spreadsheet, the guest table `Sheet1`. Column A holds the guest's name,
column B their comma-separated companions, and columns C..G the answer:
status, dietary needs, accommodation, date and who submitted it.

- The **Party Resolver** (`netlify/functions/get-guests.js`) reads
  `Sheet1!A:B` and groups the rows into parties keyed by guest name. A
  party is its members plus its 1-based sheet row. An empty or absent read
  is an error ("No data found in spreadsheet").
- The **RSVP Reconciler** (`netlify/functions/submit-rsvp.js`) re-reads
  `Sheet1!A:G` and maps each name to its sheet row. Each response whose
  name is found becomes a write of five cells, `Sheet1!C{row}:G{row}`.
  Responses for unknown names are skipped. All writes go in one `RAW`
  batch, and the handler reports the number of writes as `count`.

The model is a set of pure functions over immutable values. A submission
is therefore fixed by the read, the responses, the submitter and the
timestamp: the same inputs always build the same writes.

| module (file) | what it holds |
|---|---|
| `Wrappers` (wrappers.dfy) | `Option` and `Result` |
| `Text` (text.dfy) | JavaScript `split` on one character, `trim` with the ECMAScript whitespace set, `filter(m => m)` |
| `Decimal` (decimal.dfy) | the decimal text of a row number inside a range reference |
| `Sheet` (sheet.dfy) | rows and cells, and the header-skipping, last-row-wins scan both handlers run |
| `PartyResolver` (party_resolver.dfy) | get-guests.js |
| `RsvpReconciler` (rsvp_reconciler.dfy) | submit-rsvp.js |
| `SheetStore` (sheet_store.dfy) | what applying a batch does to the sheet's cells |
| `Alignment` (alignment.dfy) | the two handlers agree on which row belongs to which guest |
| `Scenarios` (scenarios.dfy) | small sheets worked through end to end |

A cell past the end of a ragged row is JavaScript `undefined`. Both
handlers only test it for truthiness, or use it where "" would behave the
same, so the model reads a missing cell as "".

A non-empty companions cell holding only commas and whitespace gives a
party with no members, because the code tests the raw cell
(`if (partyMembersStr)`), not the filtered list. A party is therefore not
guaranteed to have a member. `PartyResolver.MembersShape` states this case
and `Scenarios.BlankCompanionsGiveNoMembers` shows it on `" , "`.

## Model

| member | source | states |
|---|---|---|
| Text.Split | netlify/functions/get-guests.js:56 | `split(',')` gives one more piece than there are separators; no piece holds the separator; the first piece runs up to the first separator |
| Text.JoinSplit | netlify/functions/get-guests.js:56 | joining the pieces of a split with the separator gives back the original cell |
| Text.SplitJoin | netlify/functions/get-guests.js:56 | splitting a join of separator-free pieces gives back those pieces |
| Text.SplitWithoutSeparator | netlify/functions/get-guests.js:56 | a string without the separator splits into itself alone |
| Text.SplitAfterSeparator | netlify/functions/get-guests.js:56 | a leading separator yields an empty first piece followed by the split of the rest |
| Text.TrimStartMeaning | netlify/functions/get-guests.js:56 | removing leading whitespace leaves a suffix that does not start with whitespace, with only whitespace cut off |
| Text.TrimEndMeaning | netlify/functions/get-guests.js:56 | removing trailing whitespace leaves a prefix that does not end with whitespace, with only whitespace cut off |
| Text.TrimMeaning | netlify/functions/get-guests.js:56 | `trim()` returns the contiguous middle of the string; it neither starts nor ends with whitespace; everything cut off on either side is whitespace |
| Text.TrimEmptyIff | netlify/functions/get-guests.js:56 | a piece trims to "" exactly when it is whitespace only |
| Text.TrimStartSkips | netlify/functions/get-guests.js:56 | leading whitespace in front of a non-blank start is exactly what is removed |
| Text.TrimEndSkips | netlify/functions/get-guests.js:56 | trailing whitespace after a non-blank end is exactly what is removed |
| Text.TrimPadded | netlify/functions/get-guests.js:56 | trimming undoes padding a non-blank-edged string with whitespace on both sides |
| Text.TrimBare | netlify/functions/get-guests.js:56 | a string with non-whitespace edges trims to itself |
| Text.Trim | netlify/functions/get-guests.js:56 | `m.trim()`: strips leading then trailing whitespace; what it returns is stated by `Text.TrimMeaning` |
| Text.TrimIdempotent | netlify/functions/get-guests.js:56 | trimming twice is trimming once |
| Text.TrimKeepsOut | netlify/functions/get-guests.js:56 | trimming adds no character, so a piece without a comma stays without one |
| Text.DropEmpty | netlify/functions/get-guests.js:56 | `filter(m => m)`: never longer than its input; which entries it keeps, and in what order, is stated by `Text.DropEmptyMeaning` and `Text.DropEmptyConcat` |
| Text.DropEmptyMeaning | netlify/functions/get-guests.js:56 | `filter(m => m)` keeps exactly the non-empty entries |
| Text.DropEmptyConcat | netlify/functions/get-guests.js:56 | filtering distributes over concatenation, so relative order is kept |
| Text.DropEmptyNil | netlify/functions/get-guests.js:56 | filtering gives [] exactly when every entry is empty |
| Text.TrimEachCons | netlify/functions/get-guests.js:56 | `map(m => m.trim())` trims the first entry and maps the rest |
| Text.SplitTrimmed | netlify/functions/get-guests.js:56 | `split(',').map(m => m.trim()).filter(m => m)` composed from the three; its shape is stated by `Text.SplitTrimmedShape` and `Text.SplitTrimmedEmptyIff` |
| Text.SplitTrimmedShape | netlify/functions/get-guests.js:56 | split-trim-filter gives at most separators+1 entries, each non-empty, without a comma, and without whitespace at either edge |
| Text.PiecesBlankIff | netlify/functions/get-guests.js:56 | every piece of a split is whitespace only exactly when the string is separators and whitespace only |
| Text.SplitTrimmedEmptyIff | netlify/functions/get-guests.js:56 | split-trim-filter gives [] exactly when the cell holds only commas and whitespace |
| Decimal.Digits | netlify/functions/submit-rsvp.js:66 | the text of a row number is non-empty decimal digits without a leading zero |
| Decimal.ValueOfDigits | netlify/functions/submit-rsvp.js:66 | reading the decimal text back gives the row number |
| Decimal.DigitsInjective | netlify/functions/submit-rsvp.js:66 | distinct row numbers have distinct decimal text |
| Sheet.LastNamedUnique | netlify/functions/get-guests.js:61-64 | at most one row is the last one carrying a given name |
| Sheet.LastRowMeaning | netlify/functions/get-guests.js:49-64 | the last-row search finds a row exactly when some data row carries the name, and that row is the last such |
| Sheet.IndexNamed | netlify/functions/get-guests.js:49-64 | the loop both handlers share, from index 1, skipping empty names, storing at position i+1, later rows overwriting; what it builds is stated by `Sheet.IndexNamedMeaning` |
| Sheet.IndexNamedMeaning | netlify/functions/get-guests.js:49-64 | the scan has a key exactly for each non-empty name in rows 2.. and holds, for it, the entry of the last row with that name at its 1-based position |
| Sheet.IndexNamedIgnoresHeader | netlify/functions/get-guests.js:49 | the scan starts at index 1 and never reads the header row |
| Sheet.LastNamedTransfers | netlify/functions/submit-rsvp.js:37-40 | two reads that agree on column A have the same last row for every name |
| PartyResolver.Members | netlify/functions/get-guests.js:54-59 | the members of one row: `[name]` when the companions cell is empty or missing, else split-trim-filter of the cell; stated by `PartyResolver.MembersShape` |
| PartyResolver.MembersShape | netlify/functions/get-guests.js:54-59 | an empty or missing companions cell gives the guest alone; otherwise the members are the cell's trimmed non-empty entries; the guest is not added; there are none exactly when the cell is only commas and whitespace |
| PartyResolver.Scan | netlify/functions/get-guests.js:47-65 | the party loop; the map it builds is stated by `PartyResolver.ScanMeaning` and `PartyResolver.PartiesOfUnique` |
| PartyResolver.ScanMeaning | netlify/functions/get-guests.js:47-65 | the party map has one key per non-empty name in the data rows; each party is the members of the last row with that name, at that row's 1-based position |
| PartyResolver.PartiesOfUnique | netlify/functions/get-guests.js:47-65 | that description fixes the party map completely |
| PartyResolver.ResolveParties | netlify/functions/get-guests.js:41-45 | an absent or empty read fails with "No data found in spreadsheet" and anything else succeeds; on success the map is as described, and every row position lies between 2 and the number of rows |
| PartyResolver.HeaderOnlyHasNoParties | netlify/functions/get-guests.js:43-49 | a header-only sheet resolves without error to no parties |
| PartyResolver.HeaderIgnored | netlify/functions/get-guests.js:49 | the parties do not depend on the header row |
| PartyResolver.LaterRowWins | netlify/functions/get-guests.js:61-64 | of two rows with the same name, the earlier one never supplies the party |
| PartyResolver.LastRowDecides | netlify/functions/get-guests.js:61-64 | the last row with a name supplies that party's members and row position |
| RsvpReconciler.RowIndex | netlify/functions/submit-rsvp.js:44-50 | the `nameToRow` loop; the index it builds is stated by `RsvpReconciler.RowIndexMeaning` |
| RsvpReconciler.ReadRows | netlify/functions/submit-rsvp.js:42 | `values \|\| []`; that an absent read acts as an empty sheet is stated by `RsvpReconciler.AbsentReadWritesNothing` |
| RsvpReconciler.RowIndexMeaning | netlify/functions/submit-rsvp.js:44-50 | the name-to-row index holds exactly the non-empty names of the data rows, each mapped to 1 + the position of its last row, a value between 2 and the number of rows |
| RsvpReconciler.RowIndexAt | netlify/functions/submit-rsvp.js:44-50 | the same, for one name |
| RsvpReconciler.RowIndexDependsOnNamesOnly | netlify/functions/submit-rsvp.js:44-50 | the index depends only on column A: reads that agree on names give the same index |
| RsvpReconciler.RowIndexIncluded | netlify/functions/submit-rsvp.js:44-50 | every entry of one read's index is, with the same row, in the index of a read with the same names |
| RsvpReconciler.EntryTransfers | netlify/functions/submit-rsvp.js:44-50 | one name's entry carries over between reads with the same names |
| RsvpReconciler.CurrentDate | netlify/functions/submit-rsvp.js:53 | the date is the prefix of the ISO timestamp up to, and not including, its first 'T' |
| RsvpReconciler.Status | netlify/functions/submit-rsvp.js:63 | "Attending" for a true `attending`, "Not Attending" otherwise; stated through `RsvpReconciler.UpdateFor` |
| RsvpReconciler.OrEmpty | netlify/functions/submit-rsvp.js:69-70 | `value \|\| ''` for an optional answer; stated through `RsvpReconciler.UpdateFor` |
| RsvpReconciler.UpdateFor | netlify/functions/submit-rsvp.js:63-74 | one row of five values for columns C..G of the guest's row: "Attending" exactly when attending and "Not Attending" otherwise; dietary and accommodation or "" when missing; then the date and the submitter |
| RsvpReconciler.BuildUpdates | netlify/functions/submit-rsvp.js:55-75 | at most one update per response; each targets a row found in the index, spans C..G and carries five values with the shared date and submitter |
| RsvpReconciler.MatchedPositions | netlify/functions/submit-rsvp.js:56-61 | the positions of the responses whose name is in the index, strictly increasing, and all of them |
| RsvpReconciler.UpdatesFollowMatches | netlify/functions/submit-rsvp.js:55-75 | the k-th update is the update of the k-th matched response, written to the row the index gives its name |
| RsvpReconciler.UpdateCount | netlify/functions/submit-rsvp.js:55-75 | the number of updates is the number of responses whose name is in the index |
| RsvpReconciler.UpdatesConcat | netlify/functions/submit-rsvp.js:55-75 | the updates of joined response lists are the updates of each list, joined |
| RsvpReconciler.UnknownNameSkipped | netlify/functions/submit-rsvp.js:56-61 | a response with an unknown name adds nothing and leaves the updates around it unchanged |
| RsvpReconciler.KnownNameWritten | netlify/functions/submit-rsvp.js:63-74 | a response with a known name adds exactly its own update, in its place |
| RsvpReconciler.A1 | netlify/functions/submit-rsvp.js:66 | the range text `Sheet1!C{n}:G{n}`; that distinct rows get distinct texts is stated by `RsvpReconciler.A1Injective`, and row 2 by `Scenarios.RangeTextExample` |
| RsvpReconciler.A1Injective | netlify/functions/submit-rsvp.js:66 | distinct rows get distinct `Sheet1!C{n}:G{n}` range texts |
| RsvpReconciler.WireAll | netlify/functions/submit-rsvp.js:65-67 | the batch data are the updates rendered entry for entry, in order, as range text plus values |
| RsvpReconciler.Submit | netlify/functions/submit-rsvp.js:77-95 | the batch is sent `RAW`; `count` equals the number of batch entries and is at most the number of responses; an absent read writes nothing; every entry holds one row of five values with the request's date and the submitter |
| RsvpReconciler.SubmitWritesMatched | netlify/functions/submit-rsvp.js:55-83 | the batch has one entry per response whose guest is in the sheet, in response order; entry k is the `Sheet1!C{n}:G{n}` range of the k-th matched guest's row n with that response's five values |
| RsvpReconciler.SubmitCount | netlify/functions/submit-rsvp.js:95 | `count` is the number of responses whose guest is in the sheet, not the number submitted |
| RsvpReconciler.AllMatched | netlify/functions/submit-rsvp.js:56-61 | when every response names an indexed guest, every response is kept, each at its own position |
| RsvpReconciler.AbsentReadWritesNothing | netlify/functions/submit-rsvp.js:42 | an absent read behaves like an empty sheet: no error, an empty `RAW` batch, count 0 |
| SheetStore.Cells | netlify/functions/submit-rsvp.js:65-74 | an update writes only cells inside its own range |
| SheetStore.Footprint | netlify/functions/submit-rsvp.js:77-83 | every cell a batch writes lies in the range of one of its updates |
| SheetStore.ApplyIsOverlay | netlify/functions/submit-rsvp.js:77-83 | applying a batch overlays what it writes on the sheet, whatever the sheet held |
| SheetStore.ApplyTwice | netlify/functions/submit-rsvp.js:77-83 | applying the same batch twice leaves the sheet as applying it once, so a resubmission overwrites and does not accumulate |
| SheetStore.ApplyLeavesOthers | netlify/functions/submit-rsvp.js:77-83 | a cell outside every range of the batch keeps its value, and an absent one stays absent |
| SheetStore.SubmissionKeepsGuestColumns | netlify/functions/submit-rsvp.js:66 | a submission never changes a cell of columns A or B: an empty one stays empty and a filled one keeps its value |
| Alignment.PartyRowsMatchIndex | netlify/functions/get-guests.js:61-64 | given reads that agree on column A, the party names are exactly the indexed names, and each party's row is the row the submission writes for that name |
| Alignment.PartyNamesAllWritten | netlify/functions/submit-rsvp.js:55-75 | when every response names a resolved party, every response is written, in order, to its party's row, and `count` is the number of responses |
| Scenarios.CompanionsSplitAndTrimmed | netlify/functions/get-guests.js:56 | companions "A, B ,,C" give members A, B, C |
| Scenarios.BlankCompanionsGiveNoMembers | netlify/functions/get-guests.js:55-59 | companions " , " give no members; an empty or missing cell gives the guest alone |
| Scenarios.GuestSheetParties | netlify/functions/get-guests.js:47-65 | a three-row sheet gives Alice's companions at row 2 and Dave alone at row 3 |
| Scenarios.EmptyReadFails | netlify/functions/get-guests.js:43-45 | an empty read and an absent read both fail with the no-data message |
| Scenarios.DuplicateNameLaterWins | netlify/functions/get-guests.js:61-64 | with two rows named Ann, both handlers use the later one |
| Scenarios.DateExample | netlify/functions/submit-rsvp.js:53 | "2026-06-13T10:00:00.000Z" gives the date "2026-06-13" |
| Scenarios.RangeTextExample | netlify/functions/submit-rsvp.js:66 | row 2 is written as "Sheet1!C2:G2" |
| Scenarios.GuestSheetSubmission | netlify/functions/submit-rsvp.js:52-95 | a known and an unknown guest give one `RAW` write to C2:G2 with the five values, and a count of 1 |

## Left out

- Transport: HTTP method handling, the 405 and 500 responses, CORS headers
  and JSON encoding of bodies are left out. The model starts from the
  values the handlers read and ends with the values they return or send.
- Store access: the Google Sheets client, authentication and environment
  variables are left out. A read is a parameter, an `Option<seq<Row>>`
  where `None` is an absent `values` field. The batch write is a returned
  value, and `SheetStore` gives the overwrite meaning the handler relies on.
- The clock: `new Date()` becomes a timestamp parameter, the text that
  `toISOString()` would give.
- Logging: `console.warn` for unknown guests and `console.error` are left
  out. They have no effect on the result.
- JavaScript object keys: `parties` and `nameToRow` are plain objects. A name
  such as `__proto__` or `constructor` would interact with the prototype. The
  model uses a map, which has no such keys.
- Request parsing: `JSON.parse` of the request body is left out.
  `Response.name` is a string and `attending` a boolean. A missing name,
  which the source would coerce to the key "undefined", and truthy
  non-boolean `attending` values are not modelled. A missing dietary or
  accommodation answer is `None`. A present but empty one is `Some("")`,
  which `|| ''` maps to "" as well.
- Characters: strings are sequences of Unicode scalar values, whereas
  JavaScript uses UTF-16 code units. This makes no difference for
  `split(',')`, `trim()` or `split('T')`, because every separator and
  whitespace character is a single code unit.
- Concurrency: two submissions running at the same time, and atomicity of
  the batch in the store, are left out. `SheetStore` assumes the ranges of
  one batch are applied in order.
- Reading the sheet back: `SheetStore` has no function from cells back to
  rows. That a later read sees the same names is argued from
  `SheetStore.SubmissionKeepsGuestColumns`, not proved.
- The form that renders parties and collects responses is not part of this
  model.
- RsvpReconciler.Submit: its contract does not repeat the entry-by-entry
  relation to the matched responses. That is stated by
  `RsvpReconciler.SubmitWritesMatched`.
