/** The RSVP Reconciler (netlify/functions/submit-rsvp.js): re-reads the
    guest table `Sheet1!A:G`, indexes guest names by sheet row, and turns each
    response of a submission into a write of five cells, columns C..G of the
    guest's row: status, dietary, accommodation, date, submitted by. */
module RsvpReconciler {
  import opened Wrappers
  import opened Text
  import opened Decimal
  import opened Sheet

  /** One guest's answer. A missing dietary or accommodation answer is `None`. */
  datatype Response = Response(
    name: string,
    attending: bool,
    dietary: Option<string>,
    accommodation: Option<string>)

  /** The cells of one sheet row from column `firstColumn` to column
      `lastColumn` (0 for column A) of 1-based row `row`. */
  datatype Range = Range(row: nat, firstColumn: nat, lastColumn: nat)

  /** A write of a rectangle of cell values into a range (values by row, then
      by column). */
  datatype Update = Update(range: Range, values: seq<seq<string>>)

  /** One entry of the batch request as sent to the store: the A1 text of the
      range and the values. */
  datatype ValueRange = ValueRange(range: string, values: seq<seq<string>>)

  /** The batch write request: every range written in one call, values stored
      as given (`RAW`). */
  datatype BatchRequest = BatchRequest(valueInputOption: string, data: seq<ValueRange>)

  /** What the handler sends and reports: the batch and the `count` of its
      success response. */
  datatype Submission = Submission(batch: BatchRequest, count: nat)

  const SheetName: string := "Sheet1"
  /** Column C, the status column, where each written range starts. */
  const StatusColumn: nat := 2
  /** Column G, the submitted-by column, where each written range ends. */
  const SubmittedByColumn: nat := 6
  /** Cells written per response. */
  const Width: nat := 5
  const Attending: string := "Attending"
  const NotAttending: string := "Not Attending"
  const SuccessMessage: string := "RSVP submitted successfully"

  // ---------------------------------------------------------------------
  // The name -> row index
  // ---------------------------------------------------------------------

  function RowPosition(row: Row, position: nat): nat {
    position
  }

  /** `nameToRow`: each non-empty name of the data rows mapped to the 1-based
      sheet row it was last seen in. */
  function RowIndex(rows: seq<Row>): map<string, nat> {
    IndexNamed(rows, |rows|, RowPosition)
  }

  /** The index holds exactly the non-empty names of rows 1.., and maps each
      to 1 + the position of the last row with that name, so every value lies
      between 2 and the number of rows. */
  lemma RowIndexMeaning(rows: seq<Row>)
    ensures forall n :: n in RowIndex(rows) <==> Named(rows, |rows|, n)
    ensures forall n :: n in RowIndex(rows) ==>
      && LastNamed(rows, |rows|, n, RowIndex(rows)[n] as int - 1)
      && 2 <= RowIndex(rows)[n] <= |rows|
  {
    var index := RowIndex(rows);
    IndexNamedMeaning(rows, |rows|, RowPosition);
    forall n ensures n in index <==> Named(rows, |rows|, n) {
      if n != "" {
        LastRowMeaning(rows, |rows|, n);
      }
    }
    forall n | n in index
      ensures LastNamed(rows, |rows|, n, index[n] as int - 1)
    {
      LastRowMeaning(rows, |rows|, n);
    }
  }

  /** `readResponse.data.values || []`: an absent read is an empty sheet. */
  function ReadRows(read: Option<seq<Row>>): seq<Row> {
    read.GetOr([])
  }

  /** Reads that agree on the name column index the same rows, whatever the
      other columns hold or how many nameless rows trail them. */
  lemma RowIndexDependsOnNamesOnly(a: seq<Row>, b: seq<Row>)
    requires SameNameColumn(a, b)
    ensures RowIndex(a) == RowIndex(b)
  {
    RowIndexIncluded(a, b);
    RowIndexIncluded(b, a);
    assert RowIndex(a).Keys == RowIndex(b).Keys;
  }

  /** One direction of the above: every entry of the first index is in the
      second. */
  lemma RowIndexIncluded(a: seq<Row>, b: seq<Row>)
    requires SameNameColumn(a, b)
    ensures forall n :: n in RowIndex(a) ==> n in RowIndex(b) && RowIndex(a)[n] == RowIndex(b)[n]
  {
    forall n | n in RowIndex(a)
      ensures n in RowIndex(b) && RowIndex(a)[n] == RowIndex(b)[n]
    {
      EntryTransfers(a, b, n);
    }
  }

  /** `RowIndexMeaning` for the one name `n`. */
  lemma RowIndexAt(rows: seq<Row>, n: string)
    ensures n in RowIndex(rows) <==> Named(rows, |rows|, n)
    ensures n in RowIndex(rows) ==> LastNamed(rows, |rows|, n, RowIndex(rows)[n] as int - 1)
  {
    RowIndexMeaning(rows);
  }

  lemma EntryTransfers(a: seq<Row>, b: seq<Row>, n: string)
    requires SameNameColumn(a, b)
    requires n in RowIndex(a)
    ensures n in RowIndex(b) && RowIndex(a)[n] == RowIndex(b)[n]
  {
    RowIndexAt(a, n);
    var i := RowIndex(a)[n] as int - 1;
    LastNamedTransfers(a, b, n, i);
    assert Named(b, |b|, n);
    RowIndexAt(b, n);
    LastNamedUnique(b, |b|, n, i, RowIndex(b)[n] as int - 1);
  }

  // ---------------------------------------------------------------------
  // One response -> one update
  // ---------------------------------------------------------------------

  /** The date part of an ISO-8601 timestamp:
      `new Date().toISOString().split('T')[0]`, the text before the first
      `T`. */
  function CurrentDate(timestamp: string): (date: string)
    ensures 'T' !in date
    ensures |date| <= |timestamp| && date == timestamp[..|date|]
    ensures |date| < |timestamp| ==> timestamp[|date|] == 'T'
  {
    Split(timestamp, 'T')[0]
  }

  function Status(attending: bool): string {
    if attending then Attending else NotAttending
  }

  /** `value || ''` for an optional string. */
  function OrEmpty(value: Option<string>): string {
    value.GetOr("")
  }

  /** The range a response for sheet row `rowNum` writes: `C{rowNum}:G{rowNum}`. */
  function UpdateRange(rowNum: nat): Range {
    Range(rowNum, StatusColumn, SubmittedByColumn)
  }

  /** The write for a response matched to sheet row `rowNum`: one row of
      five values spanning exactly the five columns C..G of that row, the
      status first ("Attending" exactly when the guest attends), then the
      dietary and accommodation answers ("" when absent), the date and the
      submitter. */
  function UpdateFor(rowNum: nat, response: Response, date: string, submittedBy: string): (u: Update)
    ensures u.range.row == rowNum
    ensures u.range.firstColumn == StatusColumn && u.range.lastColumn == SubmittedByColumn
    ensures |u.values| == 1 && |u.values[0]| == u.range.lastColumn - u.range.firstColumn + 1 == Width
    ensures u.values[0][0] == Attending <==> response.attending
    ensures u.values[0][0] == NotAttending <==> !response.attending
    ensures response.dietary.None? ==> u.values[0][1] == ""
    ensures response.dietary.Some? ==> u.values[0][1] == response.dietary.value
    ensures response.accommodation.None? ==> u.values[0][2] == ""
    ensures response.accommodation.Some? ==> u.values[0][2] == response.accommodation.value
    ensures u.values[0][3] == date && u.values[0][4] == submittedBy
  {
    Update(UpdateRange(rowNum), [[
      Status(response.attending),
      OrEmpty(response.dietary),
      OrEmpty(response.accommodation),
      date,
      submittedBy
    ]])
  }

  // ---------------------------------------------------------------------
  // All responses -> the updates
  // ---------------------------------------------------------------------

  /** The `forEach` over the responses, in order: a response whose name is
      in the index appends its update, any other is skipped. Every update
      targets an indexed row and carries the same date and submitter. */
  function BuildUpdates(index: map<string, nat>, responses: seq<Response>, date: string, submittedBy: string): (updates: seq<Update>)
    ensures |updates| <= |responses|
    ensures forall k :: 0 <= k < |updates| ==>
      && updates[k].range.row in index.Values
      && SpansRow(updates[k])
      && |updates[k].values| == 1
      && |updates[k].values[0]| == Width
      && updates[k].values[0][3] == date
      && updates[k].values[0][4] == submittedBy
    decreases |responses|
  {
    if |responses| == 0 then []
    else
      var before := BuildUpdates(index, responses[..|responses| - 1], date, submittedBy);
      var response := responses[|responses| - 1];
      if response.name in index
      then before + [UpdateFor(index[response.name], response, date, submittedBy)]
      else before
  }

  /** Positions of the responses whose name is in the index, in increasing
      order: an independent account of which responses are kept. */
  function MatchedPositions(index: map<string, nat>, responses: seq<Response>): (ps: seq<nat>)
    ensures forall k :: 0 <= k < |ps| ==> ps[k] < |responses| && responses[ps[k]].name in index
    ensures forall k, l :: 0 <= k < l < |ps| ==> ps[k] < ps[l]
    ensures forall j :: 0 <= j < |responses| && responses[j].name in index ==> j in ps
    decreases |responses|
  {
    if |responses| == 0 then []
    else
      var before := MatchedPositions(index, responses[..|responses| - 1]);
      if responses[|responses| - 1].name in index then before + [|responses| - 1] else before
  }

  /** The updates are, in order, the updates of the matched responses: order
      is kept, unmatched responses leave no trace, and every matched response
      writes to the row the index gives its name. */
  lemma {:induction false} UpdatesFollowMatches(index: map<string, nat>, responses: seq<Response>, date: string, submittedBy: string)
    ensures var updates := BuildUpdates(index, responses, date, submittedBy);
      var ps := MatchedPositions(index, responses);
      && |updates| == |ps|
      && forall k :: 0 <= k < |ps| ==>
           updates[k] == UpdateFor(index[responses[ps[k]].name], responses[ps[k]], date, submittedBy)
    decreases |responses|
  {
    if |responses| > 0 {
      var last := |responses| - 1;
      var init := responses[..last];
      UpdatesFollowMatches(index, init, date, submittedBy);
      var before := BuildUpdates(index, init, date, submittedBy);
      var psBefore := MatchedPositions(index, init);
      var updates := BuildUpdates(index, responses, date, submittedBy);
      var ps := MatchedPositions(index, responses);
      forall k | 0 <= k < |psBefore|
        ensures updates[k] == UpdateFor(index[responses[ps[k]].name], responses[ps[k]], date, submittedBy)
      {
        assert ps[k] == psBefore[k] && updates[k] == before[k];
        assert responses[psBefore[k]] == init[psBefore[k]];
      }
    }
  }

  /** The positions of the responses whose name is in the index. */
  ghost function MatchedSet(index: map<string, nat>, responses: seq<Response>): set<nat> {
    set j | 0 <= j < |responses| && responses[j].name in index
  }

  /** The number of updates is the number of responses whose name is in the
      index. */
  lemma {:induction false} UpdateCount(index: map<string, nat>, responses: seq<Response>, date: string, submittedBy: string)
    ensures |BuildUpdates(index, responses, date, submittedBy)| == |MatchedSet(index, responses)|
    decreases |responses|
  {
    if |responses| > 0 {
      var last := |responses| - 1;
      var init := responses[..last];
      UpdateCount(index, init, date, submittedBy);
      var before := MatchedSet(index, init);
      assert forall j :: 0 <= j < last ==> responses[j] == init[j];
      if responses[last].name in index {
        assert MatchedSet(index, responses) == before + {last};
        assert last !in before;
      } else {
        assert MatchedSet(index, responses) == before;
      }
    }
  }

  /** Building the updates of two batches of responses one after the other
      is building them for the joined batch. */
  lemma {:induction false} UpdatesConcat(index: map<string, nat>, a: seq<Response>, b: seq<Response>, date: string, submittedBy: string)
    ensures BuildUpdates(index, a + b, date, submittedBy)
         == BuildUpdates(index, a, date, submittedBy) + BuildUpdates(index, b, date, submittedBy)
    decreases |b|
  {
    if |b| == 0 {
      assert a + b == a;
    } else {
      var ab := a + b;
      assert ab[..|ab| - 1] == a + b[..|b| - 1];
      assert ab[|ab| - 1] == b[|b| - 1];
      UpdatesConcat(index, a, b[..|b| - 1], date, submittedBy);
    }
  }

  /** A response for an unknown guest adds nothing and does not disturb the
      updates of the responses around it. */
  lemma UnknownNameSkipped(index: map<string, nat>, a: seq<Response>, response: Response, b: seq<Response>, date: string, submittedBy: string)
    requires response.name !in index
    ensures BuildUpdates(index, a + [response] + b, date, submittedBy)
         == BuildUpdates(index, a, date, submittedBy) + BuildUpdates(index, b, date, submittedBy)
  {
    UpdatesConcat(index, a + [response], b, date, submittedBy);
    UpdatesConcat(index, a, [response], date, submittedBy);
    assert [response][..0] == [];
  }

  /** A response for a known guest adds exactly its own update, in place. */
  lemma KnownNameWritten(index: map<string, nat>, a: seq<Response>, response: Response, b: seq<Response>, date: string, submittedBy: string)
    requires response.name in index
    ensures BuildUpdates(index, a + [response] + b, date, submittedBy)
         == BuildUpdates(index, a, date, submittedBy)
            + [UpdateFor(index[response.name], response, date, submittedBy)]
            + BuildUpdates(index, b, date, submittedBy)
  {
    UpdatesConcat(index, a + [response], b, date, submittedBy);
    UpdatesConcat(index, a, [response], date, submittedBy);
    assert [response][..0] == [];
  }

  // ---------------------------------------------------------------------
  // The batch request
  // ---------------------------------------------------------------------

  /** The letter of column `c` (0 for A). */
  function ColumnLetter(c: nat): char
    requires c < 26
  {
    ('A' as int + c) as char
  }

  /** The A1 text of a single-row range, `Sheet1!C7:G7` for row 7, C..G. */
  function A1(r: Range): string
    requires r.firstColumn < 26 && r.lastColumn < 26
  {
    SheetName + "!" + [ColumnLetter(r.firstColumn)] + Digits(r.row) + ":" + [ColumnLetter(r.lastColumn)] + Digits(r.row)
  }

  /** Distinct rows are written under distinct range texts. */
  lemma A1Injective(a: nat, b: nat)
    requires A1(UpdateRange(a)) == A1(UpdateRange(b))
    ensures a == b
  {
    var da := Digits(a);
    var db := Digits(b);
    var sa := A1(UpdateRange(a));
    var sb := A1(UpdateRange(b));
    var p := SheetName + "!" + ['C'];
    assert |p| == 8;
    assert sa == p + (da + ":" + ['G'] + da);
    assert sb == p + (db + ":" + ['G'] + db);
    var ta := da + ":" + ['G'] + da;
    var tb := db + ":" + ['G'] + db;
    assert ta == sa[8..] == sb[8..] == tb;
    assert da == ta[..|da|] == tb[..|db|] == db;
    DigitsInjective(a, b);
  }

  /** An update of columns C..G of one row. */
  predicate SpansRow(u: Update) {
    u.range.firstColumn == StatusColumn && u.range.lastColumn == SubmittedByColumn
  }

  /** An update as the store receives it. */
  function Wire(u: Update): ValueRange
    requires SpansRow(u)
  {
    ValueRange(A1(u.range), u.values)
  }

  /** The batch request for a sequence of updates, in the same order. */
  function WireAll(updates: seq<Update>): (data: seq<ValueRange>)
    requires forall k :: 0 <= k < |updates| ==> SpansRow(updates[k])
    ensures |data| == |updates|
    ensures forall k :: 0 <= k < |data| ==> data[k] == Wire(updates[k])
    decreases |updates|
  {
    if |updates| == 0 then []
    else [Wire(updates[0])] + WireAll(updates[1..])
  }

  // ---------------------------------------------------------------------
  // The handler
  // ---------------------------------------------------------------------

  /** The handler on the read of `Sheet1!A:G` (absent when the store returned
      no values), the submitter, the responses and the time of the request
      as an ISO-8601 timestamp. The batch holds one entry per response whose
      guest is in the sheet, and `count` is the number of entries. */
  function Submit(read: Option<seq<Row>>, submittedBy: string, responses: seq<Response>, timestamp: string): (s: Submission)
    ensures s.batch.valueInputOption == "RAW"
    ensures s.count == |s.batch.data| <= |responses|
    ensures read.None? ==> s.count == 0
    ensures forall k :: 0 <= k < |s.batch.data| ==>
      && |s.batch.data[k].values| == 1
      && |s.batch.data[k].values[0]| == Width
      && s.batch.data[k].values[0][3] == CurrentDate(timestamp)
      && s.batch.data[k].values[0][4] == submittedBy
  {
    var index := RowIndex(ReadRows(read));
    var updates := BuildUpdates(index, responses, CurrentDate(timestamp), submittedBy);
    Submission(BatchRequest("RAW", WireAll(updates)), |updates|)
  }

  /** The updates the handler sends, before rendering to range texts. */
  function SubmittedUpdates(read: Option<seq<Row>>, submittedBy: string, responses: seq<Response>, timestamp: string): seq<Update> {
    BuildUpdates(RowIndex(ReadRows(read)), responses, CurrentDate(timestamp), submittedBy)
  }

  /** End to end: the batch holds, in order, one entry per response whose
      guest is in the sheet, written to the range of that guest's row with
      that response's five values. */
  lemma {:induction false} SubmitWritesMatched(read: Option<seq<Row>>, submittedBy: string, responses: seq<Response>, timestamp: string)
    ensures var s := Submit(read, submittedBy, responses, timestamp);
      var index := RowIndex(ReadRows(read));
      var ps := MatchedPositions(index, responses);
      && |s.batch.data| == |ps|
      && forall k :: 0 <= k < |ps| ==>
           var rowNum := index[responses[ps[k]].name];
           s.batch.data[k] == ValueRange(A1(UpdateRange(rowNum)),
             UpdateFor(rowNum, responses[ps[k]], CurrentDate(timestamp), submittedBy).values)
  {
    UpdatesFollowMatches(RowIndex(ReadRows(read)), responses, CurrentDate(timestamp), submittedBy);
  }

  /** The reported `count` is the number of responses whose guest is in the
      sheet, not the number of responses submitted. */
  lemma SubmitCount(read: Option<seq<Row>>, submittedBy: string, responses: seq<Response>, timestamp: string)
    ensures Submit(read, submittedBy, responses, timestamp).count
         == |MatchedSet(RowIndex(ReadRows(read)), responses)|
  {
    UpdateCount(RowIndex(ReadRows(read)), responses, CurrentDate(timestamp), submittedBy);
  }

  /** When every response names an indexed guest, all of them are kept, each
      at its own position. */
  lemma {:induction false} AllMatched(index: map<string, nat>, responses: seq<Response>)
    requires forall k :: 0 <= k < |responses| ==> responses[k].name in index
    ensures MatchedPositions(index, responses) == seq(|responses|, k => k)
    decreases |responses|
  {
    if |responses| > 0 {
      var init := responses[..|responses| - 1];
      AllMatched(index, init);
      assert seq(|responses|, k => k) == seq(|init|, k => k) + [|responses| - 1];
    }
  }

  /** An absent read is handled like an empty sheet: no error, nothing
      written, a count of 0. */
  lemma AbsentReadWritesNothing(submittedBy: string, responses: seq<Response>, timestamp: string)
    ensures Submit(None, submittedBy, responses, timestamp)
         == Submit(Some([]), submittedBy, responses, timestamp)
         == Submission(BatchRequest("RAW", []), 0)
  {
    var date := CurrentDate(timestamp);
    assert RowIndex([]) == map[];
    UpdateCount(map[], responses, date, submittedBy);
    assert MatchedSet(map[], responses) == {};
  }
}
