/** The Party Resolver (netlify/functions/get-guests.js): groups the rows of
    the guest table `Sheet1!A:B` into parties keyed by guest name. Column A
    holds the guest's name, column B the comma-separated companions. */
module PartyResolver {
  import opened Wrappers
  import opened Text
  import opened Sheet

  /** The party of one guest: who is in it, and the 1-based sheet row it was
      read from (the header is row 1). */
  datatype Party = Party(members: seq<string>, rowIndex: nat)

  /** The message of the error raised when the read returns no rows. */
  const NoData: string := "No data found in spreadsheet"

  /** The companions cell: column B. */
  function Companions(row: Row): string {
    Cell(row, 1)
  }

  /** The members of the party of `row`: the guest alone when the companions
      cell is empty, otherwise the cell's comma-separated entries, trimmed,
      with empty entries dropped. */
  function Members(row: Row): seq<string> {
    var companions := Companions(row);
    if companions != "" then SplitTrimmed(companions, ',') else [Name(row)]
  }

  /** An empty companions cell gives the guest alone. A non-empty one gives
      at most one member per comma-separated entry, each drawn from the cell
      (the guest's own name is not added), every non-empty trimmed entry
      among them, none empty, holding a comma, or
      beginning or ending with whitespace; and it gives no members at all
      exactly when the cell holds only commas and whitespace. */
  lemma MembersShape(row: Row)
    ensures Companions(row) == "" ==> Members(row) == [Name(row)]
    ensures Companions(row) != "" ==>
      && |Members(row)| <= Count(Companions(row), ',') + 1
      && (forall m :: m in Members(row) ==> m in TrimEach(Split(Companions(row), ',')))
      && (forall m :: m in TrimEach(Split(Companions(row), ',')) && m != "" ==> m in Members(row))
      && (forall m :: m in Members(row) ==>
            m != "" && ',' !in m && !IsWhitespace(m[0]) && !IsWhitespace(m[|m| - 1]))
      && (Members(row) == [] <==> OnlySeparatorsOrWhitespace(Companions(row), ','))
  {
    var companions := Companions(row);
    if companions != "" {
      SplitTrimmedShape(companions, ',');
      SplitTrimmedEmptyIff(companions, ',');
      DropEmptyMeaning(TrimEach(Split(companions, ',')));
    }
  }

  /** The party stored for a row at 1-based sheet position `position`. */
  function PartyEntry(row: Row, position: nat): Party {
    Party(Members(row), position)
  }

  /** The loop of the handler: the party map of all data rows. */
  function Scan(rows: seq<Row>): map<string, Party> {
    IndexNamed(rows, |rows|, PartyEntry)
  }

  /** What the party map of `rows` is: one entry per non-empty name in rows
      1.., holding the members and the 1-based position of the last row
      with that name. */
  ghost predicate PartiesOf(rows: seq<Row>, parties: map<string, Party>) {
    && (forall n :: n in parties <==> Named(rows, |rows|, n))
    && (forall n :: n in parties ==>
          && LastNamed(rows, |rows|, n, parties[n].rowIndex - 1)
          && parties[n].members == Members(rows[parties[n].rowIndex - 1]))
  }

  /** The scan builds the party map `PartiesOf` describes. */
  lemma ScanMeaning(rows: seq<Row>)
    ensures PartiesOf(rows, Scan(rows))
  {
    var parties := Scan(rows);
    IndexNamedMeaning(rows, |rows|, PartyEntry);
    forall n ensures n in parties <==> Named(rows, |rows|, n) {
      if n != "" {
        LastRowMeaning(rows, |rows|, n);
      }
    }
    forall n | n in parties
      ensures LastNamed(rows, |rows|, n, parties[n].rowIndex - 1)
      ensures parties[n].members == Members(rows[parties[n].rowIndex - 1])
    {
      var i := LastRow(rows, |rows|, n);
      LastRowMeaning(rows, |rows|, n);
      assert parties[n] == PartyEntry(rows[i], i + 1);
    }
  }

  /** At most one party map fits the description, so `PartiesOf` is the
      whole meaning of the scan. */
  lemma PartiesOfUnique(rows: seq<Row>, p: map<string, Party>, q: map<string, Party>)
    requires PartiesOf(rows, p) && PartiesOf(rows, q)
    ensures p == q
  {
    assert p.Keys == q.Keys;
    forall n | n in p
      ensures p[n] == q[n]
    {
      LastNamedUnique(rows, |rows|, n, p[n].rowIndex - 1, q[n].rowIndex - 1);
    }
  }

  /** The handler on the result of reading `Sheet1!A:B`: no rows at all (an
      absent or empty read) is an error; otherwise every data row with a name
      yields a party at a row position between 2 and the number of rows. */
  function ResolveParties(read: Option<seq<Row>>): (r: Result<map<string, Party>, string>)
    ensures r.Failure? <==> read.None? || |read.value| == 0
    ensures r.Failure? ==> r.error == NoData
    ensures r.Success? ==> PartiesOf(read.value, r.value)
    ensures r.Success? ==> forall n :: n in r.value ==>
      2 <= r.value[n].rowIndex <= |read.value| && n != ""
  {
    if read.None? || |read.value| == 0 then Failure(NoData)
    else
      ScanMeaning(read.value);
      Success(Scan(read.value))
  }

  /** A sheet holding only its header row resolves, without error, to no
      parties. */
  lemma HeaderOnlyHasNoParties(header: Row)
    ensures ResolveParties(Some([header])) == Success(map[])
  {
  }

  /** The header row never contributes: the parties do not depend on it. */
  lemma HeaderIgnored(h1: Row, h2: Row, data: seq<Row>)
    ensures ResolveParties(Some([h1] + data)) == ResolveParties(Some([h2] + data))
  {
    var a := [h1] + data;
    var b := [h2] + data;
    assert forall i :: 1 <= i < |a| ==> a[i] == data[i - 1] == b[i];
    IndexNamedIgnoresHeader(a, b, |a|, PartyEntry);
  }

  /** When two data rows share a name, the party for it is the later row's
      (or a row later still). */
  lemma LaterRowWins(rows: seq<Row>, i: nat, j: nat)
    requires 1 <= i < j < |rows|
    requires Name(rows[i]) == Name(rows[j]) != ""
    ensures var parties := ResolveParties(Some(rows)).value;
      && Name(rows[j]) in parties
      && parties[Name(rows[j])].rowIndex >= j + 1
      && parties[Name(rows[j])].rowIndex != i + 1
  {
    var parties := ResolveParties(Some(rows)).value;
    var n := Name(rows[j]);
    assert NameAt(rows, j) == n;
    assert n in parties;
  }

  /** The last row with a given name decides its party: its members and its
      position. */
  lemma LastRowDecides(rows: seq<Row>, i: nat)
    requires 1 <= i < |rows|
    requires Name(rows[i]) != ""
    requires forall j :: i < j < |rows| ==> Name(rows[j]) != Name(rows[i])
    ensures var parties := ResolveParties(Some(rows)).value;
      && Name(rows[i]) in parties
      && parties[Name(rows[i])] == Party(Members(rows[i]), i + 1)
  {
    var parties := ResolveParties(Some(rows)).value;
    var n := Name(rows[i]);
    assert NameAt(rows, i) == n;
    assert LastNamed(rows, |rows|, n, i);
    LastNamedUnique(rows, |rows|, n, i, parties[n].rowIndex - 1);
  }
}
