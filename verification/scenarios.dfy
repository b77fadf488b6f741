/** Concrete cases of the handlers' behaviour on small sheets, each worked
    out step by step. */
module Scenarios {
  import opened Wrappers
  import opened Text
  import opened Sheet
  import opened PartyResolver
  import opened RsvpReconciler

  lemma SplitExample()
    ensures Split("A, B ,,C", ',') == ["A", " B ", "", "C"]
  {
    assert Join(["A", " B ", "", "C"], ',') == "A, B ,,C";
    SplitJoin(["A", " B ", "", "C"], ',');
  }

  lemma TrimExample()
    ensures Trim(" B ") == "B"
  {
    assert " B " == " " + "B" + " ";
    TrimPadded(" ", "B", " ");
  }

  lemma TrimEachFour(a: string, b: string, c: string, d: string)
    ensures TrimEach([a, b, c, d]) == [Trim(a), Trim(b), Trim(c), Trim(d)]
  {
  }

  lemma TrimEachExample()
    ensures TrimEach(["A", " B ", "", "C"]) == ["A", "B", "", "C"]
  {
    TrimExample();
    TrimBare("A");
    TrimBare("C");
    assert Trim("") == "";
    TrimEachFour("A", " B ", "", "C");
  }

  lemma DropEmptyExample()
    ensures DropEmpty(["A", "B", "", "C"]) == ["A", "B", "C"]
  {
  }

  /** `"A, B ,,C"` gives `["A", "B", "C"]`: entries trimmed, empty ones
      dropped, order kept. */
  lemma CompanionsSplitAndTrimmed()
    ensures Members(["Host", "A, B ,,C"]) == ["A", "B", "C"]
  {
    SplitExample();
    TrimEachExample();
    DropEmptyExample();
  }

  lemma BlankSplitExample()
    ensures SplitTrimmed(" , ", ',') == []
  {
    assert Join([" ", " "], ',') == " , ";
    SplitJoin([" ", " "], ',');
    assert TrimStart(" ") == "";
    assert TrimEach([" ", " "]) == ["", ""];
  }

  /** A companions cell of only a comma and spaces gives an empty party: the
      guest's name is used only when the cell itself is empty or missing. */
  lemma BlankCompanionsGiveNoMembers()
    ensures Members(["Eve", " , "]) == []
    ensures Members(["Eve", ""]) == ["Eve"]
    ensures Members(["Eve"]) == ["Eve"]
  {
    BlankSplitExample();
  }

  const GuestSheet: seq<Row> := [["Name", "Companions"], ["Alice", "Bob, Carol"], ["Dave", ""]]

  lemma BobCarolSplit()
    ensures Split("Bob, Carol", ',') == ["Bob", " Carol"]
  {
    assert Join(["Bob", " Carol"], ',') == "Bob, Carol";
    SplitJoin(["Bob", " Carol"], ',');
  }

  lemma BobTrimmed()
    ensures Trim("Bob") == "Bob"
  {
    TrimBare("Bob");
  }

  lemma CarolTrimmed()
    ensures Trim(" Carol") == "Carol"
  {
    assert " Carol" == " " + "Carol" + "";
    TrimPadded(" ", "Carol", "");
  }

  lemma BobCarolTrimmed()
    ensures TrimEach(["Bob", " Carol"]) == ["Bob", "Carol"]
  {
    BobTrimmed();
    CarolTrimmed();
    TrimEachCons("Bob", [" Carol"]);
    TrimEachCons(" Carol", []);
  }

  lemma BobCarolKept()
    ensures DropEmpty(["Bob", "Carol"]) == ["Bob", "Carol"]
  {
  }

  lemma AliceMembers()
    ensures Members(["Alice", "Bob, Carol"]) == ["Bob", "Carol"]
  {
    assert Companions(["Alice", "Bob, Carol"]) == "Bob, Carol";
    BobCarolSplit();
    BobCarolTrimmed();
    BobCarolKept();
    assert SplitTrimmed("Bob, Carol", ',') == DropEmpty(TrimEach(["Bob", " Carol"]));
  }

  lemma DaveMembers()
    ensures Members(["Dave", ""]) == ["Dave"]
  {
  }

  lemma GuestSheetFirstRows()
    ensures IndexNamed(GuestSheet, 2, PartyEntry) == map["Alice" := Party(["Bob", "Carol"], 2)]
  {
    assert GuestSheet[1] == ["Alice", "Bob, Carol"];
    AliceMembers();
    assert IndexNamed(GuestSheet, 1, PartyEntry) == map[];
  }

  lemma GuestSheetScan()
    ensures IndexNamed(GuestSheet, 3, PartyEntry)
         == map["Alice" := Party(["Bob", "Carol"], 2), "Dave" := Party(["Dave"], 3)]
  {
    GuestSheetFirstRows();
    assert GuestSheet[2] == ["Dave", ""];
    DaveMembers();
    assert PartyEntry(GuestSheet[2], 3) == Party(["Dave"], 3);
  }

  /** Alice's party is her companions (without herself) at row 2; Dave, with
      no companions, is his own party at row 3. */
  lemma GuestSheetParties()
    ensures ResolveParties(Some(GuestSheet))
         == Success(map["Alice" := Party(["Bob", "Carol"], 2), "Dave" := Party(["Dave"], 3)])
  {
    GuestSheetScan();
  }

  /** No rows at all is an error, an absent read too. */
  lemma EmptyReadFails()
    ensures ResolveParties(Some([])) == Failure(NoData)
    ensures ResolveParties(None) == Failure(NoData)
  {
  }

  lemma DateExample()
    ensures CurrentDate("2026-06-13T10:00:00.000Z") == "2026-06-13"
  {
    assert Join(["2026-06-13", "10:00:00.000Z"], 'T') == "2026-06-13T10:00:00.000Z";
    SplitJoin(["2026-06-13", "10:00:00.000Z"], 'T');
  }

  lemma GuestSheetIndex()
    ensures RowIndex(GuestSheet) == map["Alice" := 2, "Dave" := 3]
  {
    assert IndexNamed(GuestSheet, 2, RowPosition) == map["Alice" := 2];
  }

  lemma GuestSheetUpdates()
    ensures BuildUpdates(map["Alice" := 2, "Dave" := 3],
      [Response("Alice", true, Some("Vegan"), None), Response("Ghost", false, None, None)],
      "2026-06-13", "X")
      == [Update(Range(2, 2, 6), [["Attending", "Vegan", "", "2026-06-13", "X"]])]
  {
    var alice := Response("Alice", true, Some("Vegan"), None);
    var responses := [alice, Response("Ghost", false, None, None)];
    assert responses[..1] == [alice];
    assert [alice][..0] == [];
  }

  lemma RangeTextExample()
    ensures A1(Range(2, 2, 6)) == "Sheet1!C2:G2"
  {
  }

  /** Alice's answer is written to C2:G2; the unknown "Ghost" is skipped
      without error and the count is 1. */
  lemma GuestSheetSubmission()
    ensures Submit(Some(GuestSheet), "X",
      [Response("Alice", true, Some("Vegan"), None), Response("Ghost", false, None, None)],
      "2026-06-13T10:00:00.000Z")
      == Submission(BatchRequest("RAW", [ValueRange("Sheet1!C2:G2",
             [["Attending", "Vegan", "", "2026-06-13", "X"]])]), 1)
  {
    DateExample();
    GuestSheetIndex();
    GuestSheetUpdates();
    RangeTextExample();
  }

  const AnnSheet: seq<Row> := [["Name"], ["Ann", "Al"], ["Ann"]]

  lemma AlMembers()
    ensures Members(["Ann", "Al"]) == ["Al"]
  {
    SplitWithoutSeparator("Al", ',');
    TrimBare("Al");
    assert TrimEach(["Al"]) == ["Al"];
  }

  lemma AnnFirstRow()
    ensures IndexNamed(AnnSheet, 2, PartyEntry) == map["Ann" := Party(["Al"], 2)]
  {
    assert AnnSheet[1] == ["Ann", "Al"];
    AlMembers();
    assert IndexNamed(AnnSheet, 1, PartyEntry) == map[];
  }

  lemma AnnScan()
    ensures IndexNamed(AnnSheet, 3, PartyEntry) == map["Ann" := Party(["Ann"], 3)]
  {
    AnnFirstRow();
    assert AnnSheet[2] == ["Ann"];
    assert Members(["Ann"]) == ["Ann"];
    assert PartyEntry(AnnSheet[2], 3) == Party(["Ann"], 3);
    assert map["Ann" := Party(["Al"], 2)]["Ann" := Party(["Ann"], 3)] == map["Ann" := Party(["Ann"], 3)];
  }

  /** Scanning up to the first Ann row maps Ann to row 2. */
  lemma AnnFirstPosition()
    ensures IndexNamed(AnnSheet, 2, RowPosition) == map["Ann" := 2]
  {
    assert AnnSheet[1] == ["Ann", "Al"];
    assert IndexNamed(AnnSheet, 1, RowPosition) == map[];
  }

  lemma AnnRowIndex()
    ensures RowIndex(AnnSheet) == map["Ann" := 3]
  {
    AnnFirstPosition();
    assert AnnSheet[2] == ["Ann"];
    assert map["Ann" := 2]["Ann" := 3] == map["Ann" := 3];
  }

  /** Two rows named "Ann": the later one, row 3, is the one both handlers
      use. */
  lemma DuplicateNameLaterWins()
    ensures ResolveParties(Some(AnnSheet)) == Success(map["Ann" := Party(["Ann"], 3)])
    ensures RowIndex(AnnSheet) == map["Ann" := 3]
  {
    AnnScan();
    AnnRowIndex();
  }
}
