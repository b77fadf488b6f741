/** How the two handlers fit together. The form is rendered from the parties
    of a read of `Sheet1!A:B`; a submission re-reads `Sheet1!A:G` and writes
    by row. Both reads see the same name column, and both handlers number
    rows the same way (1-based, header row 1, skipping nameless rows, later
    rows winning), so the row a submission writes for a guest is the row the
    guest's party was read from. */
module Alignment {
  import opened Wrappers
  import opened Sheet
  import opened PartyResolver
  import opened RsvpReconciler

  /** Every party name is in the submission's row index and vice versa, at
      the party's `rowIndex`. */
  lemma PartyRowsMatchIndex(guestRead: seq<Row>, rsvpRead: seq<Row>)
    requires |guestRead| > 0
    requires SameNameColumn(guestRead, rsvpRead)
    ensures ResolveParties(Some(guestRead)).Success?
    ensures var parties := ResolveParties(Some(guestRead)).value;
      var index := RowIndex(rsvpRead);
      && parties.Keys == index.Keys
      && forall n :: n in parties ==> parties[n].rowIndex == index[n]
  {
    var parties := ResolveParties(Some(guestRead)).value;
    RowIndexDependsOnNamesOnly(guestRead, rsvpRead);
    var index := RowIndex(guestRead);
    RowIndexMeaning(guestRead);
    assert parties.Keys == index.Keys;
    forall n | n in parties
      ensures parties[n].rowIndex == index[n]
    {
      LastNamedUnique(guestRead, |guestRead|, n, parties[n].rowIndex - 1, index[n] as int - 1);
    }
  }

  /** Answering for guests named in the resolved parties, every response is
      written, in order, to the row of that guest's party, and `count` is the
      number of responses. */
  lemma PartyNamesAllWritten(guestRead: seq<Row>, rsvpRead: seq<Row>, submittedBy: string,
                             responses: seq<Response>, timestamp: string)
    requires |guestRead| > 0
    requires SameNameColumn(guestRead, rsvpRead)
    requires forall k :: 0 <= k < |responses| ==> responses[k].name in ResolveParties(Some(guestRead)).value
    ensures var parties := ResolveParties(Some(guestRead)).value;
      var updates := SubmittedUpdates(Some(rsvpRead), submittedBy, responses, timestamp);
      && Submit(Some(rsvpRead), submittedBy, responses, timestamp).count == |updates| == |responses|
      && forall k :: 0 <= k < |responses| ==>
           updates[k] == UpdateFor(parties[responses[k].name].rowIndex, responses[k],
                                   CurrentDate(timestamp), submittedBy)
  {
    var parties := ResolveParties(Some(guestRead)).value;
    var index := RowIndex(rsvpRead);
    var date := CurrentDate(timestamp);
    PartyRowsMatchIndex(guestRead, rsvpRead);
    AllMatched(index, responses);
    UpdatesFollowMatches(index, responses, date, submittedBy);
  }
}
