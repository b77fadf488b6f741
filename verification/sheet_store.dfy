/** What a batch of updates does to the sheet once the store applies it. The
    store is not part of the handlers; this module states the overwrite
    semantics of a multi-range write so that the effect of a submission can
    be reasoned about: the ranges of a batch are written in order, each cell
    taking the value last written to it. */
module SheetStore {
  import opened Wrappers
  import opened Sheet
  import opened RsvpReconciler

  /** The sheet's cells by (1-based row, 0-based column). */
  type Grid = map<(nat, nat), string>

  /** Cell `c` lies in the range of update `u`. */
  predicate Covers(u: Update, c: (nat, nat)) {
    c.0 == u.range.row && u.range.firstColumn <= c.1 <= u.range.lastColumn
  }

  /** The cells one update writes: value `k` of its first values row goes to
      column `firstColumn + k` of its row, within the range. */
  function Cells(u: Update): (cells: Grid)
    ensures forall c :: c in cells ==> Covers(u, c)
  {
    var vs := if |u.values| > 0 then u.values[0] else [];
    map c: nat | u.range.firstColumn <= c <= u.range.lastColumn && c - u.range.firstColumn < |vs|
      :: (u.range.row, c) := vs[c - u.range.firstColumn]
  }

  /** The sheet after applying the updates one after the other. */
  function ApplyBatch(g: Grid, updates: seq<Update>): Grid
    decreases |updates|
  {
    if |updates| == 0 then g else ApplyBatch(g + Cells(updates[0]), updates[1..])
  }

  /** Everything a batch writes, later writes taking precedence; it does not
      depend on the sheet it is applied to. Every cell in it lies in the range
      of one of the updates. */
  function Footprint(updates: seq<Update>): (cells: Grid)
    ensures forall c :: c in cells ==> exists k :: 0 <= k < |updates| && Covers(updates[k], c)
    decreases |updates|
  {
    if |updates| == 0 then map[]
    else
      var rest := Footprint(updates[1..]);
      assert forall k :: 0 <= k < |updates[1..]| ==> updates[1..][k] == updates[k + 1];
      Cells(updates[0]) + rest
  }

  lemma OverlayAssociative(a: Grid, b: Grid, c: Grid)
    ensures (a + b) + c == a + (b + c)
  {
  }

  /** Applying a batch overlays its footprint on the sheet. */
  lemma {:induction false} ApplyIsOverlay(g: Grid, updates: seq<Update>)
    ensures ApplyBatch(g, updates) == g + Footprint(updates)
    decreases |updates|
  {
    if |updates| > 0 {
      var c0 := Cells(updates[0]);
      var rest := Footprint(updates[1..]);
      ApplyIsOverlay(g + c0, updates[1..]);
      OverlayAssociative(g, c0, rest);
    }
  }

  /** Applying the same batch twice leaves the sheet as applying it once:
      a resubmission overwrites and does not accumulate. */
  lemma ApplyTwice(g: Grid, updates: seq<Update>)
    ensures ApplyBatch(ApplyBatch(g, updates), updates) == ApplyBatch(g, updates)
  {
    var f := Footprint(updates);
    ApplyIsOverlay(g, updates);
    ApplyIsOverlay(g + f, updates);
    assert (g + f) + f == g + f;
  }

  /** A cell outside every range of the batch keeps its value, and an
      absent one stays absent. */
  lemma ApplyLeavesOthers(g: Grid, updates: seq<Update>, c: (nat, nat))
    requires forall k :: 0 <= k < |updates| ==> !Covers(updates[k], c)
    ensures c in ApplyBatch(g, updates) <==> c in g
    ensures c in g ==> ApplyBatch(g, updates)[c] == g[c]
  {
    ApplyIsOverlay(g, updates);
  }

  /** A submission never writes column A, the guest names, nor column B,
      the companions: a cell there that was empty stays empty, and one that
      held a value keeps it. */
  lemma SubmissionKeepsGuestColumns(g: Grid, read: Option<seq<Row>>, submittedBy: string,
                                    responses: seq<Response>, timestamp: string, row: nat, column: nat)
    requires column < StatusColumn
    ensures var after := ApplyBatch(g, SubmittedUpdates(read, submittedBy, responses, timestamp));
      && ((row, column) in after <==> (row, column) in g)
      && ((row, column) in g ==> after[(row, column)] == g[(row, column)])
  {
    ApplyLeavesOthers(g, SubmittedUpdates(read, submittedBy, responses, timestamp), (row, column));
  }
}
