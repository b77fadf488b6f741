/** The guest table as the spreadsheet store returns it: a sequence of rows,
    each a sequence of cell texts, the first row being the header. The store
    leaves out trailing empty cells, so rows may be ragged. */
module Sheet {

  type Row = seq<string>

  /** The text of cell `column` (0 for column A) of `row`. A cell past the end
      of the row is JavaScript `undefined`, which both handlers treat exactly
      as the empty string (both are falsy), so it reads as "". */
  function Cell(row: Row, column: nat): string {
    if column < |row| then row[column] else ""
  }

  /** The guest name of a row: its column A. */
  function Name(row: Row): string {
    Cell(row, 0)
  }

  /** The name in row `i` (0-based) of `rows`, or "" when there is no such
      row. */
  function NameAt(rows: seq<Row>, i: int): string {
    if 0 <= i < |rows| then Name(rows[i]) else ""
  }

  /** Some data row before `k` (rows 1 .. k-1) carries the non-empty name `n`. */
  ghost predicate Named(rows: seq<Row>, k: int, n: string) {
    n != "" && exists i :: 1 <= i < k && NameAt(rows, i) == n
  }

  /** Row `i` is the last data row before `k` that carries the non-empty name
      `n`. */
  ghost predicate LastNamed(rows: seq<Row>, k: int, n: string, i: int) {
    && n != ""
    && 1 <= i < k
    && NameAt(rows, i) == n
    && forall j :: i < j < k ==> NameAt(rows, j) != n
  }

  /** The last row carrying a name is unique. */
  lemma LastNamedUnique(rows: seq<Row>, k: int, n: string, i: int, i': int)
    requires LastNamed(rows, k, n, i) && LastNamed(rows, k, n, i')
    ensures i == i'
  {
  }

  /** Extending the scanned range by row `k - 1` changes nothing for a name
      that row does not carry. */
  lemma StepOtherName(rows: seq<Row>, k: int, n: string)
    requires 1 < k
    requires NameAt(rows, k - 1) != n
    ensures Named(rows, k, n) <==> Named(rows, k - 1, n)
    ensures forall i :: LastNamed(rows, k - 1, n, i) ==> LastNamed(rows, k, n, i)
  {
    if Named(rows, k, n) {
      var i :| 1 <= i < k && NameAt(rows, i) == n;
      assert i < k - 1;
    }
  }

  /** Row `k - 1` is the last row before `k` carrying its own name. */
  lemma StepOwnName(rows: seq<Row>, k: int)
    requires 1 < k
    requires NameAt(rows, k - 1) != ""
    ensures Named(rows, k, NameAt(rows, k - 1))
    ensures LastNamed(rows, k, NameAt(rows, k - 1), k - 1)
  {
  }

  /** The row scan both handlers perform: over the data rows 1 .. k-1 (row 0,
      the header, is skipped), a row with an empty name is passed over and
      any other stores `entry(row, position)` under its name, `position`
      being the row's 1-based number in the sheet. A later row overwrites an
      earlier one with the same name. */
  function IndexNamed<V>(rows: seq<Row>, k: nat, entry: (Row, nat) -> V): map<string, V>
    requires k <= |rows|
    decreases k
  {
    if k <= 1 then map[]
    else
      var before := IndexNamed(rows, k - 1, entry);
      var row := rows[k - 1];
      if Name(row) == "" then before else before[Name(row) := entry(row, k)]
  }

  /** The position of the last data row before `k` named `n`, or 0 when
      there is none (row 0 is the header, never a data row). */
  ghost function LastRow(rows: seq<Row>, k: int, n: string): (i: nat)
    ensures i < k || i == 0
    decreases k
  {
    if k <= 1 then 0
    else if NameAt(rows, k - 1) == n then k - 1
    else LastRow(rows, k - 1, n)
  }

  /** `LastRow` finds the row `LastNamed` describes, and finds one exactly
      when the name is present. */
  lemma {:induction false} LastRowMeaning(rows: seq<Row>, k: int, n: string)
    requires n != ""
    ensures LastRow(rows, k, n) >= 1 <==> Named(rows, k, n)
    ensures LastRow(rows, k, n) >= 1 ==> LastNamed(rows, k, n, LastRow(rows, k, n))
    decreases k
  {
    if k > 1 {
      if NameAt(rows, k - 1) == n {
        StepOwnName(rows, k);
      } else {
        LastRowMeaning(rows, k - 1, n);
        StepOtherName(rows, k, n);
      }
    }
  }

  /** What a scan of rows 1 .. k-1 builds: one key per non-empty name in
      those rows, holding the entry of the last row with that name. */
  ghost predicate Indexes<V>(rows: seq<Row>, k: int, entry: (Row, nat) -> V, m: map<string, V>)
    requires k <= |rows|
  {
    && (forall n :: n in m <==> n != "" && LastRow(rows, k, n) >= 1)
    && (forall n :: n in m ==> m[n] == entry(rows[LastRow(rows, k, n)], LastRow(rows, k, n) + 1))
  }

  /** The scan builds exactly what `Indexes` describes. */
  lemma {:induction false} IndexNamedMeaning<V>(rows: seq<Row>, k: nat, entry: (Row, nat) -> V)
    requires k <= |rows|
    ensures Indexes(rows, k, entry, IndexNamed(rows, k, entry))
    decreases k
  {
    if k > 1 {
      IndexNamedMeaning(rows, k - 1, entry);
    }
  }

  /** The scan never looks at the header row. */
  lemma {:induction false} IndexNamedIgnoresHeader<V>(a: seq<Row>, b: seq<Row>, k: nat, entry: (Row, nat) -> V)
    requires k <= |a| == |b|
    requires forall i :: 1 <= i < |a| ==> a[i] == b[i]
    ensures IndexNamed(a, k, entry) == IndexNamed(b, k, entry)
    decreases k
  {
    if k > 1 {
      IndexNamedIgnoresHeader(a, b, k - 1, entry);
      assert a[k - 1] == b[k - 1];
    }
  }

  /** Two reads agree on the name column, row for row: what the store returns
      for `Sheet1!A:B` and for `Sheet1!A:G` of one sheet. The reads may differ
      in length, but then the extra rows have no name. */
  ghost predicate SameNameColumn(a: seq<Row>, b: seq<Row>) {
    forall i :: 1 <= i < |a| + |b| ==> NameAt(a, i) == NameAt(b, i)
  }

  /** Reads with the same name column have the same last row for every name. */
  lemma LastNamedTransfers(a: seq<Row>, b: seq<Row>, n: string, i: int)
    requires SameNameColumn(a, b)
    requires LastNamed(a, |a|, n, i)
    ensures LastNamed(b, |b|, n, i)
  {
    assert NameAt(b, i) == n;
    assert i < |b|;
    forall j | i < j < |b|
      ensures NameAt(b, j) != n
    {
      assert NameAt(a, j) == NameAt(b, j);
    }
  }
}
