/**
 * The per-file loop of the upload handler: one row per uploaded file, in
 * order, with the sum of the amounts found and the count of files where
 * none was found.
 */
module Summary {
  import opened Wrappers
  import opened BalanceDue

  /** An uploaded file: its name and the text of each of its pages. */
  datatype Upload = Upload(name: string, pages: seq<string>)

  /** A result row: the file name and the amount found in it, in cents. */
  datatype Row = Row(name: string, amount: Option<nat>)

  /** The number of rows with no amount. */
  function Missing(rows: seq<Row>): nat {
    if rows == [] then 0
    else Missing(rows[..|rows| - 1]) + (if rows[|rows| - 1].amount.None? then 1 else 0)
  }

  /** The number of rows with an amount. */
  function Present(rows: seq<Row>): nat {
    if rows == [] then 0
    else Present(rows[..|rows| - 1]) + (if rows[|rows| - 1].amount.Some? then 1 else 0)
  }

  /** The sum of the amounts that are present. */
  function Total(rows: seq<Row>): nat {
    if rows == [] then 0
    else Total(rows[..|rows| - 1]) + (match rows[|rows| - 1].amount case Some(v) => v case None => 0)
  }

  /** The row the handler builds for one file. */
  function RowOf(f: Upload): Row {
    Row(f.name, BalanceDueOf(f.pages))
  }

  /** The rows for the files, one per file, in order. */
  function RowsOf(files: seq<Upload>): (rows: seq<Row>)
    ensures |rows| == |files|
  {
    if files == [] then [] else RowsOf(files[..|files| - 1]) + [RowOf(files[|files| - 1])]
  }

  /**
   * The loop over the uploaded files: extract, append the row, then count
   * the file as missing or add its amount to the total.
   */
  method Summarize(files: seq<Upload>) returns (results: seq<Row>, total: nat, missing: nat)
    ensures results == RowsOf(files)
    ensures total == Total(results) && missing == Missing(results)
    ensures |results| == missing + Present(results)
    ensures files == [] ==> results == [] && total == 0 && missing == 0
  {
    results, total, missing := [], 0, 0;
    for k := 0 to |files|
      invariant results == RowsOf(files[..k])
      invariant total == Total(results) && missing == Missing(results)
    {
      var f := files[k];
      var amt := ExtractBalanceDue(f.pages);
      var row := Row(f.name, amt);
      RowsOfSnoc(files, k);
      AppendRow(results, row);
      results := results + [row];
      if amt.None? {
        missing := missing + 1;
      } else {
        total := total + amt.value;
      }
    }
    assert files[..|files|] == files;
    RowsPartition(results);
  }

  /** The rows of one more file are the rows so far and the row of that file. */
  lemma RowsOfSnoc(files: seq<Upload>, k: nat)
    requires k < |files|
    ensures RowsOf(files[..k + 1]) == RowsOf(files[..k]) + [Row(files[k].name, BalanceDueOf(files[k].pages))]
  {
    assert files[..k + 1][..k] == files[..k];
  }

  /** Row `k` is the row of file `k`. */
  lemma {:induction false} RowsOfAt(files: seq<Upload>, k: nat)
    requires k < |files|
    ensures RowsOf(files)[k] == RowOf(files[k])
  {
    if k < |files| - 1 {
      RowsOfAt(files[..|files| - 1], k);
    }
  }

  /** Appending one row adds it to exactly one of the counts and its amount, if any, to the total. */
  lemma AppendRow(rows: seq<Row>, row: Row)
    ensures Missing(rows + [row]) == Missing(rows) + (if row.amount.None? then 1 else 0)
    ensures Present(rows + [row]) == Present(rows) + (if row.amount.Some? then 1 else 0)
    ensures Total(rows + [row]) == Total(rows) + (match row.amount case Some(v) => v case None => 0)
  {
    assert (rows + [row])[..|rows|] == rows;
  }

  /** Every row is either missing or present. */
  lemma {:induction false} RowsPartition(rows: seq<Row>)
    ensures |rows| == Missing(rows) + Present(rows)
  {
    if rows != [] {
      RowsPartition(rows[..|rows| - 1]);
    }
  }

  /** Splitting the upload into two batches splits the counts and the total. */
  lemma {:induction false} SummaryAdditive(a: seq<Row>, b: seq<Row>)
    ensures Missing(a + b) == Missing(a) + Missing(b)
    ensures Present(a + b) == Present(a) + Present(b)
    ensures Total(a + b) == Total(a) + Total(b)
    decreases |b|
  {
    if b == [] {
      assert a + b == a;
    } else {
      var b' := b[..|b| - 1];
      assert (a + b)[..|a + b| - 1] == a + b';
      assert (a + b)[|a + b| - 1] == b[|b| - 1];
      SummaryAdditive(a, b');
    }
  }

  /** The total is zero when no file has an amount. */
  lemma {:induction false} TotalWithoutAmounts(rows: seq<Row>)
    requires Present(rows) == 0
    ensures Total(rows) == 0 && Missing(rows) == |rows|
  {
    if rows != [] {
      TotalWithoutAmounts(rows[..|rows| - 1]);
    }
  }
}
