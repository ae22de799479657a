/**
  The list page's scan of the evaluation table: the first row whose last
  cell, trimmed, reads "否" and whose first cell holds a button is entered;
  when no row qualifies, every course has been evaluated. A row without any
  cell makes the status lookup throw, which ends the scan.
 */
module ListPage {
  import opened Optional
  import opened Config
  import opened Strings

  /** A table cell: its rendered text and whether it contains a button. */
  datatype Cell = Cell(text: string, hasButton: bool)

  datatype Row = Row(cells: seq<Cell>)

  /** What the scan does: nothing without a table body, click into a row,
      report that all is done, or stop on a row without cells. */
  datatype Outcome = NoTable | Enter(row: nat) | AllDone | RowError(row: nat)

  /** The trimmed text of the row's last cell. */
  function Status(r: Row): string
    requires |r.cells| > 0
  {
    Trim(r.cells[|r.cells| - 1].text)
  }

  /** The row test: the status reads "not evaluated" and the first cell has an entry button. */
  predicate Pending(r: Row) {
    |r.cells| > 0 && Status(r) == NotEvaluated && r.cells[0].hasButton
  }

  /** A row qualifies exactly when it has cells, its first cell has an entry
      button and its last cell's text is "否" padded with white space. */
  lemma PendingIff(r: Row)
    ensures Pending(r) <==>
      |r.cells| > 0 && r.cells[0].hasButton && Padded(r.cells[|r.cells| - 1].text, NotEvaluated)
  {
    if |r.cells| > 0 {
      TrimIff(r.cells[|r.cells| - 1].text, NotEvaluated);
    }
  }

  /** `handleListPage`'s scan over the rows of the table body, when there is one. */
  method SelectRow(table: Option<seq<Row>>) returns (o: Outcome)
    ensures o == NoTable <==> table.None?
    ensures o.Enter? ==> o.row < |table.value| && Pending(table.value[o.row])
    ensures o.RowError? ==> o.row < |table.value| && table.value[o.row].cells == []
    ensures o.Enter? || o.RowError? ==>
      forall j :: 0 <= j < o.row ==> |table.value[j].cells| > 0 && !Pending(table.value[j])
    ensures o == AllDone ==>
      forall j :: 0 <= j < |table.value| ==> |table.value[j].cells| > 0 && !Pending(table.value[j])
  {
    if table.None? {
      return NoTable;
    }
    var rows := table.value;
    var i := 0;
    while i < |rows|
      invariant 0 <= i <= |rows|
      invariant forall j :: 0 <= j < i ==> |rows[j].cells| > 0 && !Pending(rows[j])
    {
      var row := rows[i];
      if |row.cells| == 0 {
        return RowError(i);
      }
      var status := Status(row);
      if status == NotEvaluated && row.cells[0].hasButton {
        return Enter(i);
      }
      assert !Pending(row);
      i := i + 1;
    }
    return AllDone;
  }

  /** White space around the status text does not matter. */
  lemma PaddedStatusIsPending(a: string, b: string)
    requires AllSpace(a) && AllSpace(b)
    ensures Trim(a + NotEvaluated + b) == NotEvaluated
  {
    TrimPadded(a, NotEvaluated, b);
  }
}
