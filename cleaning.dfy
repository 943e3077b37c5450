/**
 Cleaning: drop every row with a missing value in one of the table's columns,
 then collapse exact duplicate rows to their first occurrence, and report how
 many rows went.
 */
module Cleaning {
  import opened Wrappers
  import opened RatingsTable
  import opened Seqs

  /** No column of the table is missing in `row` (the rows `dropna` keeps). */
  predicate Complete(row: Row, columns: set<Column>) {
    forall c :: c in columns ==> HasValue(row, c)
  }

  /** The complete rows, in order. */
  function DropMissing(rows: seq<Row>, columns: set<Column>): (r: seq<Row>)
    ensures forall row :: row in r <==> row in rows && Complete(row, columns)
    ensures |r| <= |rows|
  {
    if |rows| == 0 then []
    else if Complete(rows[0], columns) then [rows[0]] + DropMissing(rows[1..], columns)
    else DropMissing(rows[1..], columns)
  }

  /** The cleaned table and the number of rows reported as removed. */
  datatype Cleaned = Cleaned(table: Table, removed: nat)

  function RemoveMissingValuesAndDuplicates(t: Table): (c: Cleaned)
    requires WellFormed(t)
    ensures c.table.columns == t.columns && WellFormed(c.table)
    ensures forall row :: row in c.table.rows <==> row in t.rows && Complete(row, t.columns)
    ensures NoDuplicates(c.table.rows)
    ensures c.removed == |t.rows| - |c.table.rows|
  {
    var rows := Dedup(DropMissing(t.rows, t.columns));
    Cleaned(Table(t.columns, rows), |t.rows| - |rows|)
  }

  /** Dropping rows keeps the survivors in their input order. */
  lemma {:induction false} DropMissingKeepsOrder(rows: seq<Row>, columns: set<Column>, x: Row, y: Row)
    requires x in DropMissing(rows, columns) && y in DropMissing(rows, columns)
    requires FirstIndex(DropMissing(rows, columns), x) < FirstIndex(DropMissing(rows, columns), y)
    ensures x in rows && y in rows && FirstIndex(rows, x) < FirstIndex(rows, y)
  {
    var rest := DropMissing(rows[1..], columns);
    if Complete(rows[0], columns) {
      var d := DropMissing(rows, columns);
      assert d == [rows[0]] + rest;
      if x != rows[0] {
        assert y != rows[0];
        assert d[1..] == rest;
        DropMissingKeepsOrder(rows[1..], columns, x, y);
      }
    } else {
      assert x != rows[0] && y != rows[0];
      DropMissingKeepsOrder(rows[1..], columns, x, y);
    }
  }

  /**
   Every cleaned row sits where that row first occurs in the input, and the
   cleaned rows keep the input order.
   */
  lemma CleanedRowsInFirstOccurrenceOrder(t: Table)
    requires WellFormed(t)
    ensures var rows := RemoveMissingValuesAndDuplicates(t).table.rows;
            forall i, j :: 0 <= i < j < |rows| ==>
              rows[i] in t.rows && rows[j] in t.rows && FirstIndex(t.rows, rows[i]) < FirstIndex(t.rows, rows[j])
  {
    var kept := DropMissing(t.rows, t.columns);
    var rows := RemoveMissingValuesAndDuplicates(t).table.rows;
    DedupInFirstOccurrenceOrder(kept);
    forall i, j | 0 <= i < j < |rows|
      ensures rows[i] in t.rows && rows[j] in t.rows && FirstIndex(t.rows, rows[i]) < FirstIndex(t.rows, rows[j])
    {
      DropMissingKeepsOrder(t.rows, t.columns, rows[i], rows[j]);
    }
  }

  lemma {:induction false} DropMissingOfComplete(rows: seq<Row>, columns: set<Column>)
    requires forall row :: row in rows ==> Complete(row, columns)
    ensures DropMissing(rows, columns) == rows
  {
    if |rows| > 0 {
      DropMissingOfComplete(rows[1..], columns);
    }
  }

  /** The removal count is never negative and never exceeds the table. */
  lemma RemovedCountBounds(t: Table)
    requires WellFormed(t)
    ensures 0 <= RemoveMissingValuesAndDuplicates(t).removed <= |t.rows|
    ensures |RemoveMissingValuesAndDuplicates(t).table.rows| <= |t.rows|
  {
  }

  /** Cleaning a cleaned table changes nothing and reports no removed rows. */
  lemma CleaningIsIdempotent(t: Table)
    requires WellFormed(t)
    ensures var once := RemoveMissingValuesAndDuplicates(t).table;
            RemoveMissingValuesAndDuplicates(once) == Cleaned(once, 0)
  {
    var once := RemoveMissingValuesAndDuplicates(t).table;
    DropMissingOfComplete(once.rows, once.columns);
    DedupOfDistinct(once.rows);
  }
}
