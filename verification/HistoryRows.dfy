/** Rows of a customer's segment history, and the chain they are meant to form. */
module HistoryRows {
  import opened Options

  /** `code` is an opaque label code; None is the unassigned result. */
  datatype Row = Row(historyId: nat, runId: nat, code: Option<nat>, validFrom: int, validTo: Option<int>)

  /** No row ends before it starts. */
  ghost predicate WellTimed(row: Row) {
    row.validTo.Some? ==> row.validFrom <= row.validTo.value
  }

  /** Oldest first: every closed row ends exactly where the next begins, no row ends
      before it starts, only the newest may be open, and ids grow. */
  ghost predicate Chain(rows: seq<Row>) {
    && (forall i :: 0 <= i < |rows| - 1 ==> rows[i].validTo == Some(rows[i+1].validFrom))
    && (forall i :: 0 <= i < |rows| ==> WellTimed(rows[i]))
    && (forall i, j :: 0 <= i < j < |rows| ==> rows[i].historyId < rows[j].historyId)
  }

  ghost predicate OpenAtEnd(rows: seq<Row>) {
    rows != [] ==> rows[|rows|-1].validTo.None?
  }

  /** Starts never go back along a chain. */
  lemma {:induction false} ChainStarts(rows: seq<Row>, i: nat, j: nat)
    requires Chain(rows) && i <= j < |rows|
    ensures rows[i].validFrom <= rows[j].validFrom
    ensures i < j ==> rows[i].validTo.Some? && rows[i].validTo.value <= rows[j].validFrom
    decreases j - i
  {
    if i < j {
      assert WellTimed(rows[i]);
      ChainStarts(rows, i + 1, j);
    }
  }

  /** Of a chain at most one row is open, and it is the newest. */
  lemma OpenIsNewest(rows: seq<Row>, i: nat)
    requires Chain(rows) && i < |rows| && rows[i].validTo.None?
    ensures i == |rows| - 1
  {
    forall j | 0 <= j < |rows| - 1 ensures rows[j].validTo.Some? {
      assert rows[j].validTo == Some(rows[j+1].validFrom);
    }
  }
}
