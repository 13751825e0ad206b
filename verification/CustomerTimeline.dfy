/** The two readers of a customer's history: the timeline walk and the streak query.
    Both are defined over the stored rows in whatever order the table holds them. */
module CustomerTimeline {
  import opened HistoryRows
  import opened Options
  import opened Sorting

  // ---------- the orders the two reads ask for ----------

  /** ORDER BY valid_from DESC, history_id DESC. */
  function NewestFirst(): (Row, Row) -> bool {
    (x: Row, y: Row) => x.validFrom > y.validFrom || (x.validFrom == y.validFrom && x.historyId >= y.historyId)
  }

  /** ORDER BY (valid_to IS NULL) DESC, valid_from DESC, history_id DESC. */
  function OpenFirst(): (Row, Row) -> bool {
    (x: Row, y: Row) =>
      if x.validTo.None? == y.validTo.None? then NewestFirst()(x, y) else x.validTo.None?
  }

  /** Oldest first, periods that never overlap, only the newest possibly open. A chain
      is such a history without gaps. */
  ghost predicate Disjoint(rows: seq<Row>) {
    && (forall i, j :: 0 <= i < j < |rows| ==> Precedes(rows[i], rows[j]))
    && (forall i :: 0 <= i < |rows| ==> WellTimed(rows[i]))
  }

  ghost predicate Precedes(x: Row, y: Row) {
    && x.validTo.Some? && x.validTo.value <= y.validFrom
    && x.validFrom <= y.validFrom && x.historyId < y.historyId
  }

  lemma ChainIsDisjoint(rows: seq<Row>)
    requires Chain(rows)
    ensures Disjoint(rows)
  {
    forall i, j | 0 <= i < j < |rows|
      ensures Precedes(rows[i], rows[j])
    {
      ChainStarts(rows, i, j);
    }
  }

  function Reversed(rows: seq<Row>): (r: seq<Row>)
    ensures |r| == |rows|
    ensures forall i :: 0 <= i < |rows| ==> r[i] == rows[|rows| - 1 - i]
    ensures multiset(r) == multiset(rows)
  {
    if rows == [] then []
    else
      assert rows == rows[..|rows|-1] + [rows[|rows|-1]];
      [rows[|rows|-1]] + Reversed(rows[..|rows|-1])
  }

  lemma ReversedIsOrdered(rows: seq<Row>)
    requires Disjoint(rows)
    ensures var r := Reversed(rows);
      && Sorted(r, NewestFirst()) && TieFree(r, NewestFirst())
      && Sorted(r, OpenFirst()) && TieFree(r, OpenFirst())
  {
    var r := Reversed(rows);
    forall i, j | 0 <= i < j < |r| ensures NewestFirst()(r[i], r[j]) && OpenFirst()(r[i], r[j])
      && !NewestFirst()(r[j], r[i]) && !OpenFirst()(r[j], r[i])
    {
      var a, b := |rows| - 1 - j, |rows| - 1 - i;
      assert r[j] == rows[a] && r[i] == rows[b] && Precedes(rows[a], rows[b]);
    }
  }

  lemma OrdersAreTotal()
    ensures TotalPreorder(NewestFirst()) && TotalPreorder(OpenFirst())
  {
  }

  /** Both reads see a disjoint history newest first, however it is stored. */
  lemma ReadsSeeNewestFirst(table: seq<Row>, rows: seq<Row>)
    requires Disjoint(rows) && multiset(table) == multiset(rows)
    ensures Sort(table, NewestFirst()) == Reversed(rows)
    ensures Sort(table, OpenFirst()) == Reversed(rows)
  {
    hide Disjoint, NewestFirst, OpenFirst, TotalPreorder, Sorted, TieFree, Sort;
    var r := Reversed(rows);
    ReversedIsOrdered(rows);
    OrdersAreTotal();
    SortIsSorted(table, NewestFirst());
    SortIsSorted(table, OpenFirst());
    SortedIsUnique(r, Sort(table, NewestFirst()), NewestFirst());
    SortedIsUnique(r, Sort(table, OpenFirst()), OpenFirst());
  }

  // ---------- the timeline ----------

  datatype Entry = Entry(row: Row, labelSince: int, changed: bool, isFirst: bool, previousRun: Option<nat>)

  predicate Contiguous(earlier: Row, later: Row) {
    earlier.validTo.Some? && earlier.validTo.value == later.validFrom
  }

  /** Row `i` carries on the label and the period of the row before it. */
  predicate Continues(rows: seq<Row>, i: nat)
    requires i < |rows|
  {
    i > 0 && rows[i-1].code == rows[i].code && Contiguous(rows[i-1], rows[i])
  }

  /** Where the maximal contiguous same-label stretch ending at `i` begins. */
  function StretchStart(rows: seq<Row>, i: nat): (s: nat)
    requires i < |rows|
    ensures s <= i
    ensures forall j :: s < j <= i ==> Continues(rows, j)
    ensures !Continues(rows, s)
  {
    if Continues(rows, i) then StretchStart(rows, i - 1) else i
  }

  ghost predicate IsEntry(rows: seq<Row>, i: nat, e: Entry)
    requires i < |rows|
  {
    && e.row == rows[i]
    && e.labelSince == rows[StretchStart(rows, i)].validFrom
    && (e.changed <==> i > 0 && rows[i-1].code != rows[i].code)
    && (e.isFirst <==> i == 0)
    && e.previousRun == if i > 0 then Some(rows[i-1].runId) else None
  }

  ghost predicate AreEntries(newest: seq<Row>, entries: seq<Entry>) {
    && |entries| == |newest|
    && forall i :: 0 <= i < |newest| ==> IsEntry(Reversed(newest), |newest| - 1 - i, entries[i])
  }

  /** `build_entries`: rows newest first in, entries newest first out. */
  method BuildEntries(newest: seq<Row>) returns (entries: seq<Entry>)
    ensures AreEntries(newest, entries)
  {
    var oldest := Reversed(newest);
    var built: seq<Entry> := [];
    for i := 0 to |oldest|
      invariant |built| == i
      invariant forall j :: 0 <= j < i ==> IsEntry(oldest, j, built[j])
    {
      var row := oldest[i];
      var continues := i > 0 && oldest[i-1].code == row.code && Contiguous(oldest[i-1], row);
      built := built + [Entry(
        row,
        if continues then built[i-1].labelSince else row.validFrom,
        i > 0 && oldest[i-1].code != row.code,
        i == 0,
        if i > 0 then Some(oldest[i-1].runId) else None)];
    }
    entries := seq(|built|, i requires 0 <= i < |built| => built[|built| - 1 - i]);
  }

  /** The assignment open at the instant `boundary` closes a day. */
  predicate OpenAt(row: Row, boundary: int) {
    row.validFrom < boundary && (row.validTo.None? || row.validTo.value >= boundary)
  }

  function EntryAsOf(rows: seq<Row>, boundary: int): (found: Option<Row>)
    ensures found.Some? ==> found.value in rows && OpenAt(found.value, boundary)
    ensures found.None? ==> forall i :: 0 <= i < |rows| ==> !OpenAt(rows[i], boundary)
  {
    if rows == [] then None
    else if OpenAt(rows[0], boundary) then Some(rows[0])
    else EntryAsOf(rows[1..], boundary)
  }

  /** No boundary has two answers, so the one found is the only one. */
  lemma AsOfIsUnique(rows: seq<Row>, boundary: int)
    requires Disjoint(rows)
    ensures forall i, j :: 0 <= i < |rows| && 0 <= j < |rows| && OpenAt(rows[i], boundary) && OpenAt(rows[j], boundary) ==> i == j
    ensures forall i :: 0 <= i < |rows| && OpenAt(rows[i], boundary) ==> EntryAsOf(Reversed(rows), boundary) == Some(rows[i])
  {
    var r := Reversed(rows);
    var found := EntryAsOf(r, boundary);
    forall i | 0 <= i < |rows| && OpenAt(rows[i], boundary) ensures found == Some(rows[i]) {
      assert r[|rows| - 1 - i] == rows[i];
      var j :| 0 <= j < |r| && r[j] == found.value;
      assert rows[|rows| - 1 - j] == found.value;
    }
  }

  /** Without gaps somebody scored is always somewhere: from just after the first start
      on, every boundary up to the last end has its answer. */
  lemma {:induction false} AsOfCoversChain(rows: seq<Row>, boundary: int) returns (i: nat)
    requires Chain(rows) && rows != [] && rows[0].validFrom < boundary
    requires var last := rows[|rows|-1]; last.validTo.None? || boundary <= last.validTo.value
    ensures i < |rows| && OpenAt(rows[i], boundary)
  {
    i := |rows| - 1;
    if rows[i].validFrom >= boundary {
      assert rows[i-1].validTo == Some(rows[i].validFrom);
      var before := rows[..i];
      assert Chain(before) by {
        assert forall j :: 0 <= j < i - 1 ==> rows[j].validTo == Some(rows[j+1].validFrom);
      }
      i := AsOfCoversChain(before, boundary);
    }
  }

  // ---------- the streak query ----------

  /** The running count of breaks: a new label, or a period that does not end where
      the newer row begins. */
  function Streak(ordered: seq<Row>, i: nat): (streak: nat)
    requires i < |ordered|
    ensures 1 <= streak <= i + 1
  {
    if i == 0 then 1
    else
      var broken := ordered[i].code != ordered[i-1].code || ordered[i].validTo != Some(ordered[i-1].validFrom);
      Streak(ordered, i - 1) + (if broken then 1 else 0)
  }

  function OpenRow(ordered: seq<Row>, i: nat): (found: Option<nat>)
    requires i <= |ordered|
    ensures found.Some? ==> i <= found.value < |ordered| && ordered[found.value].validTo.None?
    ensures found.None? ==> forall j :: i <= j < |ordered| ==> ordered[j].validTo.Some?
    decreases |ordered| - i
  {
    if i == |ordered| then None
    else if ordered[i].validTo.None? then Some(i)
    else OpenRow(ordered, i + 1)
  }

  /** min(valid_from) over the rows of one streak up to position `n`. */
  function StreakStart(ordered: seq<Row>, streak: nat, n: nat): Option<int>
    requires n <= |ordered|
  {
    if n == 0 then None
    else
      var before := StreakStart(ordered, streak, n - 1);
      var from := ordered[n-1].validFrom;
      if Streak(ordered, n - 1) != streak then before
      else if before.None? || from < before.value then Some(from) else before
  }

  /** The row of a streak with the smallest position. */
  function FirstOf(ordered: seq<Row>, streak: nat, i: nat): Option<Row>
    requires i <= |ordered|
    decreases |ordered| - i
  {
    if i == |ordered| then None
    else if Streak(ordered, i) == streak then Some(ordered[i])
    else FirstOf(ordered, streak, i + 1)
  }

  datatype Profile = Profile(current: Option<Row>, previous: Option<Row>)

  /** The query over a table with at most one open row: the open row dated from the
      start of its streak and the first row of the next streak; without an open row,
      only the first row, as the previous one. */
  function CurrentAndPrevious(table: seq<Row>): Profile {
    var ordered := Sort(table, OpenFirst());
    match OpenRow(ordered, 0)
    case Some(i) =>
      var streak := Streak(ordered, i);
      var start := StreakStart(ordered, streak, |ordered|);
      Profile(
        Some(ordered[i].(validFrom := if start.Some? then start.value else ordered[i].validFrom)),
        FirstOf(ordered, streak + 1, 0))
    case None => Profile(None, if ordered == [] then None else Some(ordered[0]))
  }

  // ---------- the two agree ----------

  /** Newest first, the first streak is exactly the newest stretch of the walk. */
  lemma {:induction false} FirstStreakIsStretch(rows: seq<Row>, i: nat)
    requires i < |rows|
    ensures Streak(Reversed(rows), i) == 1 <==> |rows| - 1 - i >= StretchStart(rows, |rows| - 1)
    ensures |rows| - 1 - i == StretchStart(rows, |rows| - 1) - 1 ==> Streak(Reversed(rows), i) == 2
  {
    hide StretchStart, Continues, Reversed;
    var n := |rows| - 1;
    if i == 0 {
    } else {
      FirstStreakIsStretch(rows, i - 1);
      StretchEnds(rows, n, n - i);
      StreakStep(rows, i);
    }
  }

  lemma StreakStep(rows: seq<Row>, i: nat)
    requires 0 < i < |rows|
    ensures var r, n := Reversed(rows), |rows| - 1;
      Streak(r, i) == Streak(r, i - 1) + (if Continues(rows, n - i + 1) then 0 else 1)
  {
  }

  /** A stretch reaches back over `j` only if every step above `j` continues. */
  lemma {:induction false} StretchEnds(rows: seq<Row>, i: nat, j: nat)
    requires j < i < |rows|
    ensures j >= StretchStart(rows, i) <==> j + 1 >= StretchStart(rows, i) && Continues(rows, j + 1)
  {
  }

  lemma {:induction false} StreakStartIsStretchStart(rows: seq<Row>, n: nat)
    requires Disjoint(rows) && rows != [] && 1 <= n <= |rows|
    ensures var s := StretchStart(rows, |rows| - 1);
      StreakStart(Reversed(rows), 1, n) == Some(rows[if |rows| - n >= s then |rows| - n else s].validFrom)
  {
    hide StretchStart, Disjoint, Streak;
    FirstStreakIsStretch(rows, n - 1);
    if n > 1 {
      StreakStartIsStretchStart(rows, n - 1);
      StartsGrow(rows, |rows| - n);
    } else {
      assert StreakStart(Reversed(rows), 1, 0) == None;
    }
  }

  lemma StartsGrow(rows: seq<Row>, i: nat)
    requires Disjoint(rows) && i + 1 < |rows|
    ensures rows[i].validFrom <= rows[i+1].validFrom
  {
  }

  lemma {:induction false} NextStreakIsBeforeStretch(rows: seq<Row>, i: nat)
    requires rows != [] && i <= |rows|
    requires i <= |rows| - StretchStart(rows, |rows| - 1)
    ensures var s := StretchStart(rows, |rows| - 1);
      FirstOf(Reversed(rows), 2, i) == if s > 0 then Some(rows[s - 1]) else None
    decreases |rows| - i
  {
    if i < |rows| {
      FirstStreakIsStretch(rows, i);
      if |rows| - 1 - i >= StretchStart(rows, |rows| - 1) {
        NextStreakIsBeforeStretch(rows, i + 1);
      }
    }
  }

  lemma NothingAfterOpen(rows: seq<Row>)
    requires Disjoint(rows)
    ensures forall i :: 0 < i < |rows| ==> Reversed(rows)[i].validTo.Some?
  {
  }

  /** What the query answers on any history whose periods do not overlap, however its
      rows are stored. */
  lemma QueryFindsStretch(table: seq<Row>, rows: seq<Row>)
    requires Disjoint(rows) && multiset(table) == multiset(rows)
    ensures var p := CurrentAndPrevious(table);
      if rows == [] then p == Profile(None, None)
      else
        var newest, s := rows[|rows|-1], StretchStart(rows, |rows| - 1);
        if newest.validTo.Some? then p == Profile(None, Some(newest))
        else p == Profile(Some(newest.(validFrom := rows[s].validFrom)), if s > 0 then Some(rows[s-1]) else None)
  {
    hide Sort, StretchStart, Streak, StreakStart, FirstOf, Reversed, Disjoint;
    ReadsSeeNewestFirst(table, rows);
    var r := Reversed(rows);
    NothingAfterOpen(rows);
    if rows != [] && r[0].validTo.None? {
      StreakStartIsStretchStart(rows, |rows|);
      NextStreakIsBeforeStretch(rows, 0);
      assert OpenRow(r, 0) == Some(0);
      assert Streak(r, 0) == 1 by { FirstStreakIsStretch(rows, 0); }
    }
  }

  lemma TwiceReversed(rows: seq<Row>)
    ensures Reversed(Reversed(rows)) == rows
  {
    hide Reversed;
    assert |Reversed(Reversed(rows))| == |rows|;
  }

  /** Query and timeline agree on every such history: same open row, "since" the open
      entry's, previous the newest entry outside the open entry's stretch. */
  lemma QueryAgreesWithTimeline(table: seq<Row>, rows: seq<Row>, entries: seq<Entry>)
    requires Disjoint(rows) && multiset(table) == multiset(rows)
    requires AreEntries(Sort(table, NewestFirst()), entries)
    ensures var p := CurrentAndPrevious(table);
      if entries == [] then p == Profile(None, None)
      else if entries[0].row.validTo.Some? then p == Profile(None, Some(entries[0].row))
      else
        && p.current == Some(entries[0].row.(validFrom := entries[0].labelSince))
        && (var s := StretchStart(rows, |rows| - 1);
            p.previous == if |entries| > |rows| - s then Some(entries[|rows| - s].row) else None)
  {
    hide Sort, StretchStart, Disjoint, CurrentAndPrevious, Reversed, AreEntries;
    QueryFindsStretch(table, rows);
    ReadsSeeNewestFirst(table, rows);
    EntriesOfHistory(rows, entries);
  }

  lemma {:induction false} EntriesOfHistory(rows: seq<Row>, entries: seq<Entry>)
    requires AreEntries(Reversed(rows), entries)
    ensures |entries| == |rows|
    ensures forall i :: 0 <= i < |rows| ==> entries[i].row == rows[|rows| - 1 - i]
    ensures rows != [] ==> entries[0].labelSince == rows[StretchStart(rows, |rows| - 1)].validFrom
  {
    hide StretchStart, Reversed;
    TwiceReversed(rows);
    forall i | 0 <= i < |rows| ensures entries[i].row == rows[|rows| - 1 - i] {
      assert IsEntry(rows, |rows| - 1 - i, entries[i]);
    }
  }

  // ---------- when the previous row carries another label ----------

  lemma {:induction false} StretchKeepsLabel(rows: seq<Row>, i: nat, j: nat)
    requires i < |rows| && StretchStart(rows, i) <= j <= i
    ensures rows[j].code == rows[i].code
  {
    if j < i {
      assert Continues(rows, i);
      StretchKeepsLabel(rows, i - 1, j);
    }
  }

  /** Where the newest run of one label begins, gaps or not. */
  function LabelStart(rows: seq<Row>, i: nat): (s: nat)
    requires i < |rows|
    ensures s <= i
    ensures forall j :: s < j <= i ==> rows[j-1].code == rows[j].code
    ensures s > 0 ==> rows[s-1].code != rows[s].code
  {
    if i > 0 && rows[i-1].code == rows[i].code then LabelStart(rows, i - 1) else i
  }

  /** No gap inside the newest run of one label. */
  ghost predicate NewestLabelHasNoGap(rows: seq<Row>)
    requires rows != []
  {
    forall j :: LabelStart(rows, |rows| - 1) < j < |rows| ==> Contiguous(rows[j-1], rows[j])
  }

  /** A stretch goes back as far as its label does, unless a gap stops it. */
  lemma StretchStopsAtLabelOrGap(rows: seq<Row>)
    requires rows != []
    ensures var s, l := StretchStart(rows, |rows| - 1), LabelStart(rows, |rows| - 1);
      l <= s && (s == l <==> NewestLabelHasNoGap(rows))
  {
    var s, l := StretchStart(rows, |rows| - 1), LabelStart(rows, |rows| - 1);
    hide StretchStart, LabelStart;
    assert s < l ==> Continues(rows, l);
    if s > l {
      assert !Continues(rows, s);
    } else {
      forall j | l < j < |rows| ensures Contiguous(rows[j-1], rows[j]) {
        assert Continues(rows, j);
      }
    }
  }

  /** The previous row carries another label exactly when no gap interrupts the newest run of
      the current one: over a gap the query returns the row before it, whatever its label. */
  lemma PreviousDiffersExactly(table: seq<Row>, rows: seq<Row>)
    requires Disjoint(rows) && multiset(table) == multiset(rows)
    ensures var p := CurrentAndPrevious(table);
      p.current.Some? && p.previous.Some? ==>
        (rows != [] && (p.previous.value.code != p.current.value.code <==> NewestLabelHasNoGap(rows)))
  {
    hide CurrentAndPrevious, Disjoint, NewestLabelHasNoGap, StretchStart, LabelStart;
    QueryFindsStretch(table, rows);
    if rows != [] && CurrentAndPrevious(table).previous.Some? {
      var s, l := StretchStart(rows, |rows| - 1), LabelStart(rows, |rows| - 1);
      StretchStopsAtLabelOrGap(rows);
      StretchKeepsLabel(rows, |rows| - 1, s);
    }
  }

  /** On a chain, which is all that runs write, the previous row carries another label. */
  lemma PreviousLabelDiffers(table: seq<Row>, rows: seq<Row>)
    requires Chain(rows) && multiset(table) == multiset(rows)
    ensures var p := CurrentAndPrevious(table);
      p.current.Some? && p.previous.Some? ==> p.previous.value.code != p.current.value.code
  {
    hide CurrentAndPrevious, LabelStart;
    ChainIsDisjoint(rows);
    PreviousDiffersExactly(table, rows);
    if rows != [] {
      forall j | LabelStart(rows, |rows| - 1) < j < |rows| ensures Contiguous(rows[j-1], rows[j]) {
        assert rows[j-1].validTo == Some(rows[j].validFrom);
      }
    }
  }

  /** A customer unscored for a while and then given the same label again is shown that label
      as the previous one too. */
  lemma GapRepeatsLabel() returns (rows: seq<Row>)
    ensures Disjoint(rows)
    ensures var p := CurrentAndPrevious(rows);
      p.current.Some? && p.previous.Some? && p.previous.value.code == p.current.value.code
  {
    rows := [Row(0, 0, Some(1), 0, Some(5)), Row(1, 1, Some(1), 7, None)];
    assert !Continues(rows, 1);
    assert StretchStart(rows, 1) == 1;
    hide CurrentAndPrevious;
    QueryFindsStretch(rows, rows);
  }
}
