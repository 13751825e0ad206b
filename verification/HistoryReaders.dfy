/** The write protocol and its readers together. */
module HistoryReaders {
  import opened CustomerTimeline
  import opened HistoryRows
  import opened Options
  import opened SegmentHistory
  import opened Sorting

  ghost predicate AtMostOneOpen(rows: seq<Row>, boundary: int) {
    forall i, j ::
      0 <= i < |rows| && 0 <= j < |rows| && OpenAt(rows[i], boundary) && OpenAt(rows[j], boundary) ==> i == j
  }

  /** After any interleaving of any number of runs, both readers agree on every customer's
      stored history, in whatever order its rows come back: the profile query and the timeline
      name the same open row with the same "since", the query's previous row is the newest
      entry before that stretch and carries another label, and no boundary finds two rows. */
  lemma {:induction false} ReadersAgreeAfterAnyRuns(w: World, steps: seq<Step>, customer: Customer, table: seq<Row>,
                                                    entries: seq<Entry>, boundary: int)
    requires Initial(w) && customer in Run(w, steps).tables.history
    requires multiset(table) == multiset(Run(w, steps).tables.history[customer])
    requires AreEntries(Sort(table, NewestFirst()), entries)
    ensures var rows := Run(w, steps).tables.history[customer];
            var profile := CurrentAndPrevious(table);
            && |entries| == |rows| && AtMostOneOpen(rows, boundary)
            && (if rows == [] then profile == Profile(None, None)
                else
                  var s := StretchStart(rows, |rows| - 1);
                  && profile.current == Some(entries[0].row.(validFrom := entries[0].labelSince))
                  && profile.previous == (if s > 0 then Some(entries[|rows| - s].row) else None)
                  && (s > 0 ==> entries[|rows| - s].row.code != entries[0].row.code))
  {
    hide Run, AreEntries, Sort, CurrentAndPrevious, StretchStart, Disjoint, Chain, OpenAt;
    var rows := Run(w, steps).tables.history[customer];
    HistoriesStayChains(w, steps);
    ChainIsDisjoint(rows);
    QueryAgreesWithTimeline(table, rows, entries);
    PreviousLabelDiffers(table, rows);
    AsOfIsUnique(rows, boundary);
    ReadsSeeNewestFirst(table, rows);
    EntriesOfHistory(rows, entries);
  }
}
