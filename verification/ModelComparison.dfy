/** What two segmentation runs said of the same customers, side by side. */
module ModelComparison {
  import opened Options
  import opened Sorting

  const UNASSIGNED := "Unassigned"

  /** Names are opaque ordered codes; no label is the unassigned result. */
  datatype Row = Row(customer: nat, name: nat, held: Option<string>)
  datatype Entry = Entry(name: nat, held: Option<string>)
  type Index = map<nat, Entry>

  datatype Indexed = Indexed(entries: Index) | UnknownLabel | TwiceInOneRun

  datatype Status = Agree | Disagree | OnlyFirst | OnlySecond
  datatype Customer = Customer(id: nat, name: nat, first: Option<string>, second: Option<string>, status: Status)
  datatype Population = Population(held: Option<string>, first: nat, second: nat)

  datatype Counts = Counts(agree: nat, disagree: nat, onlyFirst: nat, onlySecond: nat)

  datatype Comparison = Comparison(populations: seq<Population>, firstTotal: nat, secondTotal: nat,
                                   cells: map<string, map<string, nat>>, customers: seq<Customer>,
                                   counts: Counts)
  datatype Outcome = Compared(comparison: Comparison) | Refused(why: Indexed)

  predicate InVocabulary(held: Option<string>, vocabulary: seq<string>) {
    held.None? || held.value in vocabulary
  }

  // ---------- Indexing one run ----------

  /** Rows before the first one that is out of vocabulary or repeats a customer. */
  ghost predicate Clean(rows: seq<Row>, vocabulary: seq<string>) {
    && (forall i :: 0 <= i < |rows| ==> InVocabulary(rows[i].held, vocabulary))
    && (forall i, j :: 0 <= i < j < |rows| ==> rows[i].customer != rows[j].customer)
  }

  ghost predicate IndexOf(entries: Index, rows: seq<Row>) {
    && (forall i :: 0 <= i < |rows| ==>
          rows[i].customer in entries && entries[rows[i].customer] == Entry(rows[i].name, rows[i].held))
    && (forall c :: c in entries ==> exists i :: 0 <= i < |rows| && rows[i].customer == c)
  }

  method IndexRows(rows: seq<Row>, vocabulary: seq<string>) returns (index: Indexed)
    ensures index.Indexed? <==> Clean(rows, vocabulary)
    ensures index.Indexed? ==> IndexOf(index.entries, rows)
    ensures index.UnknownLabel? ==> exists i :: 0 <= i < |rows| && !InVocabulary(rows[i].held, vocabulary)
    ensures (index.TwiceInOneRun? ==>
               exists i, j :: 0 <= i < j < |rows| && rows[i].customer == rows[j].customer
                              && Clean(rows[..j], vocabulary) && InVocabulary(rows[j].held, vocabulary))
  {
    var entries: Index := map[];
    for k := 0 to |rows|
      invariant Clean(rows[..k], vocabulary) && IndexOf(entries, rows[..k])
    {
      if !InVocabulary(rows[k].held, vocabulary) {
        return UnknownLabel;
      }
      if rows[k].customer in entries {
        var i :| 0 <= i < k && rows[..k][i].customer == rows[k].customer;
        assert rows[i].customer == rows[k].customer;
        return TwiceInOneRun;
      }
      entries := entries[rows[k].customer := Entry(rows[k].name, rows[k].held)];
      NextRowIsClean(rows, vocabulary, k, entries);
    }
    assert rows[..|rows|] == rows;
    index := Indexed(entries);
  }

  lemma NextRowIsClean(rows: seq<Row>, vocabulary: seq<string>, k: nat, entries: Index)
    requires k < |rows| && Clean(rows[..k], vocabulary) && InVocabulary(rows[k].held, vocabulary)
    requires forall i :: 0 <= i < k ==> rows[i].customer != rows[k].customer
    ensures Clean(rows[..k+1], vocabulary)
  {
    var now := rows[..k+1];
    forall i, j | 0 <= i < j < |now| ensures now[i].customer != now[j].customer {
      assert j < k ==> rows[..k][i].customer != rows[..k][j].customer;
    }
    forall i | 0 <= i < |now| ensures InVocabulary(now[i].held, vocabulary) {
      assert i < k ==> rows[..k][i] == now[i];
    }
  }

  // ---------- What the comparison counts ----------

  /** The cell a label is counted under: an empty label falls with the unassigned. */
  function Text(held: Option<string>): string {
    if held.None? || held.value == "" then UNASSIGNED else held.value
  }

  function Everyone(first: Index, second: Index): set<nat> { first.Keys + second.Keys }

  function StatusOf(first: Index, second: Index, id: nat): Status
    requires id in Everyone(first, second)
  {
    if id in first && id in second then (if first[id].held == second[id].held then Agree else Disagree)
    else if id in first then OnlyFirst
    else OnlySecond
  }

  /** Customers among `ids` with one status. */
  function Having(first: Index, second: Index, ids: set<nat>, status: Status): set<nat>
    requires ids <= Everyone(first, second)
  {
    set id | id in ids && StatusOf(first, second, id) == status
  }

  /** Customers among `ids` that both runs scored, in one cell. */
  function InCell(first: Index, second: Index, ids: set<nat>, row: string, column: string): set<nat> {
    set id | id in ids && id in first && id in second
             && Text(first[id].held) == row && Text(second[id].held) == column
  }

  function CustomerOf(first: Index, second: Index, id: nat): Customer
    requires id in Everyone(first, second)
  {
    var status := StatusOf(first, second, id);
    if id in first && id in second then Customer(id, first[id].name, first[id].held, second[id].held, status)
    else if id in first then Customer(id, first[id].name, first[id].held, None, status)
    else Customer(id, second[id].name, None, second[id].held, status)
  }

  function HeldBy(run: Index, held: Option<string>): set<nat> { set id | id in run && run[id].held == held }

  function Columns(vocabulary: seq<string>): seq<string> { vocabulary + [UNASSIGNED] }

  function ByName(): (Customer, Customer) -> bool {
    (x: Customer, y: Customer) => x.name < y.name || (x.name == y.name && x.id <= y.id)
  }

  /** One line per customer, by name and then id. */
  ghost predicate ListsCustomers(customers: seq<Customer>, first: Index, second: Index, ids: set<nat>)
    requires ids <= Everyone(first, second)
  {
    && (forall c :: c in customers ==> c.id in ids && c == CustomerOf(first, second, c.id))
    && (forall id :: id in ids ==> CustomerOf(first, second, id) in customers)
    && Distinct(customers)
  }

  ghost predicate CellsCount(cells: map<string, map<string, nat>>, first: Index, second: Index, ids: set<nat>,
                             columns: seq<string>)
  {
    && (forall r :: r in cells <==> r in columns)
    && (forall r, c :: r in cells && c in columns ==>
          c in cells[r] && cells[r][c] == |InCell(first, second, ids, r, c)|)
  }

  ghost predicate PopulationsCount(populations: seq<Population>, first: Index, second: Index, vocabulary: seq<string>) {
    && |populations| == |vocabulary| + 1
    && forall k :: 0 <= k < |populations| ==>
         var held := if k < |vocabulary| then Some(vocabulary[k]) else None;
         populations[k] == Population(held, |HeldBy(first, held)|, |HeldBy(second, held)|)
  }

  /** What every comparison of two indexed runs reports. */
  ghost predicate Reports(c: Comparison, first: Index, second: Index, vocabulary: seq<string>) {
    var all := Everyone(first, second);
    && c.firstTotal == |first| && c.secondTotal == |second|
    && PopulationsCount(c.populations, first, second, vocabulary)
    && CellsCount(c.cells, first, second, all, Columns(vocabulary))
    && ListsCustomers(c.customers, first, second, all) && Sorted(c.customers, ByName())
    && StatusCounts(c.counts, first, second, all)
  }

  // ---------- The loops ----------

  lemma HavingOneMore(first: Index, second: Index, ids: set<nat>, id: nat, status: Status)
    requires ids <= Everyone(first, second) && id in Everyone(first, second) && id !in ids
    ensures |Having(first, second, ids + {id}, status)|
         == |Having(first, second, ids, status)| + (if StatusOf(first, second, id) == status then 1 else 0)
  {
    assert Having(first, second, ids + {id}, status)
        == Having(first, second, ids, status) + (if StatusOf(first, second, id) == status then {id} else {}) by {
      hide StatusOf;
    }
  }

  ghost predicate Lands(first: Index, second: Index, id: nat, row: string, column: string) {
    id in first && id in second && Text(first[id].held) == row && Text(second[id].held) == column
  }

  lemma CellOneMore(first: Index, second: Index, ids: set<nat>, id: nat, row: string, column: string)
    requires id !in ids
    ensures |InCell(first, second, ids + {id}, row, column)|
         == |InCell(first, second, ids, row, column)| + (if Lands(first, second, id, row, column) then 1 else 0)
  {
    assert InCell(first, second, ids + {id}, row, column)
        == InCell(first, second, ids, row, column) + (if Lands(first, second, id, row, column) then {id} else {});
  }

  lemma CellsOneMore(cells: map<string, map<string, nat>>, first: Index, second: Index, ids: set<nat>, id: nat,
                     columns: seq<string>)
    requires id !in ids && CellsCount(cells, first, second, ids, columns)
    ensures !(id in first && id in second) ==> CellsCount(cells, first, second, ids + {id}, columns)
    ensures (id in first && id in second && Text(first[id].held) in columns && Text(second[id].held) in columns ==>
               var r, c := Text(first[id].held), Text(second[id].held);
               r in cells && c in cells[r] &&
               CellsCount(cells[r := cells[r][c := cells[r][c] + 1]], first, second, ids + {id}, columns))
  {
    hide InCell, Text;
    forall r, c {
      CellOneMore(first, second, ids, id, r, c);
    }
  }

  method EmptyCells(columns: seq<string>) returns (cells: map<string, map<string, nat>>)
    ensures CellsCount(cells, map[], map[], {}, columns)
    ensures forall r, c :: r in cells && c in columns ==> c in cells[r] && cells[r][c] == 0
  {
    var line: map<string, nat> := map c | c in columns :: 0;
    cells := map r | r in columns :: line;
  }

  method CountPopulations(first: Index, second: Index, vocabulary: seq<string>) returns (populations: seq<Population>)
    ensures PopulationsCount(populations, first, second, vocabulary)
  {
    populations := [];
    for k := 0 to |vocabulary| + 1
      invariant |populations| == k
      invariant forall j :: 0 <= j < k ==>
        var held := if j < |vocabulary| then Some(vocabulary[j]) else None;
        populations[j] == Population(held, |HeldBy(first, held)|, |HeldBy(second, held)|)
    {
      var held := if k < |vocabulary| then Some(vocabulary[k]) else None;
      populations := populations + [Population(held, |HeldBy(first, held)|, |HeldBy(second, held)|)];
    }
  }

  lemma ListOneMore(customers: seq<Customer>, first: Index, second: Index, ids: set<nat>, id: nat)
    requires ids <= Everyone(first, second) && id in Everyone(first, second) && id !in ids
    requires ListsCustomers(customers, first, second, ids)
    ensures ListsCustomers(customers + [CustomerOf(first, second, id)], first, second, ids + {id})
  {
    hide StatusOf;
  }

  lemma SameListing(customers: seq<Customer>, sorted: seq<Customer>, first: Index, second: Index, ids: set<nat>)
    requires ids <= Everyone(first, second) && ListsCustomers(customers, first, second, ids)
    requires Distinct(sorted) && forall c :: c in sorted <==> c in customers
    ensures ListsCustomers(sorted, first, second, ids)
  {
    hide CustomerOf, Distinct;
  }

  lemma ByNameIsTotal()
    ensures TotalPreorder(ByName())
  {
  }

  lemma SortingKeepsList(customers: seq<Customer>, first: Index, second: Index, ids: set<nat>)
    requires ids <= Everyone(first, second) && ListsCustomers(customers, first, second, ids)
    ensures ListsCustomers(Sort(customers, ByName()), first, second, ids)
    ensures Sorted(Sort(customers, ByName()), ByName())
  {
    assert Distinct(customers);
    hide ListsCustomers, CustomerOf, Sort, ByName, Distinct, TotalPreorder, Sorted;
    var sorted := Sort(customers, ByName());
    ByNameIsTotal();
    SortIsSorted(customers, ByName());
    DistinctTogether(customers, sorted);
    forall c ensures c in sorted <==> c in customers {
      SameElements(customers, sorted, c);
    }
    SameListing(customers, sorted, first, second, ids);
  }

  ghost predicate StatusCounts(counts: Counts, first: Index, second: Index, ids: set<nat>)
    requires ids <= Everyone(first, second)
  {
    && counts.agree == |Having(first, second, ids, Agree)|
    && counts.disagree == |Having(first, second, ids, Disagree)|
    && counts.onlyFirst == |Having(first, second, ids, OnlyFirst)|
    && counts.onlySecond == |Having(first, second, ids, OnlySecond)|
  }

  /** Adds one customer to the four counts. */
  method CountOne(counts: Counts, first: Index, second: Index, id: nat, ghost ids: set<nat>) returns (more: Counts)
    requires ids <= Everyone(first, second) && id in Everyone(first, second) && id !in ids
    requires StatusCounts(counts, first, second, ids)
    ensures StatusCounts(more, first, second, ids + {id})
  {
    HavingOneMore(first, second, ids, id, Agree);
    HavingOneMore(first, second, ids, id, Disagree);
    HavingOneMore(first, second, ids, id, OnlyFirst);
    HavingOneMore(first, second, ids, id, OnlySecond);
    hide Having;
    if id in first && id in second {
      if first[id].held == second[id].held {
        more := counts.(agree := counts.agree + 1);
      } else {
        more := counts.(disagree := counts.disagree + 1);
      }
    } else if id in first {
      more := counts.(onlyFirst := counts.onlyFirst + 1);
    } else {
      more := counts.(onlySecond := counts.onlySecond + 1);
    }
  }

  /** Adds one customer to its cell, when both runs scored it. */
  method FillOne(cells: map<string, map<string, nat>>, first: Index, second: Index, id: nat,
                 vocabulary: seq<string>, ghost ids: set<nat>)
    returns (more: map<string, map<string, nat>>)
    requires CellsCount(cells, first, second, ids, Columns(vocabulary)) && id !in ids
    requires id in first ==> InVocabulary(first[id].held, vocabulary)
    requires id in second ==> InVocabulary(second[id].held, vocabulary)
    ensures CellsCount(more, first, second, ids + {id}, Columns(vocabulary))
  {
    CellsOneMore(cells, first, second, ids, id, Columns(vocabulary));
    hide CellsCount, Text, Columns;
    more := cells;
    if id in first && id in second {
      TextHasAColumn(first, vocabulary, id);
      TextHasAColumn(second, vocabulary, id);
      var row, column := Text(first[id].held), Text(second[id].held);
      more := more[row := more[row][column := more[row][column] + 1]];
    }
  }

  /** Everything counted so far covers exactly `ids`. */
  ghost predicate Covers(cells: map<string, map<string, nat>>, customers: seq<Customer>, counts: Counts,
                         first: Index, second: Index, vocabulary: seq<string>, ids: set<nat>)
  {
    && ids <= Everyone(first, second)
    && CellsCount(cells, first, second, ids, Columns(vocabulary))
    && ListsCustomers(customers, first, second, ids)
    && StatusCounts(counts, first, second, ids)
  }

  lemma NothingCounted(first: Index, second: Index, cells: map<string, map<string, nat>>, vocabulary: seq<string>)
    requires CellsCount(cells, map[], map[], {}, Columns(vocabulary))
    ensures Covers(cells, [], Counts(0, 0, 0, 0), first, second, vocabulary, {})
  {
    forall r, c ensures InCell(first, second, {}, r, c) == InCell(map[], map[], {}, r, c) {
    }
    forall status ensures Having(first, second, {}, status) == {} {
    }
  }

  lemma TextHasAColumn(run: Index, vocabulary: seq<string>, id: nat)
    requires id in run && InVocabulary(run[id].held, vocabulary)
    ensures Text(run[id].held) in Columns(vocabulary)
  {
  }

  method CountNext(cells: map<string, map<string, nat>>, customers: seq<Customer>, counts: Counts,
                   first: Index, second: Index, vocabulary: seq<string>, id: nat, ghost ids: set<nat>)
    returns (cells': map<string, map<string, nat>>, customers': seq<Customer>, counts': Counts)
    requires id in first ==> InVocabulary(first[id].held, vocabulary)
    requires id in second ==> InVocabulary(second[id].held, vocabulary)
    requires Covers(cells, customers, counts, first, second, vocabulary, ids)
    requires id in Everyone(first, second) && id !in ids
    ensures Covers(cells', customers', counts', first, second, vocabulary, ids + {id})
  {
    hide CellsCount, ListsCustomers, StatusCounts, Columns, CustomerOf, InVocabulary;
    counts' := CountOne(counts, first, second, id, ids);
    cells' := FillOne(cells, first, second, id, vocabulary, ids);
    ListOneMore(customers, first, second, ids, id);
    customers' := customers + [CustomerOf(first, second, id)];
  }

  /** Goes through every customer of either run once. */
  method CountEveryone(first: Index, second: Index, vocabulary: seq<string>)
    returns (cells: map<string, map<string, nat>>, customers: seq<Customer>, counts: Counts)
    requires forall id :: id in first ==> InVocabulary(first[id].held, vocabulary)
    requires forall id :: id in second ==> InVocabulary(second[id].held, vocabulary)
    ensures Covers(cells, customers, counts, first, second, vocabulary, Everyone(first, second))
  {
    hide Covers, CellsCount, Columns, Everyone, InVocabulary;
    cells := EmptyCells(Columns(vocabulary));
    customers, counts := [], Counts(0, 0, 0, 0);
    NothingCounted(first, second, cells, vocabulary);
    var rest := Everyone(first, second);
    ghost var seen: set<nat> := {};
    while rest != {}
      invariant rest <= Everyone(first, second) && seen == Everyone(first, second) - rest
      invariant Covers(cells, customers, counts, first, second, vocabulary, seen)
      decreases |rest|
    {
      var id :| id in rest;
      cells, customers, counts := CountNext(cells, customers, counts, first, second, vocabulary, id, seen);
      rest := rest - {id};
      assert seen + {id} == Everyone(first, second) - rest;
      seen := seen + {id};
    }
    assert seen == Everyone(first, second);
  }

  method CompareIndexed(first: Index, second: Index, vocabulary: seq<string>) returns (comparison: Comparison)
    requires forall id :: id in first ==> InVocabulary(first[id].held, vocabulary)
    requires forall id :: id in second ==> InVocabulary(second[id].held, vocabulary)
    ensures Reports(comparison, first, second, vocabulary)
  {
    var populations := CountPopulations(first, second, vocabulary);
    var cells, customers, counts := CountEveryone(first, second, vocabulary);
    SortingKeepsList(customers, first, second, Everyone(first, second));
    hide CellsCount, ListsCustomers, StatusCounts, Columns, PopulationsCount, Everyone, Sort;
    comparison := Comparison(populations, |first|, |second|, cells, Sort(customers, ByName()), counts);
  }

  /** Both runs are indexed before anything is counted; the first one's fault is reported first. */
  method CompareRuns(firstRows: seq<Row>, secondRows: seq<Row>, vocabulary: seq<string>)
    returns (outcome: Outcome)
    ensures outcome.Compared? <==> Clean(firstRows, vocabulary) && Clean(secondRows, vocabulary)
    ensures (outcome.Compared? ==>
               exists first, second ::
                 IndexOf(first, firstRows) && IndexOf(second, secondRows)
                 && Reports(outcome.comparison, first, second, vocabulary))
    ensures outcome.Refused? ==> !outcome.why.Indexed?
  {
    hide Reports, IndexOf, Clean;
    var one := IndexRows(firstRows, vocabulary);
    if !one.Indexed? {
      return Refused(one);
    }
    var two := IndexRows(secondRows, vocabulary);
    if !two.Indexed? {
      return Refused(two);
    }
    IndexedLabelsAreKnown(one.entries, firstRows, vocabulary);
    IndexedLabelsAreKnown(two.entries, secondRows, vocabulary);
    var comparison := CompareIndexed(one.entries, two.entries, vocabulary);
    outcome := Compared(comparison);
  }

  lemma IndexedLabelsAreKnown(entries: Index, rows: seq<Row>, vocabulary: seq<string>)
    requires Clean(rows, vocabulary) && IndexOf(entries, rows)
    ensures forall id :: id in entries ==> InVocabulary(entries[id].held, vocabulary)
  {
  }
}
