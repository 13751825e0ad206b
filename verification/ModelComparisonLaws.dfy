/** How the figures of a comparison reconcile. */
module ModelComparisonLaws {
  import opened Counting
  import opened GroupSums
  import opened ModelComparison
  import opened Options
  import opened Sorting

  // ---------- Sums over classes ----------

  function SumOf(keys: seq<string>, f: string -> nat): nat {
    if keys == [] then 0 else SumOf(keys[..|keys|-1], f) + f(keys[|keys|-1])
  }

  /** The members of one class. */
  function Part(ids: set<nat>, classOf: nat -> string, key: string): set<nat> {
    set id | id in ids && classOf(id) == key
  }

  function PartSizes(ids: set<nat>, classOf: nat -> string): string -> nat {
    (key: string) => |Part(ids, classOf, key)|
  }

  lemma {:induction false} SumSame(keys: seq<string>, f: string -> nat, g: string -> nat)
    requires forall i :: 0 <= i < |keys| ==> f(keys[i]) == g(keys[i])
    ensures SumOf(keys, f) == SumOf(keys, g)
  {
    if keys == [] {
    } else {
      SumSame(keys[..|keys|-1], f, g);
    }
  }

  /** Taking one class away leaves the others as they were. */
  lemma OtherParts(keys: seq<string>, ids: set<nat>, classOf: nat -> string)
    requires Distinct(keys) && keys != [] && forall id :: id in ids ==> classOf(id) in keys
    ensures var last := keys[|keys|-1];
            var others := ids - Part(ids, classOf, last);
            && |ids| == |others| + PartSizes(ids, classOf)(last)
            && (forall id :: id in others ==> classOf(id) in keys[..|keys|-1])
            && (forall key :: key != last ==> PartSizes(others, classOf)(key) == PartSizes(ids, classOf)(key))
  {
    var last := keys[|keys|-1];
    var others := ids - Part(ids, classOf, last);
    assert keys == keys[..|keys|-1] + [last];
    forall key | key != last ensures Part(others, classOf, key) == Part(ids, classOf, key) {
    }
  }

  /** Classes that cover a set add up to it. */
  lemma {:induction false} PartsAddUp(keys: seq<string>, ids: set<nat>, classOf: nat -> string)
    requires Distinct(keys) && forall id :: id in ids ==> classOf(id) in keys
    ensures SumOf(keys, PartSizes(ids, classOf)) == |ids|
  {
    if keys == [] {
      assert ids == {};
    } else {
      var n := |keys| - 1;
      var others := ids - Part(ids, classOf, keys[n]);
      OtherParts(keys, ids, classOf);
      hide Part, PartSizes;
      PartsAddUp(keys[..n], others, classOf);
      SumSame(keys[..n], PartSizes(others, classOf), PartSizes(ids, classOf));
    }
  }

  // ---------- Everyone is counted once ----------

  lemma StatusesPartition(first: Index, second: Index)
    ensures var all := Everyone(first, second);
            var agree, disagree := Having(first, second, all, Agree), Having(first, second, all, Disagree);
            && Both(first, second) == agree + disagree && agree !! disagree
            && first.Keys == Both(first, second) + Having(first, second, all, OnlyFirst)
            && second.Keys == Both(first, second) + Having(first, second, all, OnlySecond)
            && Both(first, second) !! Having(first, second, all, OnlyFirst)
            && Both(first, second) !! Having(first, second, all, OnlySecond)
            && all == first.Keys + Having(first, second, all, OnlySecond)
            && first.Keys !! Having(first, second, all, OnlySecond)
  {
  }

  /** Everyone either run scored agrees, disagrees or is in one run only, and each run's total
      is its part of that. */
  lemma EveryoneIsCounted(c: Comparison, first: Index, second: Index, vocabulary: seq<string>)
    requires Reports(c, first, second, vocabulary)
    ensures |Everyone(first, second)| == c.counts.agree + c.counts.disagree + c.counts.onlyFirst + c.counts.onlySecond
    ensures c.firstTotal == c.counts.agree + c.counts.disagree + c.counts.onlyFirst
    ensures c.secondTotal == c.counts.agree + c.counts.disagree + c.counts.onlySecond
    ensures |Both(first, second)| == c.counts.agree + c.counts.disagree
  {
    hide CellsCount, ListsCustomers, PopulationsCount, Sorted, Having, Everyone, Both;
    StatusesPartition(first, second);
    assert |first| == |first.Keys| && |second| == |second.Keys|;
  }

  ghost function Both(first: Index, second: Index): set<nat> { first.Keys * second.Keys }

  // ---------- The cross-table ----------

  function TextIn(run: Index): nat -> string { (id: nat) => if id in run then Text(run[id].held) else "" }

  /** The keys of the table, each once. */
  function TableKeys(vocabulary: seq<string>): seq<string> { Keys(Columns(vocabulary)) }

  function CellsIn(cells: map<string, map<string, nat>>, row: string): string -> nat {
    (column: string) => if row in cells && column in cells[row] then cells[row][column] else 0
  }

  function RowSum(cells: map<string, map<string, nat>>, keys: seq<string>, row: string): nat {
    SumOf(keys, CellsIn(cells, row))
  }

  function CellsUnder(cells: map<string, map<string, nat>>, column: string): string -> nat {
    (row: string) => CellsIn(cells, row)(column)
  }

  function ColumnSum(cells: map<string, map<string, nat>>, keys: seq<string>, column: string): nat {
    SumOf(keys, CellsUnder(cells, column))
  }

  function RowSums(cells: map<string, map<string, nat>>, keys: seq<string>): string -> nat {
    (row: string) => RowSum(cells, keys, row)
  }

  function Diagonal(cells: map<string, map<string, nat>>): string -> nat {
    (key: string) => CellsIn(cells, key)(key)
  }

  lemma CellIsPart(c: Comparison, first: Index, second: Index, vocabulary: seq<string>, row: string, column: string)
    requires Reports(c, first, second, vocabulary)
    requires row in TableKeys(vocabulary) && column in TableKeys(vocabulary)
    ensures CellsIn(c.cells, row)(column) == |Part(Part(Both(first, second), TextIn(first), row), TextIn(second), column)|
  {
    hide ListsCustomers, PopulationsCount, StatusCounts, Sorted, Part, Everyone, Both, TextIn, InCell, Columns;
    KeysAreColumns(vocabulary, row);
    KeysAreColumns(vocabulary, column);
    CellSetIsPart(first, second, row, column);
  }

  lemma KeysAreColumns(vocabulary: seq<string>, key: string)
    ensures key in TableKeys(vocabulary) <==> key in Columns(vocabulary)
  {
    hide Columns;
  }

  lemma CellSetIsPart(first: Index, second: Index, row: string, column: string)
    ensures InCell(first, second, Everyone(first, second), row, column)
         == Part(Part(Both(first, second), TextIn(first), row), TextIn(second), column)
  {
    hide Text;
  }

  ghost predicate LabelsKnown(run: Index, vocabulary: seq<string>) {
    forall id :: id in run ==> InVocabulary(run[id].held, vocabulary)
  }

  lemma TextsAreKeys(run: Index, vocabulary: seq<string>, id: nat)
    requires LabelsKnown(run, vocabulary) && id in run
    ensures TextIn(run)(id) in TableKeys(vocabulary)
  {
    TextHasAColumn(run, vocabulary, id);
    KeysAreColumns(vocabulary, Text(run[id].held));
  }

  /** A row of the table sums to the customers of both runs the first run put under it. */
  lemma RowsSum(c: Comparison, first: Index, second: Index, vocabulary: seq<string>, row: string)
    requires Reports(c, first, second, vocabulary) && LabelsKnown(second, vocabulary)
    requires row in TableKeys(vocabulary)
    ensures RowSum(c.cells, TableKeys(vocabulary), row) == |Part(Both(first, second), TextIn(first), row)|
  {
    var keys := TableKeys(vocabulary);
    var ids := Part(Both(first, second), TextIn(first), row);
    forall id | id in ids ensures TextIn(second)(id) in keys {
      TextsAreKeys(second, vocabulary, id);
    }
    assert Distinct(keys);
    hide Reports, Part, TextIn, TableKeys, CellsIn, LabelsKnown;
    forall i | 0 <= i < |keys| ensures CellsIn(c.cells, row)(keys[i]) == PartSizes(ids, TextIn(second))(keys[i]) {
      assert keys[i] in keys;
      CellIsPart(c, first, second, vocabulary, row, keys[i]);
    }
    SumSame(keys, CellsIn(c.cells, row), PartSizes(ids, TextIn(second)));
    PartsAddUp(keys, ids, TextIn(second));
  }

  lemma PartsCommute(ids: set<nat>, f: nat -> string, g: nat -> string, x: string, y: string)
    ensures Part(Part(ids, f, x), g, y) == Part(Part(ids, g, y), f, x)
  {
  }

  /** And a column to those of them the second run put under it. */
  lemma ColumnsSum(c: Comparison, first: Index, second: Index, vocabulary: seq<string>, column: string)
    requires Reports(c, first, second, vocabulary) && LabelsKnown(first, vocabulary)
    requires column in TableKeys(vocabulary)
    ensures ColumnSum(c.cells, TableKeys(vocabulary), column) == |Part(Both(first, second), TextIn(second), column)|
  {
    var keys := TableKeys(vocabulary);
    var ids := Part(Both(first, second), TextIn(second), column);
    forall id | id in ids ensures TextIn(first)(id) in keys {
      TextsAreKeys(first, vocabulary, id);
    }
    assert Distinct(keys);
    hide Reports, Part, TextIn, TableKeys, CellsIn, LabelsKnown;
    forall i | 0 <= i < |keys| ensures CellsUnder(c.cells, column)(keys[i]) == PartSizes(ids, TextIn(first))(keys[i]) {
      assert keys[i] in keys;
      CellIsPart(c, first, second, vocabulary, keys[i], column);
      PartsCommute(Both(first, second), TextIn(first), TextIn(second), keys[i], column);
    }
    SumSame(keys, CellsUnder(c.cells, column), PartSizes(ids, TextIn(first)));
    PartsAddUp(keys, ids, TextIn(first));
  }

  /** All cells together are the customers both runs scored. */
  lemma CellsSumToCompared(c: Comparison, first: Index, second: Index, vocabulary: seq<string>)
    requires Reports(c, first, second, vocabulary) && LabelsKnown(first, vocabulary) && LabelsKnown(second, vocabulary)
    ensures SumOf(TableKeys(vocabulary), RowSums(c.cells, TableKeys(vocabulary))) == c.counts.agree + c.counts.disagree
  {
    var keys := TableKeys(vocabulary);
    var both := Both(first, second);
    EveryoneIsCounted(c, first, second, vocabulary);
    forall id | id in both ensures TextIn(first)(id) in keys {
      TextsAreKeys(first, vocabulary, id);
    }
    assert Distinct(keys);
    hide Reports, TextIn, TableKeys, RowSum, LabelsKnown, Part;
    forall i | 0 <= i < |keys| ensures RowSums(c.cells, keys)(keys[i]) == PartSizes(both, TextIn(first))(keys[i]) {
      assert keys[i] in keys;
      RowsSum(c, first, second, vocabulary, keys[i]);
    }
    SumSame(keys, RowSums(c.cells, keys), PartSizes(both, TextIn(first)));
    PartsAddUp(keys, both, TextIn(first));
  }

  // ---------- The diagonal ----------

  /** Customers of both runs that fall on the diagonal. */
  ghost function OnDiagonal(first: Index, second: Index): set<nat> {
    set id | id in Both(first, second) && TextIn(first)(id) == TextIn(second)(id)
  }

  lemma DiagonalCellIsPart(first: Index, second: Index, key: string)
    ensures Part(Part(Both(first, second), TextIn(first), key), TextIn(second), key)
         == Part(OnDiagonal(first, second), TextIn(first), key)
  {
    hide TextIn, Both;
  }

  lemma DiagonalCounts(c: Comparison, first: Index, second: Index, vocabulary: seq<string>)
    requires Reports(c, first, second, vocabulary) && LabelsKnown(first, vocabulary)
    ensures SumOf(TableKeys(vocabulary), Diagonal(c.cells)) == |OnDiagonal(first, second)|
  {
    var keys := TableKeys(vocabulary);
    var same := OnDiagonal(first, second);
    forall id | id in same ensures TextIn(first)(id) in keys {
      TextsAreKeys(first, vocabulary, id);
    }
    assert Distinct(keys);
    hide Reports, TextIn, TableKeys, OnDiagonal, LabelsKnown, Part, Both;
    forall i | 0 <= i < |keys| ensures Diagonal(c.cells)(keys[i]) == PartSizes(same, TextIn(first))(keys[i]) {
      assert keys[i] in keys;
      CellIsPart(c, first, second, vocabulary, keys[i], keys[i]);
      DiagonalCellIsPart(first, second, keys[i]);
    }
    SumSame(keys, Diagonal(c.cells), PartSizes(same, TextIn(first)));
    PartsAddUp(keys, same, TextIn(first));
  }

  /** Two customers' labels that differ and yet share a cell. */
  ghost predicate Confused(first: Index, second: Index, id: nat) {
    id in first && id in second && first[id].held != second[id].held && Text(first[id].held) == Text(second[id].held)
  }

  /** The diagonal sums to the agreements, or to more: exactly when no customer has two
      different labels that share a cell is it the agreements. */
  lemma DiagonalIsAgreement(c: Comparison, first: Index, second: Index, vocabulary: seq<string>)
    requires Reports(c, first, second, vocabulary) && LabelsKnown(first, vocabulary)
    ensures SumOf(TableKeys(vocabulary), Diagonal(c.cells)) >= c.counts.agree
    ensures (SumOf(TableKeys(vocabulary), Diagonal(c.cells)) == c.counts.agree
             <==> forall id :: !Confused(first, second, id))
  {
    hide Reports, LabelsKnown, SumOf, TableKeys, Having, OnDiagonal;
    DiagonalCounts(c, first, second, vocabulary);
    AgreementsAreReported(c, first, second, vocabulary);
    AgreementsLieOnDiagonal(first, second);
  }

  lemma AgreementsAreReported(c: Comparison, first: Index, second: Index, vocabulary: seq<string>)
    requires Reports(c, first, second, vocabulary)
    ensures c.counts.agree == |Having(first, second, Everyone(first, second), Agree)|
  {
    hide CellsCount, ListsCustomers, PopulationsCount, Sorted, Having, Everyone;
  }

  lemma AgreementsLieOnDiagonal(first: Index, second: Index)
    ensures var agree := Having(first, second, Everyone(first, second), Agree);
            && |agree| <= |OnDiagonal(first, second)|
            && (|agree| == |OnDiagonal(first, second)| <==> forall id :: !Confused(first, second, id))
  {
    var agree, diagonal := Having(first, second, Everyone(first, second), Agree), OnDiagonal(first, second);
    forall id
      ensures id in agree ==> id in diagonal
      ensures id in diagonal && id !in agree <==> Confused(first, second, id)
    {
    }
    hide Having, OnDiagonal, Confused, Everyone;
    SubsetCardinality(agree, diagonal);
    if forall id :: !Confused(first, second, id) {
      assert agree == diagonal;
    }
  }

  /** A vocabulary keeps its labels apart from the unassigned column. */
  predicate Separates(vocabulary: seq<string>) {
    "" !in vocabulary && UNASSIGNED !in vocabulary
  }

  lemma SeparateLabelsAreNotConfused(first: Index, second: Index, vocabulary: seq<string>, id: nat)
    requires Separates(vocabulary) && LabelsKnown(first, vocabulary) && LabelsKnown(second, vocabulary)
    ensures !Confused(first, second, id)
  {
  }

  /** The table can be read for every pair of runs exactly when the vocabulary holds neither
      an empty label nor one that spells the unassigned column's name. */
  lemma DiagonalNeedsASeparateVocabulary(vocabulary: seq<string>)
    ensures Separates(vocabulary) <==>
            forall first: Index, second: Index, id ::
              LabelsKnown(first, vocabulary) && LabelsKnown(second, vocabulary) ==> !Confused(first, second, id)
  {
    if Separates(vocabulary) {
      forall first: Index, second: Index, id | LabelsKnown(first, vocabulary) && LabelsKnown(second, vocabulary)
        ensures !Confused(first, second, id)
      {
        SeparateLabelsAreNotConfused(first, second, vocabulary, id);
      }
    } else {
      var odd := if "" in vocabulary then "" else UNASSIGNED;
      var first: Index, second: Index := map[0 := Entry(0, Some(odd))], map[0 := Entry(0, None)];
      assert LabelsKnown(first, vocabulary) && LabelsKnown(second, vocabulary);
      assert Confused(first, second, 0);
    }
  }

  // ---------- Populations ----------

  lemma HeldIsItsRow(run: Index, vocabulary: seq<string>, held: Option<string>)
    requires Separates(vocabulary) && LabelsKnown(run, vocabulary) && InVocabulary(held, vocabulary)
    ensures HeldBy(run, held) == Part(run.Keys, TextIn(run), Text(held))
  {
    forall id | id in run ensures run[id].held == held <==> Text(run[id].held) == Text(held) {
      assert InVocabulary(run[id].held, vocabulary);
    }
  }

  /** A label's population in the first run is its row of the table and those it gave the
      label whom the second run did not score. */
  lemma PopulationIsRowAndRest(c: Comparison, first: Index, second: Index, vocabulary: seq<string>, k: nat)
    requires Reports(c, first, second, vocabulary) && LabelsKnown(first, vocabulary) && LabelsKnown(second, vocabulary)
    requires Separates(vocabulary) && k <= |vocabulary|
    ensures var held := if k < |vocabulary| then Some(vocabulary[k]) else None;
            && |c.populations| == |vocabulary| + 1 && c.populations[k].held == held
            && c.populations[k].first
               == RowSum(c.cells, TableKeys(vocabulary), Text(held)) + |HeldBy(first, held) - second.Keys|
  {
    var held := if k < |vocabulary| then Some(vocabulary[k]) else None;
    var row := Text(held);
    RowOfLabel(vocabulary, k);
    PopulationIsReported(c, first, second, vocabulary, k);
    HeldIsItsRow(first, vocabulary, held);
    hide Reports, TableKeys, RowSum, LabelsKnown, HeldBy, Part, TextIn, Text, Columns;
    RowsSum(c, first, second, vocabulary, row);
    ScoredAndRest(first, second, row);
  }

  lemma BothEitherWay(first: Index, second: Index)
    ensures Both(first, second) == Both(second, first)
  {
  }

  /** Its population in the second run is its column and those whom the first run did not
      score. */
  lemma PopulationIsColumnAndRest(c: Comparison, first: Index, second: Index, vocabulary: seq<string>, k: nat)
    requires Reports(c, first, second, vocabulary) && LabelsKnown(first, vocabulary) && LabelsKnown(second, vocabulary)
    requires Separates(vocabulary) && k <= |vocabulary|
    ensures var held := if k < |vocabulary| then Some(vocabulary[k]) else None;
            && |c.populations| == |vocabulary| + 1 && c.populations[k].held == held
            && c.populations[k].second
               == ColumnSum(c.cells, TableKeys(vocabulary), Text(held)) + |HeldBy(second, held) - first.Keys|
  {
    var held := if k < |vocabulary| then Some(vocabulary[k]) else None;
    var column := Text(held);
    RowOfLabel(vocabulary, k);
    PopulationIsReported(c, first, second, vocabulary, k);
    HeldIsItsRow(second, vocabulary, held);
    hide Reports, TableKeys, ColumnSum, LabelsKnown, HeldBy, Part, TextIn, Text, Columns, Both;
    BothEitherWay(first, second);
    ColumnsSum(c, first, second, vocabulary, column);
    ScoredAndRest(second, first, column);
  }

  lemma RowOfLabel(vocabulary: seq<string>, k: nat)
    requires Separates(vocabulary) && k <= |vocabulary|
    ensures Text(if k < |vocabulary| then Some(vocabulary[k]) else None) in TableKeys(vocabulary)
  {
    var row := Text(if k < |vocabulary| then Some(vocabulary[k]) else None);
    assert Columns(vocabulary)[k] == row;
    KeysAreColumns(vocabulary, row);
  }

  lemma PopulationIsReported(c: Comparison, first: Index, second: Index, vocabulary: seq<string>, k: nat)
    requires Reports(c, first, second, vocabulary) && k <= |vocabulary|
    ensures var held := if k < |vocabulary| then Some(vocabulary[k]) else None;
            && |c.populations| == |vocabulary| + 1
            && c.populations[k] == Population(held, |HeldBy(first, held)|, |HeldBy(second, held)|)
  {
    hide CellsCount, ListsCustomers, StatusCounts, Sorted, HeldBy, Everyone;
  }

  lemma ScoredAndRest(first: Index, second: Index, row: string)
    ensures |Part(first.Keys, TextIn(first), row)|
         == |Part(Both(first, second), TextIn(first), row)| + |Part(first.Keys, TextIn(first), row) - second.Keys|
  {
    hide TextIn;
    var scored, mine := Part(Both(first, second), TextIn(first), row), Part(first.Keys, TextIn(first), row);
    assert mine == scored + (mine - second.Keys) && scored !! mine - second.Keys;
  }

  // ---------- Swapping the runs ----------

  /** The comparison the other way round is the transpose: cells swap row and column, the two
      one-run counts swap, and agreements stay. */
  lemma SwappingTransposes(c: Comparison, d: Comparison, first: Index, second: Index, vocabulary: seq<string>)
    requires Reports(c, first, second, vocabulary) && Reports(d, second, first, vocabulary)
    ensures d.counts == Counts(c.counts.agree, c.counts.disagree, c.counts.onlySecond, c.counts.onlyFirst)
    ensures forall r, k :: r in Columns(vocabulary) && k in Columns(vocabulary) ==>
              && r in c.cells && k in c.cells[r] && k in d.cells && r in d.cells[k]
              && d.cells[k][r] == c.cells[r][k]
    ensures |d.populations| == |c.populations|
    ensures forall k :: 0 <= k < |c.populations| ==>
              d.populations[k] == Population(c.populations[k].held, c.populations[k].second, c.populations[k].first)
  {
    SwapCounts(c, d, first, second, vocabulary);
    SwapCells(c, d, first, second, vocabulary);
    SwapPopulations(c, d, first, second, vocabulary);
    hide Reports, Columns;
  }

  lemma SwapCounts(c: Comparison, d: Comparison, first: Index, second: Index, vocabulary: seq<string>)
    requires Reports(c, first, second, vocabulary) && Reports(d, second, first, vocabulary)
    ensures d.counts == Counts(c.counts.agree, c.counts.disagree, c.counts.onlySecond, c.counts.onlyFirst)
  {
    hide CellsCount, ListsCustomers, PopulationsCount, Sorted, Having, Everyone;
    CountsSwap(first, second);
  }

  lemma SwapCells(c: Comparison, d: Comparison, first: Index, second: Index, vocabulary: seq<string>)
    requires Reports(c, first, second, vocabulary) && Reports(d, second, first, vocabulary)
    ensures forall r, k :: r in Columns(vocabulary) && k in Columns(vocabulary) ==>
              && r in c.cells && k in c.cells[r] && k in d.cells && r in d.cells[k]
              && d.cells[k][r] == c.cells[r][k]
  {
    hide StatusCounts, ListsCustomers, PopulationsCount, Sorted, InCell, Everyone, Columns;
    forall r, k
      ensures InCell(first, second, Everyone(first, second), r, k) == InCell(second, first, Everyone(second, first), k, r)
    {
      CellSwaps(first, second, r, k);
    }
  }

  lemma CellSwaps(first: Index, second: Index, r: string, k: string)
    ensures InCell(first, second, Everyone(first, second), r, k) == InCell(second, first, Everyone(second, first), k, r)
  {
    hide Text;
  }

  lemma SwapPopulations(c: Comparison, d: Comparison, first: Index, second: Index, vocabulary: seq<string>)
    requires Reports(c, first, second, vocabulary) && Reports(d, second, first, vocabulary)
    ensures |d.populations| == |c.populations|
    ensures forall k :: 0 <= k < |c.populations| ==>
              d.populations[k] == Population(c.populations[k].held, c.populations[k].second, c.populations[k].first)
  {
    hide StatusCounts, ListsCustomers, CellsCount, Sorted, HeldBy, Everyone;
  }

  lemma CountsSwap(first: Index, second: Index)
    ensures var x, y := Everyone(first, second), Everyone(second, first);
            && Having(first, second, x, Agree) == Having(second, first, y, Agree)
            && Having(first, second, x, Disagree) == Having(second, first, y, Disagree)
            && Having(first, second, x, OnlyFirst) == Having(second, first, y, OnlySecond)
            && Having(first, second, x, OnlySecond) == Having(second, first, y, OnlyFirst)
  {
  }

  /** The customers are listed by name, and by id under one name. */
  lemma CustomersAreInOrder(c: Comparison, first: Index, second: Index, vocabulary: seq<string>)
    requires Reports(c, first, second, vocabulary)
    ensures forall i, j :: 0 <= i < j < |c.customers| ==>
              var x, y := c.customers[i], c.customers[j];
              x.name < y.name || (x.name == y.name && x.id < y.id)
  {
    hide CellsCount, PopulationsCount, StatusCounts, Everyone;
    forall i, j | 0 <= i < j < |c.customers|
      ensures var x, y := c.customers[i], c.customers[j]; x.name < y.name || (x.name == y.name && x.id < y.id)
    {
      var x, y := c.customers[i], c.customers[j];
      assert ByName()(x, y) && x != y;
      assert x == CustomerOf(first, second, x.id) && y == CustomerOf(first, second, y.id);
    }
  }

  // ---------- Filters ----------

  datatype Filter = All | Agreeing | Disagreeing | OneRun

  predicate Wanted(filter: Filter, status: Status) {
    match filter
    case All => true
    case Agreeing => status.Agree?
    case Disagreeing => status.Disagree?
    case OneRun => status.OnlyFirst? || status.OnlySecond?
  }

  function FilterCustomers(customers: seq<Customer>, filter: Filter): seq<Customer> {
    if customers == [] then []
    else
      var last := customers[|customers|-1];
      FilterCustomers(customers[..|customers|-1], filter) + (if Wanted(filter, last.status) then [last] else [])
  }

  /** The lists the filters leave are as long as the counts they stand for, and together they
      are the whole list. */
  lemma FiltersMatchCounts(c: Comparison, first: Index, second: Index, vocabulary: seq<string>)
    requires Reports(c, first, second, vocabulary)
    ensures |FilterCustomers(c.customers, Agreeing)| == c.counts.agree
    ensures |FilterCustomers(c.customers, Disagreeing)| == c.counts.disagree
    ensures |FilterCustomers(c.customers, OneRun)| == c.counts.onlyFirst + c.counts.onlySecond
    ensures FilterCustomers(c.customers, All) == c.customers
  {
    var all := Everyone(first, second);
    assert ListsCustomers(c.customers, first, second, all) && StatusCounts(c.counts, first, second, all);
    hide Reports, ListsCustomers, StatusCounts, Having;
    FilteredHas(c.customers, first, second, all, Agree);
    FilteredHas(c.customers, first, second, all, Disagree);
    FilteredHas(c.customers, first, second, all, OnlyFirst);
    FilteredHas(c.customers, first, second, all, OnlySecond);
    FilterByStatus(c.customers);
    CountsAreHad(c.counts, first, second, all);
  }

  lemma CountsAreHad(counts: Counts, first: Index, second: Index, ids: set<nat>)
    requires ids <= Everyone(first, second) && StatusCounts(counts, first, second, ids)
    ensures counts.agree == |Having(first, second, ids, Agree)| && counts.disagree == |Having(first, second, ids, Disagree)|
    ensures counts.onlyFirst == |Having(first, second, ids, OnlyFirst)|
    ensures counts.onlySecond == |Having(first, second, ids, OnlySecond)|
  {
  }

  function WithStatus(customers: seq<Customer>, status: Status): nat {
    if customers == [] then 0
    else WithStatus(customers[..|customers|-1], status) + (if customers[|customers|-1].status == status then 1 else 0)
  }

  lemma {:induction false} FilterByStatus(customers: seq<Customer>)
    ensures |FilterCustomers(customers, Agreeing)| == WithStatus(customers, Agree)
    ensures |FilterCustomers(customers, Disagreeing)| == WithStatus(customers, Disagree)
    ensures |FilterCustomers(customers, OneRun)| == WithStatus(customers, OnlyFirst) + WithStatus(customers, OnlySecond)
    ensures FilterCustomers(customers, All) == customers
  {
    if customers == [] {
    } else {
      FilterByStatus(customers[..|customers|-1]);
      assert customers == customers[..|customers|-1] + [customers[|customers|-1]];
    }
  }

  lemma FilteredHas(customers: seq<Customer>, first: Index, second: Index, ids: set<nat>, status: Status)
    requires ids <= Everyone(first, second) && ListsCustomers(customers, first, second, ids)
    ensures WithStatus(customers, status) == |Having(first, second, ids, status)|
  {
    StatusSetSize(customers, status);
    hide Distinct, WithStatus;
    var found := OfStatus(customers, status);
    var had := Having(first, second, ids, status);
    ImageSize(had, found, first, second);
  }

  /** Customers of one status and their ids are as many. */
  lemma {:induction false} ImageSize(had: set<nat>, found: set<Customer>, first: Index, second: Index)
    requires had <= Everyone(first, second)
    requires forall id :: id in had ==> CustomerOf(first, second, id) in found
    requires forall c :: c in found ==> c.id in had && c == CustomerOf(first, second, c.id)
    ensures |had| == |found|
    decreases |had|
  {
    hide CustomerOf, Everyone;
    if id :| id in had {
      var c := CustomerOf(first, second, id);
      forall other | other in had ensures CustomerOf(first, second, other).id == other {
        CustomerHasId(first, second, other);
      }
      ImageSize(had - {id}, found - {c}, first, second);
    } else {
      assert found == {};
    }
  }

  lemma CustomerHasId(first: Index, second: Index, id: nat)
    requires id in Everyone(first, second)
    ensures CustomerOf(first, second, id).id == id
  {
  }

  ghost function OfStatus(customers: seq<Customer>, status: Status): set<Customer> {
    set c | c in customers && c.status == status
  }

  lemma OneMoreOfStatus(customers: seq<Customer>, last: Customer, status: Status)
    requires last !in customers
    ensures |OfStatus(customers + [last], status)|
         == |OfStatus(customers, status)| + (if last.status == status then 1 else 0)
  {
    var more := if last.status == status then {last} else {};
    assert OfStatus(customers + [last], status) == OfStatus(customers, status) + more;
  }

  lemma {:induction false} StatusSetSize(customers: seq<Customer>, status: Status)
    requires Distinct(customers)
    ensures WithStatus(customers, status) == |OfStatus(customers, status)|
  {
    if customers == [] {
    } else {
      var rest, last := customers[..|customers|-1], customers[|customers|-1];
      StatusSetSize(rest, status);
      assert customers == rest + [last];
      hide OfStatus;
      OneMoreOfStatus(rest, last, status);
    }
  }
}
