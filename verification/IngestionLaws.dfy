/** What ingestion promises over every sequence of rows. */
module IngestionLaws {
  import opened Ingestion

  /** Units sold of a product by a store, over every recorded line. */
  ghost function Sold(headers: seq<Header>, lines: seq<Line>, key: (int, int)): int
    requires forall i :: 0 <= i < |lines| ==> lines[i].tx < |headers|
  {
    if lines == [] then 0
    else
      var last := lines[|lines|-1];
      Sold(headers, lines[..|lines|-1], key)
      + (if headers[last.tx].store == key.0 && last.product == key.1 then last.quantity else 0)
  }

  ghost predicate OneHeaderPerSource(headers: seq<Header>) {
    forall i, j :: 0 <= i < j < |headers| ==> headers[i].sourceId != headers[j].sourceId
  }

  ghost predicate LinesBelong(t: Tables) {
    forall i :: 0 <= i < |t.lines| ==> t.lines[i].tx < |t.headers|
  }

  ghost predicate LinesPositive(lines: seq<Line>) {
    forall i :: 0 <= i < |lines| ==> lines[i].quantity > 0 && lines[i].cents > 0
  }

  ghost predicate OneLinePerProduct(lines: seq<Line>) {
    forall i, j :: 0 <= i < j < |lines| ==> lines[i].tx != lines[j].tx || lines[i].product != lines[j].product
  }

  ghost predicate StockNotNegative(stock: map<(int, int), int>) {
    forall key :: key in stock ==> stock[key] >= 0
  }

  /** A sale that was not seeded totals its own lines. */
  ghost predicate TotalsReconcile(t: Tables) {
    forall tx: nat :: tx < |t.headers| && t.headers[tx].origin == Observed ==>
      t.headers[tx].total == LineTotal(t.lines, tx)
  }

  ghost predicate Sound(t: Tables) {
    && OneHeaderPerSource(t.headers)
    && LinesBelong(t)
    && LinesPositive(t.lines)
    && OneLinePerProduct(t.lines)
    && StockNotNegative(t.stock)
    && TotalsReconcile(t)
  }

  // ---------- One accepted row ----------

  ghost predicate Enters(t: Tables, row: Row, catalog: Catalog, now: int) {
    VerdictOf(t, row, catalog, now) == Accepted
  }

  ghost function LineOf(row: Row, tx: nat): Line
    requires row.price.Amount?
  {
    Line(tx, row.product, row.quantity, Cents(row.price))
  }

  /** The header the row lands on, before its total is set. */
  ghost function BaseHeader(t: Tables, row: Row, tx: nat): Header
    requires row.customer.Customer?
  {
    if tx < |t.headers| then t.headers[tx] else NewHeader(row)
  }

  /** An accepted row adds one line, sets one total, takes one stock figure and touches
      nothing else. */
  lemma AcceptedEffect(t: Tables, row: Row, catalog: Catalog, now: int) returns (tx: nat)
    requires Enters(t, row, catalog, now)
    ensures row.customer.Customer? && row.price.Amount? && 0 < row.quantity <= MAX_INT
    ensures 0 < Cents(row.price) < PRICE_LIMIT_CENTS
    ensures tx == Find(t.headers, Strip(row.sourceId))
    ensures tx == |t.headers| ==> HeaderRefusal(row, catalog).Accepted?
    ensures BaseHeader(t, row, tx).origin == Observed && Agrees(BaseHeader(t, row, tx), row)
    ensures BaseHeader(t, row, tx).sourceId == Strip(row.sourceId)
    ensures !HasLine(t.lines, tx, row.product)
    ensures (row.store, row.product) in t.stock && t.stock[(row.store, row.product)] >= row.quantity
    ensures var after := Ingested(t, row, catalog, now);
            && after.lines == t.lines + [LineOf(row, tx)]
            && LineTotal(after.lines, tx) < TOTAL_LIMIT_CENTS
            && |after.headers| == (if tx < |t.headers| then |t.headers| else tx + 1)
            && after.headers[tx] == BaseHeader(t, row, tx).(total := LineTotal(after.lines, tx))
            && (forall i :: 0 <= i < |t.headers| && i != tx ==> after.headers[i] == t.headers[i])
            && after.stock == t.stock[(row.store, row.product) :=
                                      t.stock[(row.store, row.product)] - row.quantity]
  {
    hide Strip, HasLine, LineTotal;
    tx := Find(t.headers, Strip(row.sourceId));
    PriceIsPositive(row.price.value);
  }

  /** The two-decimal check leaves whole cents, so a positive price is at least one. */
  lemma PriceIsPositive(value: real)
    requires value > 0.0
    ensures HasAtMostTwoDecimals(value) ==> Cents(Amount(value)) > 0
  {
  }

  lemma {:induction false} LineTotalAfter(lines: seq<Line>, line: Line, tx: nat)
    ensures LineTotal(lines + [line], tx)
         == LineTotal(lines, tx) + (if line.tx == tx then Product(line.quantity, line.cents) else 0)
  {
    assert (lines + [line])[..|lines|] == lines;
  }

  lemma {:induction false} SoldKeepsStores(before: seq<Header>, after: seq<Header>, lines: seq<Line>, key: (int, int))
    requires forall i :: 0 <= i < |lines| ==> lines[i].tx < |before|
    requires |before| <= |after|
    requires forall i :: 0 <= i < |before| ==> after[i].store == before[i].store
    ensures Sold(after, lines, key) == Sold(before, lines, key)
  {
    if lines == [] {
    } else {
      SoldKeepsStores(before, after, lines[..|lines|-1], key);
    }
  }

  lemma {:induction false} NoLinesYet(lines: seq<Line>, tx: nat)
    requires forall i :: 0 <= i < |lines| ==> lines[i].tx != tx
    ensures LineTotal(lines, tx) == 0
  {
    if lines == [] {
    } else {
      NoLinesYet(lines[..|lines|-1], tx);
    }
  }

  // ---------- Invariant ----------

  /** A row, accepted or not, leaves the tables sound. */
  lemma RowKeepsSound(t: Tables, row: Row, catalog: Catalog, now: int)
    requires Sound(t)
    ensures Sound(Ingested(t, row, catalog, now))
  {
    if Enters(t, row, catalog, now) {
      var tx := AcceptedEffect(t, row, catalog, now);
      var after := Ingested(t, row, catalog, now);
      hide Ingested, VerdictOf, Enters, Product, Strip, Cents, HeaderRefusal, Find;
      forall other: nat | other < |after.headers| && after.headers[other].origin == Observed
        ensures after.headers[other].total == LineTotal(after.lines, other)
      {
        LineTotalAfter(t.lines, LineOf(row, tx), other);
        if other != tx && other >= |t.headers| {
          NoLinesYet(t.lines, other);
        }
      }
    }
  }

  /** Units on hand plus units sold never change, whatever the row. */
  lemma RowConserves(t: Tables, row: Row, catalog: Catalog, now: int, key: (int, int))
    requires Sound(t) && key in t.stock
    ensures var after := Ingested(t, row, catalog, now);
            && LinesBelong(after) && key in after.stock
            && after.stock[key] + Sold(after.headers, after.lines, key)
               == t.stock[key] + Sold(t.headers, t.lines, key)
  {
    RowKeepsSound(t, row, catalog, now);
    if Enters(t, row, catalog, now) {
      var tx := AcceptedEffect(t, row, catalog, now);
      var after := Ingested(t, row, catalog, now);
      hide Ingested, VerdictOf, Enters, Strip, Cents, HeaderRefusal, Find;
      SoldKeepsStores(t.headers, after.headers, t.lines, key);
      assert after.lines[..|t.lines|] == t.lines;
    }
  }

  /** Stock rows are neither created nor dropped. */
  lemma RowKeepsStockKeys(t: Tables, row: Row, catalog: Catalog, now: int)
    ensures Ingested(t, row, catalog, now).stock.Keys == t.stock.Keys
  {
    if Enters(t, row, catalog, now) {
      var _ := AcceptedEffect(t, row, catalog, now);
    }
  }

  // ---------- Runs ----------

  /** One row arriving at some moment, against the reference tables of that moment. */
  datatype Arrival = Arrival(row: Row, catalog: Catalog, now: int)

  ghost function Run(t: Tables, arrivals: seq<Arrival>): Tables {
    if arrivals == [] then t
    else
      var last := arrivals[|arrivals|-1];
      Ingested(Run(t, arrivals[..|arrivals|-1]), last.row, last.catalog, last.now)
  }

  /** Over any sequence of rows, under reference tables and clocks that may change between
      rows: the tables stay sound (so stock is never negative, every ingested sale totals its
      lines, one line per product), and stock plus sales is conserved per store and product. */
  lemma {:induction false} EveryRunConserves(t: Tables, arrivals: seq<Arrival>)
    requires Sound(t)
    ensures Sound(Run(t, arrivals)) && Run(t, arrivals).stock.Keys == t.stock.Keys
    ensures forall key :: key in t.stock ==>
              Run(t, arrivals).stock[key] + Sold(Run(t, arrivals).headers, Run(t, arrivals).lines, key)
              == t.stock[key] + Sold(t.headers, t.lines, key)
  {
    if arrivals == [] {
    } else {
      var before := Run(t, arrivals[..|arrivals|-1]);
      var last := arrivals[|arrivals|-1];
      EveryRunConserves(t, arrivals[..|arrivals|-1]);
      hide Ingested, Sound;
      RowKeepsSound(before, last.row, last.catalog, last.now);
      RowKeepsStockKeys(before, last.row, last.catalog, last.now);
      forall key | key in t.stock
        ensures Run(t, arrivals).stock[key] + Sold(Run(t, arrivals).headers, Run(t, arrivals).lines, key)
             == t.stock[key] + Sold(t.headers, t.lines, key)
      {
        assert key in before.stock.Keys;
        RowConserves(before, last.row, last.catalog, last.now, key);
      }
    }
  }

  // ---------- What later tables keep of earlier ones ----------

  ghost predicate SameSale(x: Header, y: Header) { x == y.(total := x.total) }

  /** `after` was reached from `before` by accepting rows. */
  ghost predicate Extends(before: Tables, after: Tables) {
    && before.lines <= after.lines
    && |before.headers| <= |after.headers|
    && (forall i :: 0 <= i < |before.headers| ==> SameSale(before.headers[i], after.headers[i]))
    && before.stock.Keys == after.stock.Keys
    && (forall key :: key in before.stock ==> after.stock[key] <= before.stock[key])
  }

  lemma RowExtends(t: Tables, row: Row, catalog: Catalog, now: int)
    ensures Extends(t, Ingested(t, row, catalog, now))
  {
    if Enters(t, row, catalog, now) {
      var _ := AcceptedEffect(t, row, catalog, now);
    }
  }

  lemma ExtendsIsTransitive(x: Tables, y: Tables, z: Tables)
    requires Extends(x, y) && Extends(y, z)
    ensures Extends(x, z)
  {
    forall i | 0 <= i < |x.headers| ensures SameSale(x.headers[i], z.headers[i]) {
      assert SameSale(x.headers[i], y.headers[i]) && SameSale(y.headers[i], z.headers[i]);
    }
    forall key | key in x.stock ensures z.stock[key] <= x.stock[key] {
      assert key in x.stock.Keys && key in y.stock.Keys;
    }
  }

  lemma {:induction false} RunExtends(t: Tables, arrivals: seq<Arrival>)
    ensures Extends(t, Run(t, arrivals))
  {
    if arrivals == [] {
    } else {
      var before := Run(t, arrivals[..|arrivals|-1]);
      var last := arrivals[|arrivals|-1];
      RunExtends(t, arrivals[..|arrivals|-1]);
      hide Ingested, Extends;
      RowExtends(before, last.row, last.catalog, last.now);
      ExtendsIsTransitive(t, before, Run(t, arrivals));
    }
  }

  /** With one header per source id, finding is knowing the position. */
  lemma FindsTheOne(headers: seq<Header>, sourceId: string, tx: nat)
    requires OneHeaderPerSource(headers) && tx < |headers| && headers[tx].sourceId == sourceId
    ensures Find(headers, sourceId) == tx
  {
    var found := Find(headers, sourceId);
    hide Find;
    assert found <= tx;
  }

  /** The line of an accepted row is still there in any later tables, under the same header. */
  lemma AcceptedLineStays(t: Tables, row: Row, catalog: Catalog, now: int, later: Tables) returns (tx: nat)
    requires Sound(t) && Enters(t, row, catalog, now)
    requires Extends(Ingested(t, row, catalog, now), later) && OneHeaderPerSource(later.headers)
    ensures Find(later.headers, Strip(row.sourceId)) == tx && HasLine(later.lines, tx, row.product)
  {
    tx := AcceptedEffect(t, row, catalog, now);
    var first := Ingested(t, row, catalog, now);
    hide Ingested, Enters, VerdictOf, Find, Strip, LineTotal;
    assert SameSale(first.headers[tx], later.headers[tx]);
    FindsTheOne(later.headers, Strip(row.sourceId), tx);
    assert later.lines[|t.lines|] == first.lines[|t.lines|] == LineOf(row, tx);
  }

  lemma AcceptedIsNeverAcceptedAgain(t: Tables, row: Row, catalog: Catalog, now: int, later: Tables,
                                     newCatalog: Catalog, newNow: int)
    requires Sound(t) && Enters(t, row, catalog, now)
    requires Extends(Ingested(t, row, catalog, now), later) && OneHeaderPerSource(later.headers)
    ensures !Enters(later, row, newCatalog, newNow)
  {
    var tx := AcceptedLineStays(t, row, catalog, now, later);
    if Enters(later, row, newCatalog, newNow) {
      var again := AcceptedEffect(later, row, newCatalog, newNow);
      assert false;
    }
  }

  /** An accepted row sent again is rejected: at once, or after any other rows, and whatever
      has become of the clock and the reference tables. */
  lemma ReplayIsRejected(t: Tables, row: Row, catalog: Catalog, now: int, later: seq<Arrival>,
                         newCatalog: Catalog, newNow: int)
    requires Sound(t) && Enters(t, row, catalog, now)
    ensures !Enters(Run(Ingested(t, row, catalog, now), later), row, newCatalog, newNow)
  {
    var first := Ingested(t, row, catalog, now);
    RowKeepsSound(t, row, catalog, now);
    EveryRunConserves(first, later);
    RunExtends(first, later);
    AcceptedIsNeverAcceptedAgain(t, row, catalog, now, Run(first, later), newCatalog, newNow);
  }

  // ---------- A file sent again in full ----------

  ghost function Load(t: Tables, rows: seq<Row>, catalog: Catalog, now: int): Tables {
    if rows == [] then t
    else Ingested(Load(t, rows[..|rows|-1], catalog, now), rows[|rows|-1], catalog, now)
  }

  /** Headers added since `before` name stores and channels of the catalog. */
  ghost predicate NewHeadersKnown(before: Tables, after: Tables, catalog: Catalog) {
    forall i :: |before.headers| <= i < |after.headers| ==>
      && after.headers[i].store in catalog.stores && after.headers[i].channel in catalog.channels
      && IsSmallint(after.headers[i].store) && IsSmallint(after.headers[i].channel)
      && |after.headers[i].sourceId| <= MAX_SOURCE_ID && !Reserved(after.headers[i].sourceId)
  }

  lemma {:induction false} LineTotalGrows(before: seq<Line>, after: seq<Line>, tx: nat)
    requires before <= after && LinesPositive(after)
    ensures LineTotal(before, tx) <= LineTotal(after, tx)
  {
    if |before| < |after| {
      var most := after[..|after|-1];
      var last := after[|after|-1];
      assert before <= most;
      LineTotalGrows(before, most, tx);
      assert last.quantity > 0 && last.cents > 0;
      ProductIsPositive(last.quantity, last.cents);
    } else {
      assert before == after;
    }
  }

  lemma ProductIsPositive(x: int, y: int)
    requires x > 0 && y > 0
    ensures Product(x, y) > 0
  {
  }

  /** A row accepted by later tables would have been accepted by the earlier ones: nothing a
      load does can turn a refusal into an acceptance. */
  lemma RefusalsLast(before: Tables, after: Tables, row: Row, catalog: Catalog, now: int)
    requires Sound(before) && Sound(after) && Extends(before, after)
    requires NewHeadersKnown(before, after, catalog)
    requires Enters(after, row, catalog, now)
    ensures Enters(before, row, catalog, now)
  {
    var tx := AcceptedEffect(after, row, catalog, now);
    var sourceId := Strip(row.sourceId);
    var place := Find(before.headers, sourceId);
    assert place == |before.headers| || place == tx by {
      if place < |before.headers| {
        assert SameSale(before.headers[place], after.headers[place]);
        FindsTheOne(after.headers, sourceId, place);
      }
    }
    assert place == |before.headers| ==> HeaderRefusal(row, catalog).Accepted?;
    var line := LineOf(row, place);
    assert !HasLine(before.lines, place, row.product);
    assert LineTotal(before.lines + [line], place) < TOTAL_LIMIT_CENTS by {
      LineTotalAfter(before.lines, line, place);
      LineTotalAfter(after.lines, LineOf(row, tx), tx);
      LineTotalGrows(before.lines, after.lines, tx);
      if place == |before.headers| {
        NoLinesYet(before.lines, place);
        LineTotalGrows([], after.lines, tx);
      }
    }
  }

  lemma {:induction false} LoadInParts(t: Tables, rows: seq<Row>, i: nat, catalog: Catalog, now: int)
    requires i <= |rows|
    ensures Load(t, rows, catalog, now) == Load(Load(t, rows[..i], catalog, now), rows[i..], catalog, now)
  {
    if i == |rows| {
      assert rows[..i] == rows;
    } else {
      LoadInParts(t, rows[..|rows|-1], i, catalog, now);
      assert rows[..|rows|-1][..i] == rows[..i];
      assert rows[i..][..|rows[i..]|-1] == rows[..|rows|-1][i..];
    }
  }

  lemma {:induction false} LoadKeepsSound(t: Tables, rows: seq<Row>, catalog: Catalog, now: int)
    requires Sound(t)
    ensures Sound(Load(t, rows, catalog, now)) && Extends(t, Load(t, rows, catalog, now))
    ensures NewHeadersKnown(t, Load(t, rows, catalog, now), catalog)
  {
    if rows == [] {
    } else {
      var before := Load(t, rows[..|rows|-1], catalog, now);
      var row := rows[|rows|-1];
      LoadKeepsSound(t, rows[..|rows|-1], catalog, now);
      RowKeepsSound(before, row, catalog, now);
      RowExtends(before, row, catalog, now);
      ExtendsIsTransitive(t, before, Ingested(before, row, catalog, now));
      KnownHeadersStayKnown(t, before, row, catalog, now);
    }
  }

  lemma KnownHeadersStayKnown(t: Tables, before: Tables, row: Row, catalog: Catalog, now: int)
    requires NewHeadersKnown(t, before, catalog)
    ensures NewHeadersKnown(t, Ingested(before, row, catalog, now), catalog)
  {
    if Enters(before, row, catalog, now) {
      var tx := AcceptedEffect(before, row, catalog, now);
    }
  }

  /** Once a file is loaded, no row of it is acceptable any more. */
  lemma LoadedRowsAreRefused(t: Tables, rows: seq<Row>, i: nat, catalog: Catalog, now: int)
    requires Sound(t) && i < |rows|
    ensures !Enters(Load(t, rows, catalog, now), rows[i], catalog, now)
  {
    var before := Load(t, rows[..i], catalog, now);
    var after := Load(before, [rows[i]], catalog, now);
    var done := Load(after, rows[i+1..], catalog, now);
    LoadKeepsSound(t, rows[..i], catalog, now);
    LoadKeepsSound(before, rows[i..], catalog, now);
    LoadInParts(t, rows, i, catalog, now);
    LoadInParts(before, rows[i..], 1, catalog, now);
    assert rows[i..][..1] == [rows[i]] && rows[i..][1..] == rows[i+1..];
    assert after == Ingested(before, rows[i], catalog, now) by {
      assert [rows[i]][..0] == [];
    }
    RowKeepsSound(before, rows[i], catalog, now);
    LoadKeepsSound(after, rows[i+1..], catalog, now);
    assert OneHeaderPerSource(done.headers);
    hide Sound, Extends, Enters, Ingested, Load, NewHeadersKnown;
    if Enters(before, rows[i], catalog, now) {
      AcceptedIsNeverAcceptedAgain(before, rows[i], catalog, now, done, catalog, now);
    } else if Enters(done, rows[i], catalog, now) {
      RefusalsLast(before, done, rows[i], catalog, now);
    }
  }

  lemma {:induction false} RefusedRowsLoadNothing(t: Tables, rows: seq<Row>, catalog: Catalog, now: int)
    requires forall i :: 0 <= i < |rows| ==> !Enters(t, rows[i], catalog, now)
    ensures Load(t, rows, catalog, now) == t
  {
    if rows == [] {
    } else {
      RefusedRowsLoadNothing(t, rows[..|rows|-1], catalog, now);
      assert !Enters(t, rows[|rows|-1], catalog, now);
    }
  }

  /** A file sent again in full, against the same reference tables, changes nothing: rows
      taken the first time are duplicates, and rows refused the first time stay refused. */
  lemma ReloadChangesNothing(t: Tables, rows: seq<Row>, catalog: Catalog, now: int)
    requires Sound(t)
    ensures var loaded := Load(t, rows, catalog, now);
            Load(loaded, rows, catalog, now) == loaded
  {
    var loaded := Load(t, rows, catalog, now);
    forall i | 0 <= i < |rows| ensures !Enters(loaded, rows[i], catalog, now) {
      LoadedRowsAreRefused(t, rows, i, catalog, now);
    }
    RefusedRowsLoadNothing(loaded, rows, catalog, now);
  }
}
