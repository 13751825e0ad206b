/** Row-by-row sales ingestion: one row is checked, given a header and a line, paid for in
    stock and totalled, or leaves nothing behind. Money is held in cents. */
module Ingestion {
  datatype Price = NotFinite | Amount(value: real)
  /** A moment with its own offset; `day` is the calendar date it shows there. */
  datatype Moment = Moment(hasOffset: bool, at: int, day: int)
  datatype Customer = NotAnIdentifier | Customer(id: int)
  datatype Row = Row(sourceId: string, customer: Customer, store: int, channel: int,
                     moment: Moment, product: int, quantity: int, price: Price)

  datatype Origin = Observed | Seeded
  datatype Header = Header(sourceId: string, customer: int, store: int, channel: int,
                           at: int, origin: Origin, total: int)
  datatype Line = Line(tx: nat, product: int, quantity: int, cents: int)
  /** Identity of a header is its position; a line belongs to header `tx`. */
  datatype Tables = Tables(headers: seq<Header>, lines: seq<Line>, stock: map<(int, int), int>)

  /** The reference tables a row is checked against. */
  datatype Catalog = Catalog(registered: map<int, int>, active: map<int, bool>,
                             stores: set<int>, channels: set<int>)

  datatype Reason =
    | SourceIdRequired | SpreadsheetFormula | OffsetRequired | InTheFuture
    | QuantityNotPositive | PriceNotFinite | PriceNotPositive | PriceTooPrecise
    | BadCustomerId | UnknownCustomer | BeforeRegistration | UnknownProduct | InactiveProduct
    | SeededSale | HeaderDisagrees | SourceIdTooLong | HeaderOutOfRange | NotInFormat
    | UnknownStore | UnknownChannel | LineOutOfRange | DuplicateLine
    | NoInventory | InsufficientStock(available: int)
  /** Failed is an error the service does not translate; the row is rolled back all the same. */
  datatype Verdict = Accepted | Rejected(reason: Reason) | Failed
  datatype Step = Done(tables: Tables, tx: nat) | Refused(verdict: Verdict)

  const MAX_SMALLINT := 32767
  const MAX_INT := 2147483647
  const MAX_SOURCE_ID := 64
  const PRICE_LIMIT_CENTS := 10_000_000_000
  const TOTAL_LIMIT_CENTS := 1_000_000_000_000
  const DECIMAL_LIMIT: real := 100_000_000_000_000_000_000_000_000.0

  // ---------- Text ----------

  predicate IsSpace(c: char) {
    var n := c as int;
    9 <= n <= 13 || 28 <= n <= 32 || n == 0x85 || n == 0xa0 || n == 0x1680 || 0x2000 <= n <= 0x200a
    || n == 0x2028 || n == 0x2029 || n == 0x202f || n == 0x205f || n == 0x3000
  }

  function StripLeft(s: string): string {
    if s != [] && IsSpace(s[0]) then StripLeft(s[1..]) else s
  }

  function StripRight(s: string): string {
    if s != [] && IsSpace(s[|s|-1]) then StripRight(s[..|s|-1]) else s
  }

  function Strip(s: string): string { StripRight(StripLeft(s)) }

  predicate IsFormula(s: string) {
    var body := StripLeft(s);
    body != [] && body[0] in {'=', '+', '-', '@'}
  }

  /** Only the sales service may write under this prefix. */
  predicate Reserved(s: string) { "svc-sales:" <= s }

  // ---------- The steps of one row ----------

  /** At most two decimals, and few enough digits for a 28-digit decimal to round. */
  predicate HasAtMostTwoDecimals(value: real) {
    value < DECIMAL_LIMIT && (value * 100.0).Floor as real == value * 100.0
  }

  function Cents(price: Price): int
    requires price.Amount?
  {
    (price.value * 100.0).Floor
  }

  /** Everything checked before the header is looked for. */
  function Screen(row: Row, catalog: Catalog, now: int): Verdict {
    if Strip(row.sourceId) == [] then Rejected(SourceIdRequired)
    else if IsFormula(Strip(row.sourceId)) then Rejected(SpreadsheetFormula)
    else if !row.moment.hasOffset then Rejected(OffsetRequired)
    else if row.moment.at > now then Rejected(InTheFuture)
    else if row.quantity <= 0 then Rejected(QuantityNotPositive)
    else if row.price.NotFinite? then Rejected(PriceNotFinite)
    else if row.price.value <= 0.0 then Rejected(PriceNotPositive)
    else if !HasAtMostTwoDecimals(row.price.value) then Rejected(PriceTooPrecise)
    else if row.customer.NotAnIdentifier? then Rejected(BadCustomerId)
    else if row.customer.id !in catalog.registered then Rejected(UnknownCustomer)
    else if row.moment.day < catalog.registered[row.customer.id] then Rejected(BeforeRegistration)
    else if row.product !in catalog.active then Rejected(UnknownProduct)
    else if !catalog.active[row.product] then Rejected(InactiveProduct)
    else Accepted
  }

  /** Position of the header with this source id, or the number of headers. */
  function Find(headers: seq<Header>, sourceId: string): (tx: nat)
    ensures tx <= |headers|
    ensures tx < |headers| ==> headers[tx].sourceId == sourceId
    ensures forall i :: 0 <= i < tx ==> headers[i].sourceId != sourceId
  {
    if headers == [] then 0
    else
      var before := Find(headers[..|headers|-1], sourceId);
      if before < |headers| - 1 || headers[|headers|-1].sourceId == sourceId then before else |headers|
  }

  function NewHeader(row: Row): Header
    requires row.customer.Customer?
  {
    Header(Strip(row.sourceId), row.customer.id, row.store, row.channel, row.moment.at, Observed, 0)
  }

  predicate IsSmallint(n: int) { -MAX_SMALLINT - 1 <= n <= MAX_SMALLINT }

  /** What the header table refuses, in the order it is found. */
  function HeaderRefusal(row: Row, catalog: Catalog): Verdict {
    if |Strip(row.sourceId)| > MAX_SOURCE_ID then Rejected(SourceIdTooLong)
    else if !IsSmallint(row.store) || !IsSmallint(row.channel) then Rejected(HeaderOutOfRange)
    else if Reserved(Strip(row.sourceId)) then Rejected(NotInFormat)
    else if row.store !in catalog.stores then Rejected(UnknownStore)
    else if row.channel !in catalog.channels then Rejected(UnknownChannel)
    else Accepted
  }

  predicate Agrees(header: Header, row: Row)
    requires row.customer.Customer?
  {
    header.customer == row.customer.id && header.store == row.store
    && header.channel == row.channel && header.at == row.moment.at
  }

  function PlaceHeader(t: Tables, row: Row, catalog: Catalog): Step
    requires row.customer.Customer?
  {
    var tx := Find(t.headers, Strip(row.sourceId));
    if tx == |t.headers| then
      if HeaderRefusal(row, catalog).Accepted? then Done(t.(headers := t.headers + [NewHeader(row)]), tx)
      else Refused(HeaderRefusal(row, catalog))
    else if t.headers[tx].origin != Observed then Refused(Rejected(SeededSale))
    else if !Agrees(t.headers[tx], row) then Refused(Rejected(HeaderDisagrees))
    else Done(t, tx)
  }

  predicate HasLine(lines: seq<Line>, tx: nat, product: int) {
    exists i :: 0 <= i < |lines| && lines[i].tx == tx && lines[i].product == product
  }

  function PlaceLine(t: Tables, row: Row, tx: nat): Step
    requires row.price.Amount? && tx < |t.headers|
  {
    if row.quantity > MAX_INT || Cents(row.price) >= PRICE_LIMIT_CENTS then Refused(Rejected(LineOutOfRange))
    else if Reserved(t.headers[tx].sourceId) then Refused(Rejected(NotInFormat))
    else if HasLine(t.lines, tx, row.product) then Refused(Rejected(DuplicateLine))
    else Done(t.(lines := t.lines + [Line(tx, row.product, row.quantity, Cents(row.price))]), tx)
  }

  function TakeStock(t: Tables, row: Row, tx: nat): Step {
    var key := (row.store, row.product);
    if key !in t.stock then Refused(Rejected(NoInventory))
    else if t.stock[key] < row.quantity then Refused(Rejected(InsufficientStock(t.stock[key])))
    else Done(t.(stock := t.stock[key := t.stock[key] - row.quantity]), tx)
  }

  function Product(x: int, y: int): int { x * y }

  /** What the lines of one sale come to. */
  function LineTotal(lines: seq<Line>, tx: nat): int {
    if lines == [] then 0
    else
      var last := lines[|lines|-1];
      LineTotal(lines[..|lines|-1], tx) + (if last.tx == tx then Product(last.quantity, last.cents) else 0)
  }

  function SetTotal(t: Tables, tx: nat): Step
    requires tx < |t.headers|
  {
    var total := LineTotal(t.lines, tx);
    if total >= TOTAL_LIMIT_CENTS then Refused(Failed)
    else Done(t.(headers := t.headers[tx := t.headers[tx].(total := total)]), tx)
  }

  /** One row, tried against the tables. */
  function Attempt(t: Tables, row: Row, catalog: Catalog, now: int): Step {
    var screened := Screen(row, catalog, now);
    if !screened.Accepted? then Refused(screened)
    else
      var headed := PlaceHeader(t, row, catalog);
      if headed.Refused? then headed
      else
        var lined := PlaceLine(headed.tables, row, headed.tx);
        if lined.Refused? then lined
        else
          var stocked := TakeStock(lined.tables, row, lined.tx);
          if stocked.Refused? then stocked else SetTotal(stocked.tables, stocked.tx)
  }

  function VerdictOf(t: Tables, row: Row, catalog: Catalog, now: int): Verdict {
    var step := Attempt(t, row, catalog, now);
    if step.Done? then Accepted else step.verdict
  }

  /** The tables once the row is committed or rolled back. */
  function Ingested(t: Tables, row: Row, catalog: Catalog, now: int): Tables {
    var step := Attempt(t, row, catalog, now);
    if step.Done? then step.tables else t
  }

  // ---------- The service over its open transaction ----------

  /** The tables as the open transaction sees them, beside the last committed ones. */
  class Ledger {
    var headers: seq<Header>
    var lines: seq<Line>
    var stock: map<(int, int), int>
    var committed: Tables

    constructor (t: Tables)
      ensures Current() == committed == t
    {
      headers, lines, stock, committed := t.headers, t.lines, t.stock, t;
    }

    function Current(): Tables
      reads this
    {
      Tables(headers, lines, stock)
    }

    method InsertTransaction(row: Row, catalog: Catalog) returns (refusal: Verdict, tx: nat)
      requires row.customer.Customer?
      modifies this`headers
      ensures refusal == HeaderRefusal(row, catalog)
      ensures !refusal.Accepted? ==> headers == old(headers)
      ensures refusal.Accepted? ==> headers == old(headers) + [NewHeader(row)] && tx == |old(headers)|
    {
      refusal, tx := HeaderRefusal(row, catalog), |headers|;
      if refusal.Accepted? {
        headers := headers + [NewHeader(row)];
      }
    }

    method InsertLine(row: Row, tx: nat) returns (refusal: Verdict)
      requires row.price.Amount? && tx < |headers|
      modifies this`lines
      ensures (match PlaceLine(old(Current()), row, tx)
               case Done(after, _) => refusal == Accepted && Current() == after
               case Refused(why) => refusal == why && lines == old(lines))
    {
      if row.quantity > MAX_INT || Cents(row.price) >= PRICE_LIMIT_CENTS {
        return Rejected(LineOutOfRange);
      }
      if Reserved(headers[tx].sourceId) {
        return Rejected(NotInFormat);
      }
      if HasLine(lines, tx, row.product) {
        return Rejected(DuplicateLine);
      }
      lines := lines + [Line(tx, row.product, row.quantity, Cents(row.price))];
      refusal := Accepted;
    }

    method DecrementStock(store: int, product: int, quantity: int) returns (refusal: Verdict)
      modifies this`stock
      ensures refusal.Accepted? <==> (store, product) in old(stock) && old(stock)[(store, product)] >= quantity
      ensures refusal.Accepted? ==>
                stock == old(stock)[(store, product) := old(stock)[(store, product)] - quantity]
      ensures !refusal.Accepted? ==> stock == old(stock)
      ensures (store, product) !in old(stock) ==> refusal == Rejected(NoInventory)
      ensures (!refusal.Accepted? && (store, product) in old(stock) ==>
                 refusal == Rejected(InsufficientStock(old(stock)[(store, product)])))
    {
      var key := (store, product);
      if key in stock && stock[key] >= quantity {
        stock := stock[key := stock[key] - quantity];
        return Accepted;
      }
      refusal := if key in stock then Rejected(InsufficientStock(stock[key])) else Rejected(NoInventory);
    }

    /** Sums the sale's lines; false when the sum does not fit the total's column. */
    method RecomputeTotal(tx: nat) returns (fits: bool)
      requires tx < |headers|
      modifies this`headers
      ensures fits == SetTotal(old(Current()), tx).Done?
      ensures fits ==> Current() == SetTotal(old(Current()), tx).tables
      ensures !fits ==> headers == old(headers)
    {
      var total := LineTotal(lines, tx);
      fits := total < TOTAL_LIMIT_CENTS;
      if fits {
        headers := headers[tx := headers[tx].(total := total)];
      }
    }

    /** The statements of one row, in the open transaction; a refusal may leave some done. */
    method TryRow(row: Row, catalog: Catalog, now: int) returns (verdict: Verdict)
      modifies this`headers, this`lines, this`stock
      ensures verdict == VerdictOf(old(Current()), row, catalog, now)
      ensures verdict.Accepted? ==> Current() == Ingested(old(Current()), row, catalog, now)
    {
      hide Strip, HeaderRefusal, HasLine, LineTotal, Cents;
      verdict := Screen(row, catalog, now);
      if !verdict.Accepted? {
        return;
      }
      var tx := Find(headers, Strip(row.sourceId));
      if tx == |headers| {
        verdict, tx := InsertTransaction(row, catalog);
        if !verdict.Accepted? {
          return;
        }
      } else if headers[tx].origin != Observed {
        return Rejected(SeededSale);
      } else if !Agrees(headers[tx], row) {
        return Rejected(HeaderDisagrees);
      }
      verdict := InsertLine(row, tx);
      if !verdict.Accepted? {
        return;
      }
      verdict := DecrementStock(row.store, row.product, row.quantity);
      if !verdict.Accepted? {
        return;
      }
      var fits := RecomputeTotal(tx);
      verdict := if fits then Accepted else Failed;
    }

    /** One row as its own unit of work: committed whole, or rolled back whole. */
    method IngestRow(row: Row, catalog: Catalog, now: int) returns (verdict: Verdict)
      requires Current() == committed
      modifies this
      ensures verdict == VerdictOf(old(committed), row, catalog, now)
      ensures Current() == committed == Ingested(old(committed), row, catalog, now)
      ensures !verdict.Accepted? ==> Current() == old(Current())
    {
      verdict := TryRow(row, catalog, now);
      if verdict.Accepted? {
        committed := Current();
      } else {
        headers, lines, stock := committed.headers, committed.lines, committed.stock;
      }
    }
  }
}
