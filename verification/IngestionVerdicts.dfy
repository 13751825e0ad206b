/** Which rows ingestion takes, and why it takes no others: the checks one by one, each over the
    row and the tables alone, and the verdict that their first fault gives. */
module IngestionVerdicts {
  import opened Ingestion

  // ---------- text ----------

  /** The characters taken for spaces: the tab to the carriage return, the four separators before the
      space and it, the next-line mark, and Unicode's spaces and its line and paragraph separators. */
  lemma SpacesAreThese(c: char)
    ensures (IsSpace(c) <==>
               c as int in {0x09, 0x0a, 0x0b, 0x0c, 0x0d, 0x1c, 0x1d, 0x1e, 0x1f, 0x20, 0x85, 0xa0, 0x1680,
                            0x2000, 0x2001, 0x2002, 0x2003, 0x2004, 0x2005, 0x2006, 0x2007, 0x2008, 0x2009, 0x200a,
                            0x2028, 0x2029, 0x202f, 0x205f, 0x3000})
  {
  }

  ghost predicate Blank(s: string) { forall i :: 0 <= i < |s| ==> IsSpace(s[i]) }

  /** `body` is `s` without the spaces around it. */
  ghost predicate Strips(s: string, body: string) {
    && (exists before, after :: Blank(before) && Blank(after) && s == before + body + after)
    && (body != [] ==> !IsSpace(body[0]) && !IsSpace(body[|body|-1]))
  }

  lemma {:induction false} LeftStrips(s: string) returns (before: string)
    ensures Blank(before) && s == before + StripLeft(s)
    ensures StripLeft(s) != [] ==> !IsSpace(StripLeft(s)[0])
  {
    if s != [] && IsSpace(s[0]) {
      var rest := LeftStrips(s[1..]);
      before := [s[0]] + rest;
    } else {
      before := [];
    }
  }

  lemma {:induction false} RightStrips(s: string) returns (after: string)
    ensures Blank(after) && s == StripRight(s) + after
    ensures StripRight(s) != [] ==> !IsSpace(StripRight(s)[|StripRight(s)|-1])
  {
    hide IsSpace;
    if s != [] && IsSpace(s[|s|-1]) {
      var n := |s| - 1;
      var rest := RightStrips(s[..n]);
      after := rest + [s[n]];
      assert s == s[..n] + [s[n]];
      assert StripRight(s) == StripRight(s[..n]);
      hide StripRight;
      assert StripRight(s[..n]) + after == StripRight(s[..n]) + rest + [s[n]];
    } else {
      after := [];
      assert s == s + after;
    }
  }

  /** Stripping takes the spaces off both ends and nothing else. */
  lemma StripStrips(s: string)
    ensures Strips(s, Strip(s))
    ensures Strip(s) != [] ==> StripLeft(s) != [] && StripLeft(s)[0] == Strip(s)[0]
    ensures Strip(s) != [] ==> StripLeft(Strip(s)) == Strip(s)
  {
    var before := LeftStrips(s);
    var after := RightStrips(StripLeft(s));
    hide IsSpace, StripRight;
    assert s == before + Strip(s) + after;
  }

  // ---------- the checks ----------

  ghost predicate Known(t: Tables, id: string) { exists i :: 0 <= i < |t.headers| && t.headers[i].sourceId == id }

  /** The first header with this id, or where a new one goes. */
  ghost predicate IsPlace(t: Tables, id: string, tx: nat) {
    && (forall i :: 0 <= i < tx && i < |t.headers| ==> t.headers[i].sourceId != id)
    && (if Known(t, id) then tx < |t.headers| && t.headers[tx].sourceId == id else tx == |t.headers|)
  }

  ghost function PlaceOf(t: Tables, id: string): (tx: nat)
    ensures IsPlace(t, id, tx)
  {
    Find(t.headers, id)
  }

  /** Whole cents, in the width of a line's price. */
  ghost predicate IsPrice(value: real, cents: int) { value * 100.0 == cents as real }

  /** What is wrong with the row, check by check. */
  ghost predicate Fault(r: Reason, t: Tables, row: Row, catalog: Catalog, now: int) {
    var id := Strip(row.sourceId);
    var tx := PlaceOf(t, id);
    var key := (row.store, row.product);
    match r
    case SourceIdRequired => id == []
    case SpreadsheetFormula => id != [] && (id[0] == '=' || id[0] == '+' || id[0] == '-' || id[0] == '@')
    case OffsetRequired => !row.moment.hasOffset
    case InTheFuture => now < row.moment.at
    case QuantityNotPositive => row.quantity < 1
    case PriceNotFinite => row.price.NotFinite?
    case PriceNotPositive => row.price.Amount? && row.price.value <= 0.0
    case PriceTooPrecise =>
      row.price.Amount? && !(row.price.value < 100000000000000000000000000.0 && exists cents :: IsPrice(row.price.value, cents))
    case BadCustomerId => row.customer.NotAnIdentifier?
    case UnknownCustomer => row.customer.Customer? && row.customer.id !in catalog.registered
    case BeforeRegistration =>
      row.customer.Customer? && row.customer.id in catalog.registered && row.moment.day < catalog.registered[row.customer.id]
    case UnknownProduct => row.product !in catalog.active
    case InactiveProduct => row.product in catalog.active && !catalog.active[row.product]
    case SeededSale => Known(t, id) && t.headers[tx].origin == Seeded
    case HeaderDisagrees =>
      Known(t, id) && row.customer.Customer?
      && !(t.headers[tx].customer == row.customer.id && t.headers[tx].store == row.store
           && t.headers[tx].channel == row.channel && t.headers[tx].at == row.moment.at)
    case SourceIdTooLong => |id| > 64
    case HeaderOutOfRange => !(-32768 <= row.store <= 32767 && -32768 <= row.channel <= 32767)
    case NotInFormat => |id| >= 10 && id[..10] == "svc-sales:"
    case UnknownStore => row.store !in catalog.stores
    case UnknownChannel => row.channel !in catalog.channels
    case LineOutOfRange => row.quantity > 2147483647 || (row.price.Amount? && row.price.value * 100.0 >= 10000000000.0)
    case DuplicateLine => exists i :: 0 <= i < |t.lines| && t.lines[i].tx == tx && t.lines[i].product == row.product
    case NoInventory => key !in t.stock
    case InsufficientStock(available) => key in t.stock && t.stock[key] == available < row.quantity
  }

  /** The checks before a header is looked for, in order. */
  ghost function IdChecks(): seq<Reason> {
    [SourceIdRequired, SpreadsheetFormula, OffsetRequired, InTheFuture]
  }

  ghost function AmountChecks(): seq<Reason> {
    [QuantityNotPositive, PriceNotFinite, PriceNotPositive, PriceTooPrecise]
  }

  ghost function ReferenceChecks(): seq<Reason> {
    [BadCustomerId, UnknownCustomer, BeforeRegistration, UnknownProduct, InactiveProduct]
  }

  /** A sale that is known already is compared with its header, a new one is held against the
      header's constraints. */
  ghost function HeaderChecks(known: bool): seq<Reason> {
    if known then [SeededSale, HeaderDisagrees]
    else [SourceIdTooLong, HeaderOutOfRange, NotInFormat, UnknownStore, UnknownChannel]
  }

  ghost function LineChecks(): seq<Reason> { [LineOutOfRange, NotInFormat, DuplicateLine] }

  ghost function StockChecks(available: int): seq<Reason> { [NoInventory, InsufficientStock(available)] }

  ghost function ChecksFor(t: Tables, row: Row): seq<Reason> {
    IdChecks() + (AmountChecks() + (ReferenceChecks() + (HeaderChecks(Known(t, Strip(row.sourceId)))
      + (LineChecks() + StockChecks(OnHand(t, row))))))
  }

  ghost function OnHand(t: Tables, row: Row): int {
    if (row.store, row.product) in t.stock then t.stock[(row.store, row.product)] else 0
  }

  /** The row would take its sale past what a total can hold. */
  ghost predicate TotalOverflows(t: Tables, row: Row) {
    && row.price.Amount?
    && (exists cents ::
          IsPrice(row.price.value, cents)
          && LineTotal(t.lines, PlaceOf(t, Strip(row.sourceId))) + row.quantity * cents >= 1000000000000)
  }

  ghost predicate NoFault(checks: seq<Reason>, t: Tables, row: Row, catalog: Catalog, now: int) {
    forall m :: 0 <= m < |checks| ==> !Fault(checks[m], t, row, catalog, now)
  }

  /** The reason is the first check of the list that finds a fault. */
  ghost predicate FirstFault(checks: seq<Reason>, r: Reason, t: Tables, row: Row, catalog: Catalog, now: int) {
    exists n :: FaultAt(checks, n, t, row, catalog, now) && checks[n] == r
  }

  ghost predicate FaultAt(checks: seq<Reason>, n: int, t: Tables, row: Row, catalog: Catalog, now: int) {
    0 <= n < |checks| && Fault(checks[n], t, row, catalog, now) && NoFault(checks[..n], t, row, catalog, now)
  }

  /** What a list of checks says: nothing, or its first fault. */
  ghost predicate Says(v: Verdict, checks: seq<Reason>, t: Tables, row: Row, catalog: Catalog, now: int) {
    match v
    case Accepted => NoFault(checks, t, row, catalog, now)
    case Rejected(r) => FirstFault(checks, r, t, row, catalog, now)
    case Failed => false
  }

  lemma SaysThen(v: Verdict, x: seq<Reason>, y: seq<Reason>, t: Tables, row: Row, catalog: Catalog, now: int)
    ensures Says(v, x, t, row, catalog, now) && !v.Accepted? ==> Says(v, x + y, t, row, catalog, now)
    ensures NoFault(x, t, row, catalog, now) && Says(v, y, t, row, catalog, now) ==> Says(v, x + y, t, row, catalog, now)
  {
    hide Fault;
    var all := x + y;
    if v.Rejected? {
      if Says(v, x, t, row, catalog, now) {
        var n :| FaultAt(x, n, t, row, catalog, now) && x[n] == v.reason;
        assert all[..n] == x[..n];
        assert FaultAt(all, n, t, row, catalog, now);
      }
      if NoFault(x, t, row, catalog, now) && Says(v, y, t, row, catalog, now) {
        var n :| FaultAt(y, n, t, row, catalog, now) && y[n] == v.reason;
        assert all[..|x| + n] == x + y[..n];
        assert FaultAt(all, |x| + n, t, row, catalog, now);
      }
    }
  }

  /** One more check in front. */
  lemma CheckFirst(r: Reason, v: Verdict, rest: seq<Reason>, t: Tables, row: Row, catalog: Catalog, now: int)
    ensures Fault(r, t, row, catalog, now) ==> Says(Rejected(r), [r] + rest, t, row, catalog, now)
    ensures !Fault(r, t, row, catalog, now) && Says(v, rest, t, row, catalog, now) ==> Says(v, [r] + rest, t, row, catalog, now)
  {
    hide Fault;
    if Fault(r, t, row, catalog, now) {
      assert ([r] + rest)[..0] == [];
      assert FaultAt([r] + rest, 0, t, row, catalog, now);
    } else {
      assert NoFault([r], t, row, catalog, now);
      SaysThen(v, [r], rest, t, row, catalog, now);
    }
  }

  /** Checks from some point on against what they should say. */
  ghost function Judged(checks: seq<Reason>, t: Tables, row: Row, catalog: Catalog, now: int): (v: Verdict)
    ensures Says(v, checks, t, row, catalog, now)
    ensures checks == [] ==> v == Accepted
    ensures checks != [] ==> v == if Fault(checks[0], t, row, catalog, now) then Rejected(checks[0]) else Judged(checks[1..], t, row, catalog, now)
  {
    if checks == [] then Accepted
    else
      var rest := Judged(checks[1..], t, row, catalog, now);
      CheckFirst(checks[0], rest, checks[1..], t, row, catalog, now);
      assert checks == [checks[0]] + checks[1..];
      if Fault(checks[0], t, row, catalog, now) then Rejected(checks[0]) else rest
  }

  /** The verdict of one check, and of the rest when it finds nothing. */
  ghost function Either(r: Reason, rest: Verdict, t: Tables, row: Row, catalog: Catalog, now: int): Verdict {
    if Fault(r, t, row, catalog, now) then Rejected(r) else rest
  }

  lemma JudgedIsEither(checks: seq<Reason>, i: nat, t: Tables, row: Row, catalog: Catalog, now: int)
    requires i < |checks|
    ensures Judged(checks[i..], t, row, catalog, now)
         == Either(checks[i], Judged(checks[i+1..], t, row, catalog, now), t, row, catalog, now)
  {
    hide Fault;
    assert checks[i..][0] == checks[i] && checks[i..][1..] == checks[i+1..];
  }

  lemma {:induction false} JudgedThen(x: seq<Reason>, y: seq<Reason>, t: Tables, row: Row, catalog: Catalog, now: int)
    ensures Judged(x + y, t, row, catalog, now)
         == if Judged(x, t, row, catalog, now).Accepted? then Judged(y, t, row, catalog, now) else Judged(x, t, row, catalog, now)
  {
    hide Fault, Says, Judged;
    if x == [] {
      assert x + y == y;
    } else {
      JudgedThen(x[1..], y, t, row, catalog, now);
      assert (x + y)[1..] == x[1..] + y;
    }
  }

  lemma TwoChecks(c: seq<Reason>, t: Tables, row: Row, catalog: Catalog, now: int)
    requires |c| == 2
    ensures Judged(c, t, row, catalog, now)
         == Either(c[0], Either(c[1], Accepted, t, row, catalog, now), t, row, catalog, now)
  {
    hide Fault, Either;
    assert c[0..] == c && c[2..] == [];
    JudgedIsEither(c, 0, t, row, catalog, now);
    JudgedIsEither(c, 1, t, row, catalog, now);
  }

  lemma ThreeChecks(c: seq<Reason>, t: Tables, row: Row, catalog: Catalog, now: int)
    requires |c| == 3
    ensures Judged(c, t, row, catalog, now)
         == Either(c[0], Either(c[1], Either(c[2], Accepted, t, row, catalog, now), t, row, catalog, now), t, row, catalog, now)
  {
    hide Fault, Either;
    TwoChecks(c[1..], t, row, catalog, now);
    JudgedIsEither(c, 0, t, row, catalog, now);
    assert c[0..] == c;
  }

  lemma FourChecks(c: seq<Reason>, t: Tables, row: Row, catalog: Catalog, now: int)
    requires |c| == 4
    ensures Judged(c, t, row, catalog, now)
         == Either(c[0], Either(c[1], Either(c[2], Either(c[3], Accepted,
              t, row, catalog, now), t, row, catalog, now), t, row, catalog, now), t, row, catalog, now)
  {
    hide Fault, Either;
    assert c[0..] == c && c[4..] == [];
    JudgedIsEither(c, 0, t, row, catalog, now);
    JudgedIsEither(c, 1, t, row, catalog, now);
    JudgedIsEither(c, 2, t, row, catalog, now);
    JudgedIsEither(c, 3, t, row, catalog, now);
  }

  lemma FiveChecks(c: seq<Reason>, t: Tables, row: Row, catalog: Catalog, now: int)
    requires |c| == 5
    ensures Judged(c, t, row, catalog, now)
         == Either(c[0], Either(c[1], Either(c[2], Either(c[3], Either(c[4], Accepted,
              t, row, catalog, now), t, row, catalog, now), t, row, catalog, now), t, row, catalog, now), t, row, catalog, now)
  {
    hide Fault, Either;
    FourChecks(c[1..], t, row, catalog, now);
    JudgedIsEither(c, 0, t, row, catalog, now);
    assert c[0..] == c;
  }

  // ---------- the code's own tests ----------

  lemma FormulaFault(row: Row)
    ensures var id := Strip(row.sourceId);
      id != [] ==> (IsFormula(id) <==> (id[0] == '=' || id[0] == '+' || id[0] == '-' || id[0] == '@'))
  {
    StripStrips(row.sourceId);
    hide Strip, StripLeft, Strips;
  }

  lemma PriceFault(value: real)
    ensures HasAtMostTwoDecimals(value) <==> value < 100000000000000000000000000.0 && exists cents :: IsPrice(value, cents)
    ensures forall cents :: IsPrice(value, cents) ==> cents == Cents(Amount(value))
  {
    if HasAtMostTwoDecimals(value) {
      assert IsPrice(value, (value * 100.0).Floor);
    }
  }

  lemma ReservedFault(id: string)
    ensures Reserved(id) <==> |id| >= 10 && id[..10] == "svc-sales:"
  {
  }

  lemma IdsAreJudged(t: Tables, row: Row, catalog: Catalog, now: int)
    ensures Judged(IdChecks(), t, row, catalog, now)
         == (if Strip(row.sourceId) == [] then Rejected(SourceIdRequired)
             else if IsFormula(Strip(row.sourceId)) then Rejected(SpreadsheetFormula)
             else if !row.moment.hasOffset then Rejected(OffsetRequired)
             else if row.moment.at > now then Rejected(InTheFuture)
             else Accepted)
  {
    hide Judged, Strip, IsFormula;
    FormulaFault(row);
    FourChecks(IdChecks(), t, row, catalog, now);
  }

  lemma AmountsAreJudged(t: Tables, row: Row, catalog: Catalog, now: int)
    ensures Judged(AmountChecks(), t, row, catalog, now)
         == (if row.quantity <= 0 then Rejected(QuantityNotPositive)
             else if row.price.NotFinite? then Rejected(PriceNotFinite)
             else if row.price.value <= 0.0 then Rejected(PriceNotPositive)
             else if !HasAtMostTwoDecimals(row.price.value) then Rejected(PriceTooPrecise)
             else Accepted)
  {
    hide Judged, Strip, HasAtMostTwoDecimals;
    if row.price.Amount? {
      PriceFault(row.price.value);
    }
    FourChecks(AmountChecks(), t, row, catalog, now);
  }

  lemma ReferenceFaults(t: Tables, row: Row, catalog: Catalog, now: int)
    ensures Fault(BadCustomerId, t, row, catalog, now) <==> row.customer.NotAnIdentifier?
    ensures Fault(UnknownCustomer, t, row, catalog, now) <==> row.customer.Customer? && row.customer.id !in catalog.registered
    ensures (Fault(BeforeRegistration, t, row, catalog, now) <==>
               row.customer.Customer? && row.customer.id in catalog.registered && row.moment.day < catalog.registered[row.customer.id])
    ensures Fault(UnknownProduct, t, row, catalog, now) <==> row.product !in catalog.active
    ensures Fault(InactiveProduct, t, row, catalog, now) <==> row.product in catalog.active && !catalog.active[row.product]
  {
    hide Strip, Known, PlaceOf, IsPrice;
  }

  lemma ReferencesAreJudged(t: Tables, row: Row, catalog: Catalog, now: int)
    ensures Judged(ReferenceChecks(), t, row, catalog, now)
         == (if row.customer.NotAnIdentifier? then Rejected(BadCustomerId)
             else if row.customer.id !in catalog.registered then Rejected(UnknownCustomer)
             else if row.moment.day < catalog.registered[row.customer.id] then Rejected(BeforeRegistration)
             else if row.product !in catalog.active then Rejected(UnknownProduct)
             else if !catalog.active[row.product] then Rejected(InactiveProduct)
             else Accepted)
  {
    hide Judged, Fault;
    ReferenceFaults(t, row, catalog, now);
    FiveChecks(ReferenceChecks(), t, row, catalog, now);
  }

  lemma ScreenIsJudged(t: Tables, row: Row, catalog: Catalog, now: int)
    ensures Screen(row, catalog, now) == Judged(IdChecks() + (AmountChecks() + ReferenceChecks()), t, row, catalog, now)
  {
    hide Judged, IdChecks, AmountChecks, ReferenceChecks, Strip, IsFormula, HasAtMostTwoDecimals;
    IdsAreJudged(t, row, catalog, now);
    AmountsAreJudged(t, row, catalog, now);
    ReferencesAreJudged(t, row, catalog, now);
    JudgedThen(IdChecks(), AmountChecks() + ReferenceChecks(), t, row, catalog, now);
    JudgedThen(AmountChecks(), ReferenceChecks(), t, row, catalog, now);
  }

  // ---------- the sale and its line ----------

  lemma PlaceIsFound(t: Tables, id: string)
    ensures Find(t.headers, id) == PlaceOf(t, id)
    ensures Known(t, id) <==> Find(t.headers, id) < |t.headers|
  {
  }

  lemma KnownHeaderFaults(t: Tables, row: Row, catalog: Catalog, now: int)
    requires row.customer.Customer? && Known(t, Strip(row.sourceId))
    ensures var tx := Find(t.headers, Strip(row.sourceId));
      && tx < |t.headers|
      && (Fault(SeededSale, t, row, catalog, now) <==> t.headers[tx].origin != Observed)
      && (Fault(HeaderDisagrees, t, row, catalog, now) <==> !Agrees(t.headers[tx], row))
  {
    hide Strip, IsPrice;
    PlaceIsFound(t, Strip(row.sourceId));
  }

  lemma KnownHeaderIsJudged(t: Tables, row: Row, catalog: Catalog, now: int)
    requires row.customer.Customer? && Known(t, Strip(row.sourceId))
    ensures var tx := Find(t.headers, Strip(row.sourceId));
      && tx < |t.headers|
      && Judged(HeaderChecks(true), t, row, catalog, now)
         == if t.headers[tx].origin != Observed then Rejected(SeededSale)
            else if !Agrees(t.headers[tx], row) then Rejected(HeaderDisagrees)
            else Accepted
  {
    hide Judged, Fault, Strip, Agrees;
    KnownHeaderFaults(t, row, catalog, now);
    TwoChecks(HeaderChecks(true), t, row, catalog, now);
  }

  lemma HeaderIsJudged(t: Tables, row: Row, catalog: Catalog, now: int)
    requires row.customer.Customer?
    ensures var id := Strip(row.sourceId); var headed := PlaceHeader(t, row, catalog);
      && Judged(HeaderChecks(Known(t, id)), t, row, catalog, now) == (if headed.Refused? then headed.verdict else Accepted)
      && (headed.Refused? ==> !headed.verdict.Accepted?)
      && (headed.Done? ==>
            && headed.tx == PlaceOf(t, id) && headed.tx < |headed.tables.headers|
            && headed.tables.lines == t.lines && headed.tables.stock == t.stock
            && headed.tables.headers[headed.tx].sourceId == id)
  {
    hide Judged, Fault, Strip, Known, HeaderChecks, HeaderRefusal, Agrees, PlaceOf;
    PlaceIsFound(t, Strip(row.sourceId));
    if Known(t, Strip(row.sourceId)) {
      KnownHeaderIsJudged(t, row, catalog, now);
    } else {
      NewHeaderIsJudged(t, row, catalog, now);
    }
  }

  lemma NewHeaderFaults(t: Tables, row: Row, catalog: Catalog, now: int)
    ensures Fault(SourceIdTooLong, t, row, catalog, now) <==> |Strip(row.sourceId)| > MAX_SOURCE_ID
    ensures Fault(HeaderOutOfRange, t, row, catalog, now) <==> !IsSmallint(row.store) || !IsSmallint(row.channel)
    ensures Fault(NotInFormat, t, row, catalog, now) <==> Reserved(Strip(row.sourceId))
    ensures Fault(UnknownStore, t, row, catalog, now) <==> row.store !in catalog.stores
    ensures Fault(UnknownChannel, t, row, catalog, now) <==> row.channel !in catalog.channels
  {
    hide Strip, Reserved, Known, PlaceOf, IsPrice;
    ReservedFault(Strip(row.sourceId));
  }

  lemma NewHeaderIsJudged(t: Tables, row: Row, catalog: Catalog, now: int)
    ensures Judged(HeaderChecks(false), t, row, catalog, now) == HeaderRefusal(row, catalog)
  {
    hide Judged, Fault, Strip, Reserved, IsSmallint;
    NewHeaderFaults(t, row, catalog, now);
    FiveChecks(HeaderChecks(false), t, row, catalog, now);
  }

  lemma LineFaults(t: Tables, row: Row, catalog: Catalog, now: int)
    requires row.price.Amount?
    ensures Fault(LineOutOfRange, t, row, catalog, now) <==> row.quantity > MAX_INT || Cents(row.price) >= PRICE_LIMIT_CENTS
    ensures Fault(NotInFormat, t, row, catalog, now) <==> Reserved(Strip(row.sourceId))
    ensures Fault(DuplicateLine, t, row, catalog, now) <==> HasLine(t.lines, PlaceOf(t, Strip(row.sourceId)), row.product)
  {
    hide Strip, Reserved, Known, PlaceOf, IsPrice;
    ReservedFault(Strip(row.sourceId));
    CentsInRange(row.price.value);
  }

  lemma LineIsJudged(t: Tables, headed: Tables, tx: nat, row: Row, catalog: Catalog, now: int)
    requires row.price.Amount? && tx < |headed.headers| && tx == PlaceOf(t, Strip(row.sourceId))
    requires headed.lines == t.lines && headed.headers[tx].sourceId == Strip(row.sourceId)
    ensures var lined := PlaceLine(headed, row, tx);
      && Judged(LineChecks(), t, row, catalog, now) == (if lined.Refused? then lined.verdict else Accepted)
      && (lined.Refused? ==> !lined.verdict.Accepted?)
  {
    hide Judged, Fault, Strip, Reserved, HasLine, Cents, PlaceOf;
    LineFaults(t, row, catalog, now);
    ThreeChecks(LineChecks(), t, row, catalog, now);
  }

  lemma CentsInRange(value: real)
    ensures Cents(Amount(value)) >= PRICE_LIMIT_CENTS <==> value * 100.0 >= 10000000000.0
  {
  }

  lemma StockIsJudged(t: Tables, lined: Tables, tx: nat, row: Row, catalog: Catalog, now: int)
    requires lined.stock == t.stock
    ensures var stocked := TakeStock(lined, row, tx);
      Judged(StockChecks(OnHand(t, row)), t, row, catalog, now) == (if stocked.Refused? then stocked.verdict else Accepted)
  {
    hide Judged, Strip, Known, PlaceOf, IsPrice;
    TwoChecks(StockChecks(OnHand(t, row)), t, row, catalog, now);
  }

  // ---------- the verdict ----------

  /** Everything checked before the total, stage after stage. */
  ghost function Staged(t: Tables, row: Row, catalog: Catalog, now: int): Verdict {
    var screened := Screen(row, catalog, now);
    if !screened.Accepted? then screened
    else
      var headed := PlaceHeader(t, row, catalog);
      if headed.Refused? then headed.verdict
      else
        var lined := PlaceLine(headed.tables, row, headed.tx);
        if lined.Refused? then lined.verdict
        else
          var stocked := TakeStock(lined.tables, row, lined.tx);
          if stocked.Refused? then stocked.verdict else Accepted
  }

  /** One verdict after another: the first that is no acceptance. */
  ghost function After(v: Verdict, rest: Verdict): Verdict { if v.Accepted? then rest else v }

  lemma ChecksInStages(t: Tables, row: Row, catalog: Catalog, now: int)
    ensures Judged(ChecksFor(t, row), t, row, catalog, now)
         == After(Screen(row, catalog, now),
                  After(Judged(HeaderChecks(Known(t, Strip(row.sourceId))), t, row, catalog, now),
                        After(Judged(LineChecks(), t, row, catalog, now), Judged(StockChecks(OnHand(t, row)), t, row, catalog, now))))
  {
    hide Known, PlaceOf, Judged, Screen, Strip, IdChecks, AmountChecks, ReferenceChecks, HeaderChecks, LineChecks, StockChecks, Fault;
    var header, line, stock := HeaderChecks(Known(t, Strip(row.sourceId))), LineChecks(), StockChecks(OnHand(t, row));
    var screen := IdChecks() + (AmountChecks() + ReferenceChecks());
    ScreenIsJudged(t, row, catalog, now);
    assert ChecksFor(t, row) == screen + (header + (line + stock));
    JudgedThen(screen, header + (line + stock), t, row, catalog, now);
    JudgedThen(header, line + stock, t, row, catalog, now);
    JudgedThen(line, stock, t, row, catalog, now);
  }

  lemma StagedIsJudged(t: Tables, row: Row, catalog: Catalog, now: int)
    ensures Staged(t, row, catalog, now) == Judged(ChecksFor(t, row), t, row, catalog, now)
  {
    hide Known, PlaceOf, PlaceHeader, PlaceLine, TakeStock, Judged, Screen, Strip, HeaderChecks, LineChecks, StockChecks, ChecksFor;
    ChecksInStages(t, row, catalog, now);
    if Screen(row, catalog, now).Accepted? {
      ScreenedRow(row, catalog, now);
      HeaderIsJudged(t, row, catalog, now);
      var headed := PlaceHeader(t, row, catalog);
      if headed.Done? {
        LineIsJudged(t, headed.tables, headed.tx, row, catalog, now);
        LineKeepsStock(headed.tables, row, headed.tx);
        var lined := PlaceLine(headed.tables, row, headed.tx);
        if lined.Done? {
          StockIsJudged(t, lined.tables, lined.tx, row, catalog, now);
        }
      }
    }
  }

  lemma LineKeepsStock(t: Tables, row: Row, tx: nat)
    requires row.price.Amount? && tx < |t.headers|
    ensures PlaceLine(t, row, tx).Done? ==> PlaceLine(t, row, tx).tables.stock == t.stock && PlaceLine(t, row, tx).tx == tx
  {
    hide Cents, HasLine;
  }

  lemma ScreenedRow(row: Row, catalog: Catalog, now: int)
    requires Screen(row, catalog, now).Accepted?
    ensures row.customer.Customer? && row.price.Amount? && HasAtMostTwoDecimals(row.price.value)
  {
  }

  /** What is left once every check has passed. */
  lemma StagesLeaveTotal(t: Tables, row: Row, catalog: Catalog, now: int)
    ensures var v := VerdictOf(t, row, catalog, now);
      if !Staged(t, row, catalog, now).Accepted? then v == Staged(t, row, catalog, now)
      else v == if TotalOverflows(t, row) then Failed else Accepted
  {
    hide Strip, Screen, HeaderRefusal, HasLine, LineTotal, Cents, IsPrice, TotalOverflows, Product, Reserved, PlaceOf;
    PlaceIsFound(t, Strip(row.sourceId));
    if Screen(row, catalog, now).Accepted? {
      ScreenedRow(row, catalog, now);
      OverflowIsTotal(t, row);
    }
  }

  lemma OverflowIsTotal(t: Tables, row: Row)
    requires row.price.Amount? && HasAtMostTwoDecimals(row.price.value)
    ensures var tx := Find(t.headers, Strip(row.sourceId));
      TotalOverflows(t, row) <==>
      LineTotal(t.lines + [Line(tx, row.product, row.quantity, Cents(row.price))], tx) >= TOTAL_LIMIT_CENTS
  {
    hide Strip;
    PlaceIsFound(t, Strip(row.sourceId));
    PriceFault(row.price.value);
    var tx := Find(t.headers, Strip(row.sourceId));
    var cents := Cents(row.price);
    assert IsPrice(row.price.value, cents);
    var lines := t.lines + [Line(tx, row.product, row.quantity, cents)];
    assert lines[..|t.lines|] == t.lines;
  }

  /** The verdict on a row is the first fault in the order of the checks; without one the row fails
      exactly when its sale's total would not fit, and else is taken. */
  lemma VerdictIsFirstFault(t: Tables, row: Row, catalog: Catalog, now: int)
    ensures var checks := ChecksFor(t, row);
      match VerdictOf(t, row, catalog, now)
      case Accepted => NoFault(checks, t, row, catalog, now) && !TotalOverflows(t, row)
      case Failed => NoFault(checks, t, row, catalog, now) && TotalOverflows(t, row)
      case Rejected(r) => FirstFault(checks, r, t, row, catalog, now)
  {
    hide VerdictOf, Staged, ChecksFor, Judged, Fault, TotalOverflows, NoFault, FirstFault;
    StagedIsJudged(t, row, catalog, now);
    StagesLeaveTotal(t, row, catalog, now);
  }

  // ---------- acceptance ----------

  /** The row on its own, against the reference tables and the clock. */
  ghost predicate Plausible(row: Row, catalog: Catalog, now: int) {
    var id := Strip(row.sourceId);
    && id != [] && id[0] != '=' && id[0] != '+' && id[0] != '-' && id[0] != '@' && !("svc-sales:" <= id)
    && row.moment.hasOffset && row.moment.at <= now
    && 1 <= row.quantity <= 2147483647
    && row.customer.Customer? && row.customer.id in catalog.registered
    && catalog.registered[row.customer.id] <= row.moment.day
    && row.product in catalog.active && catalog.active[row.product]
  }

  /** Its price is a whole number of cents, from one to what a line can hold. */
  ghost predicate Priced(row: Row, cents: int) {
    row.price.Amount? && row.price.value * 100.0 == cents as real && 1 <= cents < 10000000000
  }

  /** The sale it names is one it agrees with, or one the header table would take. */
  ghost predicate Fits(t: Tables, row: Row, catalog: Catalog, tx: nat)
    requires row.customer.Customer?
  {
    var id := Strip(row.sourceId);
    if tx < |t.headers| then
      var h := t.headers[tx];
      h.origin == Observed && h.customer == row.customer.id && h.store == row.store && h.channel == row.channel
      && h.at == row.moment.at
    else
      |id| <= 64 && -32768 <= row.store <= 32767 && -32768 <= row.channel <= 32767
      && row.store in catalog.stores && row.channel in catalog.channels
  }

  /** The sale has no line for the product yet and room in its total, and the store has the stock. */
  ghost predicate Coverable(t: Tables, row: Row, tx: nat, cents: int) {
    && (forall i :: 0 <= i < |t.lines| && t.lines[i].tx == tx ==> t.lines[i].product != row.product)
    && (row.store, row.product) in t.stock && row.quantity <= t.stock[(row.store, row.product)]
    && LineTotal(t.lines, tx) + row.quantity * cents < 1000000000000
  }

  ghost predicate Acceptable(t: Tables, row: Row, catalog: Catalog, now: int) {
    && Plausible(row, catalog, now)
    && exists tx: nat, cents :: IsPlace(t, Strip(row.sourceId), tx) && Priced(row, cents)
         && row.customer.Customer? && Fits(t, row, catalog, tx) && Coverable(t, row, tx, cents)
  }

  ghost predicate Screened(row: Row, catalog: Catalog, now: int) {
    Plausible(row, catalog, now) && exists cents :: Priced(row, cents)
  }

  lemma PricedExactly(row: Row, cents: int)
    ensures (Priced(row, cents) <==>
               row.price.Amount? && row.price.value > 0.0 && HasAtMostTwoDecimals(row.price.value)
               && cents == Cents(row.price) && cents < PRICE_LIMIT_CENTS)
  {
    if row.price.Amount? {
      PriceFault(row.price.value);
      if Priced(row, cents) {
        assert IsPrice(row.price.value, cents);
      }
    }
  }

  lemma ScreenExactly(row: Row, catalog: Catalog, now: int)
    ensures (Screen(row, catalog, now).Accepted? && row.quantity <= MAX_INT && !Reserved(Strip(row.sourceId))
             && row.price.Amount? && Cents(row.price) < PRICE_LIMIT_CENTS
             <==> Screened(row, catalog, now))
  {
    hide Strip, Reserved, IsFormula, HasAtMostTwoDecimals, Priced;
    FormulaFault(row);
    ReservedIsPrefix(Strip(row.sourceId));
    if row.price.Amount? {
      PricedExactly(row, Cents(row.price));
    }
    if cents :| Priced(row, cents) {
      PricedExactly(row, cents);
    }
  }

  lemma ReservedIsPrefix(id: string)
    ensures Reserved(id) <==> "svc-sales:" <= id
  {
  }

  lemma AttemptExactly(t: Tables, row: Row, catalog: Catalog, now: int)
    requires Screened(row, catalog, now)
    ensures var tx := Find(t.headers, Strip(row.sourceId));
      (VerdictOf(t, row, catalog, now) == Accepted <==>
         row.customer.Customer? && row.price.Amount? && Fits(t, row, catalog, tx) && Coverable(t, row, tx, Cents(row.price)))
  {
    ScreenExactly(row, catalog, now);
    hide Screen, Strip, LineTotal, Cents, Reserved;
    var tx := Find(t.headers, Strip(row.sourceId));
    if row.price.Amount? {
      LineAdds(t.lines, Line(tx, row.product, row.quantity, Cents(row.price)));
    }
  }

  lemma LineAdds(lines: seq<Line>, line: Line)
    ensures LineTotal(lines + [line], line.tx) == LineTotal(lines, line.tx) + line.quantity * line.cents
  {
    assert (lines + [line])[..|lines|] == lines;
  }

  lemma OnlyOnePlace(t: Tables, id: string, tx: nat)
    ensures IsPlace(t, id, tx) <==> tx == Find(t.headers, id)
  {
  }

  lemma AcceptedIsScreened(t: Tables, row: Row, catalog: Catalog, now: int)
    requires VerdictOf(t, row, catalog, now) == Accepted
    ensures Screened(row, catalog, now)
  {
    hide Screen, Strip, LineTotal, Cents, Reserved, HasLine, Screened;
    ScreenExactly(row, catalog, now);
    assert Screen(row, catalog, now).Accepted?;
    ScreenedRow(row, catalog, now);
    var headed := PlaceHeader(t, row, catalog);
    assert headed.Done? && headed.tables.headers[headed.tx].sourceId == Strip(row.sourceId);
    assert PlaceLine(headed.tables, row, headed.tx).Done?;
  }

  /** A row is taken exactly when it is plausible, its price is whole cents in range, its sale is
      one it agrees with or one the header table takes, and the line, stock and total allow it. */
  lemma AcceptedExactly(t: Tables, row: Row, catalog: Catalog, now: int)
    ensures VerdictOf(t, row, catalog, now) == Accepted <==> Acceptable(t, row, catalog, now)
  {
    hide VerdictOf, Plausible, Fits, Coverable, Strip, Cents, Priced, Find;
    var tx0 := Find(t.headers, Strip(row.sourceId));
    OnlyOnePlace(t, Strip(row.sourceId), tx0);
    if VerdictOf(t, row, catalog, now) == Accepted {
      AcceptedIsScreened(t, row, catalog, now);
      AttemptExactly(t, row, catalog, now);
      var cents :| Priced(row, cents);
      PricedExactly(row, cents);
    } else if Acceptable(t, row, catalog, now) {
      var tx: nat, cents :| IsPlace(t, Strip(row.sourceId), tx) && Priced(row, cents)
        && row.customer.Customer? && Fits(t, row, catalog, tx) && Coverable(t, row, tx, cents);
      OnlyOnePlace(t, Strip(row.sourceId), tx);
      PricedExactly(row, cents);
      AttemptExactly(t, row, catalog, now);
      assert false;
    }
  }
}
