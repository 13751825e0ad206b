/** When the undecided count of a whole shift report is beyond money. */
module UndecidedReports {
  import opened ConsumptionShift
  import opened Options
  import opened UndecidedShifts

  datatype Kind = Channels | Stores | Categories

  function TableOf(t: Totals, k: Kind): map<nat, seq<Total>> {
    match k
    case Channels => t.channels
    case Stores => t.stores
    case Categories => t.categories
  }

  function RowsOn(t: Totals, k: Kind, c: nat): seq<Total> { Rows(TableOf(t, k), c) }

  function BaseOn(t: Totals, k: Kind, c: nat): int {
    var purchases := Purchases(Rows(t.channels, c));
    if k.Categories? then LinedOf(t, c, purchases) else purchases
  }

  function DimensionOf(k: Kind): Dimension { if k.Categories? then ByCategory else ByGroup }

  function LeaderOn(t: Totals, k: Kind, c: nat): Option<Leader> {
    LeaderIn(DimensionOf(k), RowsOn(t, k, c), BaseOn(t, k, c))
  }

  /** The leaders of every customer of a period. */
  function LeaderMap(t: Totals): map<nat, CustomerLeaders> {
    map c | c in t.channels && LeadersOf(t, c).Some? :: LeadersOf(t, c).value
  }

  lemma LeaderMapHoldsLeaders(t: Totals)
    ensures AreLeaders(LeaderMap(t), t, t.channels.Keys)
  {
    hide LeadersOf;
  }

  predicate Compared(earlier: Totals, later: Totals, c: nat) {
    c in LeaderMap(earlier) && c in LeaderMap(later)
  }

  ghost predicate UndecidedOn(earlier: Totals, later: Totals, k: Kind, c: nat) {
    Undecided(LeaderOn(earlier, k, c), LeaderOn(later, k, c))
  }

  ghost predicate SettledOn(earlier: Totals, later: Totals, k: Kind, c: nat) {
    Settled(RowsOn(earlier, k, c), RowsOn(later, k, c))
  }

  predicate ClaimedFor(earlier: Totals, later: Totals, c: nat)
    requires Compared(earlier, later, c)
  {
    Claimed(ShiftOf(c, LeaderMap(earlier)[c], LeaderMap(later)[c]))
  }

  /** What a customer adds to the undecided count. */
  function Adds(earlier: Totals, later: Totals, c: nat): nat {
    if Compared(earlier, later, c) && !ClaimedFor(earlier, later, c)
       && AnyUndecided(LeaderMap(earlier)[c], LeaderMap(later)[c]) then 1 else 0
  }

  /** A compared customer whose shift is claimed, or who is undecided on something settled, or on
      whom everything is settled. */
  ghost predicate Fixed(earlier: Totals, later: Totals, c: nat)
    requires Compared(earlier, later, c)
  {
    || ClaimedFor(earlier, later, c)
    || (exists k: Kind :: SettledOn(earlier, later, k, c) && UndecidedOn(earlier, later, k, c))
    || (forall k: Kind :: SettledOn(earlier, later, k, c))
  }

  // ---------- one customer ----------

  lemma LeadersByKind(t: Totals, c: nat)
    requires LeadersOf(t, c).Some?
    ensures LeaderOn(t, Channels, c) == Some(LeadersOf(t, c).value.channel)
    ensures LeaderOn(t, Stores, c) == Some(LeadersOf(t, c).value.store)
    ensures LeaderOn(t, Categories, c) == LeadersOf(t, c).value.category
  {
    hide GroupLeader, CategoryLeader, Purchases;
  }

  lemma AnyKindUndecided(earlier: Totals, later: Totals, c: nat)
    requires Compared(earlier, later, c)
    ensures (AnyUndecided(LeaderMap(earlier)[c], LeaderMap(later)[c])
             <==> exists k: Kind :: UndecidedOn(earlier, later, k, c))
  {
    hide LeadersOf, LeaderOn, Undecided;
    LeadersByKind(earlier, c);
    LeadersByKind(later, c);
    var was, now := LeaderMap(earlier)[c], LeaderMap(later)[c];
    assert UndecidedOn(earlier, later, Channels, c) <==> Undecided(Some(was.channel), Some(now.channel));
    assert UndecidedOn(earlier, later, Stores, c) <==> Undecided(Some(was.store), Some(now.store));
    assert UndecidedOn(earlier, later, Categories, c) <==> Undecided(was.category, now.category);
    hide LeaderMap, UndecidedOn;
    if k: Kind :| UndecidedOn(earlier, later, k, c) {
      assert k == Channels || k == Stores || k == Categories;
    }
  }

  lemma SameOnKind(t: Totals, t2: Totals, k: Kind, c: nat)
    requires SamePurchases(t, t2)
    ensures SameCounts(RowsOn(t, k, c), RowsOn(t2, k, c)) && BaseOn(t, k, c) == BaseOn(t2, k, c)
    ensures c in LeaderMap(t) <==> c in LeaderMap(t2)
  {
    assert SameRows(t, t2, c);
    SamePurchaseSum(Rows(t.channels, c), Rows(t2.channels, c));
    CustomersAgree(t, t2, c);
    hide LeadersOf, SameCounts, Purchases, Rows;
    assert c in t.channels.Keys <==> c in t2.channels.Keys;
  }

  lemma ClaimsAgree(earlier: Totals, later: Totals, earlier2: Totals, later2: Totals, c: nat)
    requires SamePurchases(earlier, earlier2) && SamePurchases(later, later2) && Compared(earlier, later, c)
    ensures Compared(earlier2, later2, c) && (ClaimedFor(earlier, later, c) <==> ClaimedFor(earlier2, later2, c))
  {
    SameOnKind(earlier, earlier2, Channels, c);
    SameOnKind(later, later2, Channels, c);
    CustomersAgree(earlier, earlier2, c);
    CustomersAgree(later, later2, c);
    hide LeadersOf, LeadersAgree, ShiftOf, SamePurchases;
    SameShift(c, LeaderMap(earlier)[c], LeaderMap(later)[c], LeaderMap(earlier2)[c], LeaderMap(later2)[c]);
  }

  /** Spending moves nobody's leader on something settled from undecided to decided or back. */
  lemma SettledStays(earlier: Totals, later: Totals, earlier2: Totals, later2: Totals, k: Kind, c: nat)
    requires SamePurchases(earlier, earlier2) && SamePurchases(later, later2) && SettledOn(earlier, later, k, c)
    ensures UndecidedOn(earlier2, later2, k, c) <==> UndecidedOn(earlier, later, k, c)
  {
    SameOnKind(earlier, earlier2, k, c);
    SameOnKind(later, later2, k, c);
    hide SamePurchases, RowsOn, BaseOn, CanLead, LeaderIn, SameCounts, Undecided;
    var xs, ys := RowsOn(earlier, k, c), RowsOn(later, k, c);
    CountsAreSingle(xs, RowsOn(earlier2, k, c));
    CountsAreSingle(ys, RowsOn(later2, k, c));
    SteadyWhenSettled(DimensionOf(k), xs, ys, BaseOn(earlier, k, c), BaseOn(later, k, c));
  }

  lemma CountsAreSingle(xs: seq<Total>, ys: seq<Total>)
    requires SameCounts(xs, ys)
    ensures OneRowEach(xs) && OneRowEach(ys)
  {
  }

  lemma FixedStays(earlier: Totals, later: Totals, earlier2: Totals, later2: Totals, c: nat)
    requires SamePurchases(earlier, earlier2) && SamePurchases(later, later2)
    requires Compared(earlier, later, c) ==> Fixed(earlier, later, c)
    ensures Adds(earlier2, later2, c) == Adds(earlier, later, c)
  {
    hide SamePurchases, LeaderMap, SettledOn, UndecidedOn, AnyUndecided, ClaimedFor;
    SameOnKind(earlier, earlier2, Channels, c);
    SameOnKind(later, later2, Channels, c);
    if Compared(earlier, later, c) {
      ClaimsAgree(earlier, later, earlier2, later2, c);
      AnyKindUndecided(earlier, later, c);
      AnyKindUndecided(earlier2, later2, c);
      forall k: Kind | SettledOn(earlier, later, k, c)
        ensures UndecidedOn(earlier2, later2, k, c) <==> UndecidedOn(earlier, later, k, c)
      {
        SettledStays(earlier, later, earlier2, later2, k, c);
      }
    }
  }

  // ---------- spendings that differ ----------

  /** Rows of the same purchases under which nobody is undecided. */
  lemma QuietRows(d: Dimension, xs: seq<Total>, ys: seq<Total>, baseX: int, baseY: int) returns (xs2: seq<Total>, ys2: seq<Total>)
    requires OneRowEach(xs) && OneRowEach(ys)
    requires Settled(xs, ys) ==> !Undecided(LeaderIn(d, xs, baseX), LeaderIn(d, ys, baseY))
    ensures SameCounts(xs, xs2) && SameCounts(ys, ys2)
    ensures !Undecided(LeaderIn(d, xs2, baseX), LeaderIn(d, ys2, baseY))
  {
    hide CanLead, LeaderIn, Undecided, SameCounts, Favoured;
    if Settled(xs, ys) {
      CountsMatch(xs, xs);
      CountsMatch(ys, ys);
      return xs, ys;
    }
    var common: nat :| CanLead(xs, common) && CanLead(ys, common);
    var other := OtherTop(xs, ys, common);
    FavouredKeepsCounts(xs, common);
    FavouredKeepsCounts(ys, common);
    MoneyDecides(d, xs, ys, baseX, baseY, common, other);
    xs2, ys2 := Favoured(xs, common), Favoured(ys, common);
  }

  lemma OtherTop(xs: seq<Total>, ys: seq<Total>, common: nat) returns (other: nat)
    requires !Settled(xs, ys)
    ensures other != common && (CanLead(xs, other) || CanLead(ys, other))
  {
    hide CanLead;
    if !OneTop(xs) {
      var x: nat, y: nat :| CanLead(xs, x) && CanLead(xs, y) && x != y;
      other := if x != common then x else y;
    } else {
      var x: nat, y: nat :| CanLead(ys, x) && CanLead(ys, y) && x != y;
      other := if x != common then x else y;
    }
  }

  /** Rows of the same purchases under which one is undecided. */
  lemma LoudRows(d: Dimension, xs: seq<Total>, ys: seq<Total>, baseX: int, baseY: int) returns (xs2: seq<Total>, ys2: seq<Total>)
    requires OneRowEach(xs) && OneRowEach(ys) && !Settled(xs, ys)
    ensures SameCounts(xs, xs2) && SameCounts(ys, ys2)
    ensures Undecided(LeaderIn(d, xs2, baseX), LeaderIn(d, ys2, baseY))
  {
    hide CanLead, LeaderIn, Undecided, SameCounts, Favoured;
    var common: nat :| CanLead(xs, common) && CanLead(ys, common);
    var other := OtherTop(xs, ys, common);
    MoneyDecides(d, xs, ys, baseX, baseY, common, other);
    var x := if CanLead(xs, other) then other else common;
    var y := if CanLead(xs, other) then common else other;
    FavouredKeepsCounts(xs, x);
    FavouredKeepsCounts(ys, y);
    xs2, ys2 := Favoured(xs, x), Favoured(ys, y);
  }

  /** One customer's rows of one kind replaced. */
  function Put(t: Totals, k: Kind, c: nat, rows: seq<Total>): Totals {
    match k
    case Channels => t.(channels := t.channels[c := rows])
    case Stores => t.(stores := t.stores[c := rows])
    case Categories => t.(categories := t.categories[c := rows])
  }

  lemma PutKeepsPurchases(t: Totals, k: Kind, c: nat, rows: seq<Total>)
    requires SamePurchases(t, t) && c in t.channels && SameCounts(RowsOn(t, k, c), rows)
    ensures SamePurchases(t, Put(t, k, c, rows))
    ensures RowsOn(Put(t, k, c, rows), k, c) == rows
    ensures forall k2, c2 :: k2 != k || c2 != c ==> RowsOn(Put(t, k, c, rows), k2, c2) == RowsOn(t, k2, c2)
  {
    hide SameCounts;
    var t2 := Put(t, k, c, rows);
    forall customer: nat ensures SameRows(t, t2, customer) {
      assert SameRows(t, t, customer);
      assert RowsOn(t, k, customer) == Rows(TableOf(t, k), customer);
    }
  }

  lemma PurchasesChain(x: Totals, y: Totals, z: Totals)
    requires SamePurchases(x, y) && SamePurchases(y, z)
    ensures SamePurchases(x, z) && SamePurchases(y, y) && SamePurchases(x, x)
  {
    forall c: nat ensures SameRows(x, z, c) && SameRows(y, y, c) && SameRows(x, x, c) {
      assert SameRows(x, y, c) && SameRows(y, z, c);
      hide Rows, Holds, OneRowEach;
    }
  }

  /** Only this customer's rows of this kind differ, and they hold the same purchases. */
  ghost predicate Respent(t: Totals, t2: Totals, k: Kind, c: nat) {
    && SamePurchases(t, t2)
    && forall k2, c2 :: k2 != k || c2 != c ==> RowsOn(t2, k2, c2) == RowsOn(t, k2, c2)
  }

  lemma OtherKindsKeep(earlier: Totals, later: Totals, earlier2: Totals, later2: Totals, k: Kind, c: nat, k2: Kind)
    requires Respent(earlier, earlier2, k, c) && Respent(later, later2, k, c) && k2 != k
    ensures UndecidedOn(earlier2, later2, k2, c) <==> UndecidedOn(earlier, later, k2, c)
    ensures SettledOn(earlier2, later2, k2, c) <==> SettledOn(earlier, later, k2, c)
  {
    SameOnKind(earlier, earlier2, k2, c);
    SameOnKind(later, later2, k2, c);
    hide SamePurchases, BaseOn, LeaderIn, RowsOn, Settled;
  }

  lemma OthersKeepLeaders(t: Totals, t2: Totals, k: Kind, c: nat, c2: nat)
    requires Respent(t, t2, k, c) && c2 != c
    ensures c2 in LeaderMap(t) <==> c2 in LeaderMap(t2)
    ensures c2 in LeaderMap(t) ==> LeaderMap(t)[c2] == LeaderMap(t2)[c2]
  {
    assert t.channels.Keys == t2.channels.Keys && t.lined == t2.lined;
    assert RowsOn(t2, Channels, c2) == RowsOn(t, Channels, c2) && RowsOn(t2, Stores, c2) == RowsOn(t, Stores, c2)
        && RowsOn(t2, Categories, c2) == RowsOn(t, Categories, c2);
    hide GroupLeader, CategoryLeader, Purchases, SamePurchases;
    assert LeadersOf(t2, c2) == LeadersOf(t, c2);
    hide LeadersOf;
    assert c2 in t.channels.Keys <==> c2 in t2.channels.Keys;
  }

  lemma OthersKeepAdds(earlier: Totals, later: Totals, earlier2: Totals, later2: Totals, k: Kind, c: nat, c2: nat)
    requires Respent(earlier, earlier2, k, c) && Respent(later, later2, k, c) && c2 != c
    ensures Adds(earlier2, later2, c2) == Adds(earlier, later, c2)
  {
    hide LeaderMap, Respent, Claimed, ShiftOf, AnyUndecided;
    OthersKeepLeaders(earlier, earlier2, k, c, c2);
    OthersKeepLeaders(later, later2, k, c, c2);
  }

  lemma QuietKind(earlier: Totals, later: Totals, k: Kind, c: nat) returns (earlier2: Totals, later2: Totals)
    requires SamePurchases(earlier, earlier) && SamePurchases(later, later) && Compared(earlier, later, c)
    requires SettledOn(earlier, later, k, c) ==> !UndecidedOn(earlier, later, k, c)
    ensures Respent(earlier, earlier2, k, c) && Respent(later, later2, k, c) && !UndecidedOn(earlier2, later2, k, c)
  {
    hide SamePurchases, LeaderIn, Undecided, SameCounts, BaseOn, LeadersOf, Settled, Put;
    SameOnKind(earlier, earlier, k, c);
    SameOnKind(later, later, k, c);
    var xs, ys := RowsOn(earlier, k, c), RowsOn(later, k, c);
    CountsAreSingle(xs, xs);
    CountsAreSingle(ys, ys);
    var xs2, ys2 := QuietRows(DimensionOf(k), xs, ys, BaseOn(earlier, k, c), BaseOn(later, k, c));
    earlier2, later2 := Put(earlier, k, c, xs2), Put(later, k, c, ys2);
    PutKeepsPurchases(earlier, k, c, xs2);
    PutKeepsPurchases(later, k, c, ys2);
    SameOnKind(earlier, earlier2, k, c);
    SameOnKind(later, later2, k, c);
  }

  lemma LoudKind(earlier: Totals, later: Totals, k: Kind, c: nat) returns (earlier2: Totals, later2: Totals)
    requires SamePurchases(earlier, earlier) && SamePurchases(later, later) && Compared(earlier, later, c)
    requires !SettledOn(earlier, later, k, c)
    ensures Respent(earlier, earlier2, k, c) && Respent(later, later2, k, c) && UndecidedOn(earlier2, later2, k, c)
  {
    hide SamePurchases, LeaderIn, Undecided, SameCounts, BaseOn, LeadersOf, Settled, Put;
    SameOnKind(earlier, earlier, k, c);
    SameOnKind(later, later, k, c);
    var xs, ys := RowsOn(earlier, k, c), RowsOn(later, k, c);
    CountsAreSingle(xs, xs);
    CountsAreSingle(ys, ys);
    var xs2, ys2 := LoudRows(DimensionOf(k), xs, ys, BaseOn(earlier, k, c), BaseOn(later, k, c));
    earlier2, later2 := Put(earlier, k, c, xs2), Put(later, k, c, ys2);
    PutKeepsPurchases(earlier, k, c, xs2);
    PutKeepsPurchases(later, k, c, ys2);
    SameOnKind(earlier, earlier2, k, c);
    SameOnKind(later, later2, k, c);
  }

  /** Two pairs of totals with the same purchases that differ in one customer at most. */
  ghost predicate RespentFor(earlier: Totals, later: Totals, earlier2: Totals, later2: Totals, c: nat) {
    && SamePurchases(earlier, earlier2) && SamePurchases(later, later2)
    && forall c2: nat :: c2 != c ==> Adds(earlier2, later2, c2) == Adds(earlier, later, c2)
  }

  lemma RespentOnce(earlier: Totals, later: Totals, earlier2: Totals, later2: Totals, k: Kind, c: nat)
    requires Respent(earlier, earlier2, k, c) && Respent(later, later2, k, c)
    ensures RespentFor(earlier, later, earlier2, later2, c)
  {
    forall c2: nat | c2 != c ensures Adds(earlier2, later2, c2) == Adds(earlier, later, c2) {
      OthersKeepAdds(earlier, later, earlier2, later2, k, c, c2);
    }
    hide SamePurchases, Adds;
  }

  lemma RespentThen(e0: Totals, l0: Totals, e1: Totals, l1: Totals, e2: Totals, l2: Totals, c: nat)
    requires RespentFor(e0, l0, e1, l1, c) && RespentFor(e1, l1, e2, l2, c)
    ensures RespentFor(e0, l0, e2, l2, c)
    ensures SamePurchases(e1, e1) && SamePurchases(l1, l1) && SamePurchases(e2, e2) && SamePurchases(l2, l2)
    ensures Compared(e0, l0, c) ==> Compared(e2, l2, c)
  {
    hide SamePurchases, Adds, LeaderMap;
    PurchasesChain(e0, e1, e2);
    PurchasesChain(l0, l1, l2);
    PurchasesReflect(e1, e2);
    PurchasesReflect(l1, l2);
    SameOnKind(e0, e2, Channels, c);
    SameOnKind(l0, l2, Channels, c);
  }

  lemma PurchasesReflect(x: Totals, y: Totals)
    requires SamePurchases(x, y)
    ensures SamePurchases(y, y) && SamePurchases(x, x)
  {
    forall c: nat ensures SameRows(y, y, c) && SameRows(x, x, c) {
      assert SameRows(x, y, c);
    }
  }

  ghost predicate QuietIfSettled(earlier: Totals, later: Totals, k: Kind, c: nat) {
    SettledOn(earlier, later, k, c) ==> !UndecidedOn(earlier, later, k, c)
  }

  /** With nothing settled and undecided, some spending leaves the customer out of the count. */
  lemma QuietCustomer(earlier: Totals, later: Totals, c: nat) returns (earlier2: Totals, later2: Totals)
    requires SamePurchases(earlier, earlier) && SamePurchases(later, later) && Compared(earlier, later, c)
    requires forall k: Kind :: QuietIfSettled(earlier, later, k, c)
    ensures RespentFor(earlier, later, earlier2, later2, c) && Adds(earlier2, later2, c) == 0
  {
    hide SamePurchases, LeaderMap, SettledOn, UndecidedOn, AnyUndecided, ClaimedFor, Respent, RespentFor;
    assert QuietIfSettled(earlier, later, Channels, c) && QuietIfSettled(earlier, later, Stores, c)
        && QuietIfSettled(earlier, later, Categories, c);
    var e1, l1 := QuietKind(earlier, later, Channels, c);
    OtherKindsKeep(earlier, later, e1, l1, Channels, c, Stores);
    OtherKindsKeep(earlier, later, e1, l1, Channels, c, Categories);
    RespentOnce(earlier, later, e1, l1, Channels, c);
    RespentNothing(earlier, later, c);
    RespentThen(earlier, later, earlier, later, e1, l1, c);
    var e2, l2 := QuietKind(e1, l1, Stores, c);
    OtherKindsKeep(e1, l1, e2, l2, Stores, c, Channels);
    OtherKindsKeep(e1, l1, e2, l2, Stores, c, Categories);
    RespentOnce(e1, l1, e2, l2, Stores, c);
    RespentThen(earlier, later, e1, l1, e2, l2, c);
    earlier2, later2 := QuietKind(e2, l2, Categories, c);
    OtherKindsKeep(e2, l2, earlier2, later2, Categories, c, Channels);
    OtherKindsKeep(e2, l2, earlier2, later2, Categories, c, Stores);
    RespentOnce(e2, l2, earlier2, later2, Categories, c);
    RespentThen(earlier, later, e2, l2, earlier2, later2, c);
    AnyKindUndecided(earlier2, later2, c);
    forall k: Kind ensures !UndecidedOn(earlier2, later2, k, c) {
      assert k == Channels || k == Stores || k == Categories;
    }
  }

  lemma RespentNothing(earlier: Totals, later: Totals, c: nat)
    requires SamePurchases(earlier, earlier) && SamePurchases(later, later)
    ensures RespentFor(earlier, later, earlier, later, c)
  {
  }

  /** With something not settled and no shift claimed, some spending puts the customer in it. */
  lemma LoudCustomer(earlier: Totals, later: Totals, k: Kind, c: nat) returns (earlier2: Totals, later2: Totals)
    requires SamePurchases(earlier, earlier) && SamePurchases(later, later) && Compared(earlier, later, c)
    requires !SettledOn(earlier, later, k, c) && !ClaimedFor(earlier, later, c)
    ensures RespentFor(earlier, later, earlier2, later2, c) && Adds(earlier2, later2, c) == 1
  {
    earlier2, later2 := LoudKind(earlier, later, k, c);
    hide SamePurchases, LeaderMap, SettledOn, UndecidedOn, AnyUndecided, ClaimedFor, RespentFor;
    RespentOnce(earlier, later, earlier2, later2, k, c);
    ClaimsAgree(earlier, later, earlier2, later2, c);
    AnyKindUndecided(earlier2, later2, c);
  }

  // ---------- the count of a report ----------

  function Sum(ids: seq<nat>, earlier: Totals, later: Totals): nat {
    if ids == [] then 0 else Sum(ids[..|ids|-1], earlier, later) + Adds(earlier, later, ids[|ids|-1])
  }

  lemma {:induction false} CountIsSum(ids: seq<nat>, earlier: Totals, later: Totals)
    ensures ReportOver(ids, LeaderMap(earlier), LeaderMap(later)).undecided == Sum(ids, earlier, later)
  {
    hide LeaderMap, AnyUndecided, ShiftOf, Claimed;
    if ids == [] {
    } else {
      CountIsSum(ids[..|ids|-1], earlier, later);
    }
  }

  lemma {:induction false} SumsMove(ids: seq<nat>, earlier: Totals, later: Totals, earlier2: Totals, later2: Totals, c: nat)
    requires Ascending(ids) && forall c2: nat :: c2 != c ==> Adds(earlier2, later2, c2) == Adds(earlier, later, c2)
    ensures (Sum(ids, earlier2, later2) - Sum(ids, earlier, later)
             == if c in ids then Adds(earlier2, later2, c) - Adds(earlier, later, c) else 0)
  {
    hide Adds;
    if ids == [] {
    } else {
      var n := |ids| - 1;
      SumsMove(ids[..n], earlier, later, earlier2, later2, c);
      assert ids == ids[..n] + [ids[n]];
      assert ids[n] == c ==> c !in ids[..n];
    }
  }

  lemma {:induction false} SumsSame(ids: seq<nat>, earlier: Totals, later: Totals, earlier2: Totals, later2: Totals)
    requires forall c: nat :: Adds(earlier2, later2, c) == Adds(earlier, later, c)
    ensures Sum(ids, earlier2, later2) == Sum(ids, earlier, later)
  {
    hide Adds;
    if ids == [] {
    } else {
      SumsSame(ids[..|ids|-1], earlier, later, earlier2, later2);
    }
  }

  ghost predicate SilentReport(ids: seq<nat>, earlier: Totals, later: Totals) {
    forall earlier2, later2 :: SamePurchases(earlier, earlier2) && SamePurchases(later, later2) ==>
      (ReportOver(ids, LeaderMap(earlier2), LeaderMap(later2)).undecided
       == ReportOver(ids, LeaderMap(earlier), LeaderMap(later)).undecided)
  }

  lemma SilentMeans(ids: seq<nat>, earlier: Totals, later: Totals, earlier2: Totals, later2: Totals)
    requires SilentReport(ids, earlier, later) && SamePurchases(earlier, earlier2) && SamePurchases(later, later2)
    ensures Sum(ids, earlier2, later2) == Sum(ids, earlier, later)
  {
    hide SamePurchases, ReportOver, LeaderMap;
    CountIsSum(ids, earlier, later);
    CountIsSum(ids, earlier2, later2);
  }

  lemma MovesTheCount(ids: seq<nat>, earlier: Totals, later: Totals, c: nat)
    requires SamePurchases(earlier, earlier) && SamePurchases(later, later) && Ascending(ids) && c in ids
    requires Compared(earlier, later, c) && !Fixed(earlier, later, c)
    ensures !SilentReport(ids, earlier, later)
  {
    hide SamePurchases, LeaderMap, SettledOn, UndecidedOn, ClaimedFor, Adds, SilentReport, Sum;
    var k: Kind :| !SettledOn(earlier, later, k, c);
    forall k: Kind ensures QuietIfSettled(earlier, later, k, c) {
    }
    var e1, l1 := QuietCustomer(earlier, later, c);
    var e2, l2 := LoudCustomer(earlier, later, k, c);
    SumsMove(ids, earlier, later, e1, l1, c);
    SumsMove(ids, earlier, later, e2, l2, c);
    if SilentReport(ids, earlier, later) {
      SilentMeans(ids, earlier, later, e1, l1);
      SilentMeans(ids, earlier, later, e2, l2);
      assert false;
    }
  }

  /** The undecided count of a report is the same whatever the purchases cost exactly when every
      compared customer has a claimed shift, or is undecided on something settled, or has
      everything settled. */
  lemma ReportIsSilentExactly(ids: seq<nat>, earlier: Totals, later: Totals)
    requires SamePurchases(earlier, earlier) && SamePurchases(later, later)
    requires Lists(ids, LeaderMap(earlier), LeaderMap(later))
    ensures SilentReport(ids, earlier, later) <==>
            forall c: nat :: Compared(earlier, later, c) ==> Fixed(earlier, later, c)
  {
    hide SamePurchases, LeaderMap, Fixed, ReportOver, Adds, Sum;
    if forall c: nat :: Compared(earlier, later, c) ==> Fixed(earlier, later, c) {
      forall earlier2, later2 | SamePurchases(earlier, earlier2) && SamePurchases(later, later2)
        ensures (ReportOver(ids, LeaderMap(earlier2), LeaderMap(later2)).undecided
                 == ReportOver(ids, LeaderMap(earlier), LeaderMap(later)).undecided)
      {
        forall c: nat ensures Adds(earlier2, later2, c) == Adds(earlier, later, c) {
          FixedStays(earlier, later, earlier2, later2, c);
        }
        SumsSame(ids, earlier, later, earlier2, later2);
        CountIsSum(ids, earlier, later);
        CountIsSum(ids, earlier2, later2);
      }
    } else {
      var c: nat :| Compared(earlier, later, c) && !Fixed(earlier, later, c);
      MovesTheCount(ids, earlier, later, c);
    }
  }
}
