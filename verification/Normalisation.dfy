/** Min-max scaling of R, F and M to points. */
module Normalisation {
  import opened KMeans

  function Lowest(values: seq<real>): (low: real)
    requires values != []
    ensures low in values && forall i :: 0 <= i < |values| ==> low <= values[i]
  {
    if |values| == 1 then values[0]
    else
      var before := Lowest(values[..|values|-1]);
      if values[|values|-1] < before then values[|values|-1] else before
  }

  function Highest(values: seq<real>): (high: real)
    requires values != []
    ensures high in values && forall i :: 0 <= i < |values| ==> values[i] <= high
  {
    if |values| == 1 then values[0]
    else
      var before := Highest(values[..|values|-1]);
      if values[|values|-1] > before then values[|values|-1] else before
  }

  /** One value between the lowest and the highest; a constant feature is 0 in both directions. */
  function Scale(value: real, low: real, high: real, reverse: bool): real {
    if high == low then 0.0
    else if reverse then (high - value) / (high - low)
    else (value - low) / (high - low)
  }

  function MinMax(values: seq<real>, reverse: bool): (scaled: seq<real>)
    requires values != []
    ensures |scaled| == |values|
  {
    var low, high := Lowest(values), Highest(values);
    seq(|values|, i requires 0 <= i < |values| => Scale(values[i], low, high, reverse))
  }

  // ---------- What scaling keeps ----------

  lemma QuotientInUnit(x: real, span: real)
    requires 0.0 <= x <= span && span > 0.0
    ensures 0.0 <= x / span <= 1.0
    ensures x / span == 0.0 <==> x == 0.0
    ensures x / span == 1.0 <==> x == span
  {
    assert (x / span) * span == x;
  }

  lemma QuotientsKeepOrder(x: real, y: real, span: real)
    requires span > 0.0
    ensures x / span < y / span <==> x < y
  {
    assert (x / span) * span == x && (y / span) * span == y;
  }

  lemma ScaleInUnit(value: real, low: real, high: real, reverse: bool)
    requires low <= value <= high
    ensures 0.0 <= Scale(value, low, high, reverse) <= 1.0
    ensures high == low ==> Scale(value, low, high, reverse) == 0.0
    ensures high != low ==> (Scale(value, low, high, reverse) == 0.0 <==> value == (if reverse then high else low))
    ensures high != low ==> (Scale(value, low, high, reverse) == 1.0 <==> value == (if reverse then low else high))
  {
    if high != low {
      QuotientInUnit(if reverse then high - value else value - low, high - low);
    }
  }

  /** Every value lands in [0, 1]. Unless the feature is constant, exactly its lowest values
      land on 0 and exactly its highest on 1, or the other way round when reversed. */
  lemma ScaledToUnit(values: seq<real>, reverse: bool, i: nat)
    requires i < |values|
    ensures 0.0 <= MinMax(values, reverse)[i] <= 1.0
    ensures Highest(values) == Lowest(values) ==> MinMax(values, reverse)[i] == 0.0
    ensures (Highest(values) != Lowest(values) ==>
               && (MinMax(values, reverse)[i] == 0.0 <==> values[i] == (if reverse then Highest(values) else Lowest(values)))
               && (MinMax(values, reverse)[i] == 1.0 <==> values[i] == (if reverse then Lowest(values) else Highest(values))))
  {
    hide Scale, Lowest, Highest;
    ScaleInUnit(values[i], Lowest(values), Highest(values), reverse);
  }

  /** Scaling keeps the order of values strictly, or turns it round strictly. */
  lemma ScalingKeepsOrder(values: seq<real>, reverse: bool, i: nat, j: nat)
    requires i < |values| && j < |values|
    ensures (MinMax(values, reverse)[i] < MinMax(values, reverse)[j]
             <==> if reverse then values[j] < values[i] else values[i] < values[j])
  {
    hide Scale, Lowest, Highest;
    ScaleKeepsOrder(values[i], values[j], Lowest(values), Highest(values), reverse);
  }

  lemma ScaleKeepsOrder(x: real, y: real, low: real, high: real, reverse: bool)
    requires low <= x <= high && low <= y <= high
    ensures (Scale(x, low, high, reverse) < Scale(y, low, high, reverse) <==> if reverse then y < x else x < y)
  {
    if high != low {
      if reverse {
        QuotientsKeepOrder(high - x, high - y, high - low);
      } else {
        QuotientsKeepOrder(x - low, y - low, high - low);
      }
    }
  }

  lemma ScaleTimesSpan(value: real, low: real, high: real, reverse: bool)
    requires low <= value <= high
    ensures Scale(value, low, high, reverse) * (high - low) == if reverse && high != low then high - value else value - low
  {
  }

  lemma GapTimesSpan(x: real, y: real, span: real)
    ensures (x - y) * span == x * span - y * span
  {
  }

  /** Scaling is proportional: two scaled values are as far apart, in spans of the feature, as the
      values were, the other way round when reversed. */
  lemma ScalingIsProportional(values: seq<real>, reverse: bool, i: nat, j: nat)
    requires i < |values| && j < |values|
    ensures ((MinMax(values, reverse)[i] - MinMax(values, reverse)[j]) * (Highest(values) - Lowest(values))
             == if reverse then values[j] - values[i] else values[i] - values[j])
  {
    hide Lowest, Highest, Scale;
    var low, high := Lowest(values), Highest(values);
    ScaleTimesSpan(values[i], low, high, reverse);
    ScaleTimesSpan(values[j], low, high, reverse);
    GapTimesSpan(MinMax(values, reverse)[i], MinMax(values, reverse)[j], high - low);
  }

  // ---------- Units and origins ----------

  function Moved(a: real, b: real, x: real): real { a * x + b }

  function Affine(values: seq<real>, a: real, b: real): seq<real> {
    seq(|values|, i requires 0 <= i < |values| => Moved(a, b, values[i]))
  }

  lemma MovingKeepsOrder(a: real, b: real, x: real, y: real)
    requires x <= y
    ensures a > 0.0 ==> Moved(a, b, x) <= Moved(a, b, y)
    ensures a < 0.0 ==> Moved(a, b, y) <= Moved(a, b, x)
  {
  }

  lemma ExtremeIs(values: seq<real>, low: real, high: real)
    requires low in values && high in values
    requires forall i :: 0 <= i < |values| ==> low <= values[i] <= high
    ensures Lowest(values) == low && Highest(values) == high
  {
  }

  lemma AffineExtremes(values: seq<real>, a: real, b: real)
    requires values != [] && a != 0.0
    ensures var low, high := Moved(a, b, Lowest(values)), Moved(a, b, Highest(values));
            && Lowest(Affine(values, a, b)) == (if a > 0.0 then low else high)
            && Highest(Affine(values, a, b)) == (if a > 0.0 then high else low)
  {
    hide Lowest, Highest, Moved;
    var low, high := Moved(a, b, Lowest(values)), Moved(a, b, Highest(values));
    var moved := Affine(values, a, b);
    var i :| 0 <= i < |values| && values[i] == Lowest(values);
    var j :| 0 <= j < |values| && values[j] == Highest(values);
    assert moved[i] == low && moved[j] == high;
    forall k | 0 <= k < |moved|
      ensures if a > 0.0 then low <= moved[k] <= high else high <= moved[k] <= low
    {
      MovingKeepsOrder(a, b, Lowest(values), values[k]);
      MovingKeepsOrder(a, b, values[k], Highest(values));
    }
    if a > 0.0 {
      ExtremeIs(moved, low, high);
    } else {
      ExtremeIs(moved, high, low);
    }
  }

  lemma FactorCancels(a: real, x: real, y: real)
    requires a != 0.0 && y != 0.0
    ensures (a * x) / (a * y) == x / y
  {
    var q := x / y;
    assert q * y == x;
    assert q * (a * y) == a * x;
  }

  lemma MovedQuotient(a: real, b: real, x: real, y: real, z: real, w: real)
    requires a != 0.0 && z != w
    ensures Moved(a, b, z) != Moved(a, b, w)
    ensures (Moved(a, b, x) - Moved(a, b, y)) / (Moved(a, b, z) - Moved(a, b, w)) == (x - y) / (z - w)
  {
    assert Moved(a, b, x) - Moved(a, b, y) == a * (x - y);
    assert Moved(a, b, z) - Moved(a, b, w) == a * (z - w);
    FactorCancels(a, x - y, z - w);
  }

  lemma SignsCancel(x: real, y: real, z: real, w: real)
    requires z != w
    ensures (x - y) / (z - w) == (y - x) / (w - z)
  {
    FactorCancels(-1.0, x - y, z - w);
  }

  /** Units cancel out of one scaled value; a negative factor swaps lowest and highest. */
  lemma ScaleForgetsUnits(a: real, b: real, x: real, low: real, high: real, reverse: bool)
    requires a != 0.0
    ensures a > 0.0 ==> Scale(Moved(a, b, x), Moved(a, b, low), Moved(a, b, high), reverse) == Scale(x, low, high, reverse)
    ensures a < 0.0 ==> Scale(Moved(a, b, x), Moved(a, b, high), Moved(a, b, low), reverse) == Scale(x, low, high, !reverse)
  {
    hide Moved;
    if high != low {
      if reverse {
        MovedQuotient(a, b, high, x, high, low);
        MovedQuotient(a, b, low, x, low, high);
        SignsCancel(low, x, low, high);
      } else {
        MovedQuotient(a, b, x, low, high, low);
        MovedQuotient(a, b, x, high, low, high);
        SignsCancel(x, high, low, high);
      }
    }
  }

  /** The unit and the origin of a feature cancel out; turning its sign is the same as
      reversing it. */
  lemma ScalingForgetsUnits(values: seq<real>, a: real, b: real, reverse: bool)
    requires values != [] && a != 0.0
    ensures MinMax(Affine(values, a, b), reverse) == MinMax(values, if a > 0.0 then reverse else !reverse)
  {
    hide Scale, Moved, Lowest, Highest;
    AffineExtremes(values, a, b);
    forall i | 0 <= i < |values|
      ensures MinMax(Affine(values, a, b), reverse)[i] == MinMax(values, if a > 0.0 then reverse else !reverse)[i]
    {
      ScaleForgetsUnits(a, b, values[i], Lowest(values), Highest(values), reverse);
    }
  }

  // ---------- One point per customer ----------

  datatype RawRfm = RawRfm(lastPurchaseAt: real, frequency: real, monetary: real)

  const DAY_SECONDS: real := 86400.0

  function Instants(rows: seq<RawRfm>): seq<real> {
    seq(|rows|, i requires 0 <= i < |rows| => rows[i].lastPurchaseAt)
  }

  function Frequencies(rows: seq<RawRfm>): seq<real> { seq(|rows|, i requires 0 <= i < |rows| => rows[i].frequency) }

  function Amounts(rows: seq<RawRfm>): seq<real> { seq(|rows|, i requires 0 <= i < |rows| => rows[i].monetary) }

  /** Days since each last purchase, seen from some moment. */
  function DaysSince(rows: seq<RawRfm>, moment: real): seq<real> {
    seq(|rows|, i requires 0 <= i < |rows| => (moment - rows[i].lastPurchaseAt) / DAY_SECONDS)
  }

  function Normalise(rows: seq<RawRfm>): (points: seq<Point>)
    ensures |points| == |rows|
  {
    if rows == [] then []
    else
      var recency := MinMax(DaysSince(rows, Highest(Instants(rows))), true);
      var frequency, monetary := MinMax(Frequencies(rows), false), MinMax(Amounts(rows), false);
      seq(|rows|, i requires 0 <= i < |rows| => Point(recency[i], frequency[i], monetary[i]))
  }

  /** Recency is the same from whatever moment the days are counted: the latest purchase scores
      1, the oldest 0, and no clock is left in it. */
  lemma RecencyForgetsTheClock(rows: seq<RawRfm>, moment: real)
    requires rows != []
    ensures MinMax(DaysSince(rows, moment), true) == MinMax(Instants(rows), false)
  {
    var a := -1.0 / DAY_SECONDS;
    assert DaysSince(rows, moment) == Affine(Instants(rows), a, moment / DAY_SECONDS);
    hide MinMax, Affine, DaysSince, Instants;
    ScalingForgetsUnits(Instants(rows), a, moment / DAY_SECONDS, true);
  }

  /** So every coordinate is the plain scaling of what was measured, in [0, 1]. */
  lemma PointsAreScaled(rows: seq<RawRfm>, i: nat)
    requires i < |rows|
    ensures Normalise(rows)[i] == Point(MinMax(Instants(rows), false)[i], MinMax(Frequencies(rows), false)[i],
                                        MinMax(Amounts(rows), false)[i])
    ensures 0.0 <= Normalise(rows)[i].r <= 1.0 && 0.0 <= Normalise(rows)[i].f <= 1.0
    ensures 0.0 <= Normalise(rows)[i].m <= 1.0
  {
    hide MinMax, Highest, DaysSince;
    RecencyForgetsTheClock(rows, Highest(Instants(rows)));
    ScaledToUnit(Instants(rows), false, i);
    ScaledToUnit(Frequencies(rows), false, i);
    ScaledToUnit(Amounts(rows), false, i);
  }
}
