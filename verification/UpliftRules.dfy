/** When counts are compared, and what comparing them gives, arm by arm. */
module UpliftRules {
  import opened ExperimentCounts
  import opened ExperimentMeasure
  import opened Experiments

  /** The rows of treatment arms, in order. */
  ghost function Treatments(rows: seq<GroupConversion>): seq<GroupConversion> {
    if rows == [] then []
    else Treatments(rows[..|rows|-1]) + (if rows[|rows|-1].group.kind.Treatment? then [rows[|rows|-1]] else [])
  }

  lemma {:induction false} TreatmentsAreRows(rows: seq<GroupConversion>, x: GroupConversion)
    ensures x in Treatments(rows) <==> x in rows && x.group.kind.Treatment?
  {
    if rows == [] {
    } else {
      TreatmentsAreRows(rows[..|rows|-1], x);
      assert rows == rows[..|rows|-1] + [rows[|rows|-1]];
    }
  }

  ghost predicate IsFirstControl(rows: seq<GroupConversion>, c: int) {
    0 <= c < |rows| && rows[c].group.kind.Control? && forall i :: 0 <= i < c ==> !rows[i].group.kind.Control?
  }

  lemma {:induction false} FirstControlIsFirst(rows: seq<GroupConversion>)
    ensures (match FirstControl(rows)
             case None => forall i :: 0 <= i < |rows| ==> !rows[i].group.kind.Control?
             case Some(x) => exists c :: IsFirstControl(rows, c) && rows[c] == x)
  {
    if rows == [] {
    } else if rows[0].group.kind == Control {
      assert IsFirstControl(rows, 0);
    } else {
      FirstControlIsFirst(rows[1..]);
      if c :| IsFirstControl(rows[1..], c) {
        assert IsFirstControl(rows, c + 1);
      }
    }
  }

  /** The ids of the treatment arms nobody is in, in order. */
  ghost function IdsOfEmpty(treatments: seq<GroupConversion>): seq<nat> {
    if treatments == [] then []
    else
      var last := treatments[|treatments|-1];
      IdsOfEmpty(treatments[..|treatments|-1]) + (if last.total == 0 then [last.group.id] else [])
  }

  lemma {:induction false} NoneEmpty(treatments: seq<GroupConversion>)
    ensures IdsOfEmpty(treatments) == [] <==> forall x :: x in treatments ==> x.total > 0
  {
    if treatments == [] {
    } else {
      var n := |treatments| - 1;
      NoneEmpty(treatments[..n]);
      assert treatments == treatments[..n] + [treatments[n]];
    }
  }

  lemma {:induction false} EmptyArmsAreEmpty(rows: seq<GroupConversion>)
    ensures EmptyArms(rows) == IdsOfEmpty(Treatments(rows))
  {
    if rows == [] {
    } else {
      var n := |rows| - 1;
      EmptyArmsAreEmpty(rows[..n]);
      var before, x := Treatments(rows[..n]), rows[n];
      assert before + [] == before && (before + [x])[..|before|] == before && (before + [x])[|before|] == x;
      assert x.group.kind.Treatment? ==> IdsOfEmpty(before + [x]) == IdsOfEmpty(before) + (if x.total == 0 then [x.group.id] else []);
      assert IdsOfEmpty(before) + [] == IdsOfEmpty(before);
    }
  }

  /** One treatment against the control: both sizes, both shares, and how much larger the
      treatment's share is. */
  ghost predicate Compares(arm: ArmResult, control: GroupConversion, x: GroupConversion) {
    && arm.group == x.group.id && control.total > 0 && x.total > 0
    && arm.comparison == Comparison(control.total, control.converted, x.total, x.converted,
         control.converted as real / control.total as real, x.converted as real / x.total as real,
         x.converted as real / x.total as real - control.converted as real / control.total as real)
  }

  lemma {:induction false} ArmsCompare(control: GroupConversion, rows: seq<GroupConversion>)
    requires control.total > 0
    requires forall i :: 0 <= i < |rows| && rows[i].group.kind == Treatment ==> rows[i].total > 0
    ensures var arms, treatments := Arms(control, rows), Treatments(rows);
      |arms| == |treatments| && forall j :: 0 <= j < |arms| ==> Compares(arms[j], control, treatments[j])
  {
    if rows == [] {
    } else {
      ArmsCompare(control, rows[..|rows|-1]);
    }
  }

  /** How many assigned customers have a sale nobody recorded, over all rows. */
  ghost function Missing(rows: seq<GroupConversion>): nat {
    if rows == [] then 0 else rows[0].unrecorded + Missing(rows[1..])
  }

  lemma {:induction false} MissingIsTotal(rows: seq<GroupConversion>)
    ensures Missing(rows) == TotalUnrecorded(rows)
  {
    if |rows| <= 1 {
      assert rows != [] ==> rows[..0] == [] && rows[1..] == [];
    } else {
      MissingIsTotal(rows[1..]);
      MissingIsTotal(rows[..|rows|-1]);
      MissingIsTotal(rows[1..|rows|-1]);
      assert rows[1..][..|rows|-2] == rows[1..|rows|-1] && rows[..|rows|-1][1..] == rows[1..|rows|-1];
    }
  }

  /** Counts are refused for sales not recorded, then for a missing or empty control, then for empty
      treatments, which are named, then for no treatment at all; and otherwise every treatment is compared
      with the first control, in order. */
  lemma CompareDecides(rows: seq<GroupConversion>)
    ensures var u, treatments := CompareArms(rows), Treatments(rows);
      if Missing(rows) > 0 then u == NotEvaluated(Missing(rows))
      else if !exists c :: IsFirstControl(rows, c) && rows[c].total > 0 then u == NoControlCustomers
      else if exists x :: x in treatments && x.total == 0 then u == EmptyTreatments(IdsOfEmpty(treatments))
      else if treatments == [] then u == NoTreatments
      else
        && u.Measured? && (exists c :: IsFirstControl(rows, c) && rows[c] == u.control)
        && |u.arms| == |treatments| && forall j :: 0 <= j < |u.arms| ==> Compares(u.arms[j], u.control, treatments[j])
  {
    MissingIsTotal(rows);
    FirstControlIsFirst(rows);
    EmptyArmsAreEmpty(rows);
    NoneEmpty(Treatments(rows));
    hide TotalUnrecorded, FirstControl, EmptyArms, Treatments, Missing, Arms, IdsOfEmpty, Compares;
    OnlyOneFirst(rows);
    if Missing(rows) == 0 && FirstControl(rows).Some? && FirstControl(rows).value.total > 0 && EmptyArms(rows) == [] {
      ArmsCompare(FirstControl(rows).value, rows);
    }
  }

  lemma OnlyOneFirst(rows: seq<GroupConversion>)
    ensures forall c, d :: IsFirstControl(rows, c) && IsFirstControl(rows, d) ==> c == d
  {
  }
}
