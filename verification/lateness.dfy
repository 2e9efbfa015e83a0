/** The late checkouts: their lateness groups for all rentals and for Connect
    rentals (dashboard/app.py:325-368), and the cases a 3-hour minimum delay
    between rentals would solve (dashboard/app.py:408-416). */
module Lateness {
  import opened Tables
  import opened Rentals
  import opened Checkout

  /** `df_checkout_late`: the rows of `df_checkout` whose status is out of time. */
  predicate IsOutOfTime(row: CheckoutRow)
  {
    row.status == OutOfTime
  }

  function LateTable(checkout: seq<CheckoutRow>): (late: seq<CheckoutRow>)
    ensures forall row :: row in late <==> row in checkout && row.status == OutOfTime
  {
    Filter(IsOutOfTime, checkout)
  }

  // ----- late_groups -----

  /** A lateness group, numbered in the order of the if/elif chain. */
  type LateGroup = k: nat | k < 16

  /** The text of each group, as the `late_groups` column holds it. */
  const LATE_GROUP_LABELS: seq<string> := [
    "late <= 1 hour",
    "late btw 1 and 2 hours",
    "late btw 2 and 3 hours",
    "late btw 3 and 4 hours",
    "late btw 4 and 6 hours",
    "late btw 6h and 1 day",
    "late btw 1 and 2 days",
    "late btw 2 and 3 days",
    "late btw 3 and 4 days",
    "late btw 4 and 5 days",
    "late btw 5 and 6 days",
    "late btw 6 and 7 days",
    "late btw 7 and 8 days",
    "late btw 8 and 9 days",
    "late btw 9 and 10 days",
    "late more than 10 days"
  ]

  /** The inclusive upper bound, in minutes, of each of the first fifteen groups:
      1, 2, 3, 4 and 6 hours, then 1 to 10 days. */
  const UPPER_BOUNDS: seq<real> := [
    60.0, 120.0, 180.0, 240.0, 360.0,
    1440.0, 2880.0, 4320.0, 5760.0, 7200.0, 8640.0, 10080.0, 11520.0, 12960.0, 14400.0
  ]

  /** The exclusive lower bound of group `k`: 0 for the first, the previous
      group's upper bound for the others. */
  function LowerBound(k: nat): real
    requires k < 15
  {
    if k == 0 then 0.0 else UPPER_BOUNDS[k - 1]
  }

  /** The partition the groups are meant to form: group `k < 15` is the interval
      (LowerBound(k), UPPER_BOUNDS[k]]; the last group takes every other value,
      NaN included. */
  predicate InGroup(x: Minutes, k: LateGroup)
  {
    if k < 15 then x.Some? && LowerBound(k) < x.value <= UPPER_BOUNDS[k]
    else !(x.Some? && 0.0 < x.value <= 14400.0)
  }

  /** The if/elif chain of the lateness loop, branch for branch. The lower bound
      of the tenth branch is 4320 as written, not 5760. */
  function LateGroupOf(value: Minutes): (k: LateGroup)
    ensures InGroup(value, k)
  {
    if Above(value, 0.0) && AtMost(value, 60.0) then 0
    else if Above(value, 60.0) && AtMost(value, 120.0) then 1
    else if Above(value, 120.0) && AtMost(value, 180.0) then 2
    else if Above(value, 180.0) && AtMost(value, 240.0) then 3
    else if Above(value, 240.0) && AtMost(value, 360.0) then 4
    else if Above(value, 360.0) && AtMost(value, 1440.0) then 5
    else if Above(value, 1440.0) && AtMost(value, 2880.0) then 6
    else if Above(value, 2880.0) && AtMost(value, 4320.0) then 7
    else if Above(value, 4320.0) && AtMost(value, 5760.0) then 8
    else if Above(value, 4320.0) && AtMost(value, 7200.0) then 9
    else if Above(value, 7200.0) && AtMost(value, 8640.0) then 10
    else if Above(value, 8640.0) && AtMost(value, 10080.0) then 11
    else if Above(value, 10080.0) && AtMost(value, 11520.0) then 12
    else if Above(value, 11520.0) && AtMost(value, 12960.0) then 13
    else if Above(value, 12960.0) && AtMost(value, 14400.0) then 14
    else 15
  }

  /** The groups do not overlap: a value lies in one group only. */
  lemma InGroupUnique(x: Minutes, k1: LateGroup, k2: LateGroup)
    requires InGroup(x, k1) && InGroup(x, k2)
    ensures k1 == k2
  {
  }

  /** The chain picks exactly the group whose interval holds the value. */
  lemma LateGroupExact(x: Minutes, k: LateGroup)
    ensures LateGroupOf(x) == k <==> InGroup(x, k)
  {
  }

  /** A boundary belongs to the lower group: 180 minutes is "2 to 3 hours",
      181 minutes is "3 to 4 hours". */
  lemma BoundaryInLowerGroup(k: nat)
    requires k < 15
    ensures LateGroupOf(Some(UPPER_BOUNDS[k])) == k
    ensures LateGroupOf(Some(UPPER_BOUNDS[k] + 1.0)) == k + 1
  {
    LateGroupExact(Some(UPPER_BOUNDS[k]), k);
    if k < 14 {
      assert UPPER_BOUNDS[k] + 1.0 <= UPPER_BOUNDS[k + 1];
    }
    LateGroupExact(Some(UPPER_BOUNDS[k] + 1.0), k + 1);
  }

  /** The overlapping lower bound of the tenth branch never decides anything:
      "late btw 4 and 5 days" is exactly (5760, 7200]. */
  lemma FourToFiveDaysExact(x: Minutes)
    ensures LateGroupOf(x) == 9 <==> x.Some? && 5760.0 < x.value <= 7200.0
  {
  }

  /** The text of a row's lateness group. */
  function LateLabel(row: CheckoutRow): string
  {
    LATE_GROUP_LABELS[LateGroupOf(row.rental.delayAtCheckout)]
  }

  /** The `late_groups` column of a table. */
  function LateLabels(late: seq<CheckoutRow>): seq<string>
  {
    Apply(LateLabel, late)
  }

  /** The loop that fills the `late_groups` column: one label per row, in row order. */
  method LabelLateGroups(late: seq<CheckoutRow>) returns (labels: seq<string>)
    ensures labels == LateLabels(late)
  {
    labels := [];
    for i := 0 to |late|
      invariant |labels| == i
      invariant forall k :: 0 <= k < i ==> labels[k] == LateLabel(late[k])
    {
      var value := late[i].rental.delayAtCheckout;
      labels := labels + [LATE_GROUP_LABELS[LateGroupOf(value)]];
    }
  }

  /** The late checkouts of Connect rentals. */
  predicate IsConnect(row: CheckoutRow)
  {
    row.rental.checkinType == "connect"
  }

  function ConnectOnly(late: seq<CheckoutRow>): (connect: seq<CheckoutRow>)
    ensures forall row :: row in connect <==> row in late && row.rental.checkinType == "connect"
  {
    Filter(IsConnect, late)
  }

  /** `value_counts` of the Connect groups is, group by group, at most that of
      all groups. */
  lemma ConnectCountsBounded(late: seq<CheckoutRow>)
    ensures multiset(LateLabels(ConnectOnly(late))) <= multiset(LateLabels(late))
    ensures forall text :: multiset(LateLabels(ConnectOnly(late)))[text] <= multiset(LateLabels(late))[text]
  {
    ApplyFilterCounts(LateLabel, IsConnect, late);
  }

  /** Every delay in the late table is zero or positive. */
  lemma LateDelaysNonNegative(df: seq<Rental>, row: CheckoutRow)
    requires row in LateTable(CheckoutTable(df))
    ensures row.rental.delayAtCheckout.Some? && row.rental.delayAtCheckout.value >= 0.0
  {
  }

  /** In the late table the last group holds the delays above ten days and the
      delays of exactly zero minutes, which are out of time but in no interval. */
  lemma LastGroupOfLateTable(df: seq<Rental>, row: CheckoutRow)
    requires row in LateTable(CheckoutTable(df))
    ensures var d := row.rental.delayAtCheckout.value;
            LateGroupOf(row.rental.delayAtCheckout) == 15 <==> d == 0.0 || d > 14400.0
  {
    LateDelaysNonNegative(df, row);
    LateGroupExact(row.rental.delayAtCheckout, 15);
  }

  /** A rental returned exactly on time is in the late table and is labelled
      "late more than 10 days". */
  lemma ZeroDelayIsLateMoreThanTenDays(df: seq<Rental>, r: Rental)
    requires r in df && r.delayAtCheckout == Some(0.0)
    ensures WithStatus(r) in LateTable(CheckoutTable(df))
    ensures LateLabel(WithStatus(r)) == "late more than 10 days"
  {
    CheckoutTableComplete(df, r);
  }

  // ----- solved -----

  /** The fixed threshold of the simulation: 3 hours. */
  const THRESHOLD_MINUTES: real := 180.0

  /** A late checkout is solved by the threshold when its delay is positive and
      at most 180 minutes, that is, when it falls in one of the first three groups. */
  function SolvedOf(x: Minutes): (solved: bool)
    ensures solved <==> x.Some? && 0.0 < x.value <= THRESHOLD_MINUTES
    ensures solved <==> LateGroupOf(x) < 3
  {
    LateGroupExact(x, LateGroupOf(x));
    Above(x, 0.0) && AtMost(x, THRESHOLD_MINUTES)
  }

  function RowSolved(row: CheckoutRow): bool
  {
    SolvedOf(row.rental.delayAtCheckout)
  }

  /** The `solved` column of a table. */
  function SolvedColumn(late: seq<CheckoutRow>): seq<bool>
  {
    Apply(RowSolved, late)
  }

  /** The loop that fills the `solved` column: one flag per row, in row order. */
  method MarkSolved(late: seq<CheckoutRow>) returns (flags: seq<bool>)
    ensures flags == SolvedColumn(late)
  {
    flags := [];
    for i := 0 to |late|
      invariant |flags| == i
      invariant forall k :: 0 <= k < i ==> flags[k] == RowSolved(late[k])
    {
      var value := late[i].rental.delayAtCheckout;
      if Above(value, 0.0) && AtMost(value, THRESHOLD_MINUTES) {
        flags := flags + [true];
      } else {
        flags := flags + [false];
      }
    }
  }

  /** The first three group labels differ from each other and from every other label. */
  lemma FirstLabelsDistinct(k: LateGroup)
    ensures k != 0 ==> LATE_GROUP_LABELS[k] != LATE_GROUP_LABELS[0]
    ensures k != 1 ==> LATE_GROUP_LABELS[k] != LATE_GROUP_LABELS[1]
    ensures k != 2 ==> LATE_GROUP_LABELS[k] != LATE_GROUP_LABELS[2]
  {
  }

  /** Counting over two aligned columns: when a flag is set exactly where the
      label is one of three distinct labels, the set flags number the total of
      those three label counts. */
  lemma {:induction false} FlagCountIsThreeLabelCounts(flags: seq<bool>, labels: seq<string>, a: string, b: string, c: string)
    requires |flags| == |labels|
    requires a != b && a != c && b != c
    requires forall i :: 0 <= i < |flags| ==> (flags[i] <==> labels[i] == a || labels[i] == b || labels[i] == c)
    ensures multiset(flags)[true] == multiset(labels)[a] + multiset(labels)[b] + multiset(labels)[c]
  {
    if flags != [] {
      FlagCountIsThreeLabelCounts(flags[1..], labels[1..], a, b, c);
      assert flags == [flags[0]] + flags[1..];
      assert labels == [labels[0]] + labels[1..];
    }
  }

  /** The number of solved cases is the total of the first three group counts. */
  lemma SolvedCountIsFirstThreeGroups(late: seq<CheckoutRow>)
    ensures multiset(SolvedColumn(late))[true] ==
            multiset(LateLabels(late))[LATE_GROUP_LABELS[0]]
            + multiset(LateLabels(late))[LATE_GROUP_LABELS[1]]
            + multiset(LateLabels(late))[LATE_GROUP_LABELS[2]]
  {
    var flags, labels := SolvedColumn(late), LateLabels(late);
    forall i | 0 <= i < |flags|
      ensures flags[i] <==> labels[i] == LATE_GROUP_LABELS[0] || labels[i] == LATE_GROUP_LABELS[1] || labels[i] == LATE_GROUP_LABELS[2]
    {
      FirstLabelsDistinct(LateGroupOf(late[i].rental.delayAtCheckout));
    }
    FirstLabelsDistinct(0);
    FirstLabelsDistinct(1);
    FlagCountIsThreeLabelCounts(flags, labels, LATE_GROUP_LABELS[0], LATE_GROUP_LABELS[1], LATE_GROUP_LABELS[2]);
  }

  /** Three late checkouts of 60, 180 and 181 minutes: two are solved, one is not. */
  lemma ThreeHourThresholdExample(late: seq<CheckoutRow>)
    requires |late| == 3
    requires late[0].rental.delayAtCheckout == Some(60.0)
    requires late[1].rental.delayAtCheckout == Some(180.0)
    requires late[2].rental.delayAtCheckout == Some(181.0)
    ensures multiset(SolvedColumn(late))[true] == 2
    ensures multiset(SolvedColumn(late))[false] == 1
  {
    assert SolvedColumn(late) == [true, true, false];
  }
}
