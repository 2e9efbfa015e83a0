/** The ended-rental tables of the dashboard: the time-delta labels of the
    rentals with a recorded checkout (dashboard/app.py:168-178) and the
    `checkout_status` column (dashboard/app.py:219-222). */
module Checkout {
  import opened Tables
  import opened Rentals

  /** `dropna(subset='delay_at_checkout_in_minutes')` keeps the rows for which this holds. */
  predicate HasDelay(r: Rental)
  {
    r.delayAtCheckout.Some?
  }

  /** The rentals whose checkout delay was recorded, in table order. */
  function DropMissingDelay(df: seq<Rental>): (rented: seq<Rental>)
    ensures forall r :: r in rented <==> r in df && r.delayAtCheckout.Some?
  {
    Filter(HasDelay, df)
  }

  // ----- time_delta_previous_rental_label -----

  /** The two values of the `time_delta_previous_rental_label` column. */
  datatype TimeDeltaLabel = Within3Hours | Over3Hours
  {
    function Label(): string
    {
      match this
      case Within3Hours => "time delta btw 0 and 3 hours"
      case Over3Hours => "time delta > 3 hours"
    }
  }

  /** The test the labelling loop applies to each value: within three hours when
      the gap to the car's previous rental is between 0 and 180 minutes inclusive; negative, longer and
      missing gaps are "> 3 hours". */
  function TimeDeltaLabelOf(gap: Minutes): (text: TimeDeltaLabel)
    ensures text == Within3Hours <==> gap.Some? && 0.0 <= gap.value <= 180.0
  {
    if AtLeast(gap, 0.0) && AtMost(gap, 180.0) then Within3Hours else Over3Hours
  }

  function RowTimeDeltaLabel(r: Rental): TimeDeltaLabel
  {
    TimeDeltaLabelOf(r.timeDeltaWithPrevious)
  }

  /** The `time_delta_previous_rental_label` column of the rentals with a recorded checkout. */
  function TimeDeltaLabels(df: seq<Rental>): seq<TimeDeltaLabel>
  {
    Apply(RowTimeDeltaLabel, DropMissingDelay(df))
  }

  /** The loop that labels every rental with a recorded checkout by the gap to
      the car's previous rental. */
  method LabelTimeDeltas(df: seq<Rental>) returns (labels: seq<TimeDeltaLabel>)
    ensures labels == TimeDeltaLabels(df)
    ensures forall i :: 0 <= i < |labels| ==>
              var gap := DropMissingDelay(df)[i].timeDeltaWithPrevious;
              (labels[i] == Within3Hours <==> gap.Some? && 0.0 <= gap.value <= 180.0)
  {
    var rented := DropMissingDelay(df);
    labels := [];
    for i := 0 to |rented|
      invariant |labels| == i
      invariant forall k :: 0 <= k < i ==> labels[k] == RowTimeDeltaLabel(rented[k])
    {
      var value := rented[i].timeDeltaWithPrevious;
      if AtLeast(value, 0.0) && AtMost(value, 180.0) {
        labels := labels + [Within3Hours];
      } else {
        labels := labels + [Over3Hours];
      }
    }
  }

  /** Labelling a concatenation labels each part: one label per kept rental, in order. */
  lemma TimeDeltaLabelsConcat(a: seq<Rental>, b: seq<Rental>)
    ensures TimeDeltaLabels(a + b) == TimeDeltaLabels(a) + TimeDeltaLabels(b)
  {
    FilterConcat(HasDelay, a, b);
    ApplyConcat(RowTimeDeltaLabel, DropMissingDelay(a), DropMissingDelay(b));
  }

  // ----- checkout_status -----

  /** A row of `df_checkout`: the rental with its `checkout_status` column. */
  datatype CheckoutRow = CheckoutRow(rental: Rental, status: CheckoutStatus)

  /** The lambda of the `checkout_status` column: a checkout is out of time when
      its delay is zero or positive. */
  function CheckoutStatusOf(x: Minutes): (s: CheckoutStatus)
    ensures s == OutOfTime <==> x.Some? && x.value >= 0.0
  {
    if AtLeast(x, 0.0) then OutOfTime else InTime
  }

  function WithStatus(r: Rental): CheckoutRow
  {
    CheckoutRow(r, CheckoutStatusOf(r.delayAtCheckout))
  }

  /** `df_checkout`: the rentals with a recorded delay, each with its status. */
  function CheckoutTable(df: seq<Rental>): (t: seq<CheckoutRow>)
    ensures |t| <= |df|
    ensures forall row :: row in t ==> row.rental in df && row.rental.delayAtCheckout.Some?
    ensures forall row :: row in t ==>
              (row.status == OutOfTime <==> row.rental.delayAtCheckout.value >= 0.0)
  {
    Apply(WithStatus, DropMissingDelay(df))
  }

  /** Every rental with a recorded delay is in the table with its status. */
  lemma CheckoutTableComplete(df: seq<Rental>, r: Rental)
    requires r in df && r.delayAtCheckout.Some?
    ensures WithStatus(r) in CheckoutTable(df)
  {
  }

  /** A one-row table keeps its row exactly when the delay is recorded. */
  lemma CheckoutTableSingle(r: Rental)
    ensures CheckoutTable([r]) ==
            if r.delayAtCheckout.Some? then [CheckoutRow(r, CheckoutStatusOf(r.delayAtCheckout))] else []
  {
  }

  /** The table of a concatenation is the concatenation of the tables: the pass
      keeps the order of the rows it keeps. */
  lemma CheckoutTableConcat(a: seq<Rental>, b: seq<Rental>)
    ensures CheckoutTable(a + b) == CheckoutTable(a) + CheckoutTable(b)
  {
    FilterConcat(HasDelay, a, b);
    ApplyConcat(WithStatus, DropMissingDelay(a), DropMissingDelay(b));
  }
}
