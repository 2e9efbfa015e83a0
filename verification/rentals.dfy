/** One row of the delay-analysis spreadsheet and the NaN-aware comparisons
    the dashboard applies to its minute columns. */
module Rentals {
  import opened Tables

  /** A minute count as the spreadsheet holds it; `None` is a NaN cell. */
  type Minutes = Option<real>

  /** A rental: the columns of the delay-analysis table. Ids are integers;
      `previousEndedRentalId` is NaN when no previous rental of the car is known. */
  datatype Rental = Rental(
    rentalId: int,
    carId: int,
    checkinType: string,
    state: string,
    delayAtCheckout: Minutes,
    timeDeltaWithPrevious: Minutes,
    previousEndedRentalId: Option<int>)

  // Comparisons as Python evaluates them on a float column: every comparison
  // with NaN is false.

  /** `x > c` */
  predicate Above(x: Minutes, c: real)
  {
    x.Some? && x.value > c
  }

  /** `x >= c` */
  predicate AtLeast(x: Minutes, c: real)
  {
    x.Some? && x.value >= c
  }

  /** `x <= c` */
  predicate AtMost(x: Minutes, c: real)
  {
    x.Some? && x.value <= c
  }

  /** The two values of the `checkout_status` columns. */
  datatype CheckoutStatus = InTime | OutOfTime
  {
    function Label(): string
    {
      match this
      case InTime => "in_time"
      case OutOfTime => "out_of_time"
    }
  }

  /** `rental_id` identifies a row of the table. */
  predicate UniqueRentalIds(df: seq<Rental>)
  {
    forall i, j :: 0 <= i < |df| && 0 <= j < |df| && df[i].rentalId == df[j].rentalId ==> i == j
  }
}
