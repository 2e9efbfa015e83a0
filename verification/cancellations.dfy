/** The canceled rentals and whether the previous driver's late checkout
    explains them (dashboard/app.py:256-301). */
module Cancellations {
  import opened Tables
  import opened Rentals
  import opened Checkout

  // ----- selections -----

  predicate IsCanceled(r: Rental)
  {
    r.state == "canceled"
  }

  predicate IsCanceledWithPrevious(r: Rental)
  {
    r.state == "canceled" && r.previousEndedRentalId.Some?
  }

  /** `all_cancelations`: the canceled rentals. */
  function AllCancelations(df: seq<Rental>): (canceled: seq<Rental>)
    ensures forall r :: r in canceled <==> r in df && r.state == "canceled"
  {
    Filter(IsCanceled, df)
  }

  /** The canceled rentals whose car has a known previous rental. */
  function CanceledWithPrevious(df: seq<Rental>): (canceled: seq<Rental>)
    ensures forall r :: r in canceled <==> r in df && r.state == "canceled" && r.previousEndedRentalId.Some?
  {
    Filter(IsCanceledWithPrevious, df)
  }

  /** The two bars of the cancellation chart: the cancellations with a known
      previous rental are among all cancellations, so there are no more of them. */
  lemma CanceledWithPreviousAmongAll(df: seq<Rental>)
    ensures |CanceledWithPrevious(df)| <= |AllCancelations(df)|
    ensures multiset(CanceledWithPrevious(df)) <= multiset(AllCancelations(df))
  {
    FilterStricter(IsCanceledWithPrevious, IsCanceled, df);
  }

  // ----- left merge on previous_ended_rental_id = rental_id -----

  /** A row of the merged table: the canceled rental and the columns of its
      previous rental, all NaN (`None`) when no row has that id. */
  datatype Joined = Joined(current: Rental, previous: Option<Rental>)

  /** The right rows that join with left row `l`. A NaN key matches nothing. */
  function IsPreviousOf(l: Rental): Rental -> bool
  {
    (p: Rental) => l.previousEndedRentalId == Some(p.rentalId)
  }

  function PairWith(l: Rental): Rental -> Joined
  {
    (p: Rental) => Joined(l, Some(p))
  }

  /** A merged row is consistent with the right table: a previous rental is a right
      row with the referenced id, and a missing one means no right row has that id. */
  predicate JoinedWith(j: Joined, right: seq<Rental>)
  {
    match j.previous
    case Some(p) => p in right && j.current.previousEndedRentalId == Some(p.rentalId)
    case None => forall p :: p in right ==> j.current.previousEndedRentalId != Some(p.rentalId)
  }

  /** The rows a left merge produces for one left row: one per matching right
      row, in right-table order, or a single row with NaN previous columns. */
  function MergeRow(l: Rental, right: seq<Rental>): (joined: seq<Joined>)
    ensures |joined| >= 1
    ensures forall j :: j in joined ==> j.current == l && JoinedWith(j, right)
    ensures forall p :: p in right && l.previousEndedRentalId == Some(p.rentalId) ==> Joined(l, Some(p)) in joined
  {
    var matches := Filter(IsPreviousOf(l), right);
    if matches == [] then [Joined(l, None)]
    else
      var paired := Apply(PairWith(l), matches);
      assert forall j :: j in paired ==> j.current == l && JoinedWith(j, right) by {
        forall j | j in paired
          ensures j.current == l && JoinedWith(j, right)
        {
          var i :| 0 <= i < |paired| && paired[i] == j;
          assert matches[i] in matches;
        }
      }
      assert forall p :: p in right && l.previousEndedRentalId == Some(p.rentalId) ==> Joined(l, Some(p)) in paired by {
        forall p | p in right && l.previousEndedRentalId == Some(p.rentalId)
          ensures Joined(l, Some(p)) in paired
        {
          assert IsPreviousOf(l)(p);
          var i :| 0 <= i < |matches| && matches[i] == p;
          assert paired[i] == Joined(l, Some(p));
        }
      }
      paired
  }

  /** `merge(how='left')`: every left row, in order, with its matches. */
  function LeftMerge(left: seq<Rental>, right: seq<Rental>): (joined: seq<Joined>)
    ensures |joined| >= |left|
    ensures forall j :: j in joined ==> j.current in left && JoinedWith(j, right)
  {
    if left == [] then []
    else
      assert forall l :: l in left[1..] ==> l in left;
      MergeRow(left[0], right) + LeftMerge(left[1..], right)
  }

  /** No left row is lost: each appears in the merge, with or without a match. */
  lemma {:induction false} LeftMergeKeepsEveryLeftRow(left: seq<Rental>, right: seq<Rental>)
    ensures forall l :: l in left ==> exists j :: j in LeftMerge(left, right) && j.current == l
  {
    if left != [] {
      LeftMergeKeepsEveryLeftRow(left[1..], right);
      var head := MergeRow(left[0], right);
      var tail := LeftMerge(left[1..], right);
      assert LeftMerge(left, right) == head + tail;
      assert head[0] in head + tail;
      forall l | l in left
        ensures exists j :: j in head + tail && j.current == l
      {
        if l != left[0] {
          assert l in left[1..];
          var j :| j in tail && j.current == l;
          assert j in head + tail;
        }
      }
    }
  }

  /** No match is lost: each left row is joined to every right row that carries
      its previous rental id. */
  lemma {:induction false} LeftMergeKeepsEveryMatch(left: seq<Rental>, right: seq<Rental>)
    ensures forall l, p :: l in left && p in right && l.previousEndedRentalId == Some(p.rentalId) ==>
              Joined(l, Some(p)) in LeftMerge(left, right)
  {
    if left != [] {
      LeftMergeKeepsEveryMatch(left[1..], right);
      var head := MergeRow(left[0], right);
      var tail := LeftMerge(left[1..], right);
      assert LeftMerge(left, right) == head + tail;
      forall l, p | l in left && p in right && l.previousEndedRentalId == Some(p.rentalId)
        ensures Joined(l, Some(p)) in head + tail
      {
        if l != left[0] {
          assert l in left[1..];
        }
      }
    }
  }

  /** The merge of a concatenation is the concatenation of the merges: the left
      rows keep their order. */
  lemma {:induction false} LeftMergeConcat(a: seq<Rental>, b: seq<Rental>, right: seq<Rental>)
    ensures LeftMerge(a + b, right) == LeftMerge(a, right) + LeftMerge(b, right)
  {
    if a == [] {
      assert a + b == b;
    } else {
      assert (a + b)[0] == a[0];
      assert (a + b)[1..] == a[1..] + b;
      LeftMergeConcat(a[1..], b, right);
    }
  }

  /** With unique rental ids a left row matches at most one right row. */
  lemma {:induction false} AtMostOneMatch(l: Rental, right: seq<Rental>)
    requires UniqueRentalIds(right)
    ensures |Filter(IsPreviousOf(l), right)| <= 1
  {
    if right != [] {
      assert UniqueRentalIds(right[1..]) by {
        forall i, j | 0 <= i < |right[1..]| && 0 <= j < |right[1..]| && right[1..][i].rentalId == right[1..][j].rentalId
          ensures i == j
        {
          assert right[i + 1].rentalId == right[j + 1].rentalId;
        }
      }
      AtMostOneMatch(l, right[1..]);
      if IsPreviousOf(l)(right[0]) {
        forall p | p in right[1..] ensures !IsPreviousOf(l)(p) {
          var k :| 0 <= k < |right[1..]| && right[1..][k] == p;
          assert right[k + 1] == p;
        }
        FilterNone(IsPreviousOf(l), right[1..]);
      }
    }
  }

  /** With unique rental ids the merge yields exactly one row per left row, in
      order, each joined to the previous rental with the referenced id if any. */
  lemma {:induction false} LeftMergeOneToOne(left: seq<Rental>, right: seq<Rental>)
    requires UniqueRentalIds(right)
    ensures |LeftMerge(left, right)| == |left|
    ensures forall i :: 0 <= i < |left| ==>
              LeftMerge(left, right)[i].current == left[i] && JoinedWith(LeftMerge(left, right)[i], right)
  {
    if left != [] {
      AtMostOneMatch(left[0], right);
      LeftMergeOneToOne(left[1..], right);
      var head := MergeRow(left[0], right);
      assert |head| == 1 && head[0] in head;
    }
  }

  // ----- attribution columns -----

  /** `delay_at_checkout_in_minutes_previous`. */
  function PreviousDelay(j: Joined): Minutes
  {
    match j.previous
    case Some(p) => p.delayAtCheckout
    case None => None
  }

  /** The lambda of `checkout_status_previous`: strictly positive delays only. */
  function PreviousCheckoutStatus(x: Minutes): (s: CheckoutStatus)
    ensures s == OutOfTime <==> x.Some? && x.value > 0.0
  {
    if Above(x, 0.0) then OutOfTime else InTime
  }

  /** The lambda of `delay_at_checkout_with_previous_rental`: early, on-time and
      missing delays count as 0. */
  function ClampedPreviousDelay(x: Minutes): (clamped: real)
    ensures clamped >= 0.0
    ensures x.Some? && x.value >= 0.0 ==> clamped == x.value
    ensures clamped > 0.0 <==> PreviousCheckoutStatus(x) == OutOfTime
  {
    if Above(x, 0.0) then x.value else 0.0
  }

  /** `delay_at_checkin_in_minutes`: NaN when the time delta is NaN. */
  function DelayAtCheckin(clamped: real, timeDelta: Minutes): (delay: Minutes)
    ensures delay.Some? <==> timeDelta.Some?
    ensures delay.Some? ==> delay.value + timeDelta.value == clamped
  {
    match timeDelta
    case Some(t) => Some(clamped - t)
    case None => None
  }

  /** The values of the `delay_checkin` column. */
  datatype YesNo = No | Yes
  {
    function Label(): string
    {
      match this
      case No => "no"
      case Yes => "yes"
    }
  }

  /** The lambda of `delay_checkin`. */
  function DelayCheckinOf(x: Minutes): (answer: YesNo)
    ensures answer == Yes <==> x.Some? && x.value > 0.0
  {
    if Above(x, 0.0) then Yes else No
  }

  /** A row of `df_canceled` with its four derived columns. */
  datatype Attribution = Attribution(
    row: Joined,
    previousStatus: CheckoutStatus,
    clampedPreviousDelay: real,
    delayAtCheckin: Minutes,
    delayCheckin: YesNo)

  function Attribute(j: Joined): Attribution
  {
    var clamped := ClampedPreviousDelay(PreviousDelay(j));
    var atCheckin := DelayAtCheckin(clamped, j.current.timeDeltaWithPrevious);
    Attribution(j, PreviousCheckoutStatus(PreviousDelay(j)), clamped, atCheckin, DelayCheckinOf(atCheckin))
  }

  /** `df_canceled` after its derived columns are added. */
  function CancellationAttribution(df: seq<Rental>): (attributed: seq<Attribution>)
    ensures |attributed| >= |CanceledWithPrevious(df)|
    ensures forall a :: a in attributed ==>
              a.row.current in CanceledWithPrevious(df) && JoinedWith(a.row, df) && a == Attribute(a.row)
    ensures forall c :: c in CanceledWithPrevious(df) ==> exists a :: a in attributed && a.row.current == c
  {
    var canceled := CanceledWithPrevious(df);
    var merged := LeftMerge(canceled, df);
    var attributed := Apply(Attribute, merged);
    ApplyMembers(Attribute, merged);
    LeftMergeKeepsEveryLeftRow(canceled, df);
    assert forall c :: c in canceled ==> exists a :: a in attributed && a.row.current == c by {
      forall c | c in canceled
        ensures exists a :: a in attributed && a.row.current == c
      {
        var j :| j in merged && j.current == c;
        assert Attribute(j) in attributed;
      }
    }
    attributed
  }

  /** The previous driver is blamed exactly when the time delta is known and the
      previous driver's overrun exceeds it; a previous rental that was in time (or
      is unknown) is blamed only when the time delta is negative. */
  lemma BlameMeansOverrunExceedsGap(j: Joined)
    ensures var a := Attribute(j);
            var gap := j.current.timeDeltaWithPrevious;
            a.delayCheckin == Yes <==> gap.Some? && a.clampedPreviousDelay > gap.value
    ensures var a := Attribute(j);
            var gap := j.current.timeDeltaWithPrevious;
            a.previousStatus == InTime ==> (a.delayCheckin == Yes <==> gap.Some? && gap.value < 0.0)
  {
  }

  /** A canceled rental whose previous id matches no row keeps its row with an
      in-time previous status and a clamped delay of 0. */
  lemma UnresolvedPreviousIsInTime(j: Joined)
    requires j.previous.None?
    ensures Attribute(j).previousStatus == InTime
    ensures Attribute(j).clampedPreviousDelay == 0.0
  {
  }

  /** The two status rules disagree exactly on a delay of 0 minutes: out of time at
      checkout, in time as a previous checkout. */
  lemma StatusRulesDisagreeOnlyAtZero(x: Minutes)
    ensures CheckoutStatusOf(x) != PreviousCheckoutStatus(x) <==> x == Some(0.0)
  {
  }

  /** With unique rental ids there is one attribution per canceled rental with a
      known previous rental, in table order. */
  lemma AttributionPerCancellation(df: seq<Rental>)
    requires UniqueRentalIds(df)
    ensures |CancellationAttribution(df)| == |CanceledWithPrevious(df)|
    ensures forall i :: 0 <= i < |CancellationAttribution(df)| ==>
              CancellationAttribution(df)[i].row.current == CanceledWithPrevious(df)[i]
  {
    LeftMergeOneToOne(CanceledWithPrevious(df), df);
  }

  /** A canceled rental 10 minutes after a checkout 200 minutes late: the previous
      checkout is out of time, the next driver waits 190 minutes, and the
      cancellation is blamed on the previous driver. */
  lemma LateCheckoutExample(previous: Rental, canceled: Rental)
    requires previous.rentalId == 1 && previous.state == "ended"
    requires previous.delayAtCheckout == Some(200.0)
    requires canceled.rentalId == 2 && canceled.state == "canceled"
    requires canceled.previousEndedRentalId == Some(1)
    requires canceled.timeDeltaWithPrevious == Some(10.0)
    ensures CancellationAttribution([previous, canceled]) ==
            [Attribution(Joined(canceled, Some(previous)), OutOfTime, 200.0, Some(190.0), Yes)]
  {
    var df := [previous, canceled];
    assert CanceledWithPrevious(df) == [canceled] by {
      assert df[1..][1..] == [];
    }
    assert Filter(IsPreviousOf(canceled), df) == [previous] by {
      assert df[1..][1..] == [];
    }
    assert LeftMerge([canceled], df) == [Joined(canceled, Some(previous))] by {
      assert [canceled][1..] == [];
    }
  }
}
