# Getaround delay analysis: the delay-impact rules

This project models the classification logic of the Getaround delay-analysis
dashboard (`dashboard/app.py`). The dashboard reads a table of rentals. Each
rental has an id, a car, a check-in type, a state, and three optional columns:
the delay at checkout, the time delta with the car's previous rental, and the
id of that previous rental. From this table the dashboard derives:

- the time-delta label of each rental with a recorded checkout (within three hours or not);
- the `checkout_status` of each such rental (`out_of_time` when the delay is at least 0);
- for the canceled rentals with a known previous rental: a left merge with that
  previous rental, its strict-`> 0` status, its delay clamped at 0, the delay the
  next driver faced at check-in, and the `"yes"`/`"no"` blame flag;
- the 16 lateness groups of the late checkouts, for all rentals and for Connect rentals;
- the `solved` flag of the fixed 3-hour (180-minute) threshold.

Minutes are `real`. A NaN cell is `Option.None`, and every comparison with NaN is
false (`Rentals.Above`, `AtLeast`, `AtMost`). So a missing time delta is labelled
"> 3 hours", a missing previous delay gives `in_time` and a clamped delay of 0, and
a missing time delta makes the check-in delay NaN and the blame flag `"no"`.

Modules, one per part of the script:

- `Tables`: row selection (`Filter`, the boolean-mask `df.loc[...]` and `dropna`) and `Apply`.
- `Rentals`: the rental record, the NaN-aware comparisons and the status values.
- `Checkout`: `dropna`, the time-delta loop and the `checkout_status` column.
- `Cancellations`: the cancellation selections, the left merge and the attribution columns.
- `Lateness`: the late table, the lateness groups, the Connect scope and the solved flag.

The three labelling loops of the script are methods with `for` loops. Each is
proved against the column function that the lemmas reason about. The per-row
tests and lambdas, the selections and the merge are functions.

Three behaviours of the code are kept exactly as written:

- A canceled rental whose previous id matches no row is not dropped. The left merge
  keeps it with NaN previous columns, so it is `in_time` with a clamped delay of 0
  (`Cancellations.UnresolvedPreviousIsInTime`).
- The last lateness group is not only (14400, ∞). A delay of exactly 0 is
  `out_of_time` (line 222) but falls through every branch of the chain to
  "late more than 10 days" (`Lateness.ZeroDelayIsLateMoreThanTenDays`).
- The tenth branch of the chain has lower bound 4320 as written (line 348). It is
  modelled as written; `Lateness.FourToFiveDaysExact` shows that its group is still
  exactly (5760, 7200].

## Model

| member | source | states |
|---|---|---|
| `Checkout.DropMissingDelay` | dashboard/app.py:219 | keeps exactly the rentals whose checkout delay is recorded |
| `Checkout.TimeDeltaLabelOf` | dashboard/app.py:172-176 | "within 3 hours" iff the time delta is present and 0 ≤ v ≤ 180, so negative, longer and missing gaps get "> 3 hours" |
| `Checkout.LabelTimeDeltas` | dashboard/app.py:168-178 | the loop yields the label column of the dropped-NaN table: one label per row, in row order, each "within 3 hours" iff that row's time delta is present and 0 ≤ v ≤ 180 |
| `Checkout.TimeDeltaLabelsConcat` | dashboard/app.py:168-178 | the label column of a concatenation is the concatenation of the label columns, so labels follow the row order |
| `Checkout.CheckoutStatusOf` | dashboard/app.py:221-222 | `out_of_time` iff the delay is present and ≥ 0, else `in_time` |
| `Checkout.CheckoutTable` | dashboard/app.py:219-222 | every row has a recorded delay and comes from the input; its status is `out_of_time` iff that delay is ≥ 0 |
| `Checkout.CheckoutTableComplete` | dashboard/app.py:219-222 | every rental with a recorded delay appears in the checkout table with its status |
| `Checkout.CheckoutTableSingle` | dashboard/app.py:219-222 | a one-row table keeps its row, with its status, exactly when the delay is recorded |
| `Checkout.CheckoutTableConcat` | dashboard/app.py:219-222 | the pass distributes over concatenation, so it keeps the order of the rows it keeps |
| `Lateness.LateTable` | dashboard/app.py:325 | keeps exactly the checkout rows whose status is `out_of_time` |
| `Lateness.LateGroupOf` | dashboard/app.py:329-361 | the if/elif chain lands in the group whose interval (lower, upper] of the partition 0, 60, 120, 180, 240, 360, 1440, …, 14400 holds the delay; everything else, NaN included, lands in the last group |
| `Lateness.InGroupUnique` | dashboard/app.py:330-361 | the intervals of the groups do not overlap, so each delay has one group |
| `Lateness.LateGroupExact` | dashboard/app.py:329-361 | the chain returns group k iff the delay lies in group k's interval |
| `Lateness.BoundaryInLowerGroup` | dashboard/app.py:330-359 | each upper bound belongs to the lower group and one minute more belongs to the next (180 is "2 to 3 hours", 181 is "3 to 4 hours") |
| `Lateness.FourToFiveDaysExact` | dashboard/app.py:346-349 | despite its lower bound of 4320, "late btw 4 and 5 days" is exactly (5760, 7200] |
| `Lateness.LabelLateGroups` | dashboard/app.py:327-363 | the loop yields one label per late row, in row order, each the label of that row's group |
| `Lateness.ConnectOnly` | dashboard/app.py:367-368 | keeps exactly the late rows whose check-in type is "connect" |
| `Lateness.ConnectCountsBounded` | dashboard/app.py:365-368 | the Connect group counts are, group by group, at most the all-rentals counts |
| `Lateness.LateDelaysNonNegative` | dashboard/app.py:325 | every row of the late table has a recorded delay ≥ 0 |
| `Lateness.LastGroupOfLateTable` | dashboard/app.py:360-361 | in the late table, "late more than 10 days" holds exactly the delays above 14400 and the delays of exactly 0 |
| `Lateness.ZeroDelayIsLateMoreThanTenDays` | dashboard/app.py:221-222 | a rental returned with delay 0 is in the late table and is labelled "late more than 10 days" |
| `Lateness.SolvedOf` | dashboard/app.py:410-414 | solved iff the delay is present and 0 < d ≤ 180, iff the row's group is one of the first three |
| `Lateness.MarkSolved` | dashboard/app.py:408-416 | the loop yields one flag per late row, in row order, each the row's solved flag |
| `Lateness.FirstLabelsDistinct` | dashboard/app.py:330-335 | the labels of the first three groups differ from each other and from every other group's label |
| `Lateness.SolvedCountIsFirstThreeGroups` | dashboard/app.py:408-418 | the number of solved rows equals the total of the counts of the first three groups |
| `Lateness.ThreeHourThresholdExample` | dashboard/app.py:410-414 | late delays 60, 180 and 181 give two solved cases and one unsolved |
| `Cancellations.AllCancelations` | dashboard/app.py:256 | keeps exactly the canceled rentals |
| `Cancellations.CanceledWithPrevious` | dashboard/app.py:271-272 | keeps exactly the canceled rentals with a previous rental id |
| `Cancellations.CanceledWithPreviousAmongAll` | dashboard/app.py:256-261 | the canceled rentals with a previous rental are among all canceled rentals, so their count is at most the canceled count |
| `Cancellations.MergeRow` | dashboard/app.py:274-275 | a left row yields at least one merged row; each keeps the left row and is joined to a right row with the referenced id, or to nothing when no right row has that id; every right row with the referenced id is joined to it |
| `Cancellations.LeftMerge` | dashboard/app.py:274-275 | the merge has at least as many rows as the left table; every row comes from a left row and is joined consistently |
| `Cancellations.LeftMergeKeepsEveryLeftRow` | dashboard/app.py:274-275 | every left row appears in the merge, matched or not |
| `Cancellations.LeftMergeKeepsEveryMatch` | dashboard/app.py:274-275 | every pair of a left row and a right row with the referenced id appears in the merge |
| `Cancellations.LeftMergeConcat` | dashboard/app.py:274-275 | the merge of a concatenation is the concatenation of the merges, so the left order is kept |
| `Cancellations.AtMostOneMatch` | dashboard/app.py:274-275 | when rental ids are unique a left row matches at most one right row |
| `Cancellations.LeftMergeOneToOne` | dashboard/app.py:274-275 | when rental ids are unique the merge yields exactly one row per left row, in order, each joined consistently |
| `Cancellations.PreviousCheckoutStatus` | dashboard/app.py:277-278 | the previous status is `out_of_time` iff the previous delay is present and strictly > 0 |
| `Cancellations.ClampedPreviousDelay` | dashboard/app.py:292-293 | the clamped delay is ≥ 0, equals the previous delay when that is ≥ 0, and is positive iff the previous status is `out_of_time` |
| `Cancellations.DelayAtCheckin` | dashboard/app.py:296-297 | the check-in delay is present iff the time delta is, and then adds with it to the clamped delay |
| `Cancellations.DelayCheckinOf` | dashboard/app.py:300-301 | "yes" iff the check-in delay is present and > 0 |
| `Cancellations.CancellationAttribution` | dashboard/app.py:271-301 | every canceled rental with a previous rental id has an attribution row; each row comes from such a rental, is joined consistently with the table, and carries the four columns computed from its merged row |
| `Cancellations.BlameMeansOverrunExceedsGap` | dashboard/app.py:292-301 | "yes" iff the time delta is known and the clamped previous delay exceeds it; with an in-time previous rental, "yes" iff the time delta is negative |
| `Cancellations.UnresolvedPreviousIsInTime` | dashboard/app.py:274-293 | a merged row with no previous rental has status `in_time` and clamped delay 0 |
| `Cancellations.StatusRulesDisagreeOnlyAtZero` | dashboard/app.py:277-278 | the `>= 0` checkout rule and the `> 0` previous-checkout rule disagree exactly on a delay of 0 |
| `Cancellations.AttributionPerCancellation` | dashboard/app.py:271-301 | when rental ids are unique there is one attribution row per canceled rental with a previous rental, in table order |
| `Cancellations.LateCheckoutExample` | dashboard/app.py:271-301 | a cancellation 10 minutes after a checkout 200 minutes late gives `out_of_time`, clamped delay 200, check-in delay 190 and "yes" |

## Left out

- Loading the spreadsheet (`pd.read_excel`, line 19) and the `st.cache` process-wide cache: file I/O. The table is a parameter.
- All Streamlit layout, markdown and plotly figures: rendering only. The `value_counts` that feed the figures are modelled as multisets of a column.
- The min, max, mean and median statistics (lines 132-135, 243) and `value_counts(normalize=True)` (lines 180-181): floating-point statistics.
- Float arithmetic: minutes are exact reals, so rounding in the one subtraction (line 296) is not modelled.
- `Cancellations.LeftMerge`: pandas also matches a NaN key against NaN right keys. Here a missing previous id matches nothing. The merged table only ever holds rows with a present previous id, and `rental_id` is never NaN, so no row of the dashboard is affected.
- The threshold is the fixed 180 minutes of the script (line 411). A threshold parameter, monotonicity in it, and solved proportions do not appear in the code, so they are not modelled.
- dashboard/utils.py (PDF report and download link), api/app.py (prediction endpoint), mlflow/train.py (model training) and api/test.py (HTTP client): library delegation and I/O, outside the delay analysis.
