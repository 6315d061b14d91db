# Wage and annual-leave calculator: a verified model

`app.py` is a single Streamlit page for Korean payroll with two calculation
engines under its user interface.

**Wage engine.** A daily shift (start, end, break) and a number of working
days per week are turned into four monthly hour buckets:

- base hours: the weekly hours capped at 40, times 4.345 weeks;
- weekly-holiday hours: one fifth of the capped weekly hours times 4.345, capped at 35;
- overtime hours;
- night hours: the overlap of the shift with hours 22..30 counted from the midnight before the start (22:00-06:00 for a shift starting that evening).

Each bucket can optionally be rounded up to a whole hour. From an hourly base
wage the engine derives the monthly pay:

- base pay and holiday pay, rounded up to the won and optionally to the next 10 won;
- the ordinary ("normal") hourly wage, which includes the holiday pay and the fixed allowances;
- overtime pay at ×1.5 and night pay at ×0.5 for workplaces with five or more
  employees (×1.0 and ×0 otherwise);
- the total.

The reverse page searches for the largest integer hourly base wage whose
total does not exceed a target salary.

**Leave-accrual engine.** A timeline of weekly standard hours (WSH) changes is
normalised and split into runs of constant WSH. In the first year, one leave
day is granted each month on the day of joining, valued at the day-weighted
average WSH of the month before. From the first anniversary on, the statutory
number of days (15, plus one every two years, capped at 25) is spread over the
leave year's WSH segments by their share of days.

The project has seven modules:

- `Outcome` (outcome.dfy): `Result`, `Option` and the error cases.
- `Reals` (reals.dfy): real products and quotients with their algebraic facts.
- `Rounding` (rounding.dfy): `math.ceil`, `ceil_if`, `won_ceil`, `ceil_ones`.
- `Wage` (wage.dfy): hour buckets, forward pay, the reverse search.
- `Calendar` (calendar.dfy): proleptic Gregorian dates, ordinals, `relativedelta` by months and years, `eom`.
  The ordinal is the day number that Python's `toordinal` gives.
- `Timeline` (timeline.dfy): `normalize_changes`, `split_by_changes`.
- `Accrual` (accrual.dfy): `statutory_days`, `accrual_under_1y_monthly`, `accrual_over_1y`.

Each loop of the source is a `method`. The reverse search (`SearchBaseWage`,
`SearchDown`, `SearchUp`) is proved against its optimality contract, stated with
the predicate `Fits`: the result fits and the next wage does not, or it is 0.
The other loops are proved against a specification function:

- the copy-and-sort of `normalize_changes`;
- the two loops of `split_by_changes`;
- the grant loop and the weighted-average loop of `accrual_under_1y_monthly`;
- the share loop of `accrual_over_1y`.

The properties of each of these methods are lemmas about its function. The straight-line
formulas are functions.

## Model

| member | source | states |
|---|---|---|
| Wage.HoursBetween | app.py:23-29 | the shift length is in (0, 24]: end − start when the end is later, end + 24 − start when the shift passes midnight (an equal end counts as 24 hours) |
| Wage.NightHours | app.py:31-37 | the overlap with hours 22..30 of the start day's clock is between 0 and 8 hours, never more than the shift, and 0 for a same-day shift ending by 22:00 |
| Wage.NightWindowFollowsStart | app.py:31-37 | the window does not move with the shift: 00:00-06:00 has no night hours and 05:00-23:00 has one |
| Wage.OvernightShift | app.py:23-37 | a 22:00-06:00 shift lasts 8 hours, all of them night hours |
| Wage.LateShift | app.py:23-37 | a 10:00-23:00 shift lasts 13 hours, one of them a night hour |
| Rounding.Ceil | app.py:41 | `math.ceil`: the least integer not below x |
| Rounding.CeilMonotone | app.py:41 | ceiling is monotone |
| Rounding.CeilIf | app.py:39-41 | with the flag off the hours are unchanged; with it on they become a whole number in [x, x + 1); zero stays zero and positive stays positive |
| Rounding.CeilIfAtMost | app.py:39-41 | rounding up never passes a whole-number bound |
| Rounding.CeilOfWhole | app.py:41 | a whole number is its own ceiling |
| Rounding.WonCeil | app.py:43-45 | the least whole won amount not below x |
| Rounding.CeilOnes | app.py:47-49 | a multiple of 10 in [n, n + 10), i.e. the least multiple of 10 not below n |
| Rounding.CeilOnesIdempotent | app.py:47-49 | rounding up to 10 won twice equals rounding once |
| Rounding.CeilOnesFixesMultiples | app.py:47-49 | multiples of 10 are left unchanged |
| Rounding.Finalize | app.py:136-139 | a pay component is at least its unrounded amount and less than 1 won above it (10 won with the option, then a multiple of 10) |
| Rounding.FinalizeMonotone | app.py:136-139 | finalising is monotone in the amount |
| Rounding.FinalizeZero | app.py:136-139 | zero stays zero |
| Wage.DailyWork | app.py:103-104 | the daily working hours are non-negative and, for a non-negative break, never exceed the shift |
| Wage.WeeklyRaw | app.py:105 | weekly hours before the cap are non-negative |
| Wage.WeeklyBuckets | app.py:106-111 | base hours within [0, 40 × 4.345]; holiday hours = min(base / 5, 35); base + overtime = weekly hours × 4.345; no overtime up to 40 weekly hours and base exactly 40 × 4.345 from 40 weekly hours on; base hours are 0 exactly when no hours are worked |
| Wage.MonthlyNight | app.py:112 | monthly night hours are between 0 and 8 × days × 4.345 |
| Wage.UnroundedHours | app.py:103-112 | all four buckets are non-negative; base ≤ 40 × 4.345, and exactly that from 40 weekly hours on; holiday = min(base / 5, 35); base + overtime = weekly hours × 4.345; no overtime up to 40 weekly hours; no base exactly when no work; night ≤ 8 × days × 4.345 |
| Wage.MonthlyHoursOf | app.py:103-118 | after optional rounding: all non-negative, holiday ≤ 35, no overtime up to 40 weekly hours, no base hours exactly when no work, and no base means no holiday; unchanged with the flag off, and with it on each bucket is a whole number of hours raised by less than an hour from the unrounded one |
| Wage.DenominatorPositiveIffWork | app.py:120-123 | the denominator base + holiday is positive exactly when some hours are worked, and then base hours are positive |
| Wage.DaysFromMonthlyOff | app.py:332-336 | days per week derived from monthly days off lie in [0, 7], add up with off / 4.345 to 7 inside the range and are 0 beyond it |
| Wage.RoundedUpUnique | app.py:43-49 | the rounded-up amount is unique, so the contracts below fix each component exactly |
| Wage.HourlyPay | app.py:136-139 | base or holiday pay is the amount wage × hours rounded up as configured |
| Wage.OrdinaryWage | app.py:142 | the ordinary wage is (base + holiday + allowances) / denominator, rounded up to the won |
| Wage.PremiumPay | app.py:145-148 | overtime or night pay is ordinary wage × hours × factor, rounded up as configured |
| Wage.HourlyPayMonotone | app.py:136-139 | more wage never means less base or holiday pay |
| Wage.OrdinaryWageMonotone | app.py:142 | a larger pay sum never means a smaller ordinary wage |
| Wage.PremiumPayMonotone | app.py:145-148 | a larger ordinary wage never means a smaller premium |
| Wage.PremiumPayNonNegative | app.py:145-148 | premiums are non-negative for non-negative inputs |
| Wage.PremiumPayWithoutPremium | app.py:126-127 | a zero factor gives a zero premium |
| Wage.SimulateTotal | app.py:126-151 | total = base + holiday + overtime + night + meal + car, with each component fixed by its rounding rule and the factors set by the five-employee flag |
| Wage.NoNightPremiumUnderFive | app.py:126-146 | below five employees the night pay is 0 |
| Wage.TotalMonotone | app.py:134-151 | the total never decreases when the hourly wage grows |
| Wage.TotalAtLeastWageTimesHours | app.py:134-151 | for non-negative inputs the total is at least wage × (base + holiday hours) |
| Wage.PremiumsNonNegative | app.py:134-151 | for non-negative inputs every pay component is non-negative |
| Wage.MonthlyPay | app.py:249-286 | the forward pay pages: an error exactly when no hours are worked (the denominator would be zero), and otherwise the hour buckets and the simulated pay |
| Wage.LocalMaximumIsGlobal | app.py:153-177 | if b fits and b + 1 does not, then the wages that fit are exactly those ≤ b |
| Wage.InferBaseWage | app.py:96-199 | allowances above the salary are rejected, and so is a zero denominator; otherwise the result is the largest fitting wage, with its pay and the gap salary − total. When wage 0 overshoots, the result is 0 and no non-negative wage fits |
| Wage.StartingWage | app.py:130-154 | with x = (salary − allowances) / denominator: for x > −1 the starting point is x rounded up to the won, and for x ≤ −1 it is 0 |
| Wage.SearchBaseWage | app.py:154-177 | the search returns bw ≥ 0 with its pay; either it fits and bw + 1 does not, or bw = 0 |
| Wage.SearchResultOptimal | app.py:154-177 | the search's result is globally optimal, or nothing non-negative fits |
| Wage.SearchDown | app.py:157-162 | stepping down from a wage that overshoots stops at the first wage that fits, or at 0 |
| Wage.SearchUp | app.py:164-173 | stepping up from a fitting wage stops at a wage that fits whose successor does not |
| Wage.FitsBelowBound | app.py:164-173 | every fitting wage is at most floor(salary / denominator), so the upward search terminates |
| Wage.NothingFits | app.py:175-177 | when wage 0 overshoots, every non-negative wage overshoots |
| Calendar.DaysInMonth | app.py:431 | `monthrange(y, m)[1]`: 28-31 days; under 30 only in February, which has 29 exactly in leap years; 30 exactly in April, June, September and November |
| Calendar.LexBeforeIffOrdinalLess | app.py:461-467 | date order agrees with the order of day numbers |
| Calendar.OrdinalInjective | app.py:433-435 | different dates have different day numbers |
| Calendar.PrevDayOrdinal | app.py:481 | `d - timedelta(days=1)` is one day number earlier |
| Calendar.DaysBetweenInclusive | app.py:433-435 | one day for equal dates; at least one exactly when a is not after b |
| Calendar.EndOfMonth | app.py:429-431 | the result is in d's month and not before d |
| Calendar.EndOfMonthIsLast | app.py:429-431 | no day of the month comes after it |
| Calendar.AddMonths | app.py:529-533 | `+ relativedelta(months=n)` moves n calendar months and clamps the day to the month's length |
| Calendar.AddYears | app.py:524 | `relativedelta(years=n)` is a shift by 12n months |
| Calendar.AddMonthsZero | app.py:533 | a shift by zero months is the identity |
| Calendar.AddMonthsStrictlyIncreasing | app.py:528-533 | a larger month shift lands on a strictly later date |
| Calendar.YearEarlierIsEarlier | app.py:574 | one year before the anniversary is strictly earlier |
| Calendar.BeforeIffNotAfterPrevDay | app.py:481-482 | x < e exactly when x ≤ e − 1 day |
| Calendar.MonthsBetweenIsWholeMonths | app.py:575 | the month count of `relativedelta(to, from)` is the number of whole months that still fit before `to` |
| Calendar.YearsBetween | app.py:575 | `relativedelta(to, from).years`: for from ≤ to, the y ≥ 0 with from + y years ≤ to < from + (y + 1) years; non-positive for to < from |
| Calendar.AnniversaryYears | app.py:575 | on the k-th anniversary exactly k years have passed |
| Timeline.Insert | app.py:449 | inserting keeps the same entries (as a multiset) |
| Timeline.SortByDate | app.py:449 | sorting keeps the same entries (as a multiset) |
| Timeline.SortByDateSorted | app.py:449 | the sorted timeline is ordered by date |
| Timeline.SortByDateStable | app.py:449 | entries with equal dates keep their input order |
| Timeline.NormalizeChanges | app.py:437-452 | the copy, sort and prepend produce the normalised timeline; it is sorted, non-empty and starts on or before the anchor |
| Timeline.NormalizedSorted | app.py:449-451 | the normalised timeline is sorted |
| Timeline.NormalizedCoversAnchor | app.py:450-451 | it starts on or before the anchor |
| Timeline.NormalizedPermutation | app.py:444-451 | it holds exactly the inputs, plus (anchor, default) when nothing was in effect at the anchor |
| Timeline.NormalizedStable | app.py:449-451 | per date, the entries keep their input order |
| Timeline.WshAtUndefinedIff | app.py:465-472 | no WSH is found at the start exactly when the timeline is empty or starts after it |
| Timeline.WshAtIsLatest | app.py:465-470 | on a sorted timeline the scan finds the last entry dated on or before the day |
| Timeline.NormalizedDefinedFrom | app.py:450-472 | from the anchor on, the normalised timeline always defines a WSH, so the split never raises |
| Timeline.SplitByChanges | app.py:454-488 | [] when start > end; otherwise an error exactly when no WSH is defined at the start, and the segments of `Split` |
| Timeline.SplitTiles | app.py:454-488 | on a sorted timeline defined at start ≤ end, the segments are non-empty and contiguous, start at start and end at end, and on each of their days the WSH in effect is the segment's |
| Timeline.TilesDays | app.py:481-487 | the day counts of such segments add up to the day count of the range |
| Timeline.LatestIsEntry | app.py:465-470 | the WSH in effect on a day is the WSH of one of the timeline's entries |
| Timeline.LatestWithin | app.py:465-470 | the WSH in effect on a day lies in any range that holds every entry's WSH |
| Timeline.FollowsEntries | app.py:476-487 | every segment that follows the timeline carries the WSH of one of its entries |
| Timeline.FollowsWithin | app.py:476-487 | such segments stay in any range that holds every entry's WSH |
| Timeline.NormalizedWithin | app.py:444-451 | normalising adds no WSH outside a range that holds the entries and the default |
| Accrual.StatutoryDays | app.py:494-504 | 0 for y ≤ 0; between 15 and 25 for y ≥ 1 |
| Accrual.StatutoryDaysSteps | app.py:494-504 | 15 for y = 1 and 2, 16 for y = 3 and 4, one more day every two years |
| Accrual.StatutoryDaysCap | app.py:494-504 | 25 from y = 21 on |
| Accrual.StatutoryDaysMonotone | app.py:494-504 | more service never means fewer days |
| Accrual.AverageWsh | app.py:540-543 | the loop computes the day-weighted WSH sum |
| Accrual.WeightedAverageWithin | app.py:540-543 | over segments tiling the window, the weighted average lies between the smallest and largest segment WSH |
| Accrual.WeightedAverageConstant | app.py:540-543 | with one WSH throughout, the average is that WSH |
| Accrual.PeriodEnd | app.py:524-525 | the grant period ends at the earlier of `end_limit` and the day before the first anniversary |
| Accrual.WindowSplits | app.py:533-537 | every grant's reference window is non-empty and its split succeeds |
| Accrual.GrantAt | app.py:529-555 | one pass of the grant loop builds the n-th grant |
| Accrual.AccrualUnder1yMonthly | app.py:509-562 | at most 11 rows, exactly the first grants in order; every grant date is in the period, and fewer than 11 rows means the next grant date is past it; the totals add up the table |
| Accrual.GrantSplitsTile | app.py:529-555 | grant n falls n months after joining; its window is the month before it; its segments tile the window and follow the normalised timeline; it is worth 1 day and its average WSH in hours |
| Accrual.GrantValueWithin | app.py:540-553 | a grant is worth between the smallest and largest WSH given (the entries and the default) |
| Accrual.ConsecutiveWindows | app.py:529-534 | each window ends the day before the next starts, and the next starts on this grant's date |
| Accrual.GrantsDaysTotal | app.py:552-559 | the day total of m grants is m |
| Accrual.GrantsHoursWithin | app.py:553-560 | the hour total of m grants lies between m × the smallest and m × the largest WSH given |
| Accrual.LeaveYearSplits | app.py:574-581 | the leave year (one year before the anniversary to the day before it) is non-empty and its split succeeds |
| Accrual.AllocateShares | app.py:582-596 | the share loop produces the shares of the segments and sums their hours |
| Accrual.AccrualOver1y | app.py:567-600 | the result is service years, N, one share per leave-year segment, days total N and hours total the sum of the shares |
| Accrual.SharesAllocate | app.py:583-592 | the allocated days sum to N × (days covered / days in the year) |
| Accrual.SharesHours | app.py:583-596 | the hours sum to N × the day-weighted average WSH |
| Accrual.YearSegmentsTile | app.py:578-581 | the leave year's segments tile it, follow the timeline normalised at its first day and cover all its days |
| Accrual.OverYearDaysAllocated | app.py:583-599 | the allocated days add up to exactly N, which is the reported day total |
| Accrual.OverYearHoursWithin | app.py:583-599 | the hour total lies between N × the smallest and N × the largest WSH given |
| Accrual.OverYearOnAnniversary | app.py:574-576 | on the k-th anniversary the service years are k and N = statutory_days(k), between 15 and 25 |

## Left out

- The Streamlit interface is not modelled: sidebar, inputs, buttons, `st.write`/`success`/`info`/`warning`, the result display. `st.error` followed by `st.stop` becomes an `Err` result.
- pandas `DataFrame` building and the `to_datetime` parsing of the change table are left out. Result tables are sequences of records, and their totals are sums.
- Display-only values are left out: `human_readable`, the `ref_window` string, f-string formatting and the `gap_pct` percentage.
- Floating point is not modelled; hours and WSH are exact reals. The `1e-12` correction inside `won_ceil` only absorbs binary rounding error, so the model leaves it out.
- Rounding.WonCeil: it is the exact ceiling; the source first subtracts 1e-12, so an amount less than 1e-12 above a whole number rounds down to it there and up here.
- Python's year range 1..9999 (`OverflowError` outside it) is not modelled; dates are proleptic Gregorian over all integer years.
- The `isinstance(d, datetime)` coercion and the `float(w)` conversion in `normalize_changes` are Python type details with no effect on values here.
- Timeline.SortByDate: `list.sort` is modelled by its contract (ordered, a permutation, stable), as a stable insertion sort; Timsort's internal steps are not modelled.
- The "월급 계산" page has no check on the denominator and would raise `ZeroDivisionError`. The model reports it as `Err(ZeroDenominator)`, like the "월휴무" page's explicit check.
- Wage.MonthlyHoursOf: with hour rounding on, base hours can reach 174, above 40 × 4.345 = 173.8, as the code rounds up after the cap.
- Timeline.SplitByChanges: tiling and WSH-following are stated (in SplitTiles) for sorted timelines only, which is what every caller passes after normalisation; on an unsorted list only the result and the error condition are stated.
- The `ValueError` that `split_by_changes` can raise is unreachable from both accrual functions, since they split from the anchor of a normalised timeline (Timeline.NormalizedDefinedFrom). Their models therefore have no error path.
- The duplicated constants and local imports of the three pages (`WEEKS_PER_MONTH`, `MAX_WEEKLY_HOURS`, `MAX_MONTHLY_HOLIDAY`, `time`) repeat the same values; one definition is modelled.
- The days per week of the two integer-input pages are the real `daysPerWeek` of the schedule; the 1-7 input bounds are a UI constraint and are not required.
