/**
 * The leave-accrual engine: the statutory annual-leave table, monthly leave in
 * the first year of service (one day per month, valued at the day-weighted
 * average weekly standard hours of the month before), and the yearly
 * entitlement from the first anniversary on, shared out over the runs of
 * constant weekly standard hours of the leave year.
 */
module Accrual {
  import opened Calendar
  import opened Timeline
  import opened Reals
  import opened Outcome

  // ---------------------------------------------------------------------
  // statutory_days
  // ---------------------------------------------------------------------

  /** Days of annual leave after a number of whole years of service: 15, one more every two years, at most 25. */
  function StatutoryDays(serviceYears: int): (n: int)
    ensures serviceYears <= 0 ==> n == 0
    ensures serviceYears >= 1 ==> 15 <= n <= 25
  {
    if serviceYears <= 0 then 0 else Min(15 + (serviceYears - 1) / 2, 25)
  }

  /** The table starts at 15 for the first two years and adds a day every two years until it reaches 25. */
  lemma StatutoryDaysSteps(y: int)
    requires y >= 1
    ensures StatutoryDays(1) == 15 && StatutoryDays(2) == 15
    ensures StatutoryDays(y + 2) == Min(StatutoryDays(y) + 1, 25)
    ensures StatutoryDays(y + 1) <= StatutoryDays(y) + 1
  {
  }

  /** The table reaches its cap of 25 days at 21 years and never falls. */
  lemma StatutoryDaysCap(y: int)
    ensures y >= 21 ==> StatutoryDays(y) == 25
    ensures 1 <= y < 21 ==> StatutoryDays(y) < 25
  {
  }

  /** More service never means less leave. */
  lemma StatutoryDaysMonotone(a: int, b: int)
    requires a <= b
    ensures StatutoryDays(a) <= StatutoryDays(b)
  {
  }

  // ---------------------------------------------------------------------
  // Day-weighted average of the weekly standard hours
  // ---------------------------------------------------------------------

  /** Sum over the segments of (segment days / total days) * WSH: the day-weighted average. */
  function WeightedWsh(segs: seq<Segment>, totalDays: int): real
    requires totalDays > 0
  {
    if segs == [] then 0.0
    else
      var last := segs[|segs| - 1];
      WeightedWsh(segs[..|segs| - 1], totalDays) + Mul(Div(SegmentDays(last) as real, totalDays as real), last.wsh)
  }

  /** The weighted sum lies between lo and hi, each scaled by the share of days the segments cover. */
  lemma {:induction false} WeightedWshBounds(segs: seq<Segment>, totalDays: int, lo: real, hi: real)
    requires totalDays > 0 && WshWithin(segs, lo, hi)
    requires forall k :: 0 <= k < |segs| ==> SegmentDays(segs[k]) >= 0
    ensures Mul(Div(SumDays(segs) as real, totalDays as real), lo) <= WeightedWsh(segs, totalDays)
    ensures WeightedWsh(segs, totalDays) <= Mul(Div(SumDays(segs) as real, totalDays as real), hi)
    decreases |segs|
  {
    var t := totalDays as real;
    if segs == [] {
      DivOfZero(t);
      MulByZero(lo);
      MulCommutes(0.0, lo);
      MulByZero(hi);
      MulCommutes(0.0, hi);
    } else {
      var n := |segs|;
      var init := segs[..n - 1];
      var last := segs[n - 1];
      assert forall k :: 0 <= k < n - 1 ==> init[k] == segs[k];
      WeightedWshBounds(init, totalDays, lo, hi);
      var f := Div(SegmentDays(last) as real, t);
      DivNonNegative(SegmentDays(last) as real, t);
      MulMonotoneRight(f, lo, last.wsh);
      MulMonotoneRight(f, last.wsh, hi);
      var g := Div(SumDays(init) as real, t);
      assert SumDays(segs) == SumDays(init) + SegmentDays(last);
      assert WeightedWsh(segs, totalDays) == WeightedWsh(init, totalDays) + Mul(f, last.wsh);
      DivAdds(SumDays(init) as real, SegmentDays(last) as real, t);
      assert Div(SumDays(segs) as real, t) == g + f;
      MulAdds(g, f, lo);
      MulAdds(g, f, hi);
    }
  }

  /** Over segments that tile the reference window, the weighted average lies between the smallest and largest WSH. */
  lemma WeightedAverageWithin(segs: seq<Segment>, start: Date, end: Date, lo: real, hi: real)
    requires Tiles(segs, start, end) && WshWithin(segs, lo, hi)
    ensures DaysBetweenInclusive(start, end) > 0
    ensures lo <= WeightedWsh(segs, DaysBetweenInclusive(start, end)) <= hi
  {
    TilesDays(segs, start, end);
    TilesRangeNonEmpty(segs, start, end);
    var t := DaysBetweenInclusive(start, end);
    forall k | 0 <= k < |segs|
      ensures SegmentDays(segs[k]) >= 0
    {
      TilesSegmentsNonEmpty(segs, start, end, k);
    }
    WeightedWshBounds(segs, t, lo, hi);
    DivSelf(t as real);
    MulCommutes(1.0, lo);
    MulOne(lo);
    MulCommutes(1.0, hi);
    MulOne(hi);
  }

  /** With one constant WSH over the window, the average is that WSH. */
  lemma WeightedAverageConstant(segs: seq<Segment>, start: Date, end: Date, w: real)
    requires Tiles(segs, start, end) && WshWithin(segs, w, w)
    ensures DaysBetweenInclusive(start, end) > 0
    ensures WeightedWsh(segs, DaysBetweenInclusive(start, end)) == w
  {
    WeightedAverageWithin(segs, start, end, w, w);
  }

  /** The inner loop of `accrual_under_1y_monthly`: accumulate (days / month days) * WSH over the segments. */
  method AverageWsh(segs: seq<Segment>, monthDays: int) returns (weighted: real)
    requires monthDays > 0
    ensures weighted == WeightedWsh(segs, monthDays)
  {
    weighted := 0.0;
    var i := 0;
    while i < |segs|
      invariant 0 <= i <= |segs|
      invariant weighted == WeightedWsh(segs[..i], monthDays)
    {
      var s := segs[i];
      var frac := Div(DaysBetweenInclusive(s.start, s.end) as real, monthDays as real);
      assert segs[..i + 1][..i] == segs[..i];
      weighted := weighted + Mul(frac, s.wsh);
      i := i + 1;
    }
    assert segs[..i] == segs;
  }

  // ---------------------------------------------------------------------
  // accrual_under_1y_monthly
  // ---------------------------------------------------------------------

  /** One monthly grant of the first year (a row of the source's table; the display strings are not kept). */
  datatype MonthlyGrant = MonthlyGrant(awardDate: Date, refStart: Date, refEnd: Date, monthDays: int,
                                       avgWsh: real, accrualDays: real, accrualHours: real,
                                       splits: seq<Segment>)

  /** Total leave days and leave hours of a table. */
  datatype Totals = Totals(daysTotal: real, hoursTotal: real)

  /** The last day on which a monthly grant can fall: the earlier of end_limit and the day before the first anniversary. */
  function PeriodEnd(joinDate: Date, endLimit: Date): (r: Date)
    ensures NotAfter(r, endLimit) && NotAfter(r, PrevDay(AddYears(joinDate, 1)))
    ensures r == endLimit || r == PrevDay(AddYears(joinDate, 1))
  {
    var oneYearEnd := PrevDay(AddYears(joinDate, 1));
    if LexBefore(oneYearEnd, endLimit) then oneYearEnd else endLimit
  }

  /**
   * The n-th monthly grant after joinDate: it falls n months after joining,
   * its reference window is the month before it, its segments are that
   * window's split of the normalised timeline, and it is worth one day valued
   * at the day-weighted average WSH of the window.
   */
  function GrantOf(joinDate: Date, n: int, changes: seq<Change>, defaultWsh: real): MonthlyGrant
    requires n >= 1
  {
    WindowSplits(joinDate, n, changes, defaultWsh);
    var awardDate := AddMonths(joinDate, n);
    var refStart := AddMonths(joinDate, n - 1);
    var refEnd := PrevDay(awardDate);
    var segs := Split(refStart, refEnd, Normalized(joinDate, changes, defaultWsh)).value;
    var monthDays := DaysBetweenInclusive(refStart, refEnd);
    var avg := WeightedWsh(segs, monthDays);
    MonthlyGrant(awardDate, refStart, refEnd, monthDays, avg, 1.0, avg, segs)
  }

  /** The first m monthly grants. */
  function Grants(joinDate: Date, m: nat, changes: seq<Change>, defaultWsh: real): (rows: seq<MonthlyGrant>)
    ensures |rows| == m
  {
    if m == 0 then [] else Grants(joinDate, m - 1, changes, defaultWsh) + [GrantOf(joinDate, m, changes, defaultWsh)]
  }

  function DaysTotal(rows: seq<MonthlyGrant>): real {
    if rows == [] then 0.0 else DaysTotal(rows[..|rows| - 1]) + rows[|rows| - 1].accrualDays
  }

  function HoursTotal(rows: seq<MonthlyGrant>): real {
    if rows == [] then 0.0 else HoursTotal(rows[..|rows| - 1]) + rows[|rows| - 1].accrualHours
  }

  /** The reference window of the n-th grant is non-empty, starts on or after joining and splits without error. */
  lemma WindowSplits(joinDate: Date, n: int, changes: seq<Change>, defaultWsh: real)
    requires n >= 1
    ensures var refStart := AddMonths(joinDate, n - 1);
      var refEnd := PrevDay(AddMonths(joinDate, n));
      NotAfter(refStart, refEnd) && DaysBetweenInclusive(refStart, refEnd) > 0 &&
      Split(refStart, refEnd, Normalized(joinDate, changes, defaultWsh)).Ok?
  {
    var refStart := AddMonths(joinDate, n - 1);
    var award := AddMonths(joinDate, n);
    AddMonthsStrictlyIncreasing(joinDate, n - 1, n);
    BeforeIffNotAfterPrevDay(refStart, award);
    NotAfterIffOrdinalLe(refStart, PrevDay(award));
    AddMonthsZero(joinDate);
    if n > 1 {
      AddMonthsStrictlyIncreasing(joinDate, 0, n - 1);
    }
    NormalizedDefinedFrom(joinDate, changes, defaultWsh, refStart);
  }

  /** The body of the grant loop of `accrual_under_1y_monthly`: build the n-th grant from the normalised timeline cs. */
  method GrantAt(joinDate: Date, n: int, cs: seq<Change>, changes: seq<Change>, defaultWsh: real)
    returns (grant: MonthlyGrant)
    requires n >= 1 && cs == Normalized(joinDate, changes, defaultWsh)
    ensures grant == GrantOf(joinDate, n, changes, defaultWsh)
  {
    var awardDate := AddMonths(joinDate, n);
    var refStart := AddMonths(joinDate, n - 1);
    var refEnd := PrevDay(awardDate);
    WindowSplits(joinDate, n, changes, defaultWsh);
    var split := SplitByChanges(refStart, refEnd, cs);
    var segs := split.value;
    var monthDays := DaysBetweenInclusive(refStart, refEnd);
    var weighted := AverageWsh(segs, monthDays);
    grant := MonthlyGrant(awardDate, refStart, refEnd, monthDays, weighted, 1.0, weighted, segs);
  }

  /**
   * `accrual_under_1y_monthly`: one grant per month on the day of joining, at
   * most 11, while the grant date is not after PeriodEnd; the totals add up the
   * table.
   */
  method AccrualUnder1yMonthly(joinDate: Date, endLimit: Date, changes: seq<Change>, defaultWsh: real)
    returns (rows: seq<MonthlyGrant>, totals: Totals)
    ensures |rows| <= 11
    ensures rows == Grants(joinDate, |rows|, changes, defaultWsh)
    ensures forall i :: 1 <= i <= |rows| ==> NotAfter(AddMonths(joinDate, i), PeriodEnd(joinDate, endLimit))
    ensures |rows| < 11 ==> LexBefore(PeriodEnd(joinDate, endLimit), AddMonths(joinDate, |rows| + 1))
    ensures totals == Totals(DaysTotal(rows), HoursTotal(rows))
  {
    var cs := NormalizeChanges(joinDate, changes, defaultWsh);
    var periodEnd := PeriodEnd(joinDate, endLimit);
    rows := [];
    var n := 1;
    while n < 12
      invariant 1 <= n <= 12 && |rows| == n - 1
      invariant rows == Grants(joinDate, n - 1, changes, defaultWsh)
      invariant n > 1 ==> NotAfter(AddMonths(joinDate, n - 1), periodEnd)
    {
      var awardDate := AddMonths(joinDate, n);
      if LexBefore(periodEnd, awardDate) {
        break;
      }
      var grant := GrantAt(joinDate, n, cs, changes, defaultWsh);
      rows := rows + [grant];
      n := n + 1;
    }
    totals := Totals(DaysTotal(rows), HoursTotal(rows));
    GrantDatesInPeriod(joinDate, |rows|, periodEnd);
  }

  /** If the m-th grant date is in the period, so are all earlier ones. */
  lemma GrantDatesInPeriod(joinDate: Date, m: int, periodEnd: Date)
    requires m > 0 ==> NotAfter(AddMonths(joinDate, m), periodEnd)
    ensures forall i :: 1 <= i <= m ==> NotAfter(AddMonths(joinDate, i), periodEnd)
  {
    forall i | 1 <= i < m
      ensures NotAfter(AddMonths(joinDate, i), periodEnd)
    {
      AddMonthsStrictlyIncreasing(joinDate, i, m);
    }
  }

  /** Each grant's window is the month before it; its segments tile the window and follow the normalised timeline. */
  lemma GrantSplitsTile(joinDate: Date, n: int, changes: seq<Change>, defaultWsh: real)
    requires n >= 1
    ensures var g := GrantOf(joinDate, n, changes, defaultWsh);
      g.awardDate == AddMonths(joinDate, n) && g.refStart == AddMonths(joinDate, n - 1) &&
      g.refEnd == PrevDay(g.awardDate) && g.monthDays > 0 &&
      g.accrualDays == 1.0 && g.accrualHours == g.avgWsh &&
      Tiles(g.splits, g.refStart, g.refEnd) &&
      Follows(g.splits, Normalized(joinDate, changes, defaultWsh)) &&
      SumDays(g.splits) == g.monthDays
  {
    var g := GrantOf(joinDate, n, changes, defaultWsh);
    var cs := Normalized(joinDate, changes, defaultWsh);
    WindowSplits(joinDate, n, changes, defaultWsh);
    NormalizedSorted(joinDate, changes, defaultWsh);
    WshAtUndefinedIff(cs, g.refStart);
    SplitTiles(g.refStart, g.refEnd, cs);
    TilesDays(g.splits, g.refStart, g.refEnd);
  }

  /** When the entries and the default lie in lo..hi, so do the segment WSHs of every grant window. */
  lemma GrantSegmentsWithin(joinDate: Date, n: int, changes: seq<Change>, defaultWsh: real, lo: real, hi: real)
    requires n >= 1 && ChangesWithin(changes, lo, hi) && lo <= defaultWsh <= hi
    ensures WshWithin(GrantOf(joinDate, n, changes, defaultWsh).splits, lo, hi)
  {
    GrantSplitsTile(joinDate, n, changes, defaultWsh);
    NormalizedWithin(joinDate, changes, defaultWsh, lo, hi);
    FollowsWithin(GrantOf(joinDate, n, changes, defaultWsh).splits, Normalized(joinDate, changes, defaultWsh), lo, hi);
  }

  /** A grant is valued between the smallest and largest WSH given; with one WSH throughout, at exactly it. */
  lemma GrantValueWithin(joinDate: Date, n: int, changes: seq<Change>, defaultWsh: real, lo: real, hi: real)
    requires n >= 1 && ChangesWithin(changes, lo, hi) && lo <= defaultWsh <= hi
    ensures lo <= GrantOf(joinDate, n, changes, defaultWsh).accrualHours <= hi
  {
    var g := GrantOf(joinDate, n, changes, defaultWsh);
    GrantSplitsTile(joinDate, n, changes, defaultWsh);
    GrantSegmentsWithin(joinDate, n, changes, defaultWsh, lo, hi);
    WeightedAverageWithin(g.splits, g.refStart, g.refEnd, lo, hi);
  }

  /** The hour total of the first m grants lies between m times the smallest and m times the largest WSH given. */
  lemma {:induction false} GrantsHoursWithin(joinDate: Date, m: nat, changes: seq<Change>, defaultWsh: real, lo: real, hi: real)
    requires ChangesWithin(changes, lo, hi) && lo <= defaultWsh <= hi
    ensures Mul(m as real, lo) <= HoursTotal(Grants(joinDate, m, changes, defaultWsh)) <= Mul(m as real, hi)
  {
    if m == 0 {
      MulCommutes(0.0, lo);
      MulByZero(lo);
      MulCommutes(0.0, hi);
      MulByZero(hi);
    } else {
      var rows := Grants(joinDate, m, changes, defaultWsh);
      var prev := Grants(joinDate, m - 1, changes, defaultWsh);
      var h := GrantOf(joinDate, m, changes, defaultWsh).accrualHours;
      GrantsHoursWithin(joinDate, m - 1, changes, defaultWsh, lo, hi);
      assert rows[..m - 1] == prev;
      assert HoursTotal(rows) == HoursTotal(prev) + h;
      GrantValueWithin(joinDate, m, changes, defaultWsh, lo, hi);
      MulSucc(m - 1, lo);
      MulSucc(m - 1, hi);
    }
  }

  /** Consecutive grants have back-to-back reference windows; the window starts on the previous grant's date. */
  lemma ConsecutiveWindows(joinDate: Date, n: int, changes: seq<Change>, defaultWsh: real)
    requires n >= 1
    ensures GrantOf(joinDate, n, changes, defaultWsh).refEnd == PrevDay(GrantOf(joinDate, n + 1, changes, defaultWsh).refStart)
    ensures GrantOf(joinDate, n, changes, defaultWsh).awardDate == GrantOf(joinDate, n + 1, changes, defaultWsh).refStart
  {
  }

  /** One day per grant: the day total of the first m grants is m. */
  lemma {:induction false} GrantsDaysTotal(joinDate: Date, m: nat, changes: seq<Change>, defaultWsh: real)
    ensures DaysTotal(Grants(joinDate, m, changes, defaultWsh)) == m as real
  {
    if m > 0 {
      var rows := Grants(joinDate, m, changes, defaultWsh);
      var prev := Grants(joinDate, m - 1, changes, defaultWsh);
      var d := GrantOf(joinDate, m, changes, defaultWsh).accrualDays;
      GrantsDaysTotal(joinDate, m - 1, changes, defaultWsh);
      assert rows[..m - 1] == prev;
      assert DaysTotal(rows) == DaysTotal(prev) + d;
      assert d == 1.0;
    }
  }

  // ---------------------------------------------------------------------
  // accrual_over_1y
  // ---------------------------------------------------------------------

  /** One row of the over-one-year table: a segment's share of the leave year (display strings not kept). */
  datatype YearShare = YearShare(start: Date, end: Date, segDays: int, ratio: real,
                                 allocDays: real, wsh: real, allocHours: real)

  /** The result of `accrual_over_1y`. */
  datatype YearAccrual = YearAccrual(serviceYears: int, days: int, shares: seq<YearShare>, totals: Totals,
                                     prevAnniv: Date, targetAnniv: Date)

  /** The share of segment s in a leave year of yearDays days that carries n statutory days. */
  function ShareOf(s: Segment, yearDays: int, n: int): YearShare
    requires yearDays > 0
  {
    var d := SegmentDays(s);
    var ratio := Div(d as real, yearDays as real);
    var alloc := Mul(n as real, ratio);
    YearShare(s.start, s.end, d, ratio, alloc, s.wsh, Mul(alloc, s.wsh))
  }

  /** The shares of all segments, in order. */
  function Shares(segs: seq<Segment>, yearDays: int, n: int): (rows: seq<YearShare>)
    requires yearDays > 0
    ensures |rows| == |segs|
  {
    if segs == [] then []
    else Shares(segs[..|segs| - 1], yearDays, n) + [ShareOf(segs[|segs| - 1], yearDays, n)]
  }

  function AllocatedDays(rows: seq<YearShare>): real {
    if rows == [] then 0.0 else AllocatedDays(rows[..|rows| - 1]) + rows[|rows| - 1].allocDays
  }

  function AllocatedHours(rows: seq<YearShare>): real {
    if rows == [] then 0.0 else AllocatedHours(rows[..|rows| - 1]) + rows[|rows| - 1].allocHours
  }

  /** The leave year before targetAnniv: from one year earlier to the day before it. */
  lemma LeaveYearSplits(targetAnniv: Date, changes: seq<Change>, defaultWsh: real)
    ensures var prev := AddYears(targetAnniv, -1);
      var end := PrevDay(targetAnniv);
      NotAfter(prev, end) && DaysBetweenInclusive(prev, end) > 0 &&
      Split(prev, end, Normalized(prev, changes, defaultWsh)).Ok?
  {
    var prev := AddYears(targetAnniv, -1);
    YearEarlierIsEarlier(targetAnniv);
    BeforeIffNotAfterPrevDay(prev, targetAnniv);
    NotAfterIffOrdinalLe(prev, PrevDay(targetAnniv));
    NormalizedDefinedFrom(prev, changes, defaultWsh, prev);
  }

  /** The segments of the leave year before targetAnniv, over the timeline normalised at its first day. */
  function YearSegments(targetAnniv: Date, changes: seq<Change>, defaultWsh: real): seq<Segment> {
    LeaveYearSplits(targetAnniv, changes, defaultWsh);
    var prev := AddYears(targetAnniv, -1);
    Split(prev, PrevDay(targetAnniv), Normalized(prev, changes, defaultWsh)).value
  }

  /** What `accrual_over_1y` returns for joinDate and targetAnniv. */
  function OverYear(joinDate: Date, targetAnniv: Date, changes: seq<Change>, defaultWsh: real): YearAccrual {
    LeaveYearSplits(targetAnniv, changes, defaultWsh);
    var prev := AddYears(targetAnniv, -1);
    var serviceYears := YearsBetween(joinDate, targetAnniv);
    var n := StatutoryDays(serviceYears);
    var rows := Shares(YearSegments(targetAnniv, changes, defaultWsh), DaysBetweenInclusive(prev, PrevDay(targetAnniv)), n);
    YearAccrual(serviceYears, n, rows, Totals(n as real, AllocatedHours(rows)), prev, targetAnniv)
  }

  /** The loop of `accrual_over_1y`: one share per segment, summing the hours. */
  method AllocateShares(segs: seq<Segment>, yearDays: int, n: int) returns (rows: seq<YearShare>, totalHours: real)
    requires yearDays > 0
    ensures rows == Shares(segs, yearDays, n)
    ensures totalHours == AllocatedHours(rows)
  {
    rows := [];
    totalHours := 0.0;
    var i := 0;
    while i < |segs|
      invariant 0 <= i <= |segs|
      invariant rows == Shares(segs[..i], yearDays, n)
      invariant totalHours == AllocatedHours(rows)
    {
      var s := segs[i];
      var segDays := DaysBetweenInclusive(s.start, s.end);
      var ratio := Div(segDays as real, yearDays as real);
      var allocDays := Mul(n as real, ratio);
      var hours := Mul(allocDays, s.wsh);
      assert segs[..i + 1][..i] == segs[..i];
      var row := YearShare(s.start, s.end, segDays, ratio, allocDays, s.wsh, hours);
      assert (rows + [row])[..|rows|] == rows;
      rows := rows + [row];
      totalHours := totalHours + hours;
      i := i + 1;
    }
    assert segs[..i] == segs;
  }

  /**
   * `accrual_over_1y`: the statutory days of the service year, spread over the
   * leave year's WSH segments by their share of days and converted to hours.
   */
  method AccrualOver1y(joinDate: Date, targetAnniv: Date, changes: seq<Change>, defaultWsh: real)
    returns (r: YearAccrual)
    ensures r == OverYear(joinDate, targetAnniv, changes, defaultWsh)
  {
    var prevAnniv := AddYears(targetAnniv, -1);
    var serviceYears := YearsBetween(joinDate, targetAnniv);
    var n := StatutoryDays(serviceYears);
    var cs := NormalizeChanges(prevAnniv, changes, defaultWsh);
    var end := PrevDay(targetAnniv);
    LeaveYearSplits(targetAnniv, changes, defaultWsh);
    var split := SplitByChanges(prevAnniv, end, cs);
    var segs := split.value;
    var yearDays := DaysBetweenInclusive(prevAnniv, end);
    var rows, totalHours := AllocateShares(segs, yearDays, n);
    r := YearAccrual(serviceYears, n, rows, Totals(n as real, totalHours), prevAnniv, targetAnniv);
  }

  /** The totals of the shares grow by the last segment's share. */
  lemma SharesLast(segs: seq<Segment>, yearDays: int, n: int)
    requires yearDays > 0 && segs != []
    ensures var prev := Shares(segs[..|segs| - 1], yearDays, n);
      var s := ShareOf(segs[|segs| - 1], yearDays, n);
      AllocatedDays(Shares(segs, yearDays, n)) == AllocatedDays(prev) + s.allocDays &&
      AllocatedHours(Shares(segs, yearDays, n)) == AllocatedHours(prev) + s.allocHours
  {
    var rows := Shares(segs, yearDays, n);
    assert rows[..|segs| - 1] == Shares(segs[..|segs| - 1], yearDays, n);
  }

  /** One more segment of d days adds n * d / t to n * s / t. */
  lemma ShareStep(acc: real, n: real, s: real, d: real, t: real)
    requires t != 0.0 && acc == Mul(n, Div(s, t))
    ensures acc + Mul(n, Div(d, t)) == Mul(n, Div(s + d, t))
  {
    DivAdds(s, d, t);
    MulDistributes(n, Div(s, t), Div(d, t));
  }

  /** One more segment of share f and WSH w adds (n * f) * w to n * avg. */
  lemma HoursStep(acc: real, n: real, avg: real, f: real, w: real)
    requires acc == Mul(n, avg)
    ensures acc + Mul(Mul(n, f), w) == Mul(n, avg + Mul(f, w))
  {
    MulAssociates(n, f, w);
    MulDistributes(n, avg, Mul(f, w));
  }

  /** The allocated days add up to n times the share of the year the segments cover. */
  lemma {:induction false} SharesAllocate(segs: seq<Segment>, yearDays: int, n: int)
    requires yearDays > 0
    ensures AllocatedDays(Shares(segs, yearDays, n)) == Mul(n as real, Div(SumDays(segs) as real, yearDays as real))
    decreases |segs|
  {
    var t := yearDays as real;
    if segs == [] {
      DivOfZero(t);
      MulByZero(n as real);
    } else {
      var k := |segs|;
      var init := segs[..k - 1];
      var last := segs[k - 1];
      var prev := Shares(init, yearDays, n);
      SharesAllocate(init, yearDays, n);
      SharesLast(segs, yearDays, n);
      assert SumDays(segs) == SumDays(init) + SegmentDays(last);
      ShareStep(AllocatedDays(prev), n as real, SumDays(init) as real, SegmentDays(last) as real, t);
    }
  }

  /** The allocated hours add up to n times the day-weighted average WSH. */
  lemma {:induction false} SharesHours(segs: seq<Segment>, yearDays: int, n: int)
    requires yearDays > 0
    ensures AllocatedHours(Shares(segs, yearDays, n)) == Mul(n as real, WeightedWsh(segs, yearDays))
    decreases |segs|
  {
    if segs == [] {
      MulByZero(n as real);
    } else {
      SharesHours(segs[..|segs| - 1], yearDays, n);
      SharesHoursExtend(segs, yearDays, n);
    }
  }

  /** If the hours of all but the last segment add up, so do the hours of all segments. */
  lemma SharesHoursExtend(segs: seq<Segment>, yearDays: int, n: int)
    requires yearDays > 0 && segs != []
    requires var init := segs[..|segs| - 1];
      AllocatedHours(Shares(init, yearDays, n)) == Mul(n as real, WeightedWsh(init, yearDays))
    ensures AllocatedHours(Shares(segs, yearDays, n)) == Mul(n as real, WeightedWsh(segs, yearDays))
  {
    var init := segs[..|segs| - 1];
    var last := segs[|segs| - 1];
    var f := Div(SegmentDays(last) as real, yearDays as real);
    SharesLast(segs, yearDays, n);
    assert ShareOf(last, yearDays, n).allocHours == Mul(Mul(n as real, f), last.wsh);
    assert WeightedWsh(segs, yearDays) == WeightedWsh(init, yearDays) + Mul(f, last.wsh);
    HoursStep(AllocatedHours(Shares(init, yearDays, n)), n as real, WeightedWsh(init, yearDays), f, last.wsh);
  }

  /** The leave year's segments tile it and follow the timeline normalised at its first day. */
  lemma YearSegmentsTile(targetAnniv: Date, changes: seq<Change>, defaultWsh: real)
    ensures var prev := AddYears(targetAnniv, -1);
      var end := PrevDay(targetAnniv);
      var segs := YearSegments(targetAnniv, changes, defaultWsh);
      Tiles(segs, prev, end) && Follows(segs, Normalized(prev, changes, defaultWsh)) &&
      SumDays(segs) == DaysBetweenInclusive(prev, end)
  {
    var prev := AddYears(targetAnniv, -1);
    var end := PrevDay(targetAnniv);
    var cs := Normalized(prev, changes, defaultWsh);
    LeaveYearSplits(targetAnniv, changes, defaultWsh);
    NormalizedSorted(prev, changes, defaultWsh);
    WshAtUndefinedIff(cs, prev);
    SplitTiles(prev, end, cs);
    TilesDays(YearSegments(targetAnniv, changes, defaultWsh), prev, end);
  }

  /** The allocated days of the leave year add up to exactly the statutory days reported. */
  lemma OverYearDaysAllocated(joinDate: Date, targetAnniv: Date, changes: seq<Change>, defaultWsh: real)
    ensures var r := OverYear(joinDate, targetAnniv, changes, defaultWsh);
      AllocatedDays(r.shares) == r.days as real == r.totals.daysTotal
  {
    var r := OverYear(joinDate, targetAnniv, changes, defaultWsh);
    var prev := AddYears(targetAnniv, -1);
    var t := DaysBetweenInclusive(prev, PrevDay(targetAnniv));
    LeaveYearSplits(targetAnniv, changes, defaultWsh);
    YearSegmentsTile(targetAnniv, changes, defaultWsh);
    SharesAllocate(YearSegments(targetAnniv, changes, defaultWsh), t, r.days);
    DivSelf(t as real);
    MulOne(r.days as real);
  }

  /** The hours lie between the statutory days times the smallest and the largest WSH of the year. */
  lemma OverYearHoursWithin(joinDate: Date, targetAnniv: Date, changes: seq<Change>, defaultWsh: real, lo: real, hi: real)
    requires ChangesWithin(changes, lo, hi) && lo <= defaultWsh <= hi
    ensures var r := OverYear(joinDate, targetAnniv, changes, defaultWsh);
      Mul(r.days as real, lo) <= r.totals.hoursTotal <= Mul(r.days as real, hi)
  {
    var r := OverYear(joinDate, targetAnniv, changes, defaultWsh);
    var prev := AddYears(targetAnniv, -1);
    var end := PrevDay(targetAnniv);
    var segs := YearSegments(targetAnniv, changes, defaultWsh);
    YearSegmentsTile(targetAnniv, changes, defaultWsh);
    NormalizedWithin(prev, changes, defaultWsh, lo, hi);
    FollowsWithin(segs, Normalized(prev, changes, defaultWsh), lo, hi);
    WeightedAverageWithin(segs, prev, end, lo, hi);
    var t := DaysBetweenInclusive(prev, end);
    SharesHours(segs, t, r.days);
    MulMonotoneRight(r.days as real, lo, WeightedWsh(segs, t));
    MulMonotoneRight(r.days as real, WeightedWsh(segs, t), hi);
  }

  /** On the k-th anniversary of joining, the leave year carries the statutory days of k years of service. */
  lemma OverYearOnAnniversary(joinDate: Date, k: int, changes: seq<Change>, defaultWsh: real)
    requires k >= 1
    ensures var r := OverYear(joinDate, AddYears(joinDate, k), changes, defaultWsh);
      r.serviceYears == k && r.days == StatutoryDays(k) && 15 <= r.days <= 25
  {
    AnniversaryYears(joinDate, k);
  }
}
