/**
 * The wage engine: from a daily schedule to monthly hour buckets, from an
 * hourly base wage to the monthly pay breakdown, and back from a target monthly
 * salary to the largest hourly base wage whose pay does not exceed it.
 */
module Wage {
  import opened Rounding
  import opened Outcome
  import opened Reals

  // Statutory limits. A month is counted as 4.345 weeks; that factor is
  // written out as a literal wherever hours are converted to monthly hours.
  const MaxWeeklyHours: real := 40.0
  const MaxMonthlyHoliday: real := 35.0

  // ---------------------------------------------------------------------------
  // Schedule and hour buckets
  // ---------------------------------------------------------------------------

  datatype TimeOfDay = TimeOfDay(hour: int, minute: int)

  /** A wall-clock time, as Python's datetime.time accepts it. */
  type Clock = t: TimeOfDay | 0 <= t.hour < 24 && 0 <= t.minute < 60 witness TimeOfDay(0, 0)

  /** The time as hours after midnight. */
  function Hours(t: Clock): (h: real)
    ensures 0.0 <= h < 24.0
  {
    t.hour as real + t.minute as real / 60.0
  }

  /**
   * `hours_between`: length of the shift in hours; an end at or before the
   * start means the shift runs past midnight.
   */
  function HoursBetween(start: Clock, end: Clock): (r: real)
    ensures 0.0 < r <= 24.0
    ensures Hours(start) < Hours(end) ==> r == Hours(end) - Hours(start)
    ensures Hours(end) <= Hours(start) ==> r == Hours(end) + 24.0 - Hours(start)
  {
    var s := Hours(start);
    var e := if Hours(end) <= s then Hours(end) + 24.0 else Hours(end);
    MaxR(0.0, e - s)
  }

  /**
   * `night_hours_simple`: overlap of the shift with the night window
   * 22:00-06:00, taken as hours 22..30 on a clock that starts at midnight
   * before the shift's start and continues past the next midnight.
   */
  function NightHours(start: Clock, end: Clock): (r: real)
    ensures 0.0 <= r <= 8.0
    ensures r <= HoursBetween(start, end)
    ensures Hours(start) < Hours(end) <= 22.0 ==> r == 0.0
  {
    var s := Hours(start);
    var e := if Hours(end) <= s then Hours(end) + 24.0 else Hours(end);
    MaxR(0.0, MinR(e, 30.0) - MaxR(s, 22.0))
  }

  /** An overnight shift 22:00-06:00 lasts 8 hours, all of them night hours. */
  lemma OvernightShift()
    ensures HoursBetween(TimeOfDay(22, 0), TimeOfDay(6, 0)) == 8.0
    ensures NightHours(TimeOfDay(22, 0), TimeOfDay(6, 0)) == 8.0
  {
  }

  /**
   * The window is fixed at 22..30 on the start day's clock: a shift that
   * starts after midnight gets none of it before 06:00, and a shift 05:00-23:00
   * counts only 22:00-23:00.
   */
  lemma NightWindowFollowsStart()
    ensures NightHours(TimeOfDay(0, 0), TimeOfDay(6, 0)) == 0.0
    ensures NightHours(TimeOfDay(5, 0), TimeOfDay(23, 0)) == 1.0
  {
  }

  /** A 10:00-23:00 shift has one night hour (22:00-23:00). */
  lemma LateShift()
    ensures HoursBetween(TimeOfDay(10, 0), TimeOfDay(23, 0)) == 13.0
    ensures NightHours(TimeOfDay(10, 0), TimeOfDay(23, 0)) == 1.0
  {
  }

  /**
   * A work schedule. `daysPerWeek` is a whole number 1..7 in two of the
   * source's forms and a fraction derived from monthly days off in the third.
   */
  datatype Schedule = Schedule(start: Clock, end: Clock, breakMinutes: int, daysPerWeek: real)

  /** Working hours per day: the shift minus the break, never negative. */
  function DailyWork(s: Schedule): (r: real)
    ensures 0.0 <= r
    ensures s.breakMinutes >= 0 ==> r <= HoursBetween(s.start, s.end)
  {
    MaxR(0.0, HoursBetween(s.start, s.end) - s.breakMinutes as real / 60.0)
  }

  /** Working hours per week before the statutory 40-hour cap. */
  function WeeklyRaw(s: Schedule): (r: real)
    requires s.daysPerWeek >= 0.0
    ensures 0.0 <= r
  {
    MulNonNegative(DailyWork(s), s.daysPerWeek);
    Mul(DailyWork(s), s.daysPerWeek)
  }

  /** The four monthly hour quantities. */
  datatype MonthlyHours = MonthlyHours(base: real, holiday: real, overtime: real, night: real)

  predicate NonNegative(h: MonthlyHours) {
    0.0 <= h.base && 0.0 <= h.holiday && 0.0 <= h.overtime && 0.0 <= h.night
  }

  /** The hour buckets before the optional rounding up to whole hours. */
  function UnroundedHours(s: Schedule): (h: MonthlyHours)
    requires s.daysPerWeek >= 0.0
    ensures NonNegative(h)
    ensures h.base <= MaxWeeklyHours * 4.345
    ensures h.holiday == MinR(h.base / 5.0, MaxMonthlyHoliday)
    ensures h.base + h.overtime == WeeklyRaw(s) * 4.345
    ensures WeeklyRaw(s) <= MaxWeeklyHours ==> h.overtime == 0.0
    ensures WeeklyRaw(s) >= MaxWeeklyHours ==> h.base == MaxWeeklyHours * 4.345
    ensures h.base == 0.0 <==> WeeklyRaw(s) == 0.0
    ensures h.night <= 8.0 * s.daysPerWeek * 4.345
  {
    var h := WeeklyBuckets(WeeklyRaw(s));
    MonthlyHours(h.base, h.holiday, h.overtime, MonthlyNight(NightHours(s.start, s.end), s.daysPerWeek))
  }

  /** The base, weekly-holiday and overtime buckets of a week of `weeklyRaw` hours. */
  function WeeklyBuckets(weeklyRaw: real): (h: MonthlyHours)
    requires 0.0 <= weeklyRaw
    ensures 0.0 <= h.base <= MaxWeeklyHours * 4.345
    ensures 0.0 <= h.holiday && 0.0 <= h.overtime && h.night == 0.0
    ensures h.holiday == MinR(h.base / 5.0, MaxMonthlyHoliday)
    ensures h.base + h.overtime == weeklyRaw * 4.345
    ensures weeklyRaw <= MaxWeeklyHours ==> h.overtime == 0.0
    ensures weeklyRaw >= MaxWeeklyHours ==> h.base == MaxWeeklyHours * 4.345
    ensures h.base == 0.0 <==> weeklyRaw == 0.0
  {
    var weeklyBase := MinR(weeklyRaw, MaxWeeklyHours);
    MonthlyHours(weeklyBase * 4.345,
                 MinR((weeklyBase / 5.0) * 4.345, MaxMonthlyHoliday),
                 MaxR(0.0, weeklyRaw - MaxWeeklyHours) * 4.345,
                 0.0)
  }

  /** Monthly night hours: the nightly hours times the working days per week times 4.345. */
  function MonthlyNight(night: real, days: real): (r: real)
    requires 0.0 <= night <= 8.0 && 0.0 <= days
    ensures 0.0 <= r <= 8.0 * days * 4.345
  {
    MulNonNegative(night, days);
    MulMonotone(night, 8.0, days);
    Mul(night, days) * 4.345
  }

  /** `x` is the least whole number of hours at or above `raw`. */
  predicate WholeHourAbove(raw: real, x: real) {
    raw <= x < raw + 1.0 && x == x.Floor as real
  }

  /** Each rounded bucket is its unrounded one taken up to a whole hour. */
  predicate WithinAnHour(raw: MonthlyHours, h: MonthlyHours) {
    WholeHourAbove(raw.base, h.base) &&
    WholeHourAbove(raw.holiday, h.holiday) &&
    WholeHourAbove(raw.overtime, h.overtime) &&
    WholeHourAbove(raw.night, h.night)
  }

  /**
   * The monthly hour buckets of a schedule (app.py's hour derivation), each
   * rounded up to a whole hour when `ceilOn` is set.
   */
  function MonthlyHoursOf(s: Schedule, ceilOn: bool): (h: MonthlyHours)
    requires s.daysPerWeek >= 0.0
    ensures NonNegative(h)
    ensures h.holiday <= MaxMonthlyHoliday
    ensures h.base <= if ceilOn then 174.0 else MaxWeeklyHours * 4.345
    ensures WeeklyRaw(s) <= MaxWeeklyHours ==> h.overtime == 0.0
    ensures h.base == 0.0 <==> WeeklyRaw(s) == 0.0
    ensures h.base == 0.0 ==> h.holiday == 0.0
    ensures !ceilOn ==> h == UnroundedHours(s)
    ensures ceilOn ==> WithinAnHour(UnroundedHours(s), h)
  {
    var raw := UnroundedHours(s);
    CeilIfAtMost(raw.base, 174, ceilOn);
    CeilIfAtMost(raw.holiday, 35, ceilOn);
    MonthlyHours(CeilIf(raw.base, ceilOn), CeilIf(raw.holiday, ceilOn),
                 CeilIf(raw.overtime, ceilOn), CeilIf(raw.night, ceilOn))
  }

  /**
   * The denominator base + weekly-holiday hours is positive exactly when the
   * schedule has working hours, and then the base hours alone are positive.
   */
  lemma DenominatorPositiveIffWork(s: Schedule, ceilOn: bool)
    requires s.daysPerWeek >= 0.0
    ensures var h := MonthlyHoursOf(s, ceilOn);
            (h.base + h.holiday > 0.0 <==> WeeklyRaw(s) > 0.0) &&
            (h.base + h.holiday > 0.0 ==> h.base > 0.0)
  {
  }

  /**
   * Working days per week derived from monthly days off:
   * 7 - off / 4.345, clamped to 0..7.
   */
  function DaysFromMonthlyOff(off: real): (d: real)
    ensures 0.0 <= d <= 7.0
    ensures 0.0 <= off <= 7.0 * 4.345 ==> d + off / 4.345 == 7.0
    ensures off >= 7.0 * 4.345 ==> d == 0.0
  {
    var weeklyHolidays := off / 4.345;
    MaxR(0.0, MinR(7.0, 7.0 - weeklyHolidays))
  }

  // ---------------------------------------------------------------------------
  // Forward pay
  // ---------------------------------------------------------------------------

  /** Which pay components are additionally rounded up to 10 won. */
  datatype TenWonRounding = TenWonRounding(basic: bool, holiday: bool, overtime: bool, night: bool)

  /** A pay breakdown in won. */
  datatype Pay = Pay(normalWage: int, total: int, basePay: int, holidayPay: int,
                     overtimePay: int, nightPay: int)

  function OvertimeFactor(fivePlus: bool): real { if fivePlus then 1.5 else 1.0 }
  function NightFactor(fivePlus: bool): real { if fivePlus then 0.5 else 0.0 }

  /**
   * r is x rounded up to the won, and to 10 won when `tens` holds: the least
   * admissible amount that is not below x.
   */
  predicate RoundedUpFrom(x: real, r: int, tens: bool) {
    x <= r as real && r as real < x + (if tens then 10.0 else 1.0) && (tens ==> r % 10 == 0)
  }

  /** RoundedUpFrom determines the amount uniquely. */
  lemma RoundedUpUnique(x: real, r1: int, r2: int, tens: bool)
    requires RoundedUpFrom(x, r1, tens) && RoundedUpFrom(x, r2, tens)
    ensures r1 == r2
  {
  }

  /** A pay component paid per hour at the hourly base wage (base pay, weekly-holiday pay). */
  function HourlyPay(wage: int, hours: real, tens: bool): (r: int)
    ensures RoundedUpFrom(Mul(wage as real, hours), r, tens)
  {
    Finalize(Mul(wage as real, hours), tens)
  }

  /**
   * The ordinary ("normal") wage: base pay, holiday pay and the allowances spread
   * over the base and holiday hours, rounded up to the won.
   */
  function OrdinaryWage(ordinaryPay: int, denom: real): (r: int)
    requires 0.0 < denom
    ensures RoundedUpFrom(Div(ordinaryPay as real, denom), r, false)
  {
    WonCeil(Div(ordinaryPay as real, denom))
  }

  /** A premium component: the ordinary wage times the hours times the premium factor. */
  function PremiumPay(normalWage: int, hours: real, factor: real, tens: bool): (r: int)
    ensures RoundedUpFrom(Mul(Mul(normalWage as real, hours), factor), r, tens)
  {
    Finalize(Mul(Mul(normalWage as real, hours), factor), tens)
  }

  lemma HourlyPayMonotone(w1: int, w2: int, hours: real, tens: bool)
    requires w1 <= w2 && 0.0 <= hours
    ensures HourlyPay(w1, hours, tens) <= HourlyPay(w2, hours, tens)
  {
    MulMonotone(w1 as real, w2 as real, hours);
    FinalizeMonotone(Mul(w1 as real, hours), Mul(w2 as real, hours), tens);
  }

  lemma OrdinaryWageMonotone(s1: int, s2: int, denom: real)
    requires s1 <= s2 && 0.0 < denom
    ensures OrdinaryWage(s1, denom) <= OrdinaryWage(s2, denom)
  {
    DivMonotone(s1 as real, s2 as real, denom);
    CeilMonotone(Div(s1 as real, denom), Div(s2 as real, denom));
  }

  lemma PremiumPayMonotone(n1: int, n2: int, hours: real, factor: real, tens: bool)
    requires n1 <= n2 && 0.0 <= hours && 0.0 <= factor
    ensures PremiumPay(n1, hours, factor, tens) <= PremiumPay(n2, hours, factor, tens)
  {
    MulMonotone(n1 as real, n2 as real, hours);
    MulMonotone(Mul(n1 as real, hours), Mul(n2 as real, hours), factor);
    FinalizeMonotone(Mul(Mul(n1 as real, hours), factor), Mul(Mul(n2 as real, hours), factor), tens);
  }

  lemma PremiumPayNonNegative(n: int, hours: real, factor: real, tens: bool)
    requires 0 <= n && 0.0 <= hours && 0.0 <= factor
    ensures 0 <= PremiumPay(n, hours, factor, tens)
  {
    PremiumPayMonotone(0, n, hours, factor, tens);
    FinalizeZero(tens);
  }

  /** A zero premium factor gives a zero premium. */
  lemma PremiumPayWithoutPremium(n: int, hours: real, tens: bool)
    ensures PremiumPay(n, hours, 0.0, tens) == 0
  {
    MulByZero(Mul(n as real, hours));
    FinalizeZero(tens);
  }

  /**
   * `simulate_total`: the pay breakdown for an hourly base wage. Base and
   * holiday pay are the wage times the hours, rounded up; the ordinary
   * ("normal") wage is everything but overtime and night pay spread over the
   * base and holiday hours, rounded up; overtime and night pay are the ordinary
   * wage times those hours times their premium factors, rounded up.
   */
  function SimulateTotal(wage: int, h: MonthlyHours, meal: int, car: int,
                         fivePlus: bool, opt: TenWonRounding): (p: Pay)
    requires h.base + h.holiday > 0.0
    ensures p.total == p.basePay + p.holidayPay + p.overtimePay + p.nightPay + meal + car
    ensures p.basePay == HourlyPay(wage, h.base, opt.basic)
    ensures p.holidayPay == HourlyPay(wage, h.holiday, opt.holiday)
    ensures p.normalWage == OrdinaryWage(p.basePay + p.holidayPay + meal + car, h.base + h.holiday)
    ensures p.overtimePay == PremiumPay(p.normalWage, h.overtime, OvertimeFactor(fivePlus), opt.overtime)
    ensures p.nightPay == PremiumPay(p.normalWage, h.night, NightFactor(fivePlus), opt.night)
  {
    var basePay := HourlyPay(wage, h.base, opt.basic);
    var holidayPay := HourlyPay(wage, h.holiday, opt.holiday);
    var normal := OrdinaryWage(basePay + holidayPay + meal + car, h.base + h.holiday);
    var overtimePay := PremiumPay(normal, h.overtime, OvertimeFactor(fivePlus), opt.overtime);
    var nightPay := PremiumPay(normal, h.night, NightFactor(fivePlus), opt.night);
    Pay(normal, basePay + holidayPay + overtimePay + nightPay + meal + car,
        basePay, holidayPay, overtimePay, nightPay)
  }

  /** Below five employees there is no night premium, so night pay is zero. */
  lemma NoNightPremiumUnderFive(wage: int, h: MonthlyHours, meal: int, car: int, opt: TenWonRounding)
    requires h.base + h.holiday > 0.0
    ensures SimulateTotal(wage, h, meal, car, false, opt).nightPay == 0
  {
    var p := SimulateTotal(wage, h, meal, car, false, opt);
    PremiumPayWithoutPremium(p.normalWage, h.night, opt.night);
  }

  /** Total pay never decreases when the hourly base wage grows. */
  lemma TotalMonotone(w1: int, w2: int, h: MonthlyHours, meal: int, car: int,
                      fivePlus: bool, opt: TenWonRounding)
    requires NonNegative(h) && h.base + h.holiday > 0.0
    requires w1 <= w2
    ensures SimulateTotal(w1, h, meal, car, fivePlus, opt).total
            <= SimulateTotal(w2, h, meal, car, fivePlus, opt).total
  {
    var p1 := SimulateTotal(w1, h, meal, car, fivePlus, opt);
    var p2 := SimulateTotal(w2, h, meal, car, fivePlus, opt);
    HourlyPayMonotone(w1, w2, h.base, opt.basic);
    HourlyPayMonotone(w1, w2, h.holiday, opt.holiday);
    OrdinaryWageMonotone(p1.basePay + p1.holidayPay + meal + car,
                         p2.basePay + p2.holidayPay + meal + car, h.base + h.holiday);
    PremiumPayMonotone(p1.normalWage, p2.normalWage, h.overtime, OvertimeFactor(fivePlus), opt.overtime);
    PremiumPayMonotone(p1.normalWage, p2.normalWage, h.night, NightFactor(fivePlus), opt.night);
  }

  /**
   * With non-negative allowances, the total for a non-negative wage is at
   * least that wage times the denominator hours.
   */
  lemma TotalAtLeastWageTimesHours(w: int, h: MonthlyHours, meal: int, car: int,
                                   fivePlus: bool, opt: TenWonRounding)
    requires NonNegative(h) && h.base + h.holiday > 0.0
    requires w >= 0 && meal >= 0 && car >= 0
    ensures Mul(w as real, h.base) + Mul(w as real, h.holiday)
            <= SimulateTotal(w, h, meal, car, fivePlus, opt).total as real
  {
    HourlyPaysCoverHours(w, h.base, h.holiday, opt.basic, opt.holiday);
    PremiumsNonNegative(w, h, meal, car, fivePlus, opt);
  }

  /** For a non-negative wage and allowances, every pay component is non-negative. */
  lemma PremiumsNonNegative(w: int, h: MonthlyHours, meal: int, car: int,
                            fivePlus: bool, opt: TenWonRounding)
    requires NonNegative(h) && h.base + h.holiday > 0.0
    requires w >= 0 && meal >= 0 && car >= 0
    ensures var p := SimulateTotal(w, h, meal, car, fivePlus, opt);
            p.basePay >= 0 && p.holidayPay >= 0 && p.normalWage >= 0 &&
            p.overtimePay >= 0 && p.nightPay >= 0
  {
    var p := SimulateTotal(w, h, meal, car, fivePlus, opt);
    HourlyPayMonotone(0, w, h.base, opt.basic);
    HourlyPayMonotone(0, w, h.holiday, opt.holiday);
    FinalizeZero(opt.basic);
    FinalizeZero(opt.holiday);
    OrdinaryWageNonNegative(p.basePay + p.holidayPay + meal + car, h.base + h.holiday);
    PremiumPayNonNegative(p.normalWage, h.overtime, OvertimeFactor(fivePlus), opt.overtime);
    PremiumPayNonNegative(p.normalWage, h.night, NightFactor(fivePlus), opt.night);
  }

  /** Base and holiday pay together cover the wage times the base and holiday hours. */
  lemma HourlyPaysCoverHours(w: int, base: real, holiday: real, tensBase: bool, tensHoliday: bool)
    ensures Mul(w as real, base) + Mul(w as real, holiday)
            <= (HourlyPay(w, base, tensBase) + HourlyPay(w, holiday, tensHoliday)) as real
  {
  }

  lemma OrdinaryWageNonNegative(s: int, denom: real)
    requires 0 <= s && 0.0 < denom
    ensures 0 <= OrdinaryWage(s, denom)
  {
    OrdinaryWageMonotone(0, s, denom);
    DivOfZero(denom);
  }

  /** A monthly pay statement: the hour buckets and the pay computed from them. */
  datatype Statement = Statement(hours: MonthlyHours, pay: Pay)

  /**
   * The forward calculation of the two monthly-pay pages: the hour buckets of
   * the schedule and the pay for the given hourly base wage. It fails when the
   * schedule has no working hours, since the ordinary wage is then undefined.
   */
  function MonthlyPay(s: Schedule, wage: int, meal: int, car: int, fivePlus: bool,
                      ceilOn: bool, opt: TenWonRounding): (r: Result<Statement>)
    requires s.daysPerWeek >= 0.0
    ensures r.Err? <==> WeeklyRaw(s) == 0.0
    ensures r.Err? ==> r.error == ZeroDenominator
    ensures r.Ok? ==> r.value.hours == MonthlyHoursOf(s, ceilOn)
    ensures r.Ok? ==> r.value.pay == SimulateTotal(wage, r.value.hours, meal, car, fivePlus, opt)
  {
    var h := MonthlyHoursOf(s, ceilOn);
    DenominatorPositiveIffWork(s, ceilOn);
    if h.base + h.holiday <= 0.0 then Err(ZeroDenominator)
    else Ok(Statement(h, SimulateTotal(wage, h, meal, car, fivePlus, opt)))
  }

  // ---------------------------------------------------------------------------
  // Reverse inference
  // ---------------------------------------------------------------------------

  /** The total pay for hourly base wage w does not exceed the salary. */
  predicate Fits(w: int, salary: int, h: MonthlyHours, meal: int, car: int,
                 fivePlus: bool, opt: TenWonRounding)
    requires h.base + h.holiday > 0.0
  {
    SimulateTotal(w, h, meal, car, fivePlus, opt).total <= salary
  }

  /** What reverse inference reports: the base wage found, the hours, the pay and the gap to the salary. */
  datatype Inference = Inference(baseWage: int, hours: MonthlyHours, pay: Pay, gap: int)

  /**
   * Where the total first exceeds the salary, every smaller wage fits and
   * every larger one does not: local optimality is global, because the total
   * never decreases in the wage.
   */
  lemma {:induction false} LocalMaximumIsGlobal(b: int, salary: int, h: MonthlyHours, meal: int, car: int,
                                                fivePlus: bool, opt: TenWonRounding)
    requires NonNegative(h) && h.base + h.holiday > 0.0
    requires Fits(b, salary, h, meal, car, fivePlus, opt)
    requires !Fits(b + 1, salary, h, meal, car, fivePlus, opt)
    ensures forall w :: Fits(w, salary, h, meal, car, fivePlus, opt) <==> w <= b
  {
    forall w
      ensures Fits(w, salary, h, meal, car, fivePlus, opt) <==> w <= b
    {
      if w <= b {
        TotalMonotone(w, b, h, meal, car, fivePlus, opt);
      } else {
        TotalMonotone(b + 1, w, h, meal, car, fivePlus, opt);
      }
    }
  }

  /**
   * The reverse wage search of the "시급 역산" page: the largest integer
   * hourly base wage whose total pay does not exceed the salary, found by
   * stepping by one from the estimate (salary - allowances) / denominator.
   * When even wage 0 overshoots, wage 0 is reported with its total.
   */
  method InferBaseWage(salary: int, meal: int, car: int, s: Schedule, fivePlus: bool,
                       ceilOn: bool, opt: TenWonRounding) returns (r: Result<Inference>)
    requires meal >= 0 && car >= 0 && s.daysPerWeek >= 0.0
    ensures meal + car > salary ==> r == Err(AllowancesExceedSalary)
    ensures meal + car <= salary && WeeklyRaw(s) == 0.0 ==> r == Err(ZeroDenominator)
    ensures meal + car <= salary && WeeklyRaw(s) > 0.0 ==> r.Ok?
    ensures r.Ok? ==>
              var v := r.value;
              v.hours == MonthlyHoursOf(s, ceilOn) && v.hours.base + v.hours.holiday > 0.0 &&
              v.baseWage >= 0 &&
              v.pay == SimulateTotal(v.baseWage, v.hours, meal, car, fivePlus, opt) &&
              v.gap == salary - v.pay.total &&
              (v.pay.total <= salary ==>
                 !Fits(v.baseWage + 1, salary, v.hours, meal, car, fivePlus, opt) &&
                 forall w :: Fits(w, salary, v.hours, meal, car, fivePlus, opt) <==> w <= v.baseWage) &&
              (v.pay.total > salary ==>
                 v.baseWage == 0 &&
                 forall w :: w >= 0 ==> !Fits(w, salary, v.hours, meal, car, fivePlus, opt))
  {
    if meal + car > salary {
      return Err(AllowancesExceedSalary);
    }
    var h := MonthlyHoursOf(s, ceilOn);
    var denom := h.base + h.holiday;
    DenominatorPositiveIffWork(s, ceilOn);
    if denom <= 0.0 {
      return Err(ZeroDenominator);
    }
    var bw, p := SearchBaseWage(salary, h, meal, car, fivePlus, opt);
    SearchResultOptimal(bw, salary, h, meal, car, fivePlus, opt);
    r := Ok(Inference(bw, h, p, salary - p.total));
  }

  /**
   * The search proper: start at the estimate (salary - allowances) / denominator,
   * clamped to 0, then search down or up; fall back to 0 when nothing fits.
   */
  method SearchBaseWage(salary: int, h: MonthlyHours, meal: int, car: int,
                        fivePlus: bool, opt: TenWonRounding) returns (bw: int, p: Pay)
    requires NonNegative(h) && h.base + h.holiday > 0.0 && meal >= 0 && car >= 0
    ensures 0 <= bw && p == SimulateTotal(bw, h, meal, car, fivePlus, opt)
    ensures p.total <= salary ==> !Fits(bw + 1, salary, h, meal, car, fivePlus, opt)
    ensures p.total > salary ==> bw == 0
  {
    bw := StartingWage(salary, h, meal, car);
    p := SimulateTotal(bw, h, meal, car, fivePlus, opt);
    if p.total > salary {
      bw, p := SearchDown(bw, salary, h, meal, car, fivePlus, opt);
    } else {
      bw, p := SearchUp(bw, salary, h, meal, car, fivePlus, opt);
      return;
    }
    if p.total > salary {
      bw := 0;
      p := SimulateTotal(bw, h, meal, car, fivePlus, opt);
    }
  }

  /**
   * The search's starting point: the salary less the allowances spread over
   * the base and holiday hours, rounded up to the won, and at least 0.
   */
  function StartingWage(salary: int, h: MonthlyHours, meal: int, car: int): (r: int)
    requires h.base + h.holiday > 0.0
    ensures 0 <= r
    ensures var x := Div((salary - meal - car) as real, h.base + h.holiday);
            (x > -1.0 ==> RoundedUpFrom(x, r, false)) && (x <= -1.0 ==> r == 0)
  {
    var estimate := WonCeil(Div((salary - meal - car) as real, h.base + h.holiday));
    if estimate >= 0 then estimate else 0
  }

  /**
   * What the search reports is optimal: a fitting wage whose successor
   * overshoots is the largest fitting wage, and when wage 0 overshoots no
   * non-negative wage fits.
   */
  lemma SearchResultOptimal(bw: int, salary: int, h: MonthlyHours, meal: int, car: int,
                            fivePlus: bool, opt: TenWonRounding)
    requires NonNegative(h) && h.base + h.holiday > 0.0 && 0 <= bw
    requires Fits(bw, salary, h, meal, car, fivePlus, opt) ==>
               !Fits(bw + 1, salary, h, meal, car, fivePlus, opt)
    requires !Fits(bw, salary, h, meal, car, fivePlus, opt) ==> bw == 0
    ensures Fits(bw, salary, h, meal, car, fivePlus, opt) ==>
              forall w :: Fits(w, salary, h, meal, car, fivePlus, opt) <==> w <= bw
    ensures !Fits(bw, salary, h, meal, car, fivePlus, opt) ==>
              forall w :: w >= 0 ==> !Fits(w, salary, h, meal, car, fivePlus, opt)
  {
    if Fits(bw, salary, h, meal, car, fivePlus, opt) {
      LocalMaximumIsGlobal(bw, salary, h, meal, car, fivePlus, opt);
    } else {
      NothingFits(salary, h, meal, car, fivePlus, opt);
    }
  }

  /**
   * The downward search: from a wage whose total overshoots, step down until
   * the total fits or the wage reaches 0.
   */
  method SearchDown(start: int, salary: int, h: MonthlyHours, meal: int, car: int,
                    fivePlus: bool, opt: TenWonRounding) returns (bw: int, p: Pay)
    requires NonNegative(h) && h.base + h.holiday > 0.0
    requires start >= 0 && !Fits(start, salary, h, meal, car, fivePlus, opt)
    ensures 0 <= bw <= start && p == SimulateTotal(bw, h, meal, car, fivePlus, opt)
    ensures p.total <= salary ==> !Fits(bw + 1, salary, h, meal, car, fivePlus, opt)
    ensures p.total > salary ==> bw == 0
  {
    bw := start;
    p := SimulateTotal(bw, h, meal, car, fivePlus, opt);
    while bw > 0
      invariant 0 <= bw <= start
      invariant p == SimulateTotal(bw, h, meal, car, fivePlus, opt)
      invariant p.total > salary
      decreases bw
    {
      bw := bw - 1;
      var next := SimulateTotal(bw, h, meal, car, fivePlus, opt);
      if next.total <= salary {
        p := next;
        return;
      }
      p := next;
    }
  }

  /**
   * The upward search: from a wage whose total fits, step up while the next
   * wage still fits. Every fitting wage is at most salary / denominator, so
   * the search ends.
   */
  method SearchUp(start: int, salary: int, h: MonthlyHours, meal: int, car: int,
                  fivePlus: bool, opt: TenWonRounding) returns (bw: int, p: Pay)
    requires NonNegative(h) && h.base + h.holiday > 0.0 && meal >= 0 && car >= 0
    requires start >= 0 && Fits(start, salary, h, meal, car, fivePlus, opt)
    ensures start <= bw && p == SimulateTotal(bw, h, meal, car, fivePlus, opt)
    ensures p.total <= salary && !Fits(bw + 1, salary, h, meal, car, fivePlus, opt)
  {
    var bound := WageBound(salary, h);
    bw := start;
    p := SimulateTotal(bw, h, meal, car, fivePlus, opt);
    FitsBelowBound(bw, salary, h, meal, car, fivePlus, opt);
    while true
      invariant start <= bw <= bound
      invariant p == SimulateTotal(bw, h, meal, car, fivePlus, opt) && p.total <= salary
      decreases bound - bw
    {
      var cand := bw + 1;
      var next := SimulateTotal(cand, h, meal, car, fivePlus, opt);
      if next.total <= salary {
        FitsBelowBound(cand, salary, h, meal, car, fivePlus, opt);
        bw := cand;
        p := next;
      } else {
        return;
      }
    }
  }

  /** floor(salary / (base + holiday hours)): no wage above it fits in the salary. */
  function WageBound(salary: int, h: MonthlyHours): int
    requires h.base + h.holiday > 0.0
  {
    Div(salary as real, h.base + h.holiday).Floor
  }

  /** A non-negative wage whose total fits in the salary is at most WageBound. */
  lemma FitsBelowBound(w: int, salary: int, h: MonthlyHours, meal: int, car: int,
                       fivePlus: bool, opt: TenWonRounding)
    requires NonNegative(h) && h.base + h.holiday > 0.0
    requires w >= 0 && meal >= 0 && car >= 0
    requires Fits(w, salary, h, meal, car, fivePlus, opt)
    ensures w <= WageBound(salary, h)
  {
    TotalAtLeastWageTimesHours(w, h, meal, car, fivePlus, opt);
    FloorOfQuotient(w, salary, h.base, h.holiday);
  }

  /** When wage 0 already overshoots, so does every non-negative wage. */
  lemma NothingFits(salary: int, h: MonthlyHours, meal: int, car: int,
                    fivePlus: bool, opt: TenWonRounding)
    requires NonNegative(h) && h.base + h.holiday > 0.0
    requires !Fits(0, salary, h, meal, car, fivePlus, opt)
    ensures forall w :: w >= 0 ==> !Fits(w, salary, h, meal, car, fivePlus, opt)
  {
    forall w | w >= 0
      ensures !Fits(w, salary, h, meal, car, fivePlus, opt)
    {
      TotalMonotone(0, w, h, meal, car, fivePlus, opt);
    }
  }

  /** A wage whose product with the denominator fits in the salary is at most floor(salary / denom). */
  lemma FloorOfQuotient(w: int, salary: int, base: real, holiday: real)
    requires 0.0 < base + holiday && Mul(w as real, base) + Mul(w as real, holiday) <= salary as real
    ensures w <= Div(salary as real, base + holiday).Floor
  {
    var denom := base + holiday;
    MulDistributes(w as real, base, holiday);
    DivCancels(salary as real, denom);
    if Div(salary as real, denom) < w as real {
      MulStrict(Div(salary as real, denom), w as real, denom);
    }
  }
}
