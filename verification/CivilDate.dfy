/** Civil dates from day numbers (src-tauri/benches/history_search.rs).
 *
 *  The reference the formula is measured against is the calendar itself: day 0 is
 *  1970-01-01, and the day after a date is its calendar successor.
 */
module CivilDate {

  datatype Date = Date(year: int, month: int, day: int)

  // ---------------------------------------------------------------------------
  // The calendar, stated without the formula.
  // ---------------------------------------------------------------------------

  predicate IsLeap(year: int) {
    year % 4 == 0 && (year % 100 != 0 || year % 400 == 0)
  }

  function MonthLength(year: int, month: int): int {
    if month == 2 then (if IsLeap(year) then 29 else 28)
    else if month == 4 || month == 6 || month == 9 || month == 11 then 30
    else 31
  }

  predicate Valid(date: Date) {
    1 <= date.month <= 12 && 1 <= date.day <= MonthLength(date.year, date.month)
  }

  /** The calendar day that follows `date`. */
  function NextDay(date: Date): Date {
    if date.day < MonthLength(date.year, date.month) then date.(day := date.day + 1)
    else if date.month < 12 then Date(date.year, date.month + 1, 1)
    else Date(date.year + 1, 1, 1)
  }

  predicate Before(a: Date, b: Date) {
    a.year < b.year
    || (a.year == b.year && (a.month < b.month || (a.month == b.month && a.day < b.day)))
  }

  // ---------------------------------------------------------------------------
  // The code.
  // ---------------------------------------------------------------------------

  /** Rust's `/` on signed integers truncates toward zero. */
  function TruncDiv(a: int, b: int): int
    requires b > 0
  {
    if a >= 0 then a / b else -(-a / b)
  }

  /** Rust's `as i32` keeps the low 32 bits. */
  function AsI32(x: int): int {
    (x + 0x8000_0000) % 0x1_0000_0000 - 0x8000_0000
  }

  function Era(z: int): int {
    if z >= 0 then TruncDiv(z, 146_097) else TruncDiv(z - 146_096, 146_097)
  }

  function YearOfEra(doe: int): int {
    (doe - doe / 1460 + doe / 36_524 - doe / 146_096) / 365
  }

  /** Days of the era before its year `yoe`; years start on 1 March. */
  function DaysBeforeYear(yoe: int): int {
    365 * yoe + yoe / 4 - yoe / 100
  }

  /** Date of day `doy` of the year `y` that starts on 1 March. */
  function DateOfYearDay(y: int, doy: int): Date {
    var mp := (5 * doy + 2) / 153;
    var d := doy - (153 * mp + 2) / 5 + 1;
    var m := if mp < 10 then mp + 3 else mp - 9;
    Date(if m <= 2 then y + 1 else y, m, d)
  }

  /** March year and day of that year, in absolute terms. */
  function MarchYearAndDay(days: int): (int, int) {
    var z := days + 719_468;
    var era := Era(z);
    var doe := z - era * 146_097;
    var yoe := YearOfEra(doe);
    (yoe + era * 400, doe - DaysBeforeYear(yoe))
  }

  /** The date as computed, before its year is narrowed to 32 bits. */
  function CivilFromDays(days: int): Date {
    var (y, doy) := MarchYearAndDay(days);
    DateOfYearDay(y, doy)
  }

  function DaysToYmd(days: int): Date {
    var date := CivilFromDays(days);
    date.(year := AsI32(date.year))
  }

  // ---------------------------------------------------------------------------
  // The inverse.
  // ---------------------------------------------------------------------------

  function MarchYear(date: Date): int {
    if date.month <= 2 then date.year - 1 else date.year
  }

  function DayOfMarchYear(date: Date): int {
    var mp := if date.month > 2 then date.month - 3 else date.month + 9;
    (153 * mp + 2) / 5 + date.day - 1
  }

  function DayNumber(y: int, doy: int): int {
    y / 400 * 146_097 + DaysBeforeYear(y % 400) + doy - 719_468
  }

  function DaysFromCivil(date: Date): int {
    DayNumber(MarchYear(date), DayOfMarchYear(date))
  }

  // ---------------------------------------------------------------------------
  // Proofs.
  // ---------------------------------------------------------------------------

  lemma EraFloors(z: int)
    ensures Era(z) == z / 146_097
    ensures 0 <= z - Era(z) * 146_097 < 146_097
  {
    if z < 0 {
      var n := 146_096 - z;
      assert Era(z) == -(n / 146_097);
    }
  }

  /** Splitting an era into centuries, four-year cycles and years undoes `YearOfEra`. */
  lemma YearOfEraSplit(doe: int, c: int, f: int, y: int, doy: int)
    requires 0 <= c <= 3 && 0 <= f <= 24 && 0 <= y <= 3 && 0 <= doy <= 365
    requires doy == 365 ==> y == 3 && (f < 24 || c == 3)
    requires doe == 36_524 * c + 1461 * f + 365 * y + doy
    ensures YearOfEra(doe) == 100 * c + 4 * f + y
  {
    assert doe / 146_096 == (if c == 3 && f == 24 && y == 3 && doy == 365 then 1 else 0);
    assert doe / 36_524 == c + doe / 146_096;
    var r := 24 * c + f + 365 * y + doy;
    assert doe == 1460 * (25 * c + f) + r;
    assert doe / 1460 == 25 * c + f + r / 1460;
    var n := doe - doe / 1460 + doe / 36_524 - doe / 146_096;
    assert n == 365 * (100 * c + 4 * f + y) + doy - r / 1460;
  }

  lemma DaysBeforeYearSplit(c: int, f: int, y: int)
    requires 0 <= c <= 3 && 0 <= f <= 24 && 0 <= y <= 3
    ensures DaysBeforeYear(100 * c + 4 * f + y) == 36_524 * c + 1461 * f + 365 * y
  {
    var yoe := 100 * c + 4 * f + y;
    assert yoe / 4 == 25 * c + f;
    assert yoe / 100 == c;
  }

  lemma YearOfEraCorrect(doe: int)
    requires 0 <= doe < 146_097
    ensures var yoe := YearOfEra(doe); var doy := doe - DaysBeforeYear(yoe);
            && 0 <= yoe < 400
            && 0 <= doy <= 365
            && (doy == 365 ==> IsLeap(yoe + 1))
  {
    var c := if doe == 146_096 then 3 else doe / 36_524;
    var inCentury := doe - 36_524 * c;
    var f := inCentury / 1461;
    var inCycle := inCentury - 1461 * f;
    var y := if inCycle == 1460 then 3 else inCycle / 365;
    var doy := inCycle - 365 * y;
    YearOfEraSplit(doe, c, f, y, doy);
    DaysBeforeYearSplit(c, f, y);
    if doy == 365 { LastDayIsLeap(c, f); }
  }

  lemma LastDayIsLeap(c: int, f: int)
    requires 0 <= c <= 3 && 0 <= f <= 24 && (f < 24 || c == 3)
    ensures IsLeap(100 * c + 4 * f + 4)
  {
    assert (100 * c + 4 * f + 4) % 4 == 0;
    assert f < 24 ==> (100 * c + 4 * f + 4) % 100 == 4 * f + 4;
  }

  lemma YearSteps(yoe: int)
    requires 0 <= yoe
    ensures DaysBeforeYear(yoe + 1) - DaysBeforeYear(yoe)
         == (if (yoe + 1) % 4 == 0 && (yoe + 1) % 100 != 0 then 366 else 365)
  {
    var q4, r4 := yoe / 4, yoe % 4;
    assert (yoe + 1) / 4 == if r4 == 3 then q4 + 1 else q4;
    var q100, r100 := yoe / 100, yoe % 100;
    assert (yoe + 1) / 100 == if r100 == 99 then q100 + 1 else q100;
    assert (yoe + 1) % 100 == 0 ==> (yoe + 1) % 4 == 0;
  }

  lemma {:induction false} YearsMonotone(a: int, b: int)
    requires 0 <= a < b
    ensures DaysBeforeYear(a + 1) <= DaysBeforeYear(b)
    decreases b
  {
    if a + 1 < b {
      YearsMonotone(a, b - 1);
      YearSteps(b - 1);
    }
  }

  lemma LeapShift(year: int, era: int)
    ensures IsLeap(year + 400 * era) == IsLeap(year)
  {
    var shifted := year + 400 * era;
    RemainderOf(shifted, 4, year / 4 + 100 * era, year % 4);
    RemainderOf(shifted, 100, year / 100 + 4 * era, year % 100);
    RemainderOf(shifted, 400, year / 400 + era, year % 400);
  }

  lemma RemainderOf(n: int, k: int, q: int, r: int)
    requires 0 <= r < k && n == k * q + r
    ensures n / k == q && n % k == r
  {
    var e := n / k - q;
    assert k * e == k * (n / k) - k * q == r - n % k;
    SmallMultiple(k, e);
  }

  lemma SmallMultiple(k: int, e: int)
    requires -k < k * e < k
    ensures e == 0
  {
  }

  predicate DayInYear(y: int, doy: int) {
    0 <= doy <= 365 && (doy == 365 ==> IsLeap(y + 1))
  }

  lemma DateOfYearDayCorrect(y: int, doy: int)
    requires DayInYear(y, doy)
    ensures var date := DateOfYearDay(y, doy);
            Valid(date) && MarchYear(date) == y && DayOfMarchYear(date) == doy
  {
    var mp := (5 * doy + 2) / 153;
    assert mp == 0 || mp == 1 || mp == 2 || mp == 3 || mp == 4 || mp == 5
        || mp == 6 || mp == 7 || mp == 8 || mp == 9 || mp == 10 || mp == 11;
  }

  lemma YearDayOfDateCorrect(date: Date)
    requires Valid(date)
    ensures DayInYear(MarchYear(date), DayOfMarchYear(date))
    ensures DateOfYearDay(MarchYear(date), DayOfMarchYear(date)) == date
  {
    var m := date.month;
    assert m == 1 || m == 2 || m == 3 || m == 4 || m == 5 || m == 6
        || m == 7 || m == 8 || m == 9 || m == 10 || m == 11 || m == 12;
  }

  lemma DayOfEraCorrect(era: int, doe: int)
    requires 0 <= doe < 146_097
    ensures var y := YearOfEra(doe) + era * 400; var doy := doe - DaysBeforeYear(YearOfEra(doe));
            DayInYear(y, doy) && DayNumber(y, doy) == era * 146_097 + doe - 719_468
  {
    YearOfEraCorrect(doe);
    var yoe := YearOfEra(doe);
    LeapShift(yoe + 1, era);
    RemainderOf(yoe + era * 400, 400, era, yoe);
  }

  lemma MarchYearAndDayCorrect(days: int)
    ensures var (y, doy) := MarchYearAndDay(days); DayInYear(y, doy) && DayNumber(y, doy) == days
  {
    hide DayNumber, DayInYear, YearOfEra, DaysBeforeYear, Era;
    var z := days + 719_468;
    EraFloors(z);
    DayOfEraCorrect(Era(z), z - Era(z) * 146_097);
  }

  /** A day number determines its March year. */
  lemma DayNumberInjective(a: int, doyA: int, b: int, doyB: int)
    requires DayInYear(a, doyA) && DayInYear(b, doyB)
    requires DayNumber(a, doyA) == DayNumber(b, doyB)
    ensures a == b && doyA == doyB
  {
    if a < b { DayNumberMonotone(a, doyA, b, doyB); }
    if b < a { DayNumberMonotone(b, doyB, a, doyA); }
  }

  lemma DayNumberMonotone(a: int, doyA: int, b: int, doyB: int)
    requires DayInYear(a, doyA) && DayInYear(b, doyB) && a < b
    ensures DayNumber(a, doyA) < DayNumber(b, doyB)
  {
    NextMarchYear(a);
    MarchYearsMonotone(a + 1, b);
  }

  lemma NextMarchYear(y: int)
    ensures DayNumber(y + 1, 0) == DayNumber(y, if IsLeap(y + 1) then 366 else 365)
  {
    var era, yoe := y / 400, y % 400;
    LeapShift(yoe + 1, era);
    YearSteps(yoe);
    if yoe == 399 {
      RemainderOf(y + 1, 400, era + 1, 0);
    } else {
      RemainderOf(y + 1, 400, era, yoe + 1);
    }
  }

  lemma {:induction false} MarchYearsMonotone(a: int, b: int)
    requires a <= b
    ensures DayNumber(a, 0) <= DayNumber(b, 0)
    decreases b - a
  {
    if a < b {
      MarchYearsMonotone(a, b - 1);
      NextMarchYear(b - 1);
    }
  }

  // ---------------------------------------------------------------------------
  // The claims.
  // ---------------------------------------------------------------------------

  /** Every day number becomes a valid calendar date, and the inverse recovers it. */
  lemma CivilFromDaysCorrect(days: int)
    ensures Valid(CivilFromDays(days))
    ensures DaysFromCivil(CivilFromDays(days)) == days
  {
    var (y, doy) := MarchYearAndDay(days);
    MarchYearAndDayCorrect(days);
    DateOfYearDayCorrect(y, doy);
  }

  /** Every valid date is the date of its own day number. */
  lemma DaysFromCivilCorrect(date: Date)
    requires Valid(date)
    ensures CivilFromDays(DaysFromCivil(date)) == date
  {
    var days := DaysFromCivil(date);
    YearDayOfDateCorrect(date);
    var (y, doy) := MarchYearAndDay(days);
    MarchYearAndDayCorrect(days);
    DayNumberInjective(MarchYear(date), DayOfMarchYear(date), y, doy);
  }

  lemma DayNumberOfNextDay(date: Date)
    requires Valid(date)
    ensures Valid(NextDay(date))
    ensures DaysFromCivil(NextDay(date)) == DaysFromCivil(date) + 1
  {
    var m := date.month;
    assert m == 1 || m == 2 || m == 3 || m == 4 || m == 5 || m == 6
        || m == 7 || m == 8 || m == 9 || m == 10 || m == 11 || m == 12;
    var y := MarchYear(date);
    if m == 2 && date.day == MonthLength(date.year, 2) {
      NextMarchYear(y);
      assert NextDay(date) == Date(date.year, 3, 1);
      assert DaysFromCivil(NextDay(date)) == DayNumber(y + 1, 0);
    } else {
      assert MarchYear(NextDay(date)) == y;
      assert DayOfMarchYear(NextDay(date)) == DayOfMarchYear(date) + 1;
    }
  }

  /** The formula walks the calendar: day 0 is 1970-01-01 and each day's successor follows it. */
  lemma CivilFromDaysFollowsCalendar(days: int)
    ensures CivilFromDays(0) == Date(1970, 1, 1)
    ensures CivilFromDays(days + 1) == NextDay(CivilFromDays(days))
  {
    EpochDate();
    var date := CivilFromDays(days);
    assert Valid(date) && DaysFromCivil(date) == days by { CivilFromDaysCorrect(days); }
    SuccessorIsNextDay(days, date);
  }

  lemma EpochDate()
    ensures CivilFromDays(0) == Date(1970, 1, 1)
  {
    EraFloors(719_468);
    assert Era(719_468) == 4;
    assert YearOfEra(135_080) == 369;
    assert DaysBeforeYear(369) == 134_774;
    assert MarchYearAndDay(0) == (1969, 306);
  }

  lemma SuccessorIsNextDay(days: int, date: Date)
    requires Valid(date) && DaysFromCivil(date) == days
    ensures CivilFromDays(days + 1) == NextDay(date)
  {
    DayNumberOfNextDay(date);
    DaysFromCivilCorrect(NextDay(date));
  }

  /** Day numbers and dates are ordered alike. */
  lemma DaysFromCivilMonotone(a: Date, b: Date)
    requires Valid(a) && Valid(b)
    ensures Before(a, b) <==> DaysFromCivil(a) < DaysFromCivil(b)
  {
    if Before(a, b) {
      BeforeIsEarlier(a, b);
    } else if Before(b, a) {
      BeforeIsEarlier(b, a);
    } else {
      assert a == b;
    }
  }

  lemma BeforeIsEarlier(a: Date, b: Date)
    requires Valid(a) && Valid(b) && Before(a, b)
    ensures DaysFromCivil(a) < DaysFromCivil(b)
  {
    YearDayOfDateCorrect(a);
    YearDayOfDateCorrect(b);
    if MarchYear(a) < MarchYear(b) {
      DayNumberMonotone(MarchYear(a), DayOfMarchYear(a), MarchYear(b), DayOfMarchYear(b));
    } else {
      assert MarchYear(a) == MarchYear(b);
      LaterInYear(a, b);
    }
  }

  lemma LaterInYear(a: Date, b: Date)
    requires Valid(a) && Valid(b) && Before(a, b) && MarchYear(a) == MarchYear(b)
    ensures DayOfMarchYear(a) < DayOfMarchYear(b)
  {
    var m := a.month;
    assert m == 1 || m == 2 || m == 3 || m == 4 || m == 5 || m == 6
        || m == 7 || m == 8 || m == 9 || m == 10 || m == 11 || m == 12;
  }

  const MIN_I32_DAY := -784353015833
  const MAX_I32_DAY := 784351576776

  lemma I32DayBounds()
    ensures DaysFromCivil(Date(-0x8000_0000, 1, 1)) == MIN_I32_DAY
    ensures DaysFromCivil(Date(0x7FFF_FFFF, 12, 31)) == MAX_I32_DAY
  {
    var low, high := Date(-0x8000_0000, 1, 1), Date(0x7FFF_FFFF, 12, 31);
    assert MarchYear(low) / 400 == -5_368_710 && MarchYear(low) % 400 == 351;
    assert DayOfMarchYear(low) == 306;
    assert MarchYear(high) / 400 == 5_368_709 && MarchYear(high) % 400 == 47;
    assert DayOfMarchYear(high) == 305;
  }

  lemma NarrowingExact(year: int)
    ensures AsI32(year) == year <==> -0x8000_0000 <= year <= 0x7FFF_FFFF
  {
  }

  /** Narrowing the year to 32 bits is harmless exactly between these two days. */
  lemma DaysToYmdExact(days: int)
    ensures DaysToYmd(days) == CivilFromDays(days) <==> MIN_I32_DAY <= days <= MAX_I32_DAY
  {
    hide CivilFromDays, DaysFromCivil, Valid, AsI32;
    var date := CivilFromDays(days);
    CivilFromDaysCorrect(days);
    YearInI32(date, days);
    NarrowingExact(date.year);
  }

  lemma YearInI32(date: Date, days: int)
    requires Valid(date) && DaysFromCivil(date) == days
    ensures -0x8000_0000 <= date.year <= 0x7FFF_FFFF <==> MIN_I32_DAY <= days <= MAX_I32_DAY
  {
    hide DaysFromCivil;
    I32DayBounds();
    DaysFromCivilMonotone(date, Date(-0x8000_0000, 1, 1));
    DaysFromCivilMonotone(Date(0x7FFF_FFFF, 12, 31), date);
  }
}
