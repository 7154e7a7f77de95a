/** Timestamp text from unix seconds (src-tauri/benches/history_search.rs). */
module Timestamp {
  import opened Wrappers
  import opened CivilDate
  import opened Decimal

  /** The first second of year 0000 and the last of year 9999. */
  const FIRST_SECOND := -719_528 * 86_400
  const LAST_SECOND := 2_932_897 * 86_400 - 1

  /** The first second of year -0001, from which on texts sort as times do. */
  const FIRST_ORDERED := FIRST_SECOND - 365 * 86_400

  predicate FourDigitYear(unix: int) {
    FIRST_SECOND <= unix <= LAST_SECOND
  }

  /** One number of the format and the character that follows it. */
  function Field(n: int, width: nat, sep: char): string {
    Padded(n, width) + [sep]
  }

  function Format(date: Date, h: int, m: int, s: int): string {
    Field(date.year, 4, '-') + (Field(date.month, 2, '-') + (Field(date.day, 2, 'T')
    + (Field(h, 2, ':') + (Field(m, 2, ':') + Field(s, 2, 'Z')))))
  }

  function UnixToRfc3339(unix: int): string {
    var days := unix / 86_400;
    var secsOfDay := unix % 86_400;
    Format(DaysToYmd(days), secsOfDay / 3600, secsOfDay % 3600 / 60, secsOfDay % 60)
  }

  // ---------------------------------------------------------------------------
  // Reading a timestamp back (section 5.6 of RFC 3339, UTC only, no fraction).
  // ---------------------------------------------------------------------------

  predicate ValidTime(h: int, m: int, s: int) {
    0 <= h < 24 && 0 <= m < 60 && 0 <= s < 60
  }

  predicate Shaped(text: string) {
    && |text| == 20
    && text[4] == '-' && text[7] == '-' && text[10] == 'T'
    && text[13] == ':' && text[16] == ':' && text[19] == 'Z'
    && AllDigits(text[0..4]) && AllDigits(text[5..7]) && AllDigits(text[8..10])
    && AllDigits(text[11..13]) && AllDigits(text[14..16]) && AllDigits(text[17..19])
  }

  function Parse(text: string): Option<int> {
    if !Shaped(text) then None else
    var date := Date(Value(text[0..4]), Value(text[5..7]), Value(text[8..10]));
    var h, m, s := Value(text[11..13]), Value(text[14..16]), Value(text[17..19]);
    if Valid(date) && ValidTime(h, m, s)
    then Some(DaysFromCivil(date) * 86_400 + h * 3600 + m * 60 + s)
    else None
  }

  // ---------------------------------------------------------------------------
  // Proofs.
  // ---------------------------------------------------------------------------

  lemma Powers()
    ensures Pow10(2) == 100 && Pow10(4) == 10_000
  {
    assert Pow10(1) == 10 && Pow10(3) == 1000;
  }

  lemma FourDigitYearDays(days: int)
    ensures 0 <= CivilFromDays(days).year <= 9999 <==> -719_528 <= days <= 2_932_896
    ensures -1 <= CivilFromDays(days).year <= 9999 <==> -719_893 <= days <= 2_932_896
    ensures -719_893 <= days <= 2_932_896 ==> DaysToYmd(days) == CivilFromDays(days)
  {
    hide CivilFromDays, DaysToYmd, DaysFromCivil, Valid;
    var date := CivilFromDays(days);
    CivilFromDaysCorrect(days);
    DaysToYmdExact(days);
    YearBounds(date, days);
  }

  lemma YearBounds(date: Date, days: int)
    requires Valid(date) && DaysFromCivil(date) == days
    ensures 0 <= date.year <==> -719_528 <= days
    ensures -1 <= date.year <==> -719_893 <= days
    ensures date.year <= 9999 <==> days <= 2_932_896
  {
    EdgeDays();
    hide DaysFromCivil;
    DaysFromCivilMonotone(date, Date(0, 1, 1));
    DaysFromCivilMonotone(date, Date(-1, 1, 1));
    DaysFromCivilMonotone(Date(9999, 12, 31), date);
  }

  lemma EdgeDays()
    ensures DaysFromCivil(Date(0, 1, 1)) == -719_528
    ensures DaysFromCivil(Date(-1, 1, 1)) == -719_893
    ensures DaysFromCivil(Date(9999, 12, 31)) == 2_932_896
  {
    var low, high := Date(0, 1, 1), Date(9999, 12, 31);
    assert MarchYear(low) / 400 == -1 && MarchYear(low) % 400 == 399;
    assert DayOfMarchYear(low) == 306;
    var lower := Date(-1, 1, 1);
    assert MarchYear(lower) / 400 == -1 && MarchYear(lower) % 400 == 398;
    assert DayOfMarchYear(lower) == 306;
    assert MarchYear(high) / 400 == 24 && MarchYear(high) % 400 == 399;
    assert DayOfMarchYear(high) == 305;
  }

  /** The date and time of day whose fields `UnixToRfc3339` prints. */
  lemma FieldsOfUnix(unix: int) returns (date: Date, h: int, m: int, s: int)
    requires FIRST_ORDERED <= unix <= LAST_SECOND
    ensures Valid(date) && -1 <= date.year <= 9999 && ValidTime(h, m, s)
    ensures FourDigitYear(unix) ==> 0 <= date.year
    ensures unix == DaysFromCivil(date) * 86_400 + h * 3600 + m * 60 + s
    ensures UnixToRfc3339(unix) == Format(date, h, m, s)
  {
    hide CivilFromDays, DaysToYmd, DaysFromCivil, Valid, Format;
    var days, secsOfDay := unix / 86_400, unix % 86_400;
    date := CivilFromDays(days);
    h, m, s := secsOfDay / 3600, secsOfDay % 3600 / 60, secsOfDay % 60;
    CivilFromDaysCorrect(days);
    FourDigitYearDays(days);
  }

  lemma FieldOrder(a: int, b: int, width: nat, sep: char, restA: string, restB: string)
    requires 1 <= width && 0 <= a < Pow10(width) && 0 <= b < Pow10(width)
    ensures Less(Field(a, width, sep) + restA, Field(b, width, sep) + restB)
       <==> a < b || (a == b && Less(restA, restB))
  {
    PadNatCorrect(a, width);
    PadNatCorrect(b, width);
    LessIsNumeric(PadNat(a, width), PadNat(b, width));
    LessOfConcat(PadNat(a, width), PadNat(b, width), [sep], [sep]);
    LessTotal([sep], [sep]);
    assert Field(a, width, sep)[..width] == PadNat(a, width);
    assert Field(b, width, sep)[..width] == PadNat(b, width);
    LessOfConcat(Field(a, width, sep), Field(b, width, sep), restA, restB);
  }

  /** A minus sign sorts before every digit, and after it the years run backwards. */
  lemma NegativeYearOrder(m: int, n: int, restA: string, restB: string)
    requires 1 <= m <= 999 && 1 <= n <= 999
    ensures Less(Field(-m, 4, '-') + restA, Field(-n, 4, '-') + restB) <==> m < n || (m == n && Less(restA, restB))
  {
    assert Pow10(3) == 1000 by { Powers(); }
    FieldOrder(m, n, 3, '-', restA, restB);
    SignedField(m, restA);
    SignedField(n, restB);
    hide Field;
    LessOfConcat("-", "-", Field(m, 3, '-') + restA, Field(n, 3, '-') + restB);
  }

  lemma SignedField(m: int, rest: string)
    requires m >= 1
    ensures Field(-m, 4, '-') + rest == "-" + (Field(m, 3, '-') + rest)
  {
    hide PadNat;
  }

  lemma YearOrder(a: int, b: int, restA: string, restB: string)
    requires -1 <= a <= 9999 && -1 <= b <= 9999
    ensures Less(Field(a, 4, '-') + restA, Field(b, 4, '-') + restB) <==> a < b || (a == b && Less(restA, restB))
  {
    Powers();
    if a >= 0 && b >= 0 {
      FieldOrder(a, b, 4, '-', restA, restB);
    } else if a == b {
      NegativeYearOrder(1, 1, restA, restB);
    } else {
      YearHead(a, restA);
      YearHead(b, restB);
      hide Field;
    }
  }

  lemma YearHead(y: int, rest: string)
    requires y >= -1
    ensures var text := Field(y, 4, '-') + rest;
            text != "" && (if y == -1 then text[0] == '-' else IsDigit(text[0]))
  {
    if y == -1 {
      SignedField(1, rest);
    } else {
      PaddedNotEmpty(y);
    }
  }

  predicate TimeBefore(h1: int, m1: int, s1: int, h2: int, m2: int, s2: int) {
    h1 < h2 || (h1 == h2 && (m1 < m2 || (m1 == m2 && s1 < s2)))
  }

  lemma TimeTextOrder(h1: int, m1: int, s1: int, h2: int, m2: int, s2: int)
    requires ValidTime(h1, m1, s1) && ValidTime(h2, m2, s2)
    ensures Less(Field(h1, 2, ':') + (Field(m1, 2, ':') + Field(s1, 2, 'Z')),
                 Field(h2, 2, ':') + (Field(m2, 2, ':') + Field(s2, 2, 'Z')))
       <==> TimeBefore(h1, m1, s1, h2, m2, s2)
  {
    hide Field;
    Powers();
    FieldOrder(h1, h2, 2, ':', Field(m1, 2, ':') + Field(s1, 2, 'Z'), Field(m2, 2, ':') + Field(s2, 2, 'Z'));
    FieldOrder(m1, m2, 2, ':', Field(s1, 2, 'Z'), Field(s2, 2, 'Z'));
    FieldOrder(s1, s2, 2, 'Z', "", "");
    assert Field(s1, 2, 'Z') + "" == Field(s1, 2, 'Z') && Field(s2, 2, 'Z') + "" == Field(s2, 2, 'Z');
  }

  lemma TextOrder(d1: Date, h1: int, m1: int, s1: int, d2: Date, h2: int, m2: int, s2: int)
    requires Valid(d1) && -1 <= d1.year <= 9999 && ValidTime(h1, m1, s1)
    requires Valid(d2) && -1 <= d2.year <= 9999 && ValidTime(h2, m2, s2)
    ensures Less(Format(d1, h1, m1, s1), Format(d2, h2, m2, s2))
       <==> Before(d1, d2) || (d1 == d2 && TimeBefore(h1, m1, s1, h2, m2, s2))
  {
    hide Field, TimeBefore;
    Powers();
    var t1 := Field(h1, 2, ':') + (Field(m1, 2, ':') + Field(s1, 2, 'Z'));
    var t2 := Field(h2, 2, ':') + (Field(m2, 2, ':') + Field(s2, 2, 'Z'));
    TimeTextOrder(h1, m1, s1, h2, m2, s2);
    FieldOrder(d1.day, d2.day, 2, 'T', t1, t2);
    var y1, y2 := Field(d1.day, 2, 'T') + t1, Field(d2.day, 2, 'T') + t2;
    FieldOrder(d1.month, d2.month, 2, '-', y1, y2);
    YearOrder(d1.year, d2.year, Field(d1.month, 2, '-') + y1, Field(d2.month, 2, '-') + y2);
  }

  /** The text order of the timestamps is the time order (section 5.1 of RFC 3339), for the
   *  years 0000 to 9999 and the one before them. */
  lemma TextOrderIsTimeOrder(a: int, b: int)
    requires FIRST_ORDERED <= a <= LAST_SECOND && FIRST_ORDERED <= b <= LAST_SECOND
    ensures Less(UnixToRfc3339(a), UnixToRfc3339(b)) <==> a < b
  {
    hide DaysFromCivil, UnixToRfc3339, Format, Less, Valid, Before;
    var d1, h1, m1, s1 := FieldsOfUnix(a);
    var d2, h2, m2, s2 := FieldsOfUnix(b);
    TextOrder(d1, h1, m1, s1, d2, h2, m2, s2);
    DaysFromCivilMonotone(d1, d2);
    DaysFromCivilMonotone(d2, d1);
    BeforeTotal(d1, d2);
  }

  lemma BeforeTotal(a: Date, b: Date)
    ensures Before(a, b) || a == b || Before(b, a)
    ensures !(Before(a, b) && Before(b, a)) && !(a == b && Before(a, b))
  {
  }

  /** A field and what follows it, wherever they are. */
  lemma FieldAt(text: string, at: nat, field: string, sep: char, rest: string)
    requires at <= |text| && text[at..] == field + [sep] + rest
    ensures at + |field| < |text| && text[at..at + |field|] == field && text[at + |field|] == sep
    ensures text[at + |field| + 1..] == rest
  {
    assert text[at..][..|field|] == field && text[at..][|field|] == sep && text[at..][|field| + 1..] == rest;
  }

  /** Where the fields of a formatted timestamp lie. */
  lemma FormatLayout(date: Date, h: int, m: int, s: int)
    requires Valid(date) && 0 <= date.year <= 9999 && ValidTime(h, m, s)
    ensures var text := Format(date, h, m, s);
            && Shaped(text)
            && Value(text[0..4]) == date.year && Value(text[5..7]) == date.month
            && Value(text[8..10]) == date.day && Value(text[11..13]) == h
            && Value(text[14..16]) == m && Value(text[17..19]) == s
  {
    Powers();
    PadNatCorrect(date.year, 4);
    PadNatCorrect(date.month, 2);
    PadNatCorrect(date.day, 2);
    PadNatCorrect(h, 2);
    PadNatCorrect(m, 2);
    PadNatCorrect(s, 2);
    var text := Format(date, h, m, s);
    FieldsAt(text, PadNat(date.year, 4), PadNat(date.month, 2), PadNat(date.day, 2),
             PadNat(h, 2), PadNat(m, 2), PadNat(s, 2));
    hide PadNat, Value, Valid, Format, Pow10;
  }

  lemma FieldsAt(text: string, year: string, month: string, day: string, hour: string, minute: string, second: string)
    requires |year| == 4 && |month| == |day| == |hour| == |minute| == |second| == 2
    requires text == (year + ['-']) + ((month + ['-']) + ((day + ['T'])
                   + ((hour + [':']) + ((minute + [':']) + (second + ['Z'])))))
    ensures |text| == 20 && text[4] == '-' && text[7] == '-' && text[10] == 'T'
    ensures text[13] == ':' && text[16] == ':' && text[19] == 'Z'
    ensures text[0..4] == year && text[5..7] == month && text[8..10] == day
    ensures text[11..13] == hour && text[14..16] == minute && text[17..19] == second
  {
    var fromSecond := second + ['Z'];
    var fromMinute := (minute + [':']) + fromSecond;
    var fromHour := (hour + [':']) + fromMinute;
    assert text[0..] == text;
    DateAt(text, year, month, day, fromHour);
    FieldAt(text, 11, hour, ':', fromMinute);
    FieldAt(text, 14, minute, ':', fromSecond);
    assert fromSecond == second + ['Z'] + "";
    FieldAt(text, 17, second, 'Z', "");
  }

  lemma DateAt(text: string, year: string, month: string, day: string, rest: string)
    requires |year| == 4 && |month| == |day| == 2
    requires text == (year + ['-']) + ((month + ['-']) + ((day + ['T']) + rest))
    ensures |text| >= 11 && text[4] == '-' && text[7] == '-' && text[10] == 'T'
    ensures text[0..4] == year && text[5..7] == month && text[8..10] == day && text[11..] == rest
  {
    var fromDay := (day + ['T']) + rest;
    var fromMonth := (month + ['-']) + fromDay;
    assert text[0..] == text;
    FieldAt(text, 0, year, '-', fromMonth);
    FieldAt(text, 5, month, '-', fromDay);
    FieldAt(text, 8, day, 'T', rest);
  }

  /** Fixed width, and the exact second can be read back. */
  lemma ParseOfText(unix: int)
    requires FourDigitYear(unix)
    ensures |UnixToRfc3339(unix)| == 20
    ensures Parse(UnixToRfc3339(unix)) == Some(unix)
  {
    hide DaysFromCivil, UnixToRfc3339, Format, Value;
    var date, h, m, s := FieldsOfUnix(unix);
    FormatLayout(date, h, m, s);
  }

  /** A digit string is the padded printing of its value. */
  lemma PadNatOfValue(s: string)
    requires s != [] && AllDigits(s)
    ensures PadNat(Value(s), |s|) == s
  {
    ValueBelowPow10(s);
    PadNatCorrect(Value(s), |s|);
    LessIsNumeric(PadNat(Value(s), |s|), s);
  }

  /** Every text that parses is the timestamp of the second it denotes, so the texts of the
   *  four-digit years are exactly the well-formed ones. */
  lemma TextOfParse(text: string)
    requires Parse(text).Some?
    ensures FourDigitYear(Parse(text).value)
    ensures UnixToRfc3339(Parse(text).value) == text
  {
    hide DaysFromCivil, UnixToRfc3339, Format, Value, Valid;
    var date := Date(Value(text[0..4]), Value(text[5..7]), Value(text[8..10]));
    var h, m, s := Value(text[11..13]), Value(text[14..16]), Value(text[17..19]);
    ValueBelowPow10(text[0..4]);
    Powers();
    FormatOfFields(text);
    var unix := Parse(text).value;
    UnixOfFields(unix, date, h, m, s);
  }

  lemma FormatOfFields(text: string)
    requires Shaped(text)
    ensures var date := Date(Value(text[0..4]), Value(text[5..7]), Value(text[8..10]));
            Format(date, Value(text[11..13]), Value(text[14..16]), Value(text[17..19])) == text
  {
    PadNatOfValue(text[0..4]);
    PadNatOfValue(text[5..7]);
    PadNatOfValue(text[8..10]);
    PadNatOfValue(text[11..13]);
    PadNatOfValue(text[14..16]);
    PadNatOfValue(text[17..19]);
    hide PadNat, Value;
  }

  lemma UnixOfFields(unix: int, date: Date, h: int, m: int, s: int)
    requires Valid(date) && 0 <= date.year <= 9999 && ValidTime(h, m, s)
    requires unix == DaysFromCivil(date) * 86_400 + h * 3600 + m * 60 + s
    ensures FourDigitYear(unix)
    ensures UnixToRfc3339(unix) == Format(date, h, m, s)
  {
    hide DaysFromCivil, Format, Valid, CivilFromDays, DaysToYmd;
    var days, secs := DaysFromCivil(date), h * 3600 + m * 60 + s;
    assert unix / 86_400 == days && unix % 86_400 == secs;
    DaysFromCivilCorrect(date);
    FourDigitYearDays(days);
    assert secs / 3600 == h && secs % 3600 / 60 == m && secs % 60 == s;
  }

  // ---------------------------------------------------------------------------
  // Where the order ends.
  // ---------------------------------------------------------------------------

  /** Between these two seconds texts sort as times do. */
  ghost predicate SortsLikeTime(lo: int, hi: int) {
    forall a, b :: lo <= a <= hi && lo <= b <= hi ==> (Less(UnixToRfc3339(a), UnixToRfc3339(b)) <==> a < b)
  }

  /** The four-digit years can be extended by year -0001 below and by nothing above. */
  lemma SortsLikeTimeExactly(lo: int, hi: int)
    requires lo <= FIRST_SECOND && hi >= LAST_SECOND
    ensures SortsLikeTime(lo, hi) <==> lo >= FIRST_ORDERED && hi <= LAST_SECOND
  {
    hide UnixToRfc3339, Less;
    if lo >= FIRST_ORDERED && hi <= LAST_SECOND {
      forall a, b | lo <= a <= hi && lo <= b <= hi
        ensures Less(UnixToRfc3339(a), UnixToRfc3339(b)) <==> a < b
      {
        TextOrderIsTimeOrder(a, b);
      }
    }
    if hi > LAST_SECOND {
      YearTenThousandSortsFirst();
      assert lo <= LAST_SECOND < LAST_SECOND + 1 <= hi;
    }
    if lo < FIRST_ORDERED {
      YearMinusTwoSortsLater();
      assert lo <= FIRST_ORDERED - 1 < FIRST_ORDERED <= hi;
    }
  }

  /** The last second of year -0002 sorts after the second that follows it. */
  lemma YearMinusTwoSortsLater()
    ensures Less(UnixToRfc3339(FIRST_ORDERED), UnixToRfc3339(FIRST_ORDERED - 1))
  {
    YearMinusTwoEnds();
    var restA := TextAfterYear(FIRST_ORDERED);
    var restB := TextAfterYear(FIRST_ORDERED - 1);
    hide UnixToRfc3339, Less, Field, DaysToYmd;
    NegativeYearOrder(1, 2, restA, restB);
  }

  lemma TextAfterYear(unix: int) returns (rest: string)
    ensures UnixToRfc3339(unix) == Field(DaysToYmd(unix / 86_400).year, 4, '-') + rest
  {
    hide DaysToYmd, Field;
    var date, secs := DaysToYmd(unix / 86_400), unix % 86_400;
    rest := Field(date.month, 2, '-') + (Field(date.day, 2, 'T')
            + (Field(secs / 3600, 2, ':') + (Field(secs % 3600 / 60, 2, ':') + Field(secs % 60, 2, 'Z'))));
  }

  lemma YearMinusTwoEnds()
    ensures DaysToYmd(-719_893).year == -1 && DaysToYmd(-719_894).year == -2
  {
    EdgeDays();
    DayNumberOfNextDay(Date(-2, 12, 31));
    assert NextDay(Date(-2, 12, 31)) == Date(-1, 1, 1);
    assert Valid(Date(-2, 12, 31)) && Valid(Date(-1, 1, 1));
    hide DaysFromCivil, CivilFromDays, DaysToYmd, NextDay, Valid;
    DaysFromCivilCorrect(Date(-1, 1, 1));
    DaysFromCivilCorrect(Date(-2, 12, 31));
    DaysToYmdExact(-719_893);
    DaysToYmdExact(-719_894);
  }

  /** The first second of year 10000 sorts before the second that precedes it. */
  lemma YearTenThousandSortsFirst()
    ensures Less(UnixToRfc3339(LAST_SECOND + 1), UnixToRfc3339(LAST_SECOND))
  {
    TextStartsWithYear(LAST_SECOND, Date(9999, 12, 31));
    TextStartsWithYear(LAST_SECOND + 1, Date(10_000, 1, 1));
    FirstDigits();
    hide UnixToRfc3339;
  }

  lemma TextStartsWithYear(unix: int, date: Date)
    requires Valid(date) && 0 <= date.year && unix / 86_400 in {2_932_896, 2_932_897}
    requires date == if unix / 86_400 == 2_932_896 then Date(9999, 12, 31) else Date(10_000, 1, 1)
    ensures UnixToRfc3339(unix) != "" && UnixToRfc3339(unix)[0] == Padded(date.year, 4)[0]
  {
    hide DaysFromCivil, CivilFromDays, Padded, DaysToYmd;
    EdgeDays();
    DayNumberOfNextDay(Date(9999, 12, 31));
    assert NextDay(Date(9999, 12, 31)) == Date(10_000, 1, 1);
    DaysFromCivilCorrect(date);
    DaysToYmdExact(unix / 86_400);
    assert |Padded(date.year, 4)| > 0 by { PaddedNotEmpty(date.year); }
  }

  lemma PaddedNotEmpty(n: nat)
    ensures |Padded(n, 4)| > 0
  {
  }

  lemma FirstDigits()
    ensures Padded(10_000, 4)[0] == '1' && Padded(9999, 4)[0] == '9'
  {
    assert Print(10) == "10" && Print(100) == "100" && Print(1000) == "1000";
    assert Print(10_000) == "10000";
    assert Print(99) == "99" && Print(999) == "999" && Print(9999) == "9999";
  }
}
