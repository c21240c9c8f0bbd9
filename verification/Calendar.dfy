/** Broken-down calendar time: the branch-free conversion of `time64_to_tm`,
    proved against a calendar that counts days one year and one month at a time. */
module Calendar {
  import opened CInts

  // ------------------------------------------------------------------
  // The simple calendar: section 3.2.1 of ISO 8601:2004.
  // Months are numbered 0..11 and 1970-01-01 is day 0.

  predicate IsLeapYear(year: int) {
    year % 4 == 0 && (year % 100 != 0 || year % 400 == 0)
  }

  function DaysInYear(year: int): int {
    if IsLeapYear(year) then 366 else 365
  }

  function DaysInMonth(year: int, mon: int): int
    requires 0 <= mon < 12
  {
    if mon == 1 then (if IsLeapYear(year) then 29 else 28)
    else if mon == 3 || mon == 5 || mon == 8 || mon == 10 then 30
    else 31
  }

  /** Day number of January 1st: whole years are added or taken away one by one. */
  ghost function YearStart(year: int): int
    decreases if year < 1970 then 1970 - year else year - 1970
  {
    if year == 1970 then 0
    else if year > 1970 then YearStart(year - 1) + DaysInYear(year - 1)
    else YearStart(year + 1) - DaysInYear(year)
  }

  /** Days of the year that precede month `mon`. */
  ghost function MonthStart(year: int, mon: int): int
    requires 0 <= mon <= 12
  {
    if mon == 0 then 0 else MonthStart(year, mon - 1) + DaysInMonth(year, mon - 1)
  }

  ghost predicate ValidDate(year: int, mon: int, mday: int) {
    0 <= mon < 12 && 1 <= mday <= DaysInMonth(year, mon)
  }

  ghost function DayCount(year: int, mon: int, mday: int): int
    requires 0 <= mon < 12
  {
    YearStart(year) + MonthStart(year, mon) + mday - 1
  }

  // ------------------------------------------------------------------
  // Properties of the simple calendar.

  lemma QuotientSteps(year: int)
    ensures year / 4 == (year - 1) / 4 + if year % 4 == 0 then 1 else 0
    ensures year / 100 == (year - 1) / 100 + if year % 100 == 0 then 1 else 0
    ensures year / 400 == (year - 1) / 400 + if year % 400 == 0 then 1 else 0
    ensures year % 400 == 0 ==> year % 100 == 0
    ensures year % 100 == 0 ==> year % 4 == 0
  {
  }

  lemma {:induction false} YearStartClosedForm(year: int)
    ensures YearStart(year)
         == 365 * (year - 1970) + (year - 1) / 4 - (year - 1) / 100 + (year - 1) / 400 - 477
    decreases if year < 1970 then 1970 - year else year - 1970
  {
    if year > 1970 {
      YearStartClosedForm(year - 1);
      QuotientSteps(year - 1);
    } else if year < 1970 {
      YearStartClosedForm(year + 1);
      QuotientSteps(year);
    }
  }

  /** Month lengths, with March first, do not depend on the leap year. */
  lemma {:induction false} MonthStarts(year: int)
    ensures MonthStart(year, 1) == 31
    ensures var f := if IsLeapYear(year) then 60 else 59;
      && MonthStart(year, 2) == f && MonthStart(year, 3) == f + 31 && MonthStart(year, 4) == f + 61
      && MonthStart(year, 5) == f + 92 && MonthStart(year, 6) == f + 122 && MonthStart(year, 7) == f + 153
      && MonthStart(year, 8) == f + 184 && MonthStart(year, 9) == f + 214 && MonthStart(year, 10) == f + 245
      && MonthStart(year, 11) == f + 275 && MonthStart(year, 12) == f + 306
  {
    forall mon: int | 0 <= mon < 12
      ensures MonthStart(year, mon + 1) == MonthStart(year, mon) + DaysInMonth(year, mon)
    {
    }
    assert MonthStart(year, 1 + 1) == MonthStart(year, 1) + DaysInMonth(year, 1);
  }

  lemma {:induction false} YearStartMonotone(y1: int, y2: int)
    requires y1 < y2
    ensures YearStart(y1) + DaysInYear(y1) <= YearStart(y2)
    decreases y2 - y1
  {
    if y1 + 1 < y2 {
      YearStartMonotone(y1 + 1, y2);
    }
    YearStartClosedForm(y1);
    YearStartClosedForm(y1 + 1);
  }

  /** A day of the calendar has one name only. */
  lemma DayCountInjective(y1: int, m1: int, d1: int, y2: int, m2: int, d2: int)
    requires ValidDate(y1, m1, d1) && ValidDate(y2, m2, d2)
    requires DayCount(y1, m1, d1) == DayCount(y2, m2, d2)
    ensures y1 == y2 && m1 == m2 && d1 == d2
  {
    MonthStarts(y1);
    MonthStarts(y2);
    if y1 < y2 {
      YearStartMonotone(y1, y2);
    } else if y2 < y1 {
      YearStartMonotone(y2, y1);
    }
  }

  // ------------------------------------------------------------------
  // The conversion as the driver computes it.

  const SECS_PER_HOUR: int := 60 * 60
  const SECS_PER_DAY: int := SECS_PER_HOUR * 24

  /** The fields of `struct tm` that the conversion fills. */
  datatype Tm = Tm(sec: int, min: int, hour: int, mday: int, mon: int, year: int, wday: int, yday: int)

  /** What broken-down time means: the valid date, weekday, day of the year and time of day of second `t`. */
  ghost predicate DenotesInstant(tm: Tm, t: int) {
    && ValidDate(tm.year + 1900, tm.mon, tm.mday)
    && DayCount(tm.year + 1900, tm.mon, tm.mday) == t / SECS_PER_DAY
    && YearStart(tm.year + 1900) + tm.yday == t / SECS_PER_DAY
    && 0 <= tm.hour < 24 && 0 <= tm.min < 60 && 0 <= tm.sec < 60
    && tm.hour * SECS_PER_HOUR + tm.min * 60 + tm.sec == t % SECS_PER_DAY
    && tm.wday == (t / SECS_PER_DAY + 4) % 7  // 1970-01-01 was a Thursday
  }

  /** An instant has one broken-down time. */
  lemma InstantHasOneTm(tm1: Tm, tm2: Tm, t: int)
    requires DenotesInstant(tm1, t) && DenotesInstant(tm2, t)
    ensures tm1 == tm2
  {
    DayCountInjective(tm1.year + 1900, tm1.mon, tm1.mday, tm2.year + 1900, tm2.mon, tm2.mday);
    TimeOfDayUnique(tm1.hour, tm1.min, tm1.sec, tm2.hour, tm2.min, tm2.sec);
  }

  lemma TimeOfDayUnique(h1: int, m1: int, s1: int, h2: int, m2: int, s2: int)
    requires 0 <= m1 < 60 && 0 <= s1 < 60 && 0 <= m2 < 60 && 0 <= s2 < 60
    requires h1 * SECS_PER_HOUR + m1 * 60 + s1 == h2 * SECS_PER_HOUR + m2 * 60 + s2
    ensures h1 == h2 && m1 == m2 && s1 == s2
  {
    assert SECS_PER_HOUR == 3600;
  }

  datatype Date = Date(year: s64, mon: u32, mday: u32, yday: u32)

  /** A day of the computational calendar, whose year starts on March 1st. */
  datatype MarchDate = MarchDate(year: u64, dayOfYear: u32, isLeapYear: bool)

  /** Proposition 6.3 of Neri and Schneider, in the widths the driver uses: the March-based year. */
  function MarchDateOfDay(days: s64): MarchDate {
    var udays := ToU64(ToU64(days) + 2305843009213814918);
    var century := ToU64(4 * udays + 3) / 146097;
    var dayOfCentury := ToU32(ToU64(4 * udays + 3) % 146097 / 4);
    var scaled := ToU64(2939745 * ToU32(4 * dayOfCentury + 3));
    var yearOfCentury := scaled / TWO_32;
    var dayOfYear := scaled % TWO_32 / 2939745 / 4;
    var year := ToU64(100 * century + yearOfCentury);
    var isLeapYear := if yearOfCentury != 0 then yearOfCentury % 4 == 0 else century % 4 == 0;
    MarchDate(year, dayOfYear, isLeapYear)
  }

  /** Its month and day, converted to the Gregorian calendar and to the fields of `struct tm`. */
  function DateOfMarchDate(m: MarchDate): Date {
    var packed := ToU32(2141 * m.dayOfYear + 132377);
    var month := packed / TWO_16;
    var day := packed % TWO_16 / 2141;
    var isJanOrFeb := m.dayOfYear >= 306;
    Date(
      ToS64(ToU64(m.year + (if isJanOrFeb then 1 else 0) - 6313183731940000 - 1900)),
      if isJanOrFeb then ToU32(month - 12) else month,
      day + 1,
      ToU32(m.dayOfYear + if isJanOrFeb then -306 else 31 + 28 + if m.isLeapYear then 1 else 0))
  }

  function DateOfDay(days: s64): Date {
    DateOfMarchDate(MarchDateOfDay(days))
  }

  // ------------------------------------------------------------------
  // The computational calendar: the year starts on March 1st.

  const EPOCH_SHIFT: int := 719468
  const BIAS_ERAS: int := 15782959329850

  /** Day number of March 1st of `year`, counted from March 1st of year 0. */
  function MarchStart(year: int): int {
    365 * year + year / 4 - year / 100 + year / 400
  }

  lemma MarchStartIsDayCount(year: int)
    ensures DayCount(year, 2, 1) == MarchStart(year) - EPOCH_SHIFT
    ensures DayCount(year + 1, 0, 1) == MarchStart(year) + 306 - EPOCH_SHIFT
  {
    YearStartClosedForm(year);
    YearStartClosedForm(year + 1);
    MonthStarts(year);
    MonthStarts(year + 1);
  }

  /** 2939745 * 1461 = 2^32 + 149, so one multiplication divides by 1461 and keeps the remainder. */
  lemma YearByMultiplication(n: int)
    requires 0 <= n < 146100
    ensures 2939745 * n / TWO_32 == n / 1461
    ensures 2939745 * n % TWO_32 / 2939745 == n % 1461
  {
    var q, r := n / 1461, n % 1461;
    assert n == 1461 * q + r && 0 <= q < 100;
    var low := 149 * q + 2939745 * r;
    assert 2939745 * n == TWO_32 * q + low && 0 <= low < TWO_32;
    assert low / 2939745 == r;
  }

  /** Start of the month in the computational calendar; March is month 2, February month 13. */
  function ComputationalMonthStart(month: int): int
    requires 2 <= month <= 13
  {
    if month == 2 then 0 else if month == 3 then 31 else if month == 4 then 61
    else if month == 5 then 92 else if month == 6 then 122 else if month == 7 then 153
    else if month == 8 then 184 else if month == 9 then 214 else if month == 10 then 245
    else if month == 11 then 275 else if month == 12 then 306 else 337
  }

  /** The affine map 2141 * d + 132377 holds the month in its high half and the day in its low half. */
  lemma MonthByMultiplication(dayOfYear: int, month: int)
    requires 0 <= dayOfYear <= 365 && 2 <= month <= 13
    requires ComputationalMonthStart(month) <= dayOfYear
    requires dayOfYear < if month == 13 then 366 else ComputationalMonthStart(month + 1)
    ensures (2141 * dayOfYear + 132377) / TWO_16 == month
    ensures (2141 * dayOfYear + 132377) % TWO_16 / 2141 == dayOfYear - ComputationalMonthStart(month)
  {
    var k := dayOfYear - ComputationalMonthStart(month);
    var c := 2141 * ComputationalMonthStart(month) + 132377 - TWO_16 * month;
    assert 0 <= c < 2141;
    assert 2141 * dayOfYear + 132377 == TWO_16 * month + (2141 * k + c);
    assert 0 <= 2141 * k + c < TWO_16;
    assert (2141 * k + c) / 2141 == k;
  }

  /** Splitting off centuries of 36524 or 36525 days. */
  lemma CenturySplit(n: int, c: int, doc: int)
    requires c == (4 * n + 3) / 146097 && doc == (4 * n + 3) % 146097 / 4
    ensures n == 36524 * c + c / 4 + doc
    ensures 0 <= doc <= 36524
    ensures doc == 36524 ==> c % 4 == 3
  {
    var r := (4 * n + 3) % 146097;
    assert 4 * n + 3 == 146097 * c + r;
    assert r == 4 * doc + r % 4;
    assert c == 4 * (c / 4) + c % 4;
    assert (c % 4 + r % 4) % 4 == 3;
  }

  /** Splitting off years of 365 or 366 days. */
  lemma YearSplit(doc: int, q: int, doy: int)
    requires 0 <= doc <= 36524
    requires q == (4 * doc + 3) / 1461 && doy == (4 * doc + 3) % 1461 / 4
    ensures doc == 365 * q + q / 4 + doy
    ensures 0 <= q <= 99 && 0 <= doy <= 365
    ensures doy == 365 ==> q % 4 == 3
    ensures doy == 365 && q == 99 ==> doc == 36524
  {
    var r := (4 * doc + 3) % 1461;
    assert 4 * doc + 3 == 1461 * q + r;
    assert r == 4 * doy + r % 4;
    assert q == 4 * (q / 4) + q % 4;
    assert (q % 4 + r % 4) % 4 == 3;
  }

  /** The digits of a year, by eras of 400 years, centuries and years. */
  lemma YearDigits(a: int, b: int, q: int)
    requires 0 <= b < 4 && 0 <= q <= 99
    ensures var y := 400 * a + 100 * b + q;
      && y / 4 == 100 * a + 25 * b + q / 4 && y % 4 == q % 4
      && y / 100 == 4 * a + b && y % 100 == q
      && y / 400 == a && y % 400 == 100 * b + q
  {
  }

  /** March of a year ends with a leap day before it exactly when the next year is leap. */
  lemma LeapAhead(a: int, b: int, q: int)
    requires 0 <= b < 4 && 0 <= q <= 99 && q % 4 == 3 && (q == 99 ==> b == 3)
    ensures IsLeapYear(400 * a + 100 * b + q + 1)
  {
    if q == 99 {
      YearDigits(a + 1, 0, 0);
    } else {
      YearDigits(a, b, q + 1);
    }
  }

  /** Centuries and years together name a March-based year. */
  lemma MarchYear(n: int, c: int, doc: int, q: int, doy: int)
    requires n == 36524 * c + c / 4 + doc
    requires doc == 365 * q + q / 4 + doy && 0 <= q <= 99
    requires doy == 365 ==> q % 4 == 3
    requires doy == 365 && q == 99 ==> c % 4 == 3
    ensures n == MarchStart(100 * c + q) + doy
    ensures doy == 365 ==> IsLeapYear(100 * c + q + 1)
    ensures IsLeapYear(100 * c + q) == if q != 0 then q % 4 == 0 else c % 4 == 0
  {
    var a, b := c / 4, c % 4;
    assert c == 4 * a + b;
    YearDigits(a, b, q);
    if doy == 365 {
      LeapAhead(a, b, q);
    }
  }

  /** The computational month and the day within it, for each day of the March-based year. */
  lemma MonthOfDay(doy: int) returns (month: int)
    requires 0 <= doy <= 365
    ensures 2 <= month <= 13
    ensures ComputationalMonthStart(month) <= doy
    ensures doy < if month == 13 then 366 else ComputationalMonthStart(month + 1)
    ensures doy >= 306 <==> month >= 12
  {
    month := if doy < 31 then 2 else if doy < 61 then 3 else if doy < 92 then 4 else if doy < 122 then 5
             else if doy < 153 then 6 else if doy < 184 then 7 else if doy < 214 then 8 else if doy < 245 then 9
             else if doy < 275 then 10 else if doy < 306 then 11 else if doy < 337 then 12 else 13;
  }

  /** From the computational calendar back to the Gregorian one. */
  lemma GregorianOfMarch(y: int, doy: int, month: int)
    requires 0 <= doy <= 365 && 2 <= month <= 13
    requires ComputationalMonthStart(month) <= doy
    requires doy < if month == 13 then 366 else ComputationalMonthStart(month + 1)
    requires doy == 365 ==> IsLeapYear(y + 1)
    ensures var late := month >= 12;
      var year, mon := if late then y + 1 else y, if late then month - 12 else month;
      var mday := doy - ComputationalMonthStart(month) + 1;
      var yday := if late then doy - 306 else doy + if IsLeapYear(y) then 60 else 59;
      && ValidDate(year, mon, mday)
      && DayCount(year, mon, mday) == MarchStart(y) + doy - EPOCH_SHIFT
      && yday == MonthStart(year, mon) + mday - 1
  {
    MarchStartIsDayCount(y);
    MonthStarts(y);
    MonthStarts(y + 1);
  }

  /** The intermediate values of the conversion, free of wrap-around. */
  lemma UnbiasedDay(days: s64)
    requires -0x8000_0000_0000 <= days < 0x8000_0000_0000
    ensures var n := days + EPOCH_SHIFT;
      var udays := ToU64(ToU64(days) + 2305843009213814918);
      && ToU64(4 * udays + 3) / 146097 == (4 * n + 3) / 146097 + 4 * BIAS_ERAS
      && ToU64(4 * udays + 3) % 146097 == (4 * n + 3) % 146097
  {
    var n := days + EPOCH_SHIFT;
    var udays := ToU64(ToU64(days) + 2305843009213814918);
    assert udays == n + 146097 * BIAS_ERAS;
    assert ToU64(4 * udays + 3) == (4 * n + 3) + 146097 * (4 * BIAS_ERAS);
  }

  /** The driver's century, year and day of the year, free of wrap-around. */
  lemma MarchDateParts(days: s64, c: int, doc: int, q: int, doy: int)
    requires -0x8000_0000_0000 <= days < 0x8000_0000_0000
    requires c == (4 * (days + EPOCH_SHIFT) + 3) / 146097
    requires doc == (4 * (days + EPOCH_SHIFT) + 3) % 146097 / 4
    requires 0 <= doc <= 36524
    requires q == (4 * doc + 3) / 1461 && doy == (4 * doc + 3) % 1461 / 4
    ensures MarchDateOfDay(days)
         == MarchDate(100 * c + q + 6313183731940000, doy,
                      if q != 0 then q % 4 == 0 else (c + 4 * BIAS_ERAS) % 4 == 0)
  {
    UnbiasedDay(days);
    assert ToU32(doc) == doc;
    assert ToU32(4 * doc + 3) == 4 * doc + 3;
    ScaledYear(doc);
    BiasedYear(days, c, q);
  }

  lemma BiasedYear(days: int, c: int, q: int)
    requires -0x8000_0000_0000 <= days < 0x8000_0000_0000
    requires c == (4 * (days + EPOCH_SHIFT) + 3) / 146097 && 0 <= q < 100
    ensures ToU64(100 * (c + 4 * BIAS_ERAS) + q) == 100 * c + q + 6313183731940000
  {
    assert -0x8000_0000_0000 <= 100 * c <= 0x8000_0000_0000;
  }

  lemma ScaledYear(doc: int)
    requires 0 <= doc <= 36524
    ensures ToU64(2939745 * (4 * doc + 3)) / TWO_32 == (4 * doc + 3) / 1461
    ensures ToU64(2939745 * (4 * doc + 3)) % TWO_32 / 2939745 / 4 == (4 * doc + 3) % 1461 / 4
  {
    YearByMultiplication(4 * doc + 3);
  }

  /** Every day lies in one March-based year; these are its century, year and day. */
  lemma MarchYearOfDay(n: int, c: int, doc: int, q: int, doy: int)
    requires c == (4 * n + 3) / 146097 && doc == (4 * n + 3) % 146097 / 4
    requires q == (4 * doc + 3) / 1461 && doy == (4 * doc + 3) % 1461 / 4
    ensures 0 <= doc <= 36524 && 0 <= q <= 99 && 0 <= doy <= 365
    ensures n == MarchStart(100 * c + q) + doy
    ensures doy == 365 ==> IsLeapYear(100 * c + q + 1)
    ensures IsLeapYear(100 * c + q) == if q != 0 then q % 4 == 0 else (c + 4 * BIAS_ERAS) % 4 == 0
  {
    CenturySplit(n, c, doc);
    YearSplit(doc, q, doy);
    MarchYear(n, c, doc, q, doy);
    ErasKeepLeapCentury(c);
  }

  lemma ErasKeepLeapCentury(c: int)
    ensures (c + 4 * BIAS_ERAS) % 4 == c % 4
  {
  }

  /** The March-based year the driver computes is the true one, shifted by 400-year eras. */
  lemma MarchDateIsExact(days: s64) returns (y: int, m: MarchDate)
    requires -0x8000_0000_0000 <= days < 0x8000_0000_0000
    ensures m == MarchDateOfDay(days)
    ensures m.year == y + 6313183731940000
    ensures days + EPOCH_SHIFT == MarchStart(y) + m.dayOfYear
    ensures 0 <= m.dayOfYear <= 365
    ensures m.dayOfYear == 365 ==> IsLeapYear(y + 1)
    ensures m.isLeapYear == IsLeapYear(y)
    ensures -0x8000_0000_0000 <= y < 0x8000_0000_0000
  {
    var c, doc := (4 * (days + EPOCH_SHIFT) + 3) / 146097, (4 * (days + EPOCH_SHIFT) + 3) % 146097 / 4;
    var q, doy := (4 * doc + 3) / 1461, (4 * doc + 3) % 1461 / 4;
    MarchYearOfDay(days + EPOCH_SHIFT, c, doc, q, doy);
    MarchDateParts(days, c, doc, q, doy);
    y := 100 * c + q;
    m := MarchDateOfDay(days);
  }

  /** Month, day and year of the driver's result, free of wrap-around. */
  lemma DateOfMarchDateIsExact(m: MarchDate, y: int, month: int)
    requires m.year == y + 6313183731940000 && -0x8000_0000_0000 <= y < 0x8000_0000_0000
    requires 0 <= m.dayOfYear <= 365 && 2 <= month <= 13
    requires ComputationalMonthStart(month) <= m.dayOfYear
    requires m.dayOfYear < if month == 13 then 366 else ComputationalMonthStart(month + 1)
    requires m.dayOfYear >= 306 <==> month >= 12
    ensures var date := DateOfMarchDate(m);
      && date.year + 1900 == (if month >= 12 then y + 1 else y)
      && date.mon == (if month >= 12 then month - 12 else month)
      && date.mday == m.dayOfYear - ComputationalMonthStart(month) + 1
      && date.yday == if month >= 12 then m.dayOfYear - 306
                      else m.dayOfYear + if m.isLeapYear then 60 else 59
  {
    MonthByMultiplication(m.dayOfYear, month);
    assert ToU32(2141 * m.dayOfYear + 132377) == 2141 * m.dayOfYear + 132377;
  }

  /** Main result on dates: the fast conversion names the day the simple count names. */
  lemma DateOfDayRefinesDayCount(days: s64)
    requires -0x8000_0000_0000 <= days < 0x8000_0000_0000
    ensures var date := DateOfDay(days);
      && ValidDate(date.year + 1900, date.mon, date.mday)
      && DayCount(date.year + 1900, date.mon, date.mday) == days
      && YearStart(date.year + 1900) + date.yday == days
  {
    var y, m := MarchDateIsExact(days);
    var month := MonthOfDay(m.dayOfYear);
    GregorianOfMarch(y, m.dayOfYear, month);
    DateOfMarchDateIsExact(m, y, month);
  }

  /** Days and seconds of the day of `totalsecs + offset`, by the driver's adjustment loops. */
  method SplitDays(totalsecs: s64, offset: s32) returns (days: int, rem: int)
    ensures days == (totalsecs + offset) / SECS_PER_DAY
    ensures rem == (totalsecs + offset) % SECS_PER_DAY
  {
    days := TruncDiv(totalsecs, SECS_PER_DAY);
    rem := TruncMod(totalsecs, SECS_PER_DAY) + offset;
    while rem < 0
      invariant 86400 * days + rem == totalsecs + offset
    {
      rem := rem + SECS_PER_DAY;
      days := days - 1;
    }
    while rem >= SECS_PER_DAY
      invariant 86400 * days + rem == totalsecs + offset
      invariant rem >= 0
    {
      rem := rem - SECS_PER_DAY;
      days := days + 1;
    }
  }

  /** `time64_to_tm`: seconds since the epoch, plus an offset, to broken-down time. */
  method Time64ToTm(totalsecs: s64, offset: s32) returns (tm: Tm)
    ensures DenotesInstant(tm, totalsecs + offset)
  {
    var days, rem := SplitDays(totalsecs, offset);
    assert SECS_PER_HOUR == 3600;
    var hour := rem / SECS_PER_HOUR;
    var rest := rem % SECS_PER_HOUR;
    var min, sec := rest / 60, rest % 60;

    var wday := TruncMod(4 + days, 7);
    if wday < 0 {
      wday := wday + 7;
    }
    assert wday == (days + 4) % 7;

    DateOfDayRefinesDayCount(days);
    var date := DateOfDay(days);
    tm := Tm(sec, min, hour, date.mday, date.mon, date.year, wday, date.yday);
  }
}
