/**
 * Wall-clock calendar arithmetic on whole days.
 *
 * A calendar date is an integer day number: day 0 is 1970-01-01 (a Thursday),
 * day 1 is 1970-01-02 and day -1 is 1969-12-31.  Weekdays follow ISO 8601:
 * 1 is Monday and 7 is Sunday.  Civil (year, month, day) dates are the
 * proleptic Gregorian calendar, and `FormatDate` writes the extended
 * calendar-date form YYYY-MM-DD of section 4.1.2.2 of ISO 8601:2004, as
 * Luxon's `toFormat('yyyy-MM-dd')` does.
 */
module Dates {

  type Day = int

  /** The Luxon English short weekday names, indexed by ISO weekday - 1. */
  const WeekdayNames: seq<string> := ["Mon", "Tue", "Wed", "Thu", "Fri", "Sat", "Sun"]

  /** ISO weekday of a day: 1 (Monday) .. 7 (Sunday). */
  function Weekday(d: Day): (w: int)
    ensures 1 <= w <= 7
    ensures d == 0 ==> w == 4
  {
    (d + 3) % 7 + 1
  }

  /** Consecutive days have consecutive weekdays, wrapping from Sunday to Monday. */
  lemma WeekdaySucc(d: Day)
    ensures Weekday(d + 1) == if Weekday(d) == 7 then 1 else Weekday(d) + 1
  {
  }

  /** The weekday repeats every seven days. */
  lemma WeekdayPeriodic(d: Day, k: int)
    ensures Weekday(d + 7 * k) == Weekday(d)
  {
  }

  /** Luxon's `toFormat('ccc')` in the English locale. */
  function DayName(d: Day): (name: string)
    ensures name == WeekdayNames[Weekday(d) - 1]
    ensures |name| == 3
  {
    WeekdayNames[Weekday(d) - 1]
  }

  /** The weekday names are pairwise distinct, so a name determines its weekday. */
  lemma DayNameDetermines(a: Day, b: Day)
    ensures DayName(a) == DayName(b) <==> Weekday(a) == Weekday(b)
  {
    var i, j := Weekday(a) - 1, Weekday(b) - 1;
    if i != j {
      assert WeekdayNames[i][0] != WeekdayNames[j][0] || WeekdayNames[i][1] != WeekdayNames[j][1];
    }
  }

  /** Luxon's `startOf('week')`: the Monday on or before `d`. */
  function StartOfWeek(d: Day): (monday: Day)
    ensures Weekday(monday) == 1
    ensures monday <= d < monday + 7
  {
    d - (Weekday(d) - 1)
  }

  /** Two days are in the same Monday-based week iff their week starts agree. */
  predicate SameWeek(a: Day, b: Day)
  {
    StartOfWeek(a) == StartOfWeek(b)
  }

  /** The week start of a Monday is that Monday, and week starts move in steps of seven days. */
  lemma StartOfWeekShift(d: Day, k: int)
    ensures StartOfWeek(d + 7 * k) == StartOfWeek(d) + 7 * k
    ensures StartOfWeek(StartOfWeek(d)) == StartOfWeek(d)
  {
    WeekdayPeriodic(d, k);
  }

  /** Week starts are monotone in the day. */
  lemma StartOfWeekMonotone(a: Day, b: Day)
    requires a <= b
    ensures StartOfWeek(a) <= StartOfWeek(b)
    ensures StartOfWeek(a) < StartOfWeek(b) ==> StartOfWeek(a) + 7 <= StartOfWeek(b)
  {
    var sa, sb := StartOfWeek(a), StartOfWeek(b);
    // Both are Mondays, so they differ by a multiple of seven.
    assert (sa + 3) % 7 == 0 && (sb + 3) % 7 == 0;
    assert (sb - sa) % 7 == 0;
  }

  /** The week of `a` is the seven days from its Monday on. */
  lemma InWeekOf(a: Day, b: Day)
    ensures SameWeek(a, b) <==> StartOfWeek(a) <= b < StartOfWeek(a) + 7
  {
    var m := StartOfWeek(a);
    if m <= b < m + 7 {
      assert (b + 3) % 7 == (m + 3) % 7 + (b - m);
    }
  }

  /** Within seven consecutive days each weekday occurs once. */
  lemma WeekdayWithinWeek(a: Day, b: Day)
    requires a <= b < a + 7 && Weekday(a) == Weekday(b)
    ensures a == b
  {
    assert (b - a) % 7 == 0;
  }

  // ---------------------------------------------------------------------
  // Civil dates

  datatype Civil = Civil(year: int, month: int, day: int)

  /** Days from 1970-01-01 to the given proleptic Gregorian date (H. Hinnant's `days_from_civil`). */
  function DaysFromCivil(y: int, m: int, d: int): Day
  {
    var y' := if m <= 2 then y - 1 else y;
    var era := y' / 400;
    var yoe := y' - era * 400;
    var mp := (m + 9) % 12;
    var doy := (153 * mp + 2) / 5 + d - 1;
    var doe := yoe * 365 + yoe / 4 - yoe / 100 + doy;
    era * 146097 + doe - 719468
  }

  /**
   * The civil date of a day number.  Eras are 400-year cycles that start on
   * 1 March; inside an era the day of era is split into centuries of 36524
   * days (the last of 36525), four-year cycles of 1461 days and years of 365
   * days, the leap day being the last day of a March-based year.
   */
  function ToCivil(z: Day): (c: Civil)
    ensures 1 <= c.month <= 12 && 1 <= c.day <= 31
    ensures DaysFromCivil(c.year, c.month, c.day) == z
  {
    var z' := z + 719468;
    CivilOfEraDay(z' / 146097, z' % 146097)
  }

  /** The civil date of day `doe` of the 400-year era `era`. */
  function CivilOfEraDay(era: int, doe: int): (c: Civil)
    requires 0 <= doe < 146097
    ensures 1 <= c.month <= 12 && 1 <= c.day <= 31
    ensures DaysFromCivil(c.year, c.month, c.day) == era * 146097 + doe - 719468
  {
    var (yoe, doy) := SplitEra(doe);
    var (m, d) := MonthDay(doy);
    var y := yoe + era * 400;
    DaysFromCivilOf(era, yoe, m, d);
    Civil(if m <= 2 then y + 1 else y, m, d)
  }

  /** `DaysFromCivil` of a date whose March-based year is year `yoe` of era `era`. */
  lemma DaysFromCivilOf(era: int, yoe: int, m: int, d: int)
    requires 0 <= yoe < 400
    ensures var y := yoe + era * 400;
      DaysFromCivil(if m <= 2 then y + 1 else y, m, d) ==
        era * 146097 + (yoe * 365 + yoe / 4 - yoe / 100 + (153 * ((m + 9) % 12) + 2) / 5 + d - 1) - 719468
  {
    DivModUnique(yoe + era * 400, 400, era, yoe);
  }

  /**
   * Year of era (March-based) and day of that year for a day of era.
   * Centuries have 36524 days except the last (36525), four-year cycles
   * 1461, and the leap day is the last day of a March-based year.
   */
  function SplitEra(doe: int): (r: (int, int))
    requires 0 <= doe < 146097
    ensures 0 <= r.0 < 400 && 0 <= r.1 <= 365
    ensures doe == r.0 * 365 + r.0 / 4 - r.0 / 100 + r.1
  {
    var cent := if doe / 36524 < 3 then doe / 36524 else 3;
    var rc := doe - 36524 * cent;
    assert 0 <= rc <= 36524;
    var cyc := rc / 1461;
    var r4 := rc - 1461 * cyc;
    assert 0 <= cyc <= 24 && 0 <= r4 < 1461;
    var yr := if r4 / 365 < 3 then r4 / 365 else 3;
    var doy := r4 - 365 * yr;
    assert 0 <= yr <= 3 && 0 <= doy <= 365;
    var yoe := 100 * cent + 4 * cyc + yr;
    YearOfEraQuotients(cent, cyc, yr);
    (yoe, doy)
  }

  lemma YearOfEraQuotients(cent: int, cyc: int, yr: int)
    requires 0 <= cent <= 3 && 0 <= cyc <= 24 && 0 <= yr <= 3
    ensures (100 * cent + 4 * cyc + yr) / 4 == 25 * cent + cyc
    ensures (100 * cent + 4 * cyc + yr) / 100 == cent
  {
  }

  /** Month (1..12) and day of month of a March-based day of year. */
  function MonthDay(doy: int): (r: (int, int))
    requires 0 <= doy <= 365
    ensures 1 <= r.0 <= 12 && 1 <= r.1 <= 31
    ensures (153 * ((r.0 + 9) % 12) + 2) / 5 + r.1 - 1 == doy
  {
    var mp := (5 * doy + 2) / 153;
    assert 0 <= mp <= 11;
    var d := doy - (153 * mp + 2) / 5 + 1;
    var m := if mp < 10 then mp + 3 else mp - 9;
    assert (m + 9) % 12 == mp;
    (m, d)
  }

  /** Distinct days have distinct civil dates. */
  lemma ToCivilInjective(a: Day, b: Day)
    requires ToCivil(a) == ToCivil(b)
    ensures a == b
  {
  }

  /** Days in each month of a common (non-leap) year. */
  function DaysInCommonMonth(m: int): int
    requires 1 <= m <= 12
  {
    if m == 2 then 28 else if m == 4 || m == 6 || m == 9 || m == 11 then 30 else 31
  }

  /** The proleptic Gregorian leap-year rule. */
  predicate IsLeapYear(y: int)
  {
    (y % 4 == 0 && y % 100 != 0) || y % 400 == 0
  }

  /** Days in month `m` of year `y`: February has 29 days in a leap year. */
  function DaysInMonth(y: int, m: int): (n: int)
    requires 1 <= m <= 12
    ensures DaysInCommonMonth(m) <= n <= 31
    ensures n == 29 <==> m == 2 && IsLeapYear(y)
  {
    if m == 2 && IsLeapYear(y) then 29 else DaysInCommonMonth(m)
  }

  /** A March-based year of an era whose following February has a 29th. */
  predicate LeapYearOfEra(yoe: int)
  {
    yoe % 4 == 3 && (yoe % 100 != 99 || yoe == 399)
  }

  /** The calendar year after March-based year `yoe` of era `era` is leap exactly when `yoe` ends in a leap day. */
  lemma LeapYearOfEraIs(era: int, yoe: int)
    requires 0 <= yoe < 400
    ensures IsLeapYear(yoe + era * 400 + 1) <==> LeapYearOfEra(yoe)
  {
    var y := yoe + era * 400 + 1;
    DivModUnique(y, 4, era * 100 + (yoe + 1) / 4, (yoe + 1) % 4);
    DivModUnique(y, 100, era * 4 + (yoe + 1) / 100, (yoe + 1) % 100);
    DivModUnique(y, 400, era + (yoe + 1) / 400, (yoe + 1) % 400);
  }

  /** The era split gives day 365 (a leap day) only in a March-based year that ends in one. */
  lemma SplitEraLeap(doe: int)
    requires 0 <= doe < 146097
    ensures SplitEra(doe).1 == 365 ==> LeapYearOfEra(SplitEra(doe).0)
  {
    var cent := if doe / 36524 < 3 then doe / 36524 else 3;
    var rc := doe - 36524 * cent;
    assert 0 <= rc <= 36524 && (cent < 3 ==> rc < 36524);
    var cyc := rc / 1461;
    var r4 := rc - 1461 * cyc;
    assert 0 <= cyc <= 24 && 0 <= r4 < 1461;
    var yr := if r4 / 365 < 3 then r4 / 365 else 3;
    var yoe := 100 * cent + 4 * cyc + yr;
    assert SplitEra(doe) == (yoe, r4 - 365 * yr);
    if r4 - 365 * yr == 365 {
      assert yr == 3 && r4 == 1460;
      assert yoe % 4 == 3 && yoe % 100 == 4 * cyc + 3;
      if cyc == 24 {
        assert rc == 36524;
        assert cent == 3;
      }
    }
  }

  /** The day of month from a March-based day of year fits its month; day 365 is February 29. */
  lemma MonthDayFits(doy: int)
    requires 0 <= doy <= 365
    ensures doy <= 364 ==> MonthDay(doy).1 <= DaysInCommonMonth(MonthDay(doy).0)
    ensures doy == 365 ==> MonthDay(doy) == (2, 29)
  {
    var mp := (5 * doy + 2) / 153;
    assert 5 * doy + 2 < 153 * (mp + 1);
  }

  /** The civil date of every day number has a day that fits its month. */
  lemma ToCivilValid(z: Day)
    ensures ToCivil(z).day <= DaysInMonth(ToCivil(z).year, ToCivil(z).month)
  {
    CivilOfEraDayValid((z + 719468) / 146097, (z + 719468) % 146097);
  }

  /** The civil date of a day of era has a day that fits its month. */
  lemma CivilOfEraDayValid(era: int, doe: int)
    requires 0 <= doe < 146097
    ensures CivilOfEraDay(era, doe).day <= DaysInMonth(CivilOfEraDay(era, doe).year, CivilOfEraDay(era, doe).month)
  {
    var (yoe, doy) := SplitEra(doe);
    var (m, d) := MonthDay(doy);
    CivilOfEraDayIs(era, doe, yoe, doy, m, d);
    MonthDayFits(doy);
    if doy == 365 {
      SplitEraLeap(doe);
      LeapYearOfEraIs(era, yoe);
    }
  }

  /** The era split gives back the year and the day, the leap day (365) included in a year that has one. */
  lemma SplitEraUnique(yoe: int, doy: int)
    requires 0 <= yoe < 400 && (0 <= doy <= 364 || (doy == 365 && LeapYearOfEra(yoe)))
    ensures 0 <= yoe * 365 + yoe / 4 - yoe / 100 + doy < 146097
    ensures SplitEra(yoe * 365 + yoe / 4 - yoe / 100 + doy) == (yoe, doy)
  {
    var c, k, yr := yoe / 100, (yoe % 100) / 4, yoe % 4;
    assert yoe == 100 * c + 4 * k + yr;
    YearOfEraQuotients(c, k, yr);
    SplitEraAt(36524 * c + 1461 * k + 365 * yr + doy, c, k, yr, doy);
  }

  /** `SplitEra` of a day of era given by its century, four-year cycle, year and day. */
  lemma SplitEraAt(doe: int, c: int, k: int, yr: int, doy: int)
    requires 0 <= c <= 3 && 0 <= k <= 24 && 0 <= yr <= 3
    requires 0 <= doy <= 364 || (doy == 365 && yr == 3)
    requires 1461 * k + 365 * yr + doy <= 36523 || (c == 3 && k == 24)
    requires doe == 36524 * c + 1461 * k + 365 * yr + doy
    ensures 0 <= doe < 146097 && SplitEra(doe) == (100 * c + 4 * k + yr, doy)
  {
    var rc := 1461 * k + 365 * yr + doy;
    assert (if doe / 36524 < 3 then doe / 36524 else 3) == c;
    assert rc / 1461 == k;
    var r4 := 365 * yr + doy;
    assert (if r4 / 365 < 3 then r4 / 365 else 3) == yr;
  }

  /** The March-based day of year of a date; February 29 is day 365 and no other date is. */
  lemma MonthDayUnique(m: int, d: int)
    requires 1 <= m <= 12 && (1 <= d <= DaysInCommonMonth(m) || (m == 2 && d == 29))
    ensures 0 <= (153 * ((m + 9) % 12) + 2) / 5 + d - 1 <= 365
    ensures (153 * ((m + 9) % 12) + 2) / 5 + d - 1 == 365 <==> m == 2 && d == 29
    ensures MonthDay((153 * ((m + 9) % 12) + 2) / 5 + d - 1) == (m, d)
  {
    if m == 2 && d == 29 {
      assert (m + 9) % 12 == 11;
      assert (153 * 11 + 2) / 5 + d - 1 == 365;
      assert (5 * 365 + 2) / 153 == 11;
    } else {
      var mp := if m >= 3 then m - 3 else m + 9;
      assert (m + 9) % 12 == mp;
      var doy := (153 * mp + 2) / 5 + d - 1;
      assert (5 * doy + 2) / 153 == mp;
    }
  }

  /** `ToCivil` inverts `DaysFromCivil` on every valid date, February 29 of a leap year included. */
  lemma CivilRoundTrip(y: int, m: int, d: int)
    requires 1 <= m <= 12 && 1 <= d <= DaysInMonth(y, m)
    ensures ToCivil(DaysFromCivil(y, m, d)) == Civil(y, m, d)
  {
    var y' := if m <= 2 then y - 1 else y;
    var era := y' / 400;
    var yoe := y' - era * 400;
    var mp := (m + 9) % 12;
    var doy := (153 * mp + 2) / 5 + d - 1;
    assert 0 <= doy <= 365 && (doy == 365 <==> m == 2 && d == 29) && MonthDay(doy) == (m, d) by {
      MonthDayUnique(m, d);
    }
    if doy == 365 {
      assert y == yoe + era * 400 + 1;
      LeapYearOfEraIs(era, yoe);
    }
    var doe := yoe * 365 + yoe / 4 - yoe / 100 + doy;
    assert 0 <= doe < 146097 && SplitEra(doe) == (yoe, doy) by {
      SplitEraUnique(yoe, doy);
    }
    assert CivilOfEraDay(era, doe) == Civil(y, m, d) by {
      CivilOfEraDayIs(era, doe, yoe, doy, m, d);
    }
    var z := DaysFromCivil(y, m, d);
    assert z + 719468 == era * 146097 + doe;
    ToCivilIs(z, era, doe);
  }

  /** `ToCivil` from a decomposition of the shifted day number into era and day of era. */
  lemma ToCivilIs(z: Day, era: int, doe: int)
    requires 0 <= doe < 146097 && z + 719468 == era * 146097 + doe
    ensures ToCivil(z) == CivilOfEraDay(era, doe)
  {
    DivModUnique(z + 719468, 146097, era, doe);
    assert ToCivil(z) == CivilOfEraDay((z + 719468) / 146097, (z + 719468) % 146097);
  }

  /** Distributivity for one step of induction on a multiplier. */
  lemma MulStep(a: int, n: int)
    ensures (a + 1) * n == a * n + n
  {
  }
  /** A larger multiplier of a positive number is larger by at least that number. */
  lemma {:induction false} MulGapStrict(a: int, b: int, n: int)
    requires n > 0 && a > b
    ensures a * n >= b * n + n
    decreases a - b
  {
    MulStep(a - 1, n);
    if a - 1 > b {
      MulGapStrict(a - 1, b, n);
    }
  }
  /** `MulGapStrict` as an implication. */
  lemma MulGap(a: int, b: int, n: int)
    requires n > 0
    ensures a > b ==> a * n >= b * n + n
  {
    if a > b {
      MulGapStrict(a, b, n);
    }
  }
  /** `CivilOfEraDay` from the results of its two splits. */
  lemma CivilOfEraDayIs(era: int, doe: int, yoe: int, doy: int, m: int, d: int)
    requires 0 <= doe < 146097 && SplitEra(doe) == (yoe, doy) && MonthDay(doy) == (m, d)
    ensures CivilOfEraDay(era, doe) == Civil(if m <= 2 then yoe + era * 400 + 1 else yoe + era * 400, m, d)
  {
  }

  /** Quotient and remainder are determined by a decomposition with the remainder in range. */
  lemma DivModUnique(x: int, n: int, q: int, r: int)
    requires n > 0 && 0 <= r < n && x == q * n + r
    ensures x / n == q && x % n == r
  {
    var q', r' := x / n, x % n;
    assert x == q' * n + r';
    MulGap(q, q', n);
    MulGap(q', q, n);
  }

  /** The Euclidean remainder has period `n`. */
  lemma ModPeriod(w: int, n: int)
    requires n > 0
    ensures (w + n) % n == w % n
  {
    DivModUnique(w, n, w / n, w % n);
    MulStep(w / n, n);
    DivModUnique(w + n, n, w / n + 1, w % n);
  }

  const Jan1st1900: Day := DaysFromCivil(1900, 1, 1)
  const Jan1st2100: Day := DaysFromCivil(2100, 1, 1)
  const Dec31st2100: Day := DaysFromCivil(2100, 12, 31)

  /** The three fixed bounds used by the template code, as day numbers. */
  lemma FixedBounds()
    ensures Jan1st1900 == -25567 && Jan1st2100 == 47482 && Dec31st2100 == 47846
    ensures Jan1st1900 < Jan1st2100 < Dec31st2100
  {
  }

  /** Luxon's `startOf('year')`: January 1 of the year containing `d`. */
  function StartOfYear(d: Day): Day
  {
    DaysFromCivil(ToCivil(d).year, 1, 1)
  }

  /** The start of a year is January 1 of the same year, and is its own start of year. */
  lemma StartOfYearIs(d: Day)
    ensures ToCivil(StartOfYear(d)) == Civil(ToCivil(d).year, 1, 1)
    ensures StartOfYear(StartOfYear(d)) == StartOfYear(d)
  {
    CivilRoundTrip(ToCivil(d).year, 1, 1);
  }

  // ---------------------------------------------------------------------
  // Formatting

  predicate IsDigit(c: char)
  {
    '0' <= c <= '9'
  }

  function DigitChar(k: int): (c: char)
    requires 0 <= k < 10
    ensures IsDigit(c)
  {
    (('0' as int) + k) as char
  }

  function DigitValue(c: char): int
    requires IsDigit(c)
  {
    (c as int) - ('0' as int)
  }

  /** Decimal digits of `n` without leading zeros. */
  function Digits(n: nat): (s: string)
    ensures |s| >= 1
    ensures forall i :: 0 <= i < |s| ==> IsDigit(s[i])
  {
    if n < 10 then [DigitChar(n)] else Digits(n / 10) + [DigitChar(n % 10)]
  }

  /** The numeric value of a string of decimal digits. */
  function DecimalValue(s: string): nat
    requires forall i :: 0 <= i < |s| ==> IsDigit(s[i])
  {
    if s == [] then 0 else DecimalValue(s[..|s| - 1]) * 10 + DigitValue(s[|s| - 1])
  }

  function Zeros(k: nat): (s: string)
    ensures |s| == k && forall i :: 0 <= i < k ==> s[i] == '0'
  {
    if k == 0 then [] else Zeros(k - 1) + ['0']
  }

  /** Luxon's `padStart`: left-pad with '0' to at least `width` characters. */
  function PadStart(n: nat, width: nat): (s: string)
    ensures |s| >= width
    ensures forall i :: 0 <= i < |s| ==> IsDigit(s[i])
  {
    var ds := Digits(n);
    if |ds| >= width then ds else Zeros(width - |ds|) + ds
  }

  /** Decimal value of a digit string ending in the digit `c`. */
  lemma DecimalValueSnoc(s: string, c: char)
    requires forall i :: 0 <= i < |s| ==> IsDigit(s[i])
    requires IsDigit(c)
    ensures DecimalValue(s + [c]) == DecimalValue(s) * 10 + DigitValue(c)
  {
    assert (s + [c])[..|s + [c]| - 1] == s;
  }

  /** Reading back the digits of `n` gives `n`. */
  lemma {:induction false} DigitsValue(n: nat)
    ensures DecimalValue(Digits(n)) == n
  {
    if n < 10 {
      assert Digits(n)[..0] == [];
    } else {
      DigitsValue(n / 10);
      DecimalValueSnoc(Digits(n / 10), DigitChar(n % 10));
    }
  }

  /** Leading zeros do not change the value of a digit string. */
  lemma {:induction false} ZerosValue(k: nat, s: string)
    requires forall i :: 0 <= i < |s| ==> IsDigit(s[i])
    ensures forall i :: 0 <= i < |Zeros(k) + s| ==> IsDigit((Zeros(k) + s)[i])
    ensures DecimalValue(Zeros(k) + s) == DecimalValue(s)
    decreases |s|
  {
    var t := Zeros(k) + s;
    assert forall i :: 0 <= i < |t| ==> IsDigit(t[i]) by {
      forall i | 0 <= i < |t| ensures IsDigit(t[i]) {
        if i < k { assert t[i] == Zeros(k)[i]; } else { assert t[i] == s[i - k]; }
      }
    }
    if s == [] {
      assert t == Zeros(k);
      ZerosAllZero(k);
    } else {
      var p := s[..|s| - 1];
      assert t == (Zeros(k) + p) + [s[|s| - 1]];
      assert s == p + [s[|s| - 1]];
      ZerosValue(k, p);
      DecimalValueSnoc(Zeros(k) + p, s[|s| - 1]);
      DecimalValueSnoc(p, s[|s| - 1]);
    }
  }

  lemma {:induction false} ZerosAllZero(k: nat)
    ensures DecimalValue(Zeros(k)) == 0
  {
    if k > 0 {
      ZerosAllZero(k - 1);
      DecimalValueSnoc(Zeros(k - 1), '0');
    }
  }

  /** A padded number reads back as itself, so padding is injective. */
  lemma PadStartValue(n: nat, width: nat)
    ensures DecimalValue(PadStart(n, width)) == n
  {
    DigitsValue(n);
    var ds := Digits(n);
    if |ds| < width {
      ZerosValue(width - |ds|, ds);
    }
  }

  /** Luxon's `yyyy` token: at least four digits, a leading '-' for negative years. */
  function FormatYear(y: int): (s: string)
    ensures |s| >= 4
    ensures forall i :: 0 <= i < |s| ==> IsDigit(s[i]) || s[i] == '-'
  {
    if y < 0 then "-" + PadStart(-y, 4) else PadStart(y, 4)
  }

  /** Luxon's `toFormat('yyyy-MM-dd')`. */
  function FormatDate(d: Day): (s: string)
    ensures |s| >= 10
    ensures forall i :: 0 <= i < |s| ==> IsDigit(s[i]) || s[i] == '-'
  {
    var c := ToCivil(d);
    FormatYear(c.year) + MonthDaySuffix(c)
  }

  lemma FormatYearInjective(a: int, b: int)
    requires FormatYear(a) == FormatYear(b)
    ensures a == b
  {
    FormatYearRead(a);
    FormatYearRead(b);
  }

  /** A formatted year gives back its sign from the first character and its magnitude from the digits. */
  lemma FormatYearRead(y: int)
    ensures (FormatYear(y)[0] == '-') == (y < 0)
    ensures y < 0 ==> DecimalValue(FormatYear(y)[1..]) == -y
    ensures y >= 0 ==> DecimalValue(FormatYear(y)) == y
  {
    if y < 0 {
      assert FormatYear(y)[1..] == PadStart(-y, 4);
      PadStartValue(-y, 4);
    } else {
      assert IsDigit(PadStart(y, 4)[0]);
      PadStartValue(y, 4);
    }
  }

  /**
   * The year field of Luxon's `toISODate()`: four digits for years 0..9999,
   * otherwise a sign (`+` or `-`) and six digits.
   */
  function IsoYear(y: int): (s: string)
    ensures |s| >= 4
    ensures 0 <= y <= 9999 ==> |s| == 4
    ensures y > 9999 || y < 0 ==> |s| >= 7
    ensures forall i :: 0 <= i < |s| ==> IsDigit(s[i]) || s[i] == '-' || s[i] == '+'
  {
    if y > 9999 then "+" + PadStart(y, 6)
    else if y < 0 then "-" + PadStart(-y, 6)
    else
      assert Pow10(4) == 10000;
      DigitsAtMost(y, 4);
      PadStart(y, 4)
  }

  /** An ISO year gives back its range from the first character and its magnitude from the digits. */
  lemma IsoYearRead(y: int)
    ensures (IsoYear(y)[0] == '+') == (y > 9999)
    ensures (IsoYear(y)[0] == '-') == (y < 0)
    ensures y > 9999 ==> DecimalValue(IsoYear(y)[1..]) == y
    ensures y < 0 ==> DecimalValue(IsoYear(y)[1..]) == -y
    ensures 0 <= y <= 9999 ==> DecimalValue(IsoYear(y)) == y
  {
    if y > 9999 {
      assert IsoYear(y)[1..] == PadStart(y, 6);
      PadStartValue(y, 6);
    } else if y < 0 {
      assert IsoYear(y)[1..] == PadStart(-y, 6);
      PadStartValue(-y, 6);
    } else {
      assert IsDigit(PadStart(y, 4)[0]);
      PadStartValue(y, 4);
    }
  }

  lemma IsoYearInjective(a: int, b: int)
    requires IsoYear(a) == IsoYear(b)
    ensures a == b
  {
    IsoYearRead(a);
    IsoYearRead(b);
  }

  /** Within years 0..9999 the ISO year is the `yyyy` field. */
  lemma IsoYearFourDigits(y: int)
    requires 0 <= y <= 9999
    ensures IsoYear(y) == FormatYear(y)
  {
  }

  /** Two-digit fields are exactly two characters for values below 100. */
  lemma PadStartTwo(n: nat)
    requires 1 <= n <= 31
    ensures |PadStart(n, 2)| == 2
  {
    if n >= 10 {
      assert |Digits(n / 10)| == 1;
    }
  }

  /** Splitting a concatenation whose right parts have equal lengths. */
  lemma SplitAtSuffix(x: string, t: string, x': string, t': string)
    requires x + t == x' + t' && |t| == |t'|
    ensures x == x' && t == t'
  {
    assert x == (x + t)[..|x|];
    assert x' == (x' + t')[..|x'|];
    assert t == (x + t)[|x|..];
    assert t' == (x' + t')[|x'|..];
  }

  /** The fixed-width month and day part "-MM-dd" of a formatted date. */
  function MonthDaySuffix(c: Civil): (s: string)
    requires 1 <= c.month <= 12 && 1 <= c.day <= 31
    ensures |s| == 6 && s[1..3] == PadStart(c.month, 2) && s[4..6] == PadStart(c.day, 2)
    ensures s[0] == '-' && s[3] == '-' && forall i :: 0 <= i < 6 && i != 0 && i != 3 ==> IsDigit(s[i])
  {
    PadStartTwo(c.month);
    PadStartTwo(c.day);
    "-" + PadStart(c.month, 2) + "-" + PadStart(c.day, 2)
  }

  /** Distinct days format to distinct strings. */
  lemma FormatDateInjective(a: Day, b: Day)
    requires FormatDate(a) == FormatDate(b)
    ensures a == b
  {
    var ca, cb := ToCivil(a), ToCivil(b);
    var ta, tb := MonthDaySuffix(ca), MonthDaySuffix(cb);
    SplitAtSuffix(FormatYear(ca.year), ta, FormatYear(cb.year), tb);
    PadStartValue(ca.month, 2);
    PadStartValue(cb.month, 2);
    PadStartValue(ca.day, 2);
    PadStartValue(cb.day, 2);
    FormatYearInjective(ca.year, cb.year);
    assert ca == cb;
    ToCivilInjective(a, b);
  }

  /** Luxon's `toISODate()`: the ISO year, then "-MM-dd". */
  function IsoDate(d: Day): (s: string)
    ensures |s| >= 10
    ensures forall i :: 0 <= i < |s| ==> IsDigit(s[i]) || s[i] == '-' || s[i] == '+'
  {
    var c := ToCivil(d);
    IsoYear(c.year) + MonthDaySuffix(c)
  }

  /** Distinct days have distinct ISO dates. */
  lemma IsoDateInjective(a: Day, b: Day)
    requires IsoDate(a) == IsoDate(b)
    ensures a == b
  {
    var ca, cb := ToCivil(a), ToCivil(b);
    var ta, tb := MonthDaySuffix(ca), MonthDaySuffix(cb);
    SplitAtSuffix(IsoYear(ca.year), ta, IsoYear(cb.year), tb);
    PadStartValue(ca.month, 2);
    PadStartValue(cb.month, 2);
    PadStartValue(ca.day, 2);
    PadStartValue(cb.day, 2);
    IsoYearInjective(ca.year, cb.year);
    assert ca == cb;
    ToCivilInjective(a, b);
  }

  function Pow10(k: nat): nat
  {
    if k == 0 then 1 else 10 * Pow10(k - 1)
  }

  /** A number below 10^k has at most k digits. */
  lemma {:induction false} DigitsAtMost(n: nat, k: nat)
    requires 1 <= k && n < Pow10(k)
    ensures |Digits(n)| <= k
    decreases k
  {
    if n >= 10 {
      assert k >= 2;
      assert n / 10 < Pow10(k - 1);
      DigitsAtMost(n / 10, k - 1);
    }
  }

  /**
   * `toISODate()` and `toFormat('yyyy-MM-dd')` agree in years 0..9999 and
   * differ after 9999 (the `+` sign) and in years -99999..-1 (six digits against four or five).
   */
  lemma IsoDateAgrees(d: Day)
    ensures 0 <= ToCivil(d).year <= 9999 ==> IsoDate(d) == FormatDate(d)
    ensures ToCivil(d).year > 9999 || -100000 < ToCivil(d).year < 0 ==> IsoDate(d) != FormatDate(d)
  {
    var c := ToCivil(d);
    var suffix := MonthDaySuffix(c);
    assert IsoDate(d) == IsoYear(c.year) + suffix;
    assert FormatDate(d) == FormatYear(c.year) + suffix;
    if c.year > 9999 {
      assert IsoDate(d)[0] == IsoYear(c.year)[0] == '+';
      assert FormatDate(d)[0] == FormatYear(c.year)[0];
    } else if -100000 < c.year < 0 {
      DigitsAtMost(-c.year, 5);
      assert |IsoYear(c.year)| == 7;
      assert |FormatYear(c.year)| <= 6;
    } else if 0 <= c.year {
      assert IsoYear(c.year) == FormatYear(c.year);
    }
  }
}
