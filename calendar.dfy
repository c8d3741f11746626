/** Calendar subtraction as the date-fns functions `subDays`, `subMonths`,
    `subYears` and `subSeconds` perform it, on instants counted in
    milliseconds from 1970-01-01T00:00:00Z. Local time is taken to be UTC.
    Month and year subtraction keep the time of day and clamp the day of the
    month to the length of the target month. */
module Calendar {

  const SecondMs := 1000
  const DayMs := 86_400_000

  datatype Civil = Civil(year: int, month: int, day: int)

  predicate IsLeapYear(y: int)
  {
    y % 4 == 0 && (y % 100 != 0 || y % 400 == 0)
  }

  function DaysInMonth(y: int, m: int): (n: int)
    requires 1 <= m <= 12
    ensures 28 <= n <= 31
    ensures n == 28 <==> m == 2 && !IsLeapYear(y)
  {
    if m == 2 then (if IsLeapYear(y) then 29 else 28)
    else if m == 4 || m == 6 || m == 9 || m == 11 then 30
    else 31
  }

  // The conversions between day numbers and dates count 400-year eras from
  // 1 March of year 0, with March as month 0 of each year. Each step is a
  // function of its own so that a concrete date is computed one division
  // at a time.

  /** The year that holds January and February of date year `y` and month `m`
      in the March-based count. */
  function MarchYear(y: int, m: int): int
  {
    if m <= 2 then y - 1 else y
  }

  /** The day of a March-based year on which month `m` (1..12) starts. */
  function MonthStart(m: int): int
  {
    (153 * (if m > 2 then m - 3 else m + 9) + 2) / 5
  }

  /** The days from the start of an era to the start of year `yoe` of it. */
  function YearStart(yoe: int): int
  {
    yoe * 365 + yoe / 4 - yoe / 100
  }

  /** Days from 1970-01-01 to the given proleptic Gregorian date. */
  function DaysFromCivil(y: int, m: int, d: int): int
    requires 1 <= m <= 12
  {
    (MarchYear(y, m) / 400) * 146097 + YearStart(MarchYear(y, m) % 400) + MonthStart(m) + d - 1 - 719468
  }

  /** The era of day `z`. */
  function Era(z: int): int
  {
    (z + 719468) / 146097
  }

  /** The day of its era that day `z` is. */
  function DayOfEra(z: int): int
  {
    (z + 719468) % 146097
  }

  /** The year of its era that day `doe` of the era falls in. */
  function YearOfEra(doe: int): int
  {
    (doe - doe / 1460 + doe / 36524 - doe / 146096) / 365
  }

  /** The day of its March-based year that day `doe` of the era is. */
  function DayOfYear(doe: int): int
  {
    doe - YearStart(YearOfEra(doe))
  }

  /** The March-based month that day `doy` of the year falls in. */
  function MonthIndex(doy: int): int
  {
    (5 * doy + 2) / 153
  }

  /** The day of its month that day `doy` of the year is. */
  function DayOfMonth(doy: int): int
  {
    doy - (153 * MonthIndex(doy) + 2) / 5 + 1
  }

  /** The calendar month of March-based month `mp`. */
  function CalendarMonth(mp: int): int
  {
    if mp < 10 then mp + 3 else mp - 9
  }

  /** The proleptic Gregorian date of the day `z` days after 1970-01-01. */
  function CivilFromDays(z: int): Civil
  {
    Civil(
      YearOfEra(DayOfEra(z)) + Era(z) * 400 + (if CalendarMonth(MonthIndex(DayOfYear(DayOfEra(z)))) <= 2 then 1 else 0),
      CalendarMonth(MonthIndex(DayOfYear(DayOfEra(z)))),
      DayOfMonth(DayOfYear(DayOfEra(z))))
  }

  /** date-fns `subDays`: whole days back, time of day kept. */
  function SubDays(t: int, n: int): (r: int)
    ensures r / DayMs == t / DayMs - n && r % DayMs == t % DayMs
  {
    DayOfInstant(t - n * DayMs, t / DayMs - n, t % DayMs);
    t - n * DayMs
  }

  /** date-fns `subSeconds`: whole seconds back, the milliseconds within the
      second kept. */
  function SubSeconds(t: int, n: int): (r: int)
    ensures r / SecondMs == t / SecondMs - n && r % SecondMs == t % SecondMs
  {
    SecondOfInstant(t - n * SecondMs, t / SecondMs - n, t % SecondMs);
    t - n * SecondMs
  }

  /** The month count (year × 12 + month index) `n` months before date `c`. */
  function MonthsBack(c: Civil, n: int): int
  {
    c.year * 12 + (c.month - 1) - n
  }

  /** The day `n` months before date `c`: the same day of the month, or the
      last day of the target month when it is shorter. */
  function SubMonthsCivil(c: Civil, n: int): int
  {
    DaysFromCivil(MonthsBack(c, n) / 12, MonthsBack(c, n) % 12 + 1,
      if c.day <= DaysInMonth(MonthsBack(c, n) / 12, MonthsBack(c, n) % 12 + 1) then c.day
      else DaysInMonth(MonthsBack(c, n) / 12, MonthsBack(c, n) % 12 + 1))
  }

  /** date-fns `subMonths`: the day moves as `SubMonthsCivil` says, and the
      time of day is kept. */
  function SubMonths(t: int, n: int): (r: int)
    ensures r % DayMs == t % DayMs
  {
    KeepsTimeOfDay(SubMonthsCivil(CivilFromDays(t / DayMs), n), t % DayMs);
    SubMonthsCivil(CivilFromDays(t / DayMs), n) * DayMs + t % DayMs
  }

  /** date-fns `subYears`, which is `subMonths` by twelve times as many. */
  function SubYears(t: int, n: int): (r: int)
    ensures r % DayMs == t % DayMs
  {
    SubMonths(t, 12 * n)
  }

  lemma KeepsTimeOfDay(days: int, tod: int)
    requires 0 <= tod < DayMs
    ensures (days * DayMs + tod) % DayMs == tod
  {
  }

  /** At midnight, month subtraction is a subtraction of days. */
  lemma SubMonthsAtMidnight(z: int, n: int)
    ensures SubMonths(z * DayMs, n) == SubMonthsCivil(CivilFromDays(z), n) * DayMs
  {
    KeepsTimeOfDay(z, 0);
    assert (z * DayMs) / DayMs == z;
  }

  /** The instant of midnight UTC at the start of the given date. */
  function Midnight(y: int, m: int, d: int): int
    requires 1 <= m <= 12
  {
    DaysFromCivil(y, m, d) * DayMs
  }

  // ---------------------------------------------------------------------
  // Day numbers and dates are inverse to each other. An era-day is split
  // into its century, four-year group, year and day, so that each division
  // in `YearOfEra` is computed on bounded parts.

  /** The length of era-year `yoe`, which holds the February of the next
      calendar year: a leap year every fourth year, except at the end of a
      century other than the last of the era. */
  function YearLength(yoe: int): int
  {
    if (yoe + 1) % 4 == 0 && ((yoe + 1) % 100 != 0 || yoe == 399) then 366 else 365
  }

  // Divisions by a constant of a multiple of it plus a remainder.

  lemma Div4(q: int, rest: int)
    requires 0 <= rest < 4
    ensures (4 * q + rest) / 4 == q && (4 * q + rest) % 4 == rest
  {
  }

  lemma Div100(q: int, rest: int)
    requires 0 <= rest < 100
    ensures (100 * q + rest) / 100 == q && (100 * q + rest) % 100 == rest
  {
  }

  lemma Div365(q: int, rest: int)
    requires 0 <= rest < 365
    ensures (365 * q + rest) / 365 == q
  {
  }

  lemma Div400(q: int, rest: int)
    requires 0 <= rest < 400
    ensures (400 * q + rest) / 400 == q && (400 * q + rest) % 400 == rest
  {
  }

  /** A day of the era, written with its century `c`, the four-year group `q`
      within the century, the year `r` within the group and the day `doy`
      within the year. */
  function EraDay(c: int, q: int, r: int, doy: int): int
  {
    36524 * c + 1461 * q + 365 * r + doy
  }

  /** Where era-year `100c + 4q + r` starts. */
  lemma YearStartParts(c: int, q: int, r: int)
    requires 0 <= c <= 3 && 0 <= q <= 24 && 0 <= r <= 3
    ensures YearStart(100 * c + 4 * q + r) == EraDay(c, q, r, 0)
  {
    Div4(25 * c + q, r);
    Div100(c, 4 * q + r);
  }

  /** The correction terms of `YearOfEra`: the last day of the era is the
      only one that counts a fourth century and a 400-year cycle, and a day
      counts one more four-year group exactly when it is late in a leap
      group. */
  lemma YearOfEraTerms(c: int, q: int, r: int, doy: int)
    requires 0 <= c <= 3 && 0 <= q <= 24 && 0 <= r <= 3
    requires 0 <= doy < YearLength(100 * c + 4 * q + r)
    ensures EraDay(c, q, r, doy) / 146096 == (if c == 3 && q == 24 && r == 3 && doy == 365 then 1 else 0)
    ensures EraDay(c, q, r, doy) / 36524 == c + EraDay(c, q, r, doy) / 146096
    ensures EraDay(c, q, r, doy) / 1460 == 25 * c + q + (if r == 3 && doy >= 365 - 24 * c - q then 1 else 0)
  {
  }

  lemma YearOfEraParts(c: int, q: int, r: int, doy: int)
    requires 0 <= c <= 3 && 0 <= q <= 24 && 0 <= r <= 3
    requires 0 <= doy < YearLength(100 * c + 4 * q + r)
    ensures YearStart(100 * c + 4 * q + r) == EraDay(c, q, r, 0)
    ensures YearOfEra(EraDay(c, q, r, doy)) == 100 * c + 4 * q + r
  {
    YearStartParts(c, q, r);
    YearOfEraTerms(c, q, r, doy);
    var late := if r == 3 && doy >= 365 - 24 * c - q then 1 else 0;
    assert EraDay(c, q, r, doy) - EraDay(c, q, r, doy) / 1460 + EraDay(c, q, r, doy) / 36524 - EraDay(c, q, r, doy) / 146096
        == 365 * (100 * c + 4 * q + r) + (doy - late);
    Div365(100 * c + 4 * q + r, doy - late);
  }

  /** Writes a day of the era as `EraDay(c, q, r, doy)`. */
  lemma SplitEraDay(doe: int) returns (c: int, q: int, r: int, doy: int)
    requires 0 <= doe < 146097
    ensures 0 <= c <= 3 && 0 <= q <= 24 && 0 <= r <= 3
    ensures 0 <= doy < YearLength(100 * c + 4 * q + r)
    ensures doe == EraDay(c, q, r, doy)
  {
    c := if doe / 36524 < 3 then doe / 36524 else 3;
    var inCentury := doe - 36524 * c;
    assert 0 <= inCentury <= 36524 && (inCentury == 36524 ==> c == 3);
    q := inCentury / 1461;
    var inGroup := inCentury - 1461 * q;
    assert 0 <= q <= 24 && 0 <= inGroup < 1461;
    r := if inGroup / 365 < 3 then inGroup / 365 else 3;
    doy := inGroup - 365 * r;
    assert 0 <= doy <= 365;
    assert doy == 365 ==> r == 3 && (q != 24 || c == 3);
  }

  /** Every day of an era falls in the era-year `YearOfEra` gives. */
  lemma YearOfEraBounds(doe: int)
    requires 0 <= doe < 146097
    ensures 0 <= YearOfEra(doe) < 400
    ensures YearStart(YearOfEra(doe)) <= doe < YearStart(YearOfEra(doe)) + YearLength(YearOfEra(doe))
  {
    var c, q, r, doy := SplitEraDay(doe);
    YearOfEraParts(c, q, r, doy);
  }

  /** `YearOfEra` finds the era-year of each of its days. */
  lemma YearOfEraOf(yoe: int, doy: int)
    requires 0 <= yoe < 400 && 0 <= doy < YearLength(yoe)
    ensures YearOfEra(YearStart(yoe) + doy) == yoe
  {
    var c, q, r := yoe / 100, yoe % 100 / 4, yoe % 100 % 4;
    assert yoe % 100 == 4 * q + r;
    assert yoe == 100 * c + 4 * q + r;
    YearOfEraParts(c, q, r, doy);
    assert YearStart(yoe) + doy == EraDay(c, q, r, doy);
  }

  /** The day of the March-based year on which March-based month `mp` starts. */
  function MarchMonthStart(mp: int): int
  {
    (153 * mp + 2) / 5
  }

  /** Every day of a March-based year falls in the month `MonthIndex` gives. */
  lemma MonthIndexBounds(doy: int)
    requires 0 <= doy < 366
    ensures 0 <= MonthIndex(doy) <= 11
    ensures MarchMonthStart(MonthIndex(doy)) <= doy < MarchMonthStart(MonthIndex(doy) + 1)
  {
  }

  /** `MonthIndex` finds the month of each of its days. */
  lemma MonthIndexOf(mp: int, k: int)
    requires 0 <= mp <= 11 && 0 <= k < MarchMonthStart(mp + 1) - MarchMonthStart(mp)
    ensures MonthIndex(MarchMonthStart(mp) + k) == mp
  {
  }

  /** Away from February, the length of a month is the distance to the start
      of the next March-based month. */
  lemma MonthLengths(y: int, m: int)
    requires 1 <= m <= 12 && m != 2
    ensures MonthStart(m) == MarchMonthStart(if m > 2 then m - 3 else m + 9)
    ensures DaysInMonth(y, m) == MarchMonthStart((if m > 2 then m - 3 else m + 9) + 1) - MonthStart(m)
  {
  }

  /** A March-based year of an era is long exactly when the calendar year
      holding its February is a leap year. */
  lemma LeapOfEraYear(e: int, yoe: int)
    requires 0 <= yoe < 400
    ensures IsLeapYear(400 * e + yoe + 1) <==> YearLength(yoe) == 366
  {
    EraYearMods(e, yoe + 1);
    assert (yoe + 1) % 400 == 0 <==> yoe == 399;
  }

  /** Whole eras do not change a year's remainders by 4, 100 and 400. */
  lemma EraYearMods(e: int, w: int)
    requires 1 <= w <= 400
    ensures (400 * e + w) % 4 == w % 4
    ensures (400 * e + w) % 100 == w % 100
    ensures (400 * e + w) % 400 == w % 400
  {
    EraYearMod4(e, w);
    EraYearMod100(e, w);
    EraYearMod400(e, w);
  }

  lemma EraYearMod400(e: int, w: int)
    ensures (400 * e + w) % 400 == w % 400
  {
  }

  lemma EraYearMod4(e: int, w: int)
    requires 1 <= w <= 400
    ensures (400 * e + w) % 4 == w % 4
  {
  }

  lemma EraYearMod100(e: int, w: int)
    ensures (400 * e + w) % 100 == w % 100
  {
  }

  /** The era and the day of the era of a day number. */
  lemma EraOf(z: int, e: int, doe: int)
    requires 0 <= doe < 146097 && z == e * 146097 + doe - 719468
    ensures Era(z) == e && DayOfEra(z) == doe
  {
  }

  /** A date of the proleptic Gregorian calendar. */
  predicate ValidDate(c: Civil)
  {
    1 <= c.month <= 12 && 1 <= c.day <= DaysInMonth(c.year, c.month)
  }

  /** The day number of a date: days since 1970-01-01. */
  function DayNumber(c: Civil): int
    requires 1 <= c.month <= 12
  {
    DaysFromCivil(c.year, c.month, c.day)
  }

  /** The day number of a date, given by its era, its year of the era, its
      March-based month and its day. */
  lemma DayNumberParts(e: int, yoe: int, mp: int, d: int)
    requires 0 <= yoe < 400 && 0 <= mp <= 11
    ensures DaysFromCivil(400 * e + yoe + (if mp >= 10 then 1 else 0), CalendarMonth(mp), d)
            == e * 146097 + YearStart(yoe) + MarchMonthStart(mp) + d - 1 - 719468
  {
    var m := CalendarMonth(mp);
    assert MarchYear(400 * e + yoe + (if mp >= 10 then 1 else 0), m) == 400 * e + yoe;
    assert (400 * e + yoe) / 400 == e && (400 * e + yoe) % 400 == yoe;
    assert MonthStart(m) == MarchMonthStart(mp);
  }

  /** The date of a day number given by its era, its year of the era, its
      March-based month and its day. */
  lemma CivilOfParts(z: int, e: int, yoe: int, mp: int, d: int)
    requires 0 <= yoe < 400 && 0 <= mp <= 11 && 1 <= d
    requires MarchMonthStart(mp) + d - 1 < YearLength(yoe)
    requires d - 1 < MarchMonthStart(mp + 1) - MarchMonthStart(mp)
    requires z == e * 146097 + YearStart(yoe) + MarchMonthStart(mp) + d - 1 - 719468
    ensures CivilFromDays(z) == Civil(400 * e + yoe + (if mp >= 10 then 1 else 0), CalendarMonth(mp), d)
  {
    var doy := MarchMonthStart(mp) + d - 1;
    var doe := YearStart(yoe) + doy;
    EraOf(z, e, doe);
    YearOfEraOf(yoe, doy);
    assert DayOfYear(doe) == doy;
    MonthIndexOf(mp, d - 1);
  }

  /** `CivilFromDays` inverts `DaysFromCivil` on every date. */
  lemma CivilOfDayNumber(c: Civil)
    requires ValidDate(c)
    ensures CivilFromDays(DayNumber(c)) == c
  {
    var Y := MarchYear(c.year, c.month);
    var e, yoe := Y / 400, Y % 400;
    var mp := if c.month > 2 then c.month - 3 else c.month + 9;
    assert c.year == 400 * e + yoe + (if mp >= 10 then 1 else 0);
    assert c.month == CalendarMonth(mp);
    if c.month == 2 {
      LeapOfEraYear(e, yoe);
    } else {
      MonthLengths(c.year, c.month);
    }
    DayNumberParts(e, yoe, mp, c.day);
    CivilOfParts(DayNumber(c), e, yoe, mp, c.day);
  }

  /** Writes the date of a day number with the parts `CivilOfParts` takes. */
  lemma SplitDayNumber(z: int) returns (e: int, yoe: int, mp: int, d: int)
    ensures 0 <= yoe < 400 && 0 <= mp <= 11 && 1 <= d
    ensures MarchMonthStart(mp) + d - 1 < YearLength(yoe)
    ensures d - 1 < MarchMonthStart(mp + 1) - MarchMonthStart(mp)
    ensures z == e * 146097 + YearStart(yoe) + MarchMonthStart(mp) + d - 1 - 719468
    ensures CivilFromDays(z) == Civil(400 * e + yoe + (if mp >= 10 then 1 else 0), CalendarMonth(mp), d)
  {
    e := Era(z);
    var doe := DayOfEra(z);
    YearOfEraBounds(doe);
    yoe := YearOfEra(doe);
    var doy := DayOfYear(doe);
    MonthIndexBounds(doy);
    mp := MonthIndex(doy);
    d := DayOfMonth(doy);
  }

  /** The parts `SplitDayNumber` gives always make a date. */
  lemma ValidOfParts(e: int, yoe: int, mp: int, d: int)
    requires 0 <= yoe < 400 && 0 <= mp <= 11 && 1 <= d
    requires MarchMonthStart(mp) + d - 1 < YearLength(yoe)
    requires d - 1 < MarchMonthStart(mp + 1) - MarchMonthStart(mp)
    ensures ValidDate(Civil(400 * e + yoe + (if mp >= 10 then 1 else 0), CalendarMonth(mp), d))
  {
    var y, m := 400 * e + yoe + (if mp >= 10 then 1 else 0), CalendarMonth(mp);
    if m == 2 {
      LeapOfEraYear(e, yoe);
    } else {
      MonthLengths(y, m);
    }
  }

  /** Every day number is the number of the date `CivilFromDays` gives. */
  lemma DayNumberOfCivil(z: int)
    ensures ValidDate(CivilFromDays(z))
    ensures DayNumber(CivilFromDays(z)) == z
  {
    var e, yoe, mp, d := SplitDayNumber(z);
    ValidOfParts(e, yoe, mp, d);
    DayNumberParts(e, yoe, mp, d);
  }

  /** Within an era, each era-year starts where the one before it ends. */
  lemma YearStartStep(yoe: int)
    requires 0 <= yoe < 399
    ensures YearStart(yoe + 1) == YearStart(yoe) + YearLength(yoe)
  {
    var c, q, r := yoe / 100, yoe % 100 / 4, yoe % 100 % 4;
    assert yoe % 100 == 4 * q + r;
    assert yoe == 100 * c + 4 * q + r;
    YearStartParts(c, q, r);
    YearLengthParts(c, q, r);
    if r < 3 {
      YearStartParts(c, q, r + 1);
    } else if q < 24 {
      YearStartParts(c, q + 1, 0);
    } else {
      YearStartParts(c + 1, 0, 0);
    }
  }

  /** Era-year `100c + 4q + r` is long when it ends a four-year group, unless
      that group ends a century other than the last of the era. */
  lemma YearLengthParts(c: int, q: int, r: int)
    requires 0 <= c <= 3 && 0 <= q <= 24 && 0 <= r <= 3
    ensures YearLength(100 * c + 4 * q + r) == if r == 3 && (q != 24 || c == 3) then 366 else 365
  {
    var w := 100 * c + 4 * q + r + 1;
    if r < 3 {
      Div4(25 * c + q, r + 1);
      assert w == 4 * (25 * c + q) + (r + 1);
    } else {
      Div4(25 * c + q + 1, 0);
      assert w == 4 * (25 * c + q + 1) + 0;
      Div100(c + (if q == 24 then 1 else 0), if q == 24 then 0 else 4 * q + 4);
      assert w == 100 * (c + (if q == 24 then 1 else 0)) + (if q == 24 then 0 else 4 * q + 4);
    }
  }

  /** The day number of 1 March of calendar year `y`, one era-year after
      era-year `yoe` of era `e` starts. */
  lemma NextYearStart(y: int, e: int, yoe: int)
    requires 0 <= yoe < 400 && y == 400 * e + yoe + 1
    ensures y / 400 * 146097 + YearStart(y % 400) == e * 146097 + YearStart(yoe) + YearLength(yoe)
  {
    if yoe == 399 {
      Div400(e + 1, 0);
      assert YearStart(399) == 145731;
    } else {
      Div400(e, yoe + 1);
      YearStartStep(yoe);
    }
  }

  /** Stepping back over the start of a month inside a March-based year. */
  lemma MonthStep(y: int, m: int)
    requires 2 <= m <= 12 && m != 3
    ensures MarchYear(y, m) == MarchYear(y, m - 1)
    ensures MonthStart(m) == MonthStart(m - 1) + DaysInMonth(y, m - 1)
  {
  }

  /** The calendar day before `c`. */
  function PrevDay(c: Civil): Civil
    requires ValidDate(c)
  {
    if c.day > 1 then Civil(c.year, c.month, c.day - 1)
    else if c.month > 1 then Civil(c.year, c.month - 1, DaysInMonth(c.year, c.month - 1))
    else Civil(c.year - 1, 12, 31)
  }

  /** The day before a date is a date, and its day number is one less. */
  lemma PrevDayNumber(c: Civil)
    requires ValidDate(c)
    ensures ValidDate(PrevDay(c))
    ensures DayNumber(PrevDay(c)) == DayNumber(c) - 1
  {
    if c.day > 1 {
    } else if c.month == 3 {
      var Y := c.year - 1;
      var e, yoe := Y / 400, Y % 400;
      assert c.year == 400 * e + yoe + 1;
      LeapOfEraYear(e, yoe);
      NextYearStart(c.year, e, yoe);
      assert DayNumber(c) == e * 146097 + YearStart(yoe) + YearLength(yoe) - 719468;
      assert DayNumber(PrevDay(c)) == e * 146097 + YearStart(yoe) + 337 + DaysInMonth(c.year, 2) - 1 - 719468;
    } else if c.month > 1 {
      MonthStep(c.year, c.month);
    } else {
      assert MarchYear(c.year, 1) == MarchYear(c.year - 1, 12);
      assert MonthStart(1) == MonthStart(12) + 31;
    }
  }

  /** The date `k` calendar days before `c`, counted one day at a time. */
  function DaysBefore(c: Civil, k: nat): (r: Civil)
    requires ValidDate(c)
    ensures ValidDate(r)
    decreases k
  {
    if k == 0 then c
    else
      PrevDayNumber(c);
      DaysBefore(PrevDay(c), k - 1)
  }

  // ---------------------------------------------------------------------
  // What the subtractions do to dates.

  /** The day and the time of day of an instant. */
  lemma DayOfInstant(t: int, days: int, tod: int)
    requires 0 <= tod < DayMs && t == days * DayMs + tod
    ensures t / DayMs == days && t % DayMs == tod
  {
  }

  /** The second and the millisecond within it of an instant. */
  lemma SecondOfInstant(t: int, seconds: int, ms: int)
    requires 0 <= ms < SecondMs && t == seconds * SecondMs + ms
    ensures t / SecondMs == seconds && t % SecondMs == ms
  {
  }

  /** Counting back `k` days one at a time lowers the day number by `k`. */
  lemma {:induction false} DaysBeforeNumber(c: Civil, k: nat)
    requires ValidDate(c)
    ensures DayNumber(DaysBefore(c, k)) == DayNumber(c) - k
    decreases k
  {
    if k > 0 {
      var p := PrevDay(c);
      PrevDayNumber(c);
      assert DaysBefore(c, k) == DaysBefore(p, k - 1);
      DaysBeforeNumber(p, k - 1);
    }
  }

  /** `subDays` from the midnight starting a date lands on the midnight
      starting the date `k` calendar days earlier, across the ends of months
      and years. */
  lemma SubDaysRule(c: Civil, k: nat)
    requires ValidDate(c)
    ensures SubDays(Midnight(c.year, c.month, c.day), k)
            == Midnight(DaysBefore(c, k).year, DaysBefore(c, k).month, DaysBefore(c, k).day)
    ensures CivilFromDays(SubDays(Midnight(c.year, c.month, c.day), k) / DayMs) == DaysBefore(c, k)
  {
    var before := DaysBefore(c, k);
    DaysBeforeNumber(c, k);
    var t := SubDays(Midnight(c.year, c.month, c.day), k);
    assert t == DayNumber(before) * DayMs + 0;
    DayOfInstant(t, DayNumber(before), 0);
    CivilOfDayNumber(before);
  }

  /** One second before the midnight that starts a date is 23:59:59 on the
      day before it. */
  lemma SecondBeforeMidnight(c: Civil)
    requires ValidDate(c)
    ensures CivilFromDays(SubSeconds(Midnight(c.year, c.month, c.day), 1) / DayMs) == PrevDay(c)
    ensures SubSeconds(Midnight(c.year, c.month, c.day), 1) % DayMs == DayMs - SecondMs
  {
    var before := PrevDay(c);
    PrevDayNumber(c);
    var t := SubSeconds(Midnight(c.year, c.month, c.day), 1);
    assert t == DayNumber(before) * DayMs + (DayMs - SecondMs);
    DayOfInstant(t, DayNumber(before), DayMs - SecondMs);
    CivilOfDayNumber(before);
  }

  /** Month subtraction on dates: the same day of the month `n` months
      earlier, or the last day of that month when it is shorter. */
  lemma SubMonthsCivilRule(c: Civil, n: int)
    requires ValidDate(c)
    ensures CivilFromDays(SubMonthsCivil(c, n))
            == Civil(MonthsBack(c, n) / 12, MonthsBack(c, n) % 12 + 1,
                     if c.day <= DaysInMonth(MonthsBack(c, n) / 12, MonthsBack(c, n) % 12 + 1) then c.day
                     else DaysInMonth(MonthsBack(c, n) / 12, MonthsBack(c, n) % 12 + 1))
  {
    var y, m := MonthsBack(c, n) / 12, MonthsBack(c, n) % 12 + 1;
    var target := Civil(y, m, if c.day <= DaysInMonth(y, m) then c.day else DaysInMonth(y, m));
    assert SubMonthsCivil(c, n) == DayNumber(target);
    CivilOfDayNumber(target);
  }

  /** `subMonths` on any instant: the date moves to the month `n` months
      earlier, keeping the day of the month or clamping it to the end of the
      target month, and the time of day is kept. */
  lemma SubMonthsRule(t: int, n: int)
    ensures var c, r := CivilFromDays(t / DayMs), CivilFromDays(SubMonths(t, n) / DayMs);
      && 1 <= r.month <= 12
      && r.year * 12 + r.month - 1 == c.year * 12 + c.month - 1 - n
      && r.day == (if c.day <= DaysInMonth(r.year, r.month) then c.day else DaysInMonth(r.year, r.month))
    ensures SubMonths(t, n) % DayMs == t % DayMs
  {
    var c := CivilFromDays(t / DayMs);
    DayNumberOfCivil(t / DayMs);
    SubMonthsCivilRule(c, n);
    DayOfInstant(SubMonths(t, n), SubMonthsCivil(c, n), t % DayMs);
  }

  /** `subYears` on any instant: the same month `n` years earlier, with the
      day clamped to the end of that month (29 February becomes 28 February
      outside leap years), and the time of day kept. */
  lemma SubYearsRule(t: int, n: int)
    ensures var c, r := CivilFromDays(t / DayMs), CivilFromDays(SubYears(t, n) / DayMs);
      && 1 <= r.month <= 12
      && r.year == c.year - n && r.month == c.month
      && r.day == (if c.day <= DaysInMonth(r.year, r.month) then c.day else DaysInMonth(r.year, r.month))
    ensures SubYears(t, n) % DayMs == t % DayMs
  {
    SubMonthsRule(t, 12 * n);
    DayNumberOfCivil(t / DayMs);
  }
  // ---------------------------------------------------------------------
  // Worked dates.

  /** 2019-03-31 is day 17986, in both directions. */
  lemma Day17986()
    ensures DaysFromCivil(2019, 3, 31) == 17986
    ensures CivilFromDays(17986) == Civil(2019, 3, 31)
  {
    assert MarchYear(2019, 3) == 2019;
    assert YearStart(19) == 6939;
    assert MonthStart(3) == 0;
    assert Era(17986) == 5;
    assert DayOfEra(17986) == 6969;
    assert YearOfEra(6969) == 19;
    assert YearStart(19) == 6939;
    assert DayOfYear(6969) == 30;
    assert MonthIndex(30) == 0;
    assert CalendarMonth(0) == 3;
    assert DayOfMonth(30) == 31;
  }

  /** 2020-03-31 is day 18352, in both directions. */
  lemma Day18352()
    ensures DaysFromCivil(2020, 3, 31) == 18352
    ensures CivilFromDays(18352) == Civil(2020, 3, 31)
  {
    assert MarchYear(2020, 3) == 2020;
    assert YearStart(20) == 7305;
    assert MonthStart(3) == 0;
    assert Era(18352) == 5;
    assert DayOfEra(18352) == 7335;
    assert YearOfEra(7335) == 20;
    assert YearStart(20) == 7305;
    assert DayOfYear(7335) == 30;
    assert MonthIndex(30) == 0;
    assert CalendarMonth(0) == 3;
    assert DayOfMonth(30) == 31;
  }

  /** 2019-03-01 is day 17956, in both directions. */
  lemma Day17956()
    ensures DaysFromCivil(2019, 3, 1) == 17956
    ensures CivilFromDays(17956) == Civil(2019, 3, 1)
  {
    assert MarchYear(2019, 3) == 2019;
    assert YearStart(19) == 6939;
    assert MonthStart(3) == 0;
    assert Era(17956) == 5;
    assert DayOfEra(17956) == 6939;
    assert YearOfEra(6939) == 19;
    assert YearStart(19) == 6939;
    assert DayOfYear(6939) == 0;
    assert MonthIndex(0) == 0;
    assert CalendarMonth(0) == 3;
    assert DayOfMonth(0) == 1;
  }

  /** 2020-03-01 is day 18322, in both directions. */
  lemma Day18322()
    ensures DaysFromCivil(2020, 3, 1) == 18322
    ensures CivilFromDays(18322) == Civil(2020, 3, 1)
  {
    assert MarchYear(2020, 3) == 2020;
    assert YearStart(20) == 7305;
    assert MonthStart(3) == 0;
    assert Era(18322) == 5;
    assert DayOfEra(18322) == 7305;
    assert YearOfEra(7305) == 20;
    assert YearStart(20) == 7305;
    assert DayOfYear(7305) == 0;
    assert MonthIndex(0) == 0;
    assert CalendarMonth(0) == 3;
    assert DayOfMonth(0) == 1;
  }

  /** 2019-02-28 is day 17955. */
  lemma Day17955()
    ensures DaysFromCivil(2019, 2, 28) == 17955
  {
    assert MarchYear(2019, 2) == 2018;
    assert YearStart(18) == 6574;
    assert MonthStart(2) == 337;
  }

  /** 2020-02-29 is day 18321. */
  lemma Day18321()
    ensures DaysFromCivil(2020, 2, 29) == 18321
  {
    assert MarchYear(2020, 2) == 2019;
    assert YearStart(19) == 6939;
    assert MonthStart(2) == 337;
  }

  /** 2019-02-01 is day 17928. */
  lemma Day17928()
    ensures DaysFromCivil(2019, 2, 1) == 17928
  {
    assert MarchYear(2019, 2) == 2018;
    assert YearStart(18) == 6574;
    assert MonthStart(2) == 337;
  }

  /** 2020-02-01 is day 18293. */
  lemma Day18293()
    ensures DaysFromCivil(2020, 2, 1) == 18293
  {
    assert MarchYear(2020, 2) == 2019;
    assert YearStart(19) == 6939;
    assert MonthStart(2) == 337;
  }

  /** The example that motivates the calendar-exact check: one month before
      31 March of a non-leap year is 28 February. */
  lemma OneMonthBeforeMarch31()
    ensures SubMonths(Midnight(2019, 3, 31), 1) == Midnight(2019, 2, 28)
  {
    Day17986();
    Day17955();
    assert MonthsBack(Civil(2019, 3, 31), 1) == 24229;
    assert DaysInMonth(2019, 2) == 28;
    assert SubMonthsCivil(Civil(2019, 3, 31), 1) == 17955;
    SubMonthsAtMidnight(17986, 1);
  }

  /** In a leap year the clamp stops at 29 February. */
  lemma OneMonthBeforeMarch31Leap()
    ensures SubMonths(Midnight(2020, 3, 31), 1) == Midnight(2020, 2, 29)
  {
    Day18352();
    Day18321();
    assert MonthsBack(Civil(2020, 3, 31), 1) == 24241;
    assert DaysInMonth(2020, 2) == 29;
    assert SubMonthsCivil(Civil(2020, 3, 31), 1) == 18321;
    SubMonthsAtMidnight(18352, 1);
  }

  /** 1 March back by one month is 1 February, 28 days earlier in 2019. */
  lemma OneMonthBeforeMarch1()
    ensures Midnight(2019, 3, 1) - SubMonths(Midnight(2019, 3, 1), 1) == 28 * DayMs
  {
    Day17956();
    Day17928();
    assert MonthsBack(Civil(2019, 3, 1), 1) == 24229;
    assert DaysInMonth(2019, 2) == 28;
    assert SubMonthsCivil(Civil(2019, 3, 1), 1) == 17928;
    SubMonthsAtMidnight(17956, 1);
  }

  /** In the leap year 2020 the same step is 29 days. */
  lemma OneMonthBeforeMarch1Leap()
    ensures Midnight(2020, 3, 1) - SubMonths(Midnight(2020, 3, 1), 1) == 29 * DayMs
  {
    Day18322();
    Day18293();
    assert MonthsBack(Civil(2020, 3, 1), 1) == 24241;
    assert DaysInMonth(2020, 2) == 29;
    assert SubMonthsCivil(Civil(2020, 3, 1), 1) == 18293;
    SubMonthsAtMidnight(18322, 1);
  }
}
