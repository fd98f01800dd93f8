/** Proleptic Gregorian calendar: day ordinals (days since 1970-01-01) and
    calendar dates, and the complete extended calendar-date representation
    `YYYY-MM-DD` of ISO 8601:2004 section 4.1.2.2. This is the part of pandas'
    `to_datetime` and `strftime("%Y-%m-%d")` that the gap resolver relies on.

    The conversion counts in 400-year eras that start on 1 March, so that the
    leap day is the last day of its year; within an era a day number `doe`
    splits into a century `c`, a four-year block `q`, a year `t` of that block
    and a day `doy` of that year. */
module Calendar {
  import opened Wrappers

  datatype Date = Date(year: int, month: int, day: int)

  predicate IsLeapYear(y: int) {
    y % 4 == 0 && (y % 100 != 0 || y % 400 == 0)
  }

  function DaysInMonth(y: int, m: int): int
    requires 1 <= m <= 12
  {
    if m == 2 then (if IsLeapYear(y) then 29 else 28)
    else if m == 4 || m == 6 || m == 9 || m == 11 then 30
    else 31
  }

  predicate ValidDate(d: Date) {
    1 <= d.month <= 12 && 1 <= d.day <= DaysInMonth(d.year, d.month)
  }

  // An era has 146097 days, a century not ending on a leap year 36524, a
  // four-year block ending on a leap year 1461, a common year 365; the era
  // that starts on 0000-03-01 starts 719468 days before 1970-01-01.

  /** Days from 1 March to the first day of month `mp`, months numbered
      from March (0) to February (11). */
  function MonthStart(mp: int): int { (153 * mp + 2) / 5 }

  /** Days from the start of era year 0 to the start of era year `yoe`. */
  function YearStart(yoe: int): int { 365 * yoe + yoe / 4 - yoe / 100 }

  /** The era year that holds day `doe` of the era. */
  function YearOfEra(doe: int): int {
    (doe - doe / 1460 + doe / 36524 - doe / 146096) / 365
  }

  function MarchMonth(m: int): int { if m > 2 then m - 3 else m + 9 }

  function CivilMonth(mp: int): int { if mp < 10 then mp + 3 else mp - 9 }

  /** Day ordinal (days since 1970-01-01) of a calendar date. */
  function DayOfDate(d: Date): int {
    var y := if d.month <= 2 then d.year - 1 else d.year;
    var yoe := y % 400;
    var doy := MonthStart(MarchMonth(d.month)) + d.day - 1;
    (y / 400) * 146097 + YearStart(yoe) + doy - 719468
  }

  /** Calendar date of a day ordinal. */
  function DateOfDay(n: int): Date {
    var z := n + 719468;
    var doe := z % 146097;
    var yoe := YearOfEra(doe);
    var doy := doe - YearStart(yoe);
    var mp := (5 * doy + 2) / 153;
    var m := CivilMonth(mp);
    Date((z / 146097) * 400 + yoe + (if m <= 2 then 1 else 0), m, doy - MonthStart(mp) + 1)
  }

  /** Day `doe` of an era, written as century, four-year block, year of the
      block and day of the year: the last year of a block has a leap day
      unless it ends a century other than the era's last. */
  predicate EraSplit(c: int, q: int, t: int, doy: int) {
    0 <= c < 4 && 0 <= q < 25 && 0 <= t < 4 && 0 <= doy &&
    (doy < 365 || (doy == 365 && t == 3 && (q < 24 || c == 3)))
  }

  /** The era year of a split day is read off its century, block and year. */
  lemma YearOfEraSplit(c: int, q: int, t: int, doy: int)
    requires EraSplit(c, q, t, doy)
    ensures YearOfEra(36524 * c + 1461 * q + 365 * t + doy) == 100 * c + 4 * q + t
  {
    var doe := 36524 * c + 1461 * q + 365 * t + doy;
    // what is left over after whole four-year blocks of 1460 days; at most one more
    var s := 24 * c + q + 365 * t + doy;
    var e := if s >= 1460 then 1 else 0;
    var last := if q == 24 && t == 3 && doy == 365 then 1 else 0;
    var eraLast := if c == 3 && last == 1 then 1 else 0;
    assert doe / 1460 == 25 * c + q + e by {
      assert doe == 1460 * (25 * c + q + e) + (s - 1460 * e);
    }
    assert doe / 36524 == c + last by {
      assert doe == 36524 * (c + last) + (1461 * q + 365 * t + doy - 36524 * last);
    }
    assert doe / 146096 == eraLast by {
      assert doe == 146096 * eraLast + (doe - 146096 * eraLast);
    }
    assert e == 1 ==> t == 3 && doy >= 269;
    var n := doe - doe / 1460 + doe / 36524 - doe / 146096;
    assert n == 365 * (100 * c + 4 * q + t) + (doy - e + last - eraLast);
    assert 0 <= doy - e + last - eraLast < 365;
  }

  /** The era year of a split day starts where its century, block and year say. */
  lemma YearStartSplit(c: int, q: int, t: int)
    requires 0 <= c < 4 && 0 <= q < 25 && 0 <= t < 4
    ensures YearStart(100 * c + 4 * q + t) == 36524 * c + 1461 * q + 365 * t
  {
    var yoe := 100 * c + 4 * q + t;
    assert yoe / 4 == 25 * c + q;
    assert yoe / 100 == c;
  }

  /** Every day of an era has a split. */
  lemma SplitOfDay(doe: int) returns (c: int, q: int, t: int, doy: int)
    requires 0 <= doe < 146097
    ensures EraSplit(c, q, t, doy)
    ensures doe == 36524 * c + 1461 * q + 365 * t + doy
  {
    c := if doe / 36524 < 4 then doe / 36524 else 3;
    var r := doe - 36524 * c;
    q := r / 1461;
    var r2 := r % 1461;
    t := if r2 / 365 < 4 then r2 / 365 else 3;
    doy := r2 - 365 * t;
  }

  /** Adding 400 keeps the remainder by 4, 100 and 400. */
  lemma ModShift(y: int, m: int)
    requires m == 4 || m == 100 || m == 400
    ensures (y + 400) % m == y % m
  {
    assert y + 400 == m * (y / m + 400 / m) + y % m;
  }

  lemma LeapShift(y: int)
    ensures IsLeapYear(y + 400) <==> IsLeapYear(y)
  {
    ModShift(y, 4);
    ModShift(y, 100);
    ModShift(y, 400);
  }

  /** Leap years repeat every 400 years. */
  lemma {:induction false} LeapPeriodic(era: int, k: int)
    ensures IsLeapYear(400 * era + k) <==> IsLeapYear(k)
    decreases if era < 0 then -era else era
  {
    if era > 0 {
      LeapPeriodic(era - 1, k);
      LeapShift(400 * (era - 1) + k);
    } else if era < 0 {
      LeapPeriodic(era + 1, k);
      LeapShift(400 * era + k);
    }
  }

  /** The split of an era day determines whether the civil year holding
      that year's February is a leap year. */
  lemma LeapOfSplit(era: int, c: int, q: int, t: int)
    requires 0 <= c < 4 && 0 <= q < 25 && 0 <= t < 4
    ensures IsLeapYear(400 * era + 100 * c + 4 * q + t + 1) <==> (t == 3 && (q < 24 || c == 3))
  {
    var k := 100 * c + 4 * q + t + 1;
    LeapPeriodic(era, k);
    assert k % 4 == (t + 1) % 4;
    assert k % 100 == (4 * q + t + 1) % 100;
  }

  /** Month of a day of a March-based year, and the day's place in it. */
  lemma MonthOfDay(doy: int)
    requires 0 <= doy <= 365
    ensures 0 <= (5 * doy + 2) / 153 <= 11
    ensures MonthStart((5 * doy + 2) / 153) <= doy < MonthStart((5 * doy + 2) / 153 + 1)
  {
  }

  /** A day within month `mp` is found in month `mp`. */
  lemma DayOfMonth(mp: int, k: int)
    requires 0 <= mp <= 11 && 0 <= k < MonthStart(mp + 1) - MonthStart(mp)
    ensures (5 * (MonthStart(mp) + k) + 2) / 153 == mp
  {
  }

  /** Length of a March-based month, with the February of `y`. */
  lemma MonthLength(y: int, mp: int)
    requires 0 <= mp <= 10
    ensures MonthStart(mp + 1) - MonthStart(mp) == DaysInMonth(y, CivilMonth(mp))
  {
  }

  /** Euclidean division by a positive constant is unique. */
  lemma DivMod400(era: int, yoe: int)
    requires 0 <= yoe < 400
    ensures (400 * era + yoe) / 400 == era && (400 * era + yoe) % 400 == yoe
  {
  }

  lemma DivModEra(era: int, doe: int)
    requires 0 <= doe < 146097
    ensures (146097 * era + doe) / 146097 == era && (146097 * era + doe) % 146097 == doe
  {
  }

  /** Day `doe` of an era falls in era year `YearOfEra(doe)`, on day `doy`
      of it; the last day 365 exists only in years whose February is leap. */
  lemma EraDay(era: int, doe: int)
    requires 0 <= doe < 146097
    ensures 0 <= YearOfEra(doe) < 400
    ensures 0 <= doe - YearStart(YearOfEra(doe)) <= 365
    ensures doe - YearStart(YearOfEra(doe)) == 365 ==> IsLeapYear(400 * era + YearOfEra(doe) + 1)
  {
    var c, q, t, doy := SplitOfDay(doe);
    YearOfEraSplit(c, q, t, doy);
    YearStartSplit(c, q, t);
    if doy == 365 {
      LeapOfSplit(era, c, q, t);
    }
  }

  /** An era year and a day of it that the year has give back that year. */
  lemma EraYear(era: int, yoe: int, doy: int)
    requires 0 <= yoe < 400 && 0 <= doy <= 365
    requires doy == 365 ==> IsLeapYear(400 * era + yoe + 1)
    ensures 0 <= YearStart(yoe) + doy < 146097
    ensures YearOfEra(YearStart(yoe) + doy) == yoe
  {
    var c, q, t := yoe / 100, (yoe % 100) / 4, yoe % 4;
    assert yoe == 100 * c + 4 * q + t;
    if doy == 365 {
      LeapOfSplit(era, c, q, t);
    }
    assert EraSplit(c, q, t, doy);
    YearOfEraSplit(c, q, t, doy);
    YearStartSplit(c, q, t);
  }

  /** The month and day that day `doy` of a March-based year falls on are
      a day of that month, and they give back `doy`. */
  lemma MonthDay(y: int, doy: int)
    requires 0 <= doy <= 365
    requires doy == 365 ==> IsLeapYear(y)
    ensures var mp := (5 * doy + 2) / 153;
      0 <= mp <= 11 &&
      1 <= doy - MonthStart(mp) + 1 <= DaysInMonth(y, CivilMonth(mp)) &&
      MonthStart(MarchMonth(CivilMonth(mp))) + (doy - MonthStart(mp) + 1) - 1 == doy
  {
    MonthOfDay(doy);
    var mp := (5 * doy + 2) / 153;
    if mp <= 10 {
      MonthLength(y, mp);
    }
  }

  /** A day of a month, counted into its March-based year and back. */
  lemma YearDay(y: int, m: int, day: int)
    requires 1 <= m <= 12 && 1 <= day <= DaysInMonth(y, m)
    ensures var doy := MonthStart(MarchMonth(m)) + day - 1;
      0 <= doy <= 365 && (doy == 365 ==> IsLeapYear(y)) &&
      (5 * doy + 2) / 153 == MarchMonth(m) &&
      CivilMonth(MarchMonth(m)) == m &&
      doy - MonthStart(MarchMonth(m)) + 1 == day
  {
    var mp := MarchMonth(m);
    if mp <= 10 {
      MonthLength(y, mp);
    }
    DayOfMonth(mp, day - 1);
  }

  /** Converting a day ordinal to a date and back gives the ordinal, and the
      date is a real calendar date. */
  lemma {:induction false} DayOfDateOfDay(n: int)
    ensures ValidDate(DateOfDay(n))
    ensures DayOfDate(DateOfDay(n)) == n
  {
    var z := n + 719468;
    var era, doe := z / 146097, z % 146097;
    EraDay(era, doe);
    var yoe := YearOfEra(doe);
    var doy := doe - YearStart(yoe);
    var mp := (5 * doy + 2) / 153;
    assert n == 146097 * era + YearStart(yoe) + doy - 719468;
    DateOfEraYearDay(n, era, yoe, doy);
    var d := Date(era * 400 + yoe + (if CivilMonth(mp) <= 2 then 1 else 0), CivilMonth(mp), doy - MonthStart(mp) + 1);
    assert DateOfDay(n) == d;
    MonthDay(400 * era + yoe + 1, doy);
    assert ValidDate(d) by {
      assert DaysInMonth(d.year, d.month) == DaysInMonth(400 * era + yoe + 1, d.month);
    }
    OrdinalOfEraForm(era, yoe, mp, d.day);
    assert DayOfDate(d) == 146097 * era + YearStart(yoe) + MonthStart(mp) + d.day - 1 - 719468;
  }

  /** The day ordinal of a date given by era, era year, March-based month and day. */
  lemma OrdinalOfEraForm(era: int, yoe: int, mp: int, day: int)
    requires 0 <= yoe < 400 && 0 <= mp <= 11
    ensures DayOfDate(Date(era * 400 + yoe + (if CivilMonth(mp) <= 2 then 1 else 0), CivilMonth(mp), day))
         == 146097 * era + YearStart(yoe) + MonthStart(mp) + day - 1 - 719468
  {
    DivMod400(era, yoe);
  }

  /** The date of day `doy` of era year `yoe` of era `era`, read off the
      March-based month that day falls in. */
  lemma DateOfEraYearDay(n: int, era: int, yoe: int, doy: int)
    requires 0 <= yoe < 400 && 0 <= doy <= 365
    requires 0 <= YearStart(yoe) + doy < 146097 && YearOfEra(YearStart(yoe) + doy) == yoe
    requires n == 146097 * era + YearStart(yoe) + doy - 719468
    ensures var mp := (5 * doy + 2) / 153;
      DateOfDay(n) == Date(era * 400 + yoe + (if CivilMonth(mp) <= 2 then 1 else 0), CivilMonth(mp), doy - MonthStart(mp) + 1)
  {
    var doe := YearStart(yoe) + doy;
    DivModEra(era, doe);
    assert (n + 719468) / 146097 == era && (n + 719468) % 146097 == doe;
  }

  /** Converting a calendar date to its day ordinal and back gives the date. */
  lemma {:induction false} DateOfDayOfDate(d: Date)
    requires ValidDate(d)
    ensures DateOfDay(DayOfDate(d)) == d
  {
    var y := if d.month <= 2 then d.year - 1 else d.year;
    var era, yoe := y / 400, y % 400;
    var doy := MonthStart(MarchMonth(d.month)) + d.day - 1;
    YearDay(d.year, d.month, d.day);
    assert doy == 365 ==> IsLeapYear(400 * era + yoe + 1) by {
      assert y == 400 * era + yoe;
    }
    EraYear(era, yoe, doy);
    var n := DayOfDate(d);
    assert n == 146097 * era + YearStart(yoe) + doy - 719468;
    DateOfEraYearDay(n, era, yoe, doy);
    var mp := (5 * doy + 2) / 153;
    assert mp == MarchMonth(d.month);
    assert CivilMonth(mp) == d.month && doy - MonthStart(mp) + 1 == d.day;
    assert era * 400 + yoe + (if d.month <= 2 then 1 else 0) == d.year;
  }

  /** Distinct day ordinals have distinct dates, so the text form loses nothing. */
  lemma DateOfDayInjective(n1: int, n2: int)
    ensures DateOfDay(n1) == DateOfDay(n2) <==> n1 == n2
  {
    DayOfDateOfDay(n1);
    DayOfDateOfDay(n2);
  }

  // ---- Successive days ----------------------------------------------------

  /** The calendar day after `d`: the next day of the month, else the 1st of
      the next month, else 1 January of the next year. */
  function NextDate(d: Date): Date
    requires ValidDate(d)
  {
    if d.day < DaysInMonth(d.year, d.month) then Date(d.year, d.month, d.day + 1)
    else if d.month < 12 then Date(d.year, d.month + 1, 1)
    else Date(d.year + 1, 1, 1)
  }

  /** Day ordinal of 1 March of year `y`. */
  function MarchFirst(y: int): int {
    (y / 400) * 146097 + YearStart(y % 400) - 719468
  }

  /** A March-based year has 365 days, 366 when its February is leap. */
  lemma YearStep(y: int)
    ensures MarchFirst(y + 1) == MarchFirst(y) + 365 + (if IsLeapYear(y + 1) then 1 else 0)
  {
    var era, yoe := y / 400, y % 400;
    var c, q, t := yoe / 100, (yoe % 100) / 4, yoe % 4;
    assert yoe == 100 * c + 4 * q + t;
    assert y == 400 * era + yoe;
    LeapOfSplit(era, c, q, t);
    if t < 3 {
      StepInQuad(y, era, c, q, t);
    } else if q < 24 {
      StepQuadEnd(y, era, c, q);
    } else if c < 3 {
      StepCenturyEnd(y, era, c);
    } else {
      StepEraEnd(y, era);
    }
  }

  /** Steps of `YearStep` by where the year falls in its four-year group,
      century and era. */
  lemma StepInQuad(y: int, era: int, c: int, q: int, t: int)
    requires 0 <= c < 4 && 0 <= q < 25 && 0 <= t < 3 && y == 400 * era + 100 * c + 4 * q + t
    ensures MarchFirst(y + 1) == MarchFirst(y) + 365
  {
    DivMod400(era, 100 * c + 4 * q + t);
    DivMod400(era, 100 * c + 4 * q + t + 1);
    YearStartSplit(c, q, t);
    YearStartSplit(c, q, t + 1);
  }

  lemma StepQuadEnd(y: int, era: int, c: int, q: int)
    requires 0 <= c < 4 && 0 <= q < 24 && y == 400 * era + 100 * c + 4 * q + 3
    ensures MarchFirst(y + 1) == MarchFirst(y) + 366
  {
    DivMod400(era, 100 * c + 4 * q + 3);
    DivMod400(era, 100 * c + 4 * (q + 1));
    YearStartSplit(c, q, 3);
    YearStartSplit(c, q + 1, 0);
  }

  lemma StepCenturyEnd(y: int, era: int, c: int)
    requires 0 <= c < 3 && y == 400 * era + 100 * c + 99
    ensures MarchFirst(y + 1) == MarchFirst(y) + 365
  {
    DivMod400(era, 100 * c + 99);
    DivMod400(era, 100 * (c + 1));
    YearStartSplit(c, 24, 3);
    YearStartSplit(c + 1, 0, 0);
  }

  lemma StepEraEnd(y: int, era: int)
    requires y == 400 * era + 399
    ensures MarchFirst(y + 1) == MarchFirst(y) + 366
  {
    DivMod400(era, 399);
    DivMod400(era + 1, 0);
    YearStartSplit(3, 24, 3);
    assert 400 * era + 400 == 400 * (era + 1) + 0;
  }

  /** A date's ordinal counts from 1 March of the year holding its February's
      predecessor, in March-based months. */
  lemma DayOfDateMarch(d: Date)
    ensures DayOfDate(d) ==
      MarchFirst(if d.month <= 2 then d.year - 1 else d.year) + MonthStart(MarchMonth(d.month)) + d.day - 1
  {
  }

  /** The day after a date has the next day ordinal. */
  lemma DayOfDateNext(d: Date)
    requires ValidDate(d)
    ensures ValidDate(NextDate(d))
    ensures DayOfDate(NextDate(d)) == DayOfDate(d) + 1
  {
    if d.day < DaysInMonth(d.year, d.month) {
      NextInMonth(d);
    } else if d.month == 2 {
      NextAfterFebruary(d);
    } else if d.month < 12 {
      NextMonth(d);
    } else {
      NextYear(d);
    }
  }

  lemma NextInMonth(d: Date)
    requires ValidDate(d) && d.day < DaysInMonth(d.year, d.month)
    ensures DayOfDate(Date(d.year, d.month, d.day + 1)) == DayOfDate(d) + 1
  {
    DayOfDateMarch(d);
    DayOfDateMarch(Date(d.year, d.month, d.day + 1));
  }

  /** 1 March follows the last day of February. */
  lemma NextAfterFebruary(d: Date)
    requires d.month == 2 && d.day == DaysInMonth(d.year, 2)
    ensures DayOfDate(Date(d.year, 3, 1)) == DayOfDate(d) + 1
  {
    DayOfDateMarch(d);
    DayOfDateMarch(Date(d.year, 3, 1));
    YearStep(d.year - 1);
    assert MonthStart(11) == 337;
  }

  /** The 1st of the next month follows the last day of a month other than
      February and December. */
  lemma NextMonth(d: Date)
    requires d.month != 2 && 1 <= d.month < 12 && d.day == DaysInMonth(d.year, d.month)
    ensures DayOfDate(Date(d.year, d.month + 1, 1)) == DayOfDate(d) + 1
  {
    DayOfDateMarch(d);
    DayOfDateMarch(Date(d.year, d.month + 1, 1));
    MonthLength(d.year, MarchMonth(d.month));
    assert MarchMonth(d.month + 1) == MarchMonth(d.month) + 1;
  }

  /** 1 January follows 31 December. */
  lemma NextYear(d: Date)
    requires d.month == 12 && d.day == 31
    ensures DayOfDate(Date(d.year + 1, 1, 1)) == DayOfDate(d) + 1
  {
    DayOfDateMarch(d);
    DayOfDateMarch(Date(d.year + 1, 1, 1));
    assert MonthStart(10) - MonthStart(9) == 31;
  }

  /** The date of the next day ordinal is the calendar day after: counting
      days forward walks the calendar, as `timedelta(days=1)` does. */
  lemma DateOfDayNext(n: int)
    ensures ValidDate(DateOfDay(n)) && DateOfDay(n + 1) == NextDate(DateOfDay(n))
  {
    var d := DateOfDay(n);
    DayOfDateOfDay(n);
    DayOfDateNext(d);
    var e := NextDate(d);
    DateOfDayOfDate(e);
    assert DayOfDate(e) == n + 1;
  }

  // ---- The text form `YYYY-MM-DD` --------------------------------------

  function DigitChar(k: int): char
    requires 0 <= k < 10
  {
    ('0' as int + k) as char
  }

  predicate IsDigit(ch: char) { '0' <= ch <= '9' }

  function DigitValue(ch: char): int
    requires IsDigit(ch)
  {
    ch as int - '0' as int
  }

  /** `v` written with exactly `width` decimal digits, most significant first. */
  function Digits(v: nat, width: nat): (s: seq<char>)
    requires v < Pow10(width)
    ensures |s| == width
    ensures forall i :: 0 <= i < |s| ==> IsDigit(s[i])
  {
    if width == 0 then [] else Digits(v / 10, width - 1) + [DigitChar(v % 10)]
  }

  function Pow10(width: nat): nat {
    if width == 0 then 1 else 10 * Pow10(width - 1)
  }

  /** The number a run of decimal digits denotes. */
  function DigitsValue(s: seq<char>): int
    requires forall i :: 0 <= i < |s| ==> IsDigit(s[i])
  {
    if s == [] then 0 else 10 * DigitsValue(s[..|s| - 1]) + DigitValue(s[|s| - 1])
  }

  lemma {:induction false} DigitsRoundTrip(v: nat, width: nat)
    requires v < Pow10(width)
    ensures DigitsValue(Digits(v, width)) == v
  {
    if width > 0 {
      var s := Digits(v, width);
      assert s[..|s| - 1] == Digits(v / 10, width - 1);
      DigitsRoundTrip(v / 10, width - 1);
      assert DigitValue(DigitChar(v % 10)) == v % 10;
    }
  }

  lemma {:induction false} DigitsValueBound(s: seq<char>)
    requires forall i :: 0 <= i < |s| ==> IsDigit(s[i])
    ensures 0 <= DigitsValue(s) < Pow10(|s|)
  {
    if s != [] {
      DigitsValueBound(s[..|s| - 1]);
    }
  }

  lemma {:induction false} DigitsOfValue(s: seq<char>)
    requires forall i :: 0 <= i < |s| ==> IsDigit(s[i])
    ensures 0 <= DigitsValue(s) < Pow10(|s|)
    ensures Digits(DigitsValue(s), |s|) == s
  {
    DigitsValueBound(s);
    if s != [] {
      var init := s[..|s| - 1];
      DigitsOfValue(init);
      DigitsValueBound(init);
      var v := DigitsValue(s);
      assert v / 10 == DigitsValue(init) && v % 10 == DigitValue(s[|s| - 1]);
      assert DigitChar(DigitValue(s[|s| - 1])) == s[|s| - 1];
      assert s == init + [s[|s| - 1]];
    }
  }

  /** Dates whose year has four digits, the ones `%Y` writes without sign or padding issues. */
  predicate Printable(d: Date) {
    ValidDate(d) && 0 <= d.year <= 9999
  }

  /** `strftime("%Y-%m-%d")`. */
  function FormatDate(d: Date): (s: string)
    requires Printable(d)
    ensures |s| == 10 && s[4] == '-' && s[7] == '-'
  {
    Digits(d.year, 4) + "-" + Digits(d.month, 2) + "-" + Digits(d.day, 2)
  }

  /** `s` holds, character by character, the ten characters `%Y-%m-%d` writes for `d`. */
  predicate WrittenForm(d: Date, s: string)
    requires Printable(d)
  {
    |s| == 10 &&
    s[0] == DigitChar(d.year / 1000) && s[1] == DigitChar(d.year / 100 % 10) &&
    s[2] == DigitChar(d.year / 10 % 10) && s[3] == DigitChar(d.year % 10) && s[4] == '-' &&
    s[5] == DigitChar(d.month / 10) && s[6] == DigitChar(d.month % 10) && s[7] == '-' &&
    s[8] == DigitChar(d.day / 10) && s[9] == DigitChar(d.day % 10)
  }

  /** The two characters of a number below 100. */
  lemma TwoDigits(v: nat)
    requires v < 100
    ensures Digits(v, 2) == [DigitChar(v / 10), DigitChar(v % 10)]
  {
    var hi := v / 10;
    assert hi / 10 == 0 && hi % 10 == hi;
    assert Digits(hi, 1) == [] + [DigitChar(hi)];
    assert Digits(v, 2) == Digits(hi, 1) + [DigitChar(v % 10)];
  }

  /** The four characters of a number below 10000. */
  lemma FourDigits(v: nat)
    requires v < 10000
    ensures Digits(v, 4) == [DigitChar(v / 1000), DigitChar(v / 100 % 10), DigitChar(v / 10 % 10), DigitChar(v % 10)]
  {
    var hi := v / 100;
    assert v / 10 / 10 == hi && hi / 10 == v / 1000 && hi % 10 == v / 100 % 10;
    TwoDigits(hi);
    assert Digits(v / 10, 3) == Digits(hi, 2) + [DigitChar(v / 10 % 10)];
    assert Digits(v, 4) == Digits(v / 10, 3) + [DigitChar(v % 10)];
  }

  /** A text with the characters `%Y-%m-%d` writes for `d` is the text written. */
  lemma FormatDigits(d: Date, s: string)
    requires Printable(d) && WrittenForm(d, s)
    ensures FormatDate(d) == s
  {
    FourDigits(d.year);
    TwoDigits(d.month);
    TwoDigits(d.day);
    var y, m, n := Digits(d.year, 4), Digits(d.month, 2), Digits(d.day, 2);
    assert s == y + "-" + m + "-" + n by {
      assert s[..4] == y && s[4] == '-' && s[5..7] == m && s[7] == '-' && s[8..] == n;
      assert s == s[..4] + [s[4]] + s[5..7] + [s[7]] + s[8..];
    }
  }

  predicate DigitsAt(s: string, lo: int, hi: int)
    requires 0 <= lo <= hi <= |s|
  {
    forall i :: lo <= i < hi ==> IsDigit(s[i])
  }

  /** Reads a date written `YYYY-MM-DD`; `None` when the text is not of that
      form or names no calendar date. */
  function ParseDate(s: string): (r: Option<Date>)
    ensures r.Some? ==> Printable(r.value)
  {
    if |s| == 10 && s[4] == '-' && s[7] == '-' && DigitsAt(s, 0, 4) && DigitsAt(s, 5, 7) && DigitsAt(s, 8, 10) then
      DigitsValueBound(s[0..4]);
      var d := Date(DigitsValue(s[0..4]), DigitsValue(s[5..7]), DigitsValue(s[8..10]));
      if ValidDate(d) then Some(d) else None
    else
      None
  }

  /** Formatting a printable date and reading it back gives the date. */
  lemma ParseFormat(d: Date)
    requires Printable(d)
    ensures ParseDate(FormatDate(d)) == Some(d)
  {
    var s := FormatDate(d);
    assert s[0..4] == Digits(d.year, 4);
    assert s[5..7] == Digits(d.month, 2);
    assert s[8..10] == Digits(d.day, 2);
    DigitsRoundTrip(d.year, 4);
    DigitsRoundTrip(d.month, 2);
    DigitsRoundTrip(d.day, 2);
  }

  /** Text that reads as a date is exactly that date's formatted form. */
  lemma FormatParse(s: string)
    requires ParseDate(s).Some?
    ensures FormatDate(ParseDate(s).value) == s
  {
    var year, month, day := s[0..4], s[5..7], s[8..10];
    DigitsOfValue(year);
    DigitsOfValue(month);
    DigitsOfValue(day);
    assert ParseDate(s).value == Date(DigitsValue(year), DigitsValue(month), DigitsValue(day));
    assert s == year + "-" + month + "-" + day;
  }
}
