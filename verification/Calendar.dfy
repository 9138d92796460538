// The civil calendar of include/satnogs/date.h: days since 1970-01-01 and
// dates of the proleptic Gregorian calendar.
module Calendar {
  import opened Arithmetic

  datatype Date = Date(year: int, month: nat, day: nat)

  // A year is stored in sixteen bits.
  function Short(y: int): (r: int)
    ensures -32768 <= r <= 32767
  {
    (y + 32768) % 65536 - 32768
  }

  predicate IsLeap(y: int) { y % 4 == 0 && (y % 100 != 0 || y % 400 == 0) }

  predicate YearOk(y: int) { -32767 <= y <= 32767 }

  predicate MonthOk(m: nat) { 1 <= m <= 12 }

  // year_month_day_last::day
  function LastDay(y: int, m: nat): nat {
    if (m != 2 || !IsLeap(y)) && MonthOk(m) then
      [31, 28, 31, 30, 31, 30, 31, 31, 30, 31, 30, 31][m - 1]
    else 29
  }

  predicate Real(date: Date) { MonthOk(date.month) && 1 <= date.day <= LastDay(date.year, date.month) }

  predicate Ok(date: Date) { YearOk(date.year) && Real(date) }

  // operator<
  predicate Before(a: Date, b: Date) {
    if a.year != b.year then a.year < b.year
    else if a.month != b.month then a.month < b.month
    else a.day < b.day
  }

  // ---------- Days of a date ----------

  // Division truncating toward zero, by a positive divisor.
  function Truncated(x: int, d: int): int
    requires d > 0
  {
    if x >= 0 then x / d else -((-x) / d)
  }

  // (x >= 0 ? x : x - (d - 1)) / d, which rounds down.
  function FloorDiv(x: int, d: int): int
    requires d > 0
  {
    Truncated(if x >= 0 then x else x - (d - 1), d)
  }

  lemma FloorDivIsFloor(x: int, d: int)
    requires d > 0
    ensures FloorDiv(x, d) == x / d
    ensures FloorDiv(x, d) * d <= x < FloorDiv(x, d) * d + d
  {
    if x < 0 {
      var n := d - 1 - x;
      var q := n / d;
      assert n == q * d + n % d;
      assert x == (-q) * d + (d - 1 - n % d) by { assert (-q) * d == -(q * d); }
      RemainderUnique(x, d, -q, d - 1 - n % d);
    } else {
      assert x == (x / d) * d + x % d;
    }
  }

  // Days before a month, in a year that starts in March.
  function MonthStart(mp: int): int { (153 * mp + 2) / 5 }

  // Days before a year of a 400-year era, in years that start in March.
  function YearStart(yoe: int): int { yoe * 365 + yoe / 4 - yoe / 100 }

  // year_month_day::to_days
  function ToDays(date: Date): int {
    var y := date.year - if date.month <= 2 then 1 else 0;
    var m := date.month;
    var era := FloorDiv(y, 400);
    var yoe := y - era * 400;
    var doy := MonthStart(if m > 2 then m - 3 else m + 9) + date.day - 1;
    var doe := YearStart(yoe) + doy;
    era * 146097 + doe - 719468
  }

  // The date of a day number, before its year is stored.
  function Civil(days: int): Date {
    var z := days + 719468;
    var era := FloorDiv(z, 146097);
    var doe := z - era * 146097;
    var yoe := YearOfEra(doe);
    var y := yoe + era * 400;
    var doy := doe - YearStart(yoe);
    var mp := MonthIndex(doy);
    var d := doy - MonthStart(mp) + 1;
    var m := if mp < 10 then mp + 3 else mp - 9;
    Date(y + if m <= 2 then 1 else 0, if m >= 0 then m else 0, if d >= 0 then d else 0)
  }

  // year_month_day::from_days
  function FromDays(days: int): Date {
    var date := Civil(days);
    date.(year := Short(date.year))
  }

  function YearOfEra(doe: int): int { (doe - doe / 1460 + doe / 36524 - doe / 146096) / 365 }

  function MonthIndex(doy: int): int { (5 * doy + 2) / 153 }

  // ---------- Naive day counting ----------

  function YearLength(y: int): nat { if IsLeap(y) then 366 else 365 }

  // Days from 1 January 1970 to 1 January of year y, one year at a time.
  function YearsBefore(y: int): int
    decreases if y >= 1970 then y - 1970 else 1970 - y
  {
    if y == 1970 then 0
    else if y > 1970 then YearsBefore(y - 1) + YearLength(y - 1)
    else YearsBefore(y + 1) - YearLength(y)
  }

  // Days in the months before month m.
  function MonthsBefore(y: int, m: nat): nat {
    if m <= 1 then 0 else MonthsBefore(y, m - 1) + LastDay(y, m - 1)
  }

  function NaiveDays(date: Date): int {
    YearsBefore(date.year) + MonthsBefore(date.year, date.month) + date.day - 1
  }

  // Days from 1 March of year 0 to 1 March of year y.
  function March(y: int): int { 365 * y + y / 4 - y / 100 + y / 400 }

  lemma Split(y: int)
    ensures var era, yoe := y / 400, y % 400;
      && 0 <= yoe <= 399 && y == era * 400 + yoe
      && y / 4 == 100 * era + yoe / 4 && y / 100 == 4 * era + yoe / 100
      && March(y) == era * 146097 + YearStart(yoe)
  {
    var era, yoe := y / 400, y % 400;
    RemainderUnique(y, 4, 100 * era + yoe / 4, yoe % 4);
    RemainderUnique(y, 100, 4 * era + yoe / 100, yoe % 100);
  }

  lemma MarchStep(y: int)
    ensures March(y) == March(y - 1) + YearLength(y)
  {
    DivStep(y, 4);
    DivStep(y, 100);
    DivStep(y, 400);
    assert y % 400 == 0 ==> y % 100 == 0 by { Multiple(y, 400, 100, 4); }
    assert y % 100 == 0 ==> y % 4 == 0 by { Multiple(y, 100, 4, 25); }
  }

  lemma DivStep(y: int, d: int)
    requires d > 1
    ensures y / d == (y - 1) / d + if y % d == 0 then 1 else 0
  {
    var q, r := y / d, y % d;
    assert y == q * d + r;
    if r == 0 {
      assert (q - 1) * d == q * d - d;
      RemainderUnique(y - 1, d, q - 1, d - 1);
    } else {
      RemainderUnique(y - 1, d, q, r - 1);
    }
  }

  lemma Multiple(y: int, a: int, b: int, k: int)
    requires a > 0 && b > 0 && a == k * b
    ensures y % a == 0 ==> y % b == 0
  {
    if y % a == 0 {
      var q := y / a;
      assert y == q * a;
      assert q * (k * b) == (q * k) * b;
      RemainderUnique(y, b, q * k, 0);
    }
  }

  lemma {:induction false} YearsBeforeIsMarch(y: int)
    ensures YearsBefore(y) == March(y - 1) - 719162
    decreases if y >= 1970 then y - 1970 else 1970 - y
  {
    hide March;
    if y == 1970 {
      assert March(1969) == 719162 by { March1969(); }
    } else if y > 1970 {
      YearsBeforeIsMarch(y - 1);
      MarchStep(y - 1);
    } else {
      YearsBeforeIsMarch(y + 1);
      MarchStep(y);
    }
  }

  lemma March1969()
    ensures March(1969) == 719162
  {
  }

  // ---------- The closed form is naive counting ----------

  lemma ToDaysIsMarch(date: Date)
    ensures var y, m := date.year - (if date.month <= 2 then 1 else 0), date.month;
      ToDays(date) == March(y) + MonthStart(if m > 2 then m - 3 else m + 9) + date.day - 1 - 719468
  {
    hide March, YearStart, MonthStart;
    var y := date.year - if date.month <= 2 then 1 else 0;
    FloorDivIsFloor(y, 400);
    Split(y);
  }

  // Months before month m, from March or from the March before.
  lemma MonthsFromMarch(y: int, m: nat)
    requires MonthOk(m)
    ensures MonthsBefore(y, m) ==
      if m <= 2 then MonthStart(m + 9) - 306 else MonthStart(m - 3) - 306 + YearLength(y)
  {
    var feb := LastDay(y, 2);
    assert MonthsBefore(y, 1) == 0;
    assert MonthsBefore(y, 2) == 31;
    assert MonthsBefore(y, 3) == 31 + feb;
    assert MonthsBefore(y, 4) == 62 + feb;
    assert MonthsBefore(y, 5) == 92 + feb;
    assert MonthsBefore(y, 6) == 123 + feb;
    assert MonthsBefore(y, 7) == 153 + feb;
    assert MonthsBefore(y, 8) == 184 + feb;
    assert MonthsBefore(y, 9) == 215 + feb;
    assert MonthsBefore(y, 10) == 245 + feb;
    assert MonthsBefore(y, 11) == 276 + feb;
    assert MonthsBefore(y, 12) == 306 + feb;
  }

  // to_days counts days one year and one month at a time from 1 January 1970.
  lemma ToDaysIsNaive(date: Date)
    requires MonthOk(date.month)
    ensures ToDays(date) == NaiveDays(date)
  {
    hide March, MonthStart, LastDay, YearLength, ToDays, MonthsBefore;
    ToDaysIsMarch(date);
    YearsBeforeIsMarch(date.year);
    MonthsFromMarch(date.year, date.month);
    MarchStep(date.year);
  }

  // ---------- Years and months of a day number ----------

  // Year k of an era, counted from March, has 366 days exactly when a leap
  // day ends it.
  predicate LongYear(k: int) { k % 4 == 3 && (k % 100 != 99 || k == 399) }

  lemma YearStartParts(a: int, b: int, c: int)
    requires 0 <= a <= 3 && 0 <= b <= 24 && 0 <= c <= 3
    ensures var k := 100 * a + 4 * b + c;
      && 0 <= k <= 399 && YearStart(k) == 36524 * a + 1461 * b + 365 * c
      && (LongYear(k) <==> c == 3 && (b != 24 || a == 3))
  {
    var k := 100 * a + 4 * b + c;
    assert k / 4 == 25 * a + b && k % 4 == c;
    assert k / 100 == a && k % 100 == 4 * b + c;
  }

  lemma YearOfEraParts(a: int, b: int, c: int, t: int)
    requires 0 <= a <= 3 && 0 <= b <= 24 && 0 <= c <= 3
    requires 0 <= t <= 364 || (t == 365 && c == 3 && (b != 24 || a == 3))
    ensures var doe := 36524 * a + 1461 * b + 365 * c + t;
      0 <= doe <= 146096 && YearOfEra(doe) == 100 * a + 4 * b + c
  {
    var doe := 36524 * a + 1461 * b + 365 * c + t;
    var e := if 24 * a + b + 365 * c + t >= 1460 then 1 else 0;
    assert doe / 1460 == 25 * a + b + e;
    assert doe / 36524 - doe / 146096 == a;
    assert doe - doe / 1460 + a == 365 * (100 * a + 4 * b + c) + (t - e);
  }

  // The year formula inverts the count of days before a year.
  lemma YearOfEraInverts(k: int, t: int)
    requires 0 <= k <= 399 && 0 <= t <= (if LongYear(k) then 365 else 364)
    ensures 0 <= YearStart(k) + t <= 146096 && YearOfEra(YearStart(k) + t) == k
  {
    hide YearStart, YearOfEra, LongYear;
    var a, b, c := k / 100, (k % 100) / 4, k % 4;
    assert k == 100 * a + 4 * b + c;
    YearStartParts(a, b, c);
    YearOfEraParts(a, b, c, t);
  }

  // Every day of the era lies in one of its years.
  lemma {:induction false} YearOfEraCovers(doe: int, k: int)
    requires 0 <= doe <= 146096 && 0 <= k <= 399 && YearStart(k) <= doe
    ensures var yoe := YearOfEra(doe);
      && 0 <= yoe <= 399
      && 0 <= doe - YearStart(yoe) <= (if LongYear(yoe) then 365 else 364)
    decreases 399 - k
  {
    hide YearOfEra;
    NextYearStart(k);
    if doe - YearStart(k) <= (if LongYear(k) then 365 else 364) {
      YearOfEraInverts(k, doe - YearStart(k));
    } else {
      YearOfEraCovers(doe, k + 1);
    }
  }

  lemma NextYearStart(k: int)
    requires 0 <= k <= 399
    ensures k < 399 ==> YearStart(k + 1) == YearStart(k) + if LongYear(k) then 366 else 365
    ensures YearStart(399) == 145731
  {
    DivStep(k + 1, 4);
    DivStep(k + 1, 100);
  }

  lemma MonthIndexRange(doy: int)
    requires 0 <= doy <= 365
    ensures var mp := MonthIndex(doy);
      && 0 <= mp <= 11 && 1 <= doy - MonthStart(mp) + 1 <= 31
      && (mp < 11 ==> doy - MonthStart(mp) + 1 <= MonthStart(mp + 1) - MonthStart(mp))
      && (mp == 11 ==> doy - MonthStart(mp) + 1 <= 29)
      && (mp == 11 && doy <= 364 ==> doy - MonthStart(mp) + 1 <= 28)
  {
  }

  // ---------- The two closed forms are inverse ----------

  lemma LeapEnds(era: int, yoe: int)
    requires 0 <= yoe <= 399
    ensures IsLeap(era * 400 + yoe + 1) <==> LongYear(yoe)
  {
    var k := yoe + 1;
    RemainderUnique(era * 400 + k, 4, 100 * era + k / 4, k % 4);
    RemainderUnique(era * 400 + k, 100, 4 * era + k / 100, k % 100);
    if k < 400 {
      RemainderUnique(era * 400 + k, 400, era, k);
    } else {
      RemainderUnique(era * 400 + k, 400, era + 1, 0);
    }
  }

  // The number of a month counted from March, and back.
  function FromMarch(m: nat): int { if m > 2 then m - 3 else m + 9 }

  // The months from March are as long as the table says, February aside.
  lemma MonthLength(y: int, m: nat)
    requires MonthOk(m) && m != 2
    ensures LastDay(y, m) == MonthStart(FromMarch(m) + 1) - MonthStart(FromMarch(m))
  {
  }

  // The ranges the source states for doe, yoe, doy, mp, d and m.
  lemma Ranges(days: int)
    ensures var z := days + 719468;
      var era := FloorDiv(z, 146097); var doe := z - era * 146097;
      var yoe := YearOfEra(doe); var doy := doe - YearStart(yoe); var mp := MonthIndex(doy);
      var d := doy - MonthStart(mp) + 1; var m := if mp < 10 then mp + 3 else mp - 9;
      && 0 <= doe <= 146096 && 0 <= yoe <= 399 && 0 <= doy <= 365 && 0 <= mp <= 11 && 1 <= d <= 31 && 1 <= m <= 12
      && (doy == 365 ==> LongYear(yoe))
      && Civil(days) == Date(yoe + era * 400 + (if m <= 2 then 1 else 0), m, d) && mp == FromMarch(m)
  {
    hide YearOfEra, YearStart, MonthIndex, MonthStart, LongYear;
    var z := days + 719468;
    FloorDivIsFloor(z, 146097);
    var doe := z - FloorDiv(z, 146097) * 146097;
    assert YearStart(0) == 0 by { YearStartParts(0, 0, 0); }
    YearOfEraCovers(doe, 0);
    MonthIndexRange(doe - YearStart(YearOfEra(doe)));
  }

  // from_days yields a date of the calendar, and to_days undoes it.
  lemma CivilBack(days: int)
    ensures Real(Civil(days)) && ToDays(Civil(days)) == days
  {
    hide YearOfEra, YearStart, MonthIndex, MonthStart, LongYear, LastDay, Civil, IsLeap;
    Ranges(days);
    var z := days + 719468;
    var era := FloorDiv(z, 146097);
    var doe := z - era * 146097;
    var yoe := YearOfEra(doe);
    var doy := doe - YearStart(yoe);
    var date := Civil(days);
    var y := yoe + era * 400;
    FloorDivIsFloor(y, 400);
    RemainderUnique(y, 400, era, yoe);
    MonthIndexRange(doy);
    if date.month == 2 {
      LeapEnds(era, yoe);
      February(date.year);
    } else {
      MonthLength(date.year, date.month);
    }
  }

  lemma February(y: int)
    ensures LastDay(y, 2) == if IsLeap(y) then 29 else 28
    ensures FromMarch(2) == 11
  {
  }

  // to_days followed by from_days gives every date of the calendar back.
  lemma CivilOfDays(date: Date)
    requires Real(date)
    ensures Civil(ToDays(date)) == date
  {
    hide YearOfEra, YearStart, MonthIndex, MonthStart, LongYear, LastDay, IsLeap;
    var y := date.year - if date.month <= 2 then 1 else 0;
    FloorDivIsFloor(y, 400);
    var era, yoe := y / 400, y % 400;
    assert y == era * 400 + yoe;
    var mp := FromMarch(date.month);
    var doy := MonthStart(mp) + date.day - 1;
    if date.month == 2 {
      LeapEnds(era, yoe);
      February(date.year);
    } else {
      MonthLength(date.year, date.month);
    }
    DayOfYear(mp, date.day, date.month == 2 && LongYear(yoe));
    YearOfEraInverts(yoe, doy);
    var doe := YearStart(yoe) + doy;
    var z := ToDays(date) + 719468;
    assert z == era * 146097 + doe;
    FloorDivIsFloor(z, 146097);
    RemainderUnique(z, 146097, era, doe);
  }

  lemma DayOfYear(mp: int, d: int, leap: bool)
    requires 0 <= mp <= 11 && 1 <= d
    requires if mp == 11 then d <= 28 || (d == 29 && leap) else d <= MonthStart(mp + 1) - MonthStart(mp)
    ensures 0 <= MonthStart(mp) + d - 1 <= if leap then 365 else 364
    ensures MonthIndex(MonthStart(mp) + d - 1) == mp
  {
  }

  // ---------- Order ----------

  lemma YearStep(y: int)
    ensures YearsBefore(y + 1) == YearsBefore(y) + YearLength(y)
  {
    hide March, YearLength;
    YearsBeforeIsMarch(y);
    YearsBeforeIsMarch(y + 1);
    MarchStep(y);
  }

  lemma {:induction false} YearsGrow(a: int, b: int)
    requires a < b
    ensures YearsBefore(a) + YearLength(a) <= YearsBefore(b)
    decreases b - a
  {
    hide YearsBefore, IsLeap;
    YearStep(a);
    if a + 1 < b { YearsGrow(a + 1, b); }
  }

  lemma {:induction false} MonthsGrow(y: int, a: nat, b: nat)
    requires 1 <= a < b
    ensures MonthsBefore(y, a) + LastDay(y, a) <= MonthsBefore(y, b)
    decreases b
  {
    hide LastDay;
    if a + 1 < b { MonthsGrow(y, a, b - 1); }
  }

  lemma WholeYear(y: int)
    ensures MonthsBefore(y, 12) + LastDay(y, 12) == YearLength(y)
  {
    MonthsFromMarch(y, 12);
  }

  lemma InsideYear(date: Date)
    requires Real(date)
    ensures MonthsBefore(date.year, date.month) + date.day <= YearLength(date.year)
  {
    hide LastDay, MonthsBefore, YearLength;
    WholeYear(date.year);
    if date.month < 12 { MonthsGrow(date.year, date.month, 12); }
  }

  lemma EarlierIsLess(a: Date, b: Date)
    requires Real(a) && Real(b) && Before(a, b)
    ensures ToDays(a) < ToDays(b)
  {
    hide ToDays, LastDay, MonthsBefore, YearsBefore, YearLength;
    ToDaysIsNaive(a);
    ToDaysIsNaive(b);
    InsideYear(a);
    if a.year < b.year {
      YearsGrow(a.year, b.year);
    } else if a.month < b.month {
      MonthsGrow(a.year, a.month, b.month);
    }
  }

  // Dates compare as their day numbers do.
  lemma OrderPreserved(a: Date, b: Date)
    requires Real(a) && Real(b)
    ensures Before(a, b) <==> ToDays(a) < ToDays(b)
  {
    hide ToDays, LastDay;
    if Before(a, b) {
      EarlierIsLess(a, b);
    } else if a != b {
      EarlierIsLess(b, a);
    }
  }

  // ---------- Years of sixteen bits ----------

  const FIRST_DAY := Date(-32768, 1, 1)
  const LAST_DAY := Date(32767, 12, 31)

  lemma ShortFits(y: int)
    ensures Short(y) == y <==> -32768 <= y <= 32767
  {
  }

  lemma AtMost31(y: int, m: nat)
    ensures LastDay(y, m) <= 31
  {
  }

  lemma FirstAndLast()
    ensures Real(FIRST_DAY) && Real(LAST_DAY)
  {
  }

  lemma InRange(date: Date)
    requires Real(date)
    ensures -32768 <= date.year <= 32767 <==> ToDays(FIRST_DAY) <= ToDays(date) <= ToDays(LAST_DAY)
  {
    hide ToDays, LastDay;
    FirstAndLast();
    AtMost31(date.year, date.month);
    if date != FIRST_DAY { OrderPreserved(date, FIRST_DAY); }
    if date != LAST_DAY { OrderPreserved(LAST_DAY, date); }
  }

  // A stored year with the month and day of a date that may not fit it.
  lemma StoredDays(y: int, date: Date)
    requires Real(date) && -32768 <= y <= 32767
    ensures ToDays(FIRST_DAY) <= ToDays(Date(y, date.month, date.day)) <= ToDays(LAST_DAY)
  {
    hide ToDays, LastDay, IsLeap;
    var stored := Date(y, date.month, date.day);
    if Real(stored) {
      InRange(stored);
    } else {
      NotReal(y, date);
      var march := Date(y, 3, 1);
      ThirdMonth(y);
      InRange(march);
      LeapDayIsMarch(y);
    }
  }

  lemma ThirdMonth(y: int)
    ensures Real(Date(y, 3, 1))
  {
  }

  lemma NotReal(y: int, date: Date)
    requires Real(date) && !Real(Date(y, date.month, date.day))
    ensures date.month == 2 && date.day == 29 && !IsLeap(y)
  {
  }

  lemma LeapDayIsMarch(y: int)
    requires !IsLeap(y)
    ensures ToDays(Date(y, 2, 29)) == ToDays(Date(y, 3, 1))
  {
    hide ToDays, YearsBefore;
    ToDaysIsNaive(Date(y, 2, 29));
    ToDaysIsNaive(Date(y, 3, 1));
    assert MonthsBefore(y, 3) == 31 + LastDay(y, 2) by { assert MonthsBefore(y, 2) == 31; }
    assert MonthsBefore(y, 2) == 31;
  }

  // from_days is undone by to_days exactly for the days of the years a
  // `short` can hold.
  lemma DaysRoundTrip(days: int)
    ensures ToDays(FromDays(days)) == days <==> ToDays(FIRST_DAY) <= days <= ToDays(LAST_DAY)
  {
    hide ToDays, LastDay, Civil, Short;
    var date := Civil(days);
    CivilBack(days);
    InRange(date);
    ShortFits(date.year);
    if -32768 <= date.year <= 32767 {
      assert FromDays(days) == date;
    } else {
      StoredDays(Short(date.year), date);
    }
  }

  // Every valid date comes back from its day number.
  lemma DateRoundTrip(date: Date)
    requires Ok(date)
    ensures FromDays(ToDays(date)) == date
  {
    hide ToDays, LastDay, Civil, Short;
    CivilOfDays(date);
    ShortFits(date.year);
  }

  // ---------- One day to the next ----------

  function Next(date: Date): Date {
    if date.day < LastDay(date.year, date.month) then date.(day := date.day + 1)
    else if date.month < 12 then Date(date.year, date.month + 1, 1)
    else Date(date.year + 1, 1, 1)
  }

  lemma NextIsReal(date: Date)
    requires Real(date)
    ensures Real(Next(date))
  {
  }

  // Day numbers count one up along the calendar.
  lemma NextDay(date: Date)
    requires Real(date)
    ensures ToDays(Next(date)) == ToDays(date) + 1
  {
    hide ToDays, LastDay, YearsBefore, YearLength;
    NextIsReal(date);
    ToDaysIsNaive(date);
    ToDaysIsNaive(Next(date));
    WholeYear(date.year);
    YearStep(date.year);
  }

  // ---------- Weekdays ----------

  // weekday_from_days: the argument is converted to 32-bit unsigned.
  function WeekdayFromDays(z: int): (w: nat)
    ensures w < 7
  {
    var u := z % 0x1_0000_0000;
    if z >= -4 then (u + 4) % 0x1_0000_0000 % 7 else u % 7
  }

  predicate Int32(z: int) { -0x8000_0000 <= z < 0x8000_0000 }

  // Days before 1970 wrap to large numbers, which the second branch makes up for.
  lemma WeekdayIsMod(z: int)
    requires Int32(z)
    ensures WeekdayFromDays(z) == (z + 4) % 7
  {
    if z >= 0 {
      RemainderUnique(z, 0x1_0000_0000, 0, z);
    } else {
      RemainderUnique(z, 0x1_0000_0000, -1, z + 0x1_0000_0000);
      assert 0x1_0000_0000 == 7 * 613566756 + 4;
    }
  }

  // operator- of two weekdays
  function WeekdayDiff(x: nat, y: nat): int {
    var wdu := x - y;
    var wk := FloorDiv(wdu, 7);
    wdu - wk * 7
  }

  lemma DiffIsMod(x: nat, y: nat)
    ensures WeekdayDiff(x, y) == (x - y) % 7 && 0 <= WeekdayDiff(x, y) <= 6
  {
    FloorDivIsFloor(x - y, 7);
  }

  lemma ModReached(a: int, w: nat)
    requires w < 7
    ensures (a + (w - a % 7) % 7) % 7 == w
  {
  }

  // The day w - (weekday of f) days after f falls on w.
  lemma WeekdayReached(f: int, w: nat)
    requires Int32(f) && Int32(f + 6) && w < 7
    ensures var t := f + WeekdayDiff(w, WeekdayFromDays(f)); WeekdayFromDays(t) == w
  {
    hide WeekdayDiff, WeekdayFromDays;
    var k := WeekdayDiff(w, WeekdayFromDays(f));
    DiffIsMod(w, WeekdayFromDays(f));
    ModReached(f + 4, w);
    WeekdayIsMod(f);
    WeekdayIsMod(f + k);
  }

  // ---------- The n-th weekday of a month ----------

  datatype NthWeekday = NthWeekday(year: int, month: nat, weekday: nat, index: nat)

  function NthFromDays(days: int): NthWeekday {
    var wd := WeekdayFromDays(days);
    var ymd := FromDays(days);
    NthWeekday(ymd.year, ymd.month, wd, (if ymd.day >= 1 then ymd.day - 1 else 0) / 7 + 1)
  }

  function NthToDays(x: NthWeekday): int {
    var d := ToDays(Date(x.year, x.month, 1));
    d + WeekdayDiff(x.weekday, WeekdayFromDays(d)) + (x.index - 1) * 7
  }

  predicate NthOk(x: NthWeekday) {
    && YearOk(x.year) && MonthOk(x.month) && x.weekday <= 6 && x.index >= 1
    && (x.index <= 4 ||
        WeekdayDiff(x.weekday, WeekdayFromDays(ToDays(Date(x.year, x.month, 1)))) + (x.index - 1) * 7 + 1
          <= LastDay(x.year, x.month))
  }

  lemma FirstOfMonth(date: Date)
    requires MonthOk(date.month)
    ensures ToDays(Date(date.year, date.month, 1)) == ToDays(date) - (date.day - 1)
  {
    hide YearStart, MonthStart;
  }

  lemma FirstIsReal(y: int, m: nat)
    requires MonthOk(m)
    ensures Real(Date(y, m, 1)) && 28 <= LastDay(y, m) <= 31
  {
  }

  lemma RangeIsInt32()
    ensures Int32(ToDays(FIRST_DAY) - 62) && Int32(ToDays(LAST_DAY) + 62)
  {
  }

  lemma WeeksAndDays(a: int, k: nat)
    ensures ((a + k) % 7 - a % 7) % 7 + (k / 7) * 7 == k
  {
    var q, r := k / 7, k % 7;
    RemainderUnique(a + k, 7, (a + r) / 7 + q, (a + r) % 7) by { assert a + r == 7 * ((a + r) / 7) + (a + r) % 7; }
    ModDiff(a, r);
  }

  lemma ModDiff(a: int, r: int)
    requires 0 <= r < 7
    ensures ((a + r) % 7 - a % 7) % 7 == r
  {
  }

  // Every day is the n-th of its weekday in its month.
  lemma NthOfDays(days: int)
    requires ToDays(FIRST_DAY) <= days <= ToDays(LAST_DAY)
    ensures NthToDays(NthFromDays(days)) == days
  {
    hide ToDays, LastDay, Civil, Short, WeekdayFromDays, WeekdayDiff;
    var date := Civil(days);
    CivilBack(days);
    InRange(date);
    ShortFits(date.year);
    FirstOfMonth(date);
    AtMost31(date.year, date.month);
    RangeIsInt32();
    var f := days - (date.day - 1);
    WeekdayIsMod(days);
    WeekdayIsMod(f);
    DiffIsMod(WeekdayFromDays(days), WeekdayFromDays(f));
    WeeksAndDays(f + 4, date.day - 1);
  }

  // Every valid n-th weekday comes back from its day number.
  lemma DaysOfNth(x: NthWeekday)
    requires NthOk(x)
    ensures NthFromDays(NthToDays(x)) == x
  {
    hide ToDays, LastDay, Civil, Short, WeekdayFromDays, WeekdayDiff;
    var first := Date(x.year, x.month, 1);
    var f := ToDays(first);
    var k := WeekdayDiff(x.weekday, WeekdayFromDays(f));
    FirstIsReal(x.year, x.month);
    DiffIsMod(x.weekday, WeekdayFromDays(f));
    var date := Date(x.year, x.month, k + (x.index - 1) * 7 + 1);
    FirstOfMonth(date);
    CivilOfDays(date);
    ShortFits(x.year);
    InRange(first);
    InRange(date);
    RangeIsInt32();
    WeekdayReached(f, x.weekday);
    WeekdayIsMod(f + k);
    WeekdayIsMod(f + k + (x.index - 1) * 7);
    assert (k + (x.index - 1) * 7) / 7 == x.index - 1;
  }

  const FIRST_OK: Date := Date(-32767, 1, 1)

  lemma YearOkFrom(date: Date)
    requires Real(date) && date.year <= 32767
    ensures YearOk(date.year) <==> ToDays(FIRST_OK) <= ToDays(date)
  {
    hide ToDays, LastDay;
    FirstIsReal(-32767, 1);
    if date != FIRST_OK { OrderPreserved(date, FIRST_OK); }
  }

  // The n-th weekday of every day of a valid year is valid.
  lemma NthOfDaysOk(days: int)
    requires ToDays(FIRST_DAY) <= days <= ToDays(LAST_DAY)
    ensures NthOk(NthFromDays(days)) <==> ToDays(FIRST_OK) <= days
  {
    hide ToDays, LastDay, Civil, Short, WeekdayFromDays, WeekdayDiff;
    var date := Civil(days);
    CivilBack(days);
    InRange(date);
    ShortFits(date.year);
    NthOfDays(days);
    FirstOfMonth(date);
    YearOkFrom(date);
  }

  // The valid n-th weekdays are those of the days of valid years.
  lemma NthOkExactly(x: NthWeekday)
    ensures NthOk(x) <==> exists days :: ToDays(FIRST_OK) <= days <= ToDays(LAST_DAY) && NthFromDays(days) == x
  {
    hide ToDays, LastDay, NthFromDays, NthToDays, WeekdayFromDays, WeekdayDiff;
    FirstIsReal(-32767, 1);
    InRange(FIRST_OK);
    if NthOk(x) {
      DaysOfNth(x);
      NthInRange(x);
    }
    forall days | ToDays(FIRST_OK) <= days <= ToDays(LAST_DAY) && NthFromDays(days) == x ensures NthOk(x) {
      NthOfDaysOk(days);
    }
  }

  lemma NthInRange(x: NthWeekday)
    requires NthOk(x)
    ensures ToDays(FIRST_OK) <= NthToDays(x) <= ToDays(LAST_DAY)
  {
    hide ToDays, LastDay, WeekdayFromDays, WeekdayDiff;
    var f := ToDays(Date(x.year, x.month, 1));
    var k := WeekdayDiff(x.weekday, WeekdayFromDays(f));
    FirstIsReal(x.year, x.month);
    DiffIsMod(x.weekday, WeekdayFromDays(f));
    var date := Date(x.year, x.month, k + (x.index - 1) * 7 + 1);
    FirstOfMonth(date);
    InRange(date);
    YearOkFrom(date);
  }

  // ---------- Adding months ----------

  datatype YearMonth = YearMonth(year: int, month: nat)

  // operator+ of a year_month and a number of months
  function AddMonths(ym: YearMonth, n: int): (r: YearMonth)
    ensures MonthOk(r.month)
  {
    var dmi := ym.month - 1 + n;
    var dy := FloorDiv(dmi, 12);
    FloorDivIsFloor(dmi, 12);
    YearMonth(Short(ym.year + dy), dmi - dy * 12 + 1)
  }

  // operator-
  function MonthsBetween(x: YearMonth, y: YearMonth): int {
    12 * (x.year - y.year) + (x.month - y.month)
  }

  lemma ShortAdd(a: int, b: int)
    ensures Short(Short(a) + b) == Short(a + b)
  {
    var q := (a + 32768) / 65536;
    assert Short(a) == a - 65536 * q;
    RemainderUnique(Short(a) + b + 32768, 65536, (a + b + 32768) / 65536 - q, (a + b + 32768) % 65536);
  }

  // Adding months one way and then another adds the sum, wherever the
  // stored year wraps.
  lemma AddMonthsTwice(ym: YearMonth, m: int, n: int)
    ensures AddMonths(AddMonths(ym, m), n) == AddMonths(ym, m + n)
  {
    hide Short;
    var a := ym.month - 1 + m;
    var b := AddMonths(ym, m).month - 1 + n;
    FloorDivIsFloor(a, 12);
    FloorDivIsFloor(b, 12);
    FloorDivIsFloor(a + n, 12);
    RemainderUnique(a + n, 12, FloorDiv(a, 12) + FloorDiv(b, 12), b - FloorDiv(b, 12) * 12);
    ShortAdd(ym.year + FloorDiv(a, 12), FloorDiv(b, 12));
  }

  // Subtraction inverts addition.
  lemma AddTheDifference(x: YearMonth, y: YearMonth)
    requires MonthOk(x.month) && MonthOk(y.month) && -32768 <= x.year <= 32767
    ensures AddMonths(y, MonthsBetween(x, y)) == x
  {
    hide Short;
    var dmi := y.month - 1 + MonthsBetween(x, y);
    FloorDivIsFloor(dmi, 12);
    RemainderUnique(dmi, 12, x.year - y.year, x.month - 1);
    ShortFits(x.year);
  }
}
