/** Day numbers and civil dates. */
module Calendar {
  import opened Basics
  import Radix


  /** A number kept in 32 unsigned bits. */
  function Wrap(x: int): nat { x % UINT32 }

  /** The signed reading of 32 bits. */
  function Signed(x: nat): int { if x < UINT32 / 2 then x else x - UINT32 }

  predicate IsInt32(x: int) { -UINT32 / 2 <= x < UINT32 / 2 }

  /** Division that rounds toward zero. */
  function Truncated(a: int, b: nat): int
    requires b > 0
  {
    if a >= 0 then a / b else -(-a / b)
  }

  datatype Date = Date(year: nat, month: int, day: int)

  // ----- the conversions -----

  /** The year of the era, counted from March, of a day of the era. */
  function YearOfEra(doe: int): int { (doe - doe / 1460 + doe / 36524 - doe / 146096) / 365 }

  function YearStart(yoe: int): int { 365 * yoe + yoe / 4 - yoe / 100 }

  /** The day of the year a month starts on, March being month zero. */
  function MonthStart(mp: int): int { (153 * mp + 2) / 5 }

  function MonthOf(mp: int): int { if mp < 10 then mp + 3 else mp - 9 }

  /** from_days. */
  function FromDays(days: int): Date {
    var z := days + 719468;
    var era := Truncated(if z >= 0 then z else z - 146096, 146097);
    DateOfEra(era, Wrap(z - era * 146097))
  }

  /** The date of a day of an era. */
  function DateOfEra(era: int, doe: int): Date {
    var yoe := YearOfEra(doe);
    var y := yoe + era * 400;
    var doy := doe - YearStart(yoe);
    var mp := (5 * doy + 2) / 153;
    var d := doy - MonthStart(mp) + 1;
    var m := MonthOf(mp);
    Date(Wrap(y + if m <= 2 then 1 else 0), m, d)
  }

  /** to_days, which takes any month and day. */
  function ToDays(date: Date): int {
    var y := Signed(date.year) - if date.month <= 2 then 1 else 0;
    var era := Truncated(if y >= 0 then y else y - 399, 400);
    var yoe := Wrap(y - era * 400);
    var doy := Wrap(MonthStart(if date.month > 2 then date.month - 3 else date.month + 9) + date.day - 1);
    var doe := Wrap(YearStart(yoe) + doy);
    era * 146097 + Signed(doe) - 719468
  }

  // ----- the Gregorian calendar -----

  predicate Leap(year: int) { year % 4 == 0 && (year % 100 != 0 || year % 400 == 0) }

  function DaysIn(year: int, month: int): int {
    if month == 2 then (if Leap(year) then 29 else 28)
    else if month == 4 || month == 6 || month == 9 || month == 11 then 30
    else 31
  }

  /** A date of the calendar whose year before is a 32-bit number too. */
  predicate Valid(date: Date) {
    && date.year < UINT32 && -UINT32 / 2 < Signed(date.year)
    && 1 <= date.month <= 12 && 1 <= date.day <= DaysIn(Signed(date.year), date.month)
  }

  function NextDay(date: Date): Date {
    if date.day < DaysIn(Signed(date.year), date.month) then date.(day := date.day + 1)
    else if date.month < 12 then Date(date.year, date.month + 1, 1)
    else Date(Wrap(date.year + 1), 1, 1)
  }

  // ----- arithmetic -----

  lemma Wrapped(x: int)
    ensures 0 <= x < UINT32 ==> Wrap(x) == x
    ensures IsInt32(x) ==> Signed(Wrap(x)) == x && Wrap(x) < UINT32
  {
    if IsInt32(x) && x < 0 { assert x % UINT32 == (x + UINT32) % UINT32; }
  }

  lemma Unwrapped(x: nat)
    requires x < UINT32
    ensures Wrap(Signed(x)) == x && IsInt32(Signed(x))
  {
    if x >= UINT32 / 2 { assert (x - UINT32) % UINT32 == x % UINT32; }
  }

  /** The era is found by rounding down. */
  lemma EraFloor(y: int, n: nat, era: int, rest: int)
    requires n > 0 && y == era * n + rest && 0 <= rest < n
    ensures Truncated(if y >= 0 then y else y - (n - 1), n) == era
  {
    if y >= 0 {
      Radix.Quotient(y, n, era, rest);
    } else {
      Radix.Quotient(-(y - (n - 1)), n, -era, n - 1 - rest);
    }
  }

  /** A year of the era is a century, a group of four and a year of the group. */
  lemma YearParts(c: int, q: int, r: int)
    requires 0 <= c <= 3 && 0 <= q <= 24 && 0 <= r <= 3
    ensures YearStart(100 * c + 4 * q + r) == 36524 * c + 1461 * q + 365 * r
    ensures Leap(100 * c + 4 * q + r + 1) <==> r == 3 && (q < 24 || c == 3)
  {
  }

  lemma YearFound(c: int, q: int, r: int, doy: int)
    requires 0 <= c <= 3 && 0 <= q <= 24 && 0 <= r <= 3 && 0 <= doy <= 365
    requires doy == 365 ==> r == 3 && (q < 24 || c == 3)
    ensures YearOfEra(36524 * c + 1461 * q + 365 * r + doy) == 100 * c + 4 * q + r
    ensures 0 <= 36524 * c + 1461 * q + 365 * r + doy < 146097
  {
    var doe := 36524 * c + 1461 * q + 365 * r + doy;
    var e := if 24 * c + q + 365 * r + doy >= 1460 then 1 else 0;
    assert doe / 1460 == 25 * c + q + e;
    assert doe / 36524 - doe / 146096 == c;
    assert doe - doe / 1460 + doe / 36524 - doe / 146096 == 365 * (100 * c + 4 * q + r) + doy - e;
  }

  /** Every year of the era is found from each of its days. */
  lemma YearFits(yoe: int, doy: int)
    requires 0 <= yoe < 400 && 0 <= doy <= 365 && (doy == 365 ==> Leap(yoe + 1))
    ensures YearOfEra(YearStart(yoe) + doy) == yoe && 0 <= YearStart(yoe) + doy < 146097
  {
    hide YearOfEra, YearStart, Leap;
    var c, q, r := yoe / 100, yoe % 100 / 4, yoe % 4;
    YearParts(c, q, r);
    YearFound(c, q, r, doy);
  }

  /** Every day of the era is in a year. */
  lemma YearOfDay(doe: int) returns (yoe: int, doy: int)
    requires 0 <= doe < 146097
    ensures 0 <= yoe < 400 && 0 <= doy <= 365 && (doy == 365 ==> Leap(yoe + 1)) && doe == YearStart(yoe) + doy
  {
    hide YearStart, Leap;
    var c := if doe < 146096 then doe / 36524 else 3;
    var q := (doe - 36524 * c) / 1461;
    var left := doe - 36524 * c - 1461 * q;
    var r := if left < 1460 then left / 365 else 3;
    yoe, doy := 100 * c + 4 * q + r, left - 365 * r;
    YearParts(c, q, r);
  }

  /** The length of a month, March being month zero. */
  function MonthLength(yoe: int, mp: int): int {
    if mp < 11 then MonthStart(mp + 1) - MonthStart(mp) else if Leap(yoe + 1) then 29 else 28
  }

  lemma MonthFits(yoe: int, mp: int, d: int)
    requires 0 <= mp <= 11 && 1 <= d <= MonthLength(yoe, mp)
    ensures var doy := MonthStart(mp) + d - 1;
            0 <= doy <= 365 && (doy == 365 ==> Leap(yoe + 1)) && (5 * doy + 2) / 153 == mp
  {
    hide Leap;
  }

  lemma MonthOfDay(yoe: int, doy: int) returns (mp: int, d: int)
    requires 0 <= doy <= 365 && (doy == 365 ==> Leap(yoe + 1))
    ensures 0 <= mp <= 11 && 1 <= d <= MonthLength(yoe, mp) && doy == MonthStart(mp) + d - 1
  {
    hide Leap;
    mp := (5 * doy + 2) / 153;
    d := doy - MonthStart(mp) + 1;
  }

  lemma LengthsAgree(era: int, yoe: int, mp: int)
    requires 0 <= mp <= 11 && 0 <= yoe < 400
    ensures MonthLength(yoe, mp) == DaysIn(era * 400 + yoe + (if mp >= 10 then 1 else 0), MonthOf(mp))
  {
    LeapEra(era, yoe + 1);
    hide Leap;
    assert mp <= 0 || mp == 1 || mp == 2 || mp == 3 || mp == 4 || mp == 5 || mp == 6 || mp == 7 || mp == 8 || mp == 9 || mp >= 10;
  }

  lemma LeapEra(era: int, y: int)
    ensures Leap(era * 400 + y) == Leap(y)
  {
    var k := 4 * era;
    assert (k * 100 + y) % 100 == y % 100 by { Shift(k, 100, y); }
    assert (100 * era * 4 + y) % 4 == y % 4 by { Shift(100 * era, 4, y); }
    Shift(era, 400, y);
  }

  lemma Shift(k: int, n: nat, y: int)
    requires n > 0
    ensures (k * n + y) % n == y % n
  {
    Radix.Quotient(y, n, y / n, y % n);
    assert k * n + y == (k + y / n) * n + y % n;
    Radix.Quotient(k * n + y, n, k + y / n, y % n);
  }

  // ----- a day by era, year, month and day, the years starting in March -----

  datatype March = March(era: int, yoe: int, mp: int, d: int)

  predicate InEra(k: March) {
    0 <= k.yoe < 400 && 0 <= k.mp <= 11 && 1 <= k.d <= MonthLength(k.yoe, k.mp)
  }

  function YearOf(k: March): int { k.yoe + k.era * 400 + if k.mp >= 10 then 1 else 0 }

  function Civil(k: March): Date { Date(Wrap(YearOf(k)), MonthOf(k.mp), k.d) }

  function DayNumber(k: March): int { k.era * 146097 + DayOfEra(k) - 719468 }

  function DayOfEra(k: March): int { YearStart(k.yoe) + (MonthStart(k.mp) + k.d - 1) }

  lemma EraFound(k: March)
    requires InEra(k)
    ensures FromDays(DayNumber(k)) == DateOfEra(k.era, DayOfEra(k))
  {
    hide YearOfEra, YearStart, Leap, MonthStart, Wrap, MonthLength, DateOfEra;
    MonthFits(k.yoe, k.mp, k.d);
    YearFits(k.yoe, MonthStart(k.mp) + k.d - 1);
    EraFloor(DayNumber(k) + 719468, 146097, k.era, DayOfEra(k));
    Wrapped(DayOfEra(k));
  }

  lemma DateFound(k: March)
    requires InEra(k)
    ensures DateOfEra(k.era, DayOfEra(k)) == Civil(k)
  {
    hide YearOfEra, YearStart, Leap, MonthStart, Wrap, MonthLength;
    MonthFits(k.yoe, k.mp, k.d);
    YearFits(k.yoe, MonthStart(k.mp) + k.d - 1);
  }

  lemma ToDayNumber(k: March)
    requires InEra(k) && IsInt32(YearOf(k))
    ensures ToDays(Civil(k)) == DayNumber(k)
  {
    hide YearOfEra, YearStart, Leap, MonthStart, Wrap, Signed, MonthLength;
    var doy := MonthStart(k.mp) + k.d - 1;
    MonthFits(k.yoe, k.mp, k.d);
    YearFits(k.yoe, doy);
    EraFloor(k.era * 400 + k.yoe, 400, k.era, k.yoe);
    Wrapped(YearOf(k));
    Wrapped(k.yoe);
    Wrapped(doy);
    Wrapped(YearStart(k.yoe) + doy);
    assert MonthOf(k.mp) <= 2 <==> k.mp >= 10;
  }

  /** Every day number is in some era. */
  lemma DayInEra(days: int) returns (k: March)
    ensures InEra(k) && DayNumber(k) == days
  {
    hide YearOfEra, YearStart, Leap, MonthStart, MonthLength;
    var era, doe := (days + 719468) / 146097, (days + 719468) % 146097;
    var yoe, doy := YearOfDay(doe);
    var mp, d := MonthOfDay(yoe, doy);
    k := March(era, yoe, mp, d);
  }

  /** So is every valid date. */
  lemma DateInEra(date: Date) returns (k: March)
    requires Valid(date)
    ensures InEra(k) && Civil(k) == date && YearOf(k) == Signed(date.year) && date.year < UINT32 && IsInt32(YearOf(k))
  {
    hide YearStart, Leap, MonthStart, MonthLength, Wrap, Signed, DaysIn;
    var y := Signed(date.year) - if date.month <= 2 then 1 else 0;
    var mp := if date.month <= 2 then date.month + 9 else date.month - 3;
    k := March(y / 400, y % 400, mp, date.day);
    LengthsAgree(y / 400, y % 400, mp);
    Unwrapped(date.year);
  }

  lemma CivilIsValid(k: March)
    requires InEra(k) && -UINT32 / 2 < YearOf(k) < UINT32 / 2
    ensures Valid(Civil(k))
  {
    hide YearStart, Leap, MonthStart, MonthLength, Wrap, Signed, DaysIn;
    LengthsAgree(k.era, k.yoe, k.mp);
    Wrapped(YearOf(k));
  }

  // ----- the round trips -----

  /** Every day number that fits in an int, with room for the offset, comes back from its date,
      which is a valid one; also before year zero, where the year wraps. */
  lemma DaysComeBack(days: int)
    requires IsInt32(days) && IsInt32(days + 719468)
    ensures Valid(FromDays(days)) && ToDays(FromDays(days)) == days
  {
    hide FromDays, DateOfEra, DayOfEra, ToDays, Valid, Civil, InEra, DayNumber, Wrap;
    var k := DayInEra(days);
    YearInRange(k);
    EraFound(k);
    DateFound(k);
    CivilIsValid(k);
    ToDayNumber(k);
  }

  lemma YearInRange(k: March)
    requires InEra(k) && IsInt32(DayNumber(k))
    ensures -6_000_000 < YearOf(k) < 6_000_000
  {
    hide YearStart, MonthStart, MonthLength, Leap;
    MonthFits(k.yoe, k.mp, k.d);
    YearFits(k.yoe, MonthStart(k.mp) + k.d - 1);
  }

  /** Every date of the calendar comes back from its day number. */
  lemma DatesComeBack(date: Date)
    requires Valid(date)
    ensures FromDays(ToDays(date)) == date
  {
    hide FromDays, DateOfEra, DayOfEra, ToDays, Valid, Civil, InEra, DayNumber, Wrap, Signed;
    var k := DateInEra(date);
    Unwrapped(date.year);
    ToDayNumber(k);
    EraFound(k);
    DateFound(k);
  }

  // ----- the next day -----

  function NextInEra(k: March): March {
    if k.d < MonthLength(k.yoe, k.mp) then k.(d := k.d + 1)
    else if k.mp < 11 then k.(mp := k.mp + 1, d := 1)
    else if k.yoe < 399 then March(k.era, k.yoe + 1, 0, 1)
    else March(k.era + 1, 0, 0, 1)
  }

  lemma YearLength(yoe: int)
    requires 0 <= yoe < 400
    ensures YearStart(yoe) + MonthStart(11) + MonthLength(yoe, 11) == if yoe < 399 then YearStart(yoe + 1) else 146097
    ensures YearStart(0) == 0
  {
    hide Leap, YearStart;
    var c, q, r := yoe / 100, yoe % 100 / 4, yoe % 4;
    YearParts(c, q, r);
    YearParts(0, 0, 0);
    if r < 3 {
      YearParts(c, q, r + 1);
    } else if q < 24 {
      YearParts(c, q + 1, 0);
    } else if c < 3 {
      YearParts(c + 1, 0, 0);
    }
  }

  lemma NextInEraCounts(k: March)
    requires InEra(k)
    ensures InEra(NextInEra(k)) && DayNumber(NextInEra(k)) == DayNumber(k) + 1
  {
    hide Leap, YearStart, MonthStart, MonthLength;
    YearLength(k.yoe);
    MonthsFollow(k.yoe, k.mp);
    MonthsFollow(0, 0);
    if k.mp < 11 { MonthsFollow(k.yoe, k.mp + 1); }
    if k.yoe < 399 { MonthsFollow(k.yoe + 1, 0); }
  }

  lemma MonthsFollow(yoe: int, mp: int)
    requires 0 <= mp <= 11
    ensures MonthLength(yoe, mp) >= 1 && MonthStart(0) == 0
    ensures mp < 11 ==> MonthStart(mp) + MonthLength(yoe, mp) == MonthStart(mp + 1)
  {
    hide Leap;
  }

  lemma NextInEraIsNext(k: March)
    requires InEra(k) && IsInt32(YearOf(k))
    ensures Civil(NextInEra(k)) == NextDay(Civil(k))
  {
    hide Leap, YearStart, MonthStart, MonthLength, DaysIn, Wrap, Signed;
    LengthsAgree(k.era, k.yoe, k.mp);
    Wrapped(YearOf(k));
    NextYear(YearOf(k));
  }

  lemma NextYear(y: int)
    ensures Wrap(Wrap(y) + 1) == Wrap(y + 1)
  {
  }

  /** Day numbers count the days of the Gregorian calendar from the first of 1970. */
  lemma DaysCountUp(date: Date)
    requires Valid(date) && Valid(NextDay(date))
    ensures ToDays(Date(1970, 1, 1)) == 0 && ToDays(NextDay(date)) == ToDays(date) + 1
  {
    hide Valid, Civil, NextDay, NextInEra, InEra, DayNumber, ToDays, Signed;
    Epoch();
    var k := DateInEra(date);
    var next := DateInEra(NextDay(date));
    ValidYears(date);
    ValidYears(NextDay(date));
    NextYearOf(k);
    NextInEraCounts(k);
    NextInEraIsNext(k);
    OneDayEach(next, NextInEra(k));
    ToDayNumber(k);
    ToDayNumber(next);
  }

  lemma Epoch()
    ensures ToDays(Date(1970, 1, 1)) == 0
  {
    assert Truncated(1969, 400) == 4;
  }

  lemma ValidYears(date: Date)
    requires Valid(date)
    ensures -UINT32 / 2 < Signed(date.year) < UINT32 / 2
  {
  }

  lemma NextYearOf(k: March)
    requires InEra(k)
    ensures YearOf(k) <= YearOf(NextInEra(k)) <= YearOf(k) + 1
  {
    hide Leap, MonthLength;
  }

  /** A date belongs to one day. */
  lemma OneDayEach(a: March, b: March)
    requires InEra(a) && InEra(b) && Civil(a) == Civil(b) && -UINT32 / 2 < YearOf(a) <= UINT32 / 2 && -UINT32 / 2 < YearOf(b) <= UINT32 / 2
    ensures a == b
  {
    hide Leap, MonthLength, Wrap;
    SameWrap(YearOf(a), YearOf(b));
    assert a.mp == b.mp;
    assert a.yoe + a.era * 400 == b.yoe + b.era * 400;
  }

  lemma SameWrap(x: int, y: int)
    requires Wrap(x) == Wrap(y) && -UINT32 < x - y < UINT32
    ensures x == y
  {
  }

  /** Some days of the Gregorian calendar. */
  lemma KnownDays()
    ensures ToDays(Date(1969, 12, 31)) == -1 && ToDays(Date(2000, 1, 1)) == 10957 && ToDays(Date(2020, 2, 29)) == 18321
  {
    hide ToDays, YearStart, MonthStart;
    DayIs(Date(1969, 12, 31), 4, 369, 305, 134774);
    DayIs(Date(2000, 1, 1), 4, 399, 306, 145731);
    DayIs(Date(2020, 2, 29), 5, 19, 365, 6939);
  }

  /** 1900 and 2100 have no 29th of February, 2000 has. */
  lemma LeapDays()
    ensures ToDays(Date(2000, 2, 29)) == 11016 && ToDays(Date(2000, 3, 1)) == 11017
    ensures ToDays(Date(1900, 2, 28)) == -25509 && ToDays(Date(1900, 3, 1)) == -25508
    ensures ToDays(Date(2100, 2, 28)) == 47540 && ToDays(Date(2100, 3, 1)) == 47541
  {
    hide ToDays, YearStart, MonthStart;
    DayIs(Date(2000, 2, 29), 4, 399, 365, 145731);
    DayIs(Date(2000, 3, 1), 5, 0, 0, 0);
    DayIs(Date(1900, 2, 28), 4, 299, 364, 109207);
    DayIs(Date(1900, 3, 1), 4, 300, 0, 109572);
    DayIs(Date(2100, 2, 28), 5, 99, 364, 36159);
    DayIs(Date(2100, 3, 1), 5, 100, 0, 36524);
  }

  lemma DayIs(date: Date, era: nat, yoe: nat, doy: nat, start: nat)
    requires date.year < UINT32 / 2 && 1 <= date.month <= 12 && 1 <= date.day <= 31 && yoe < 400 && doy <= 366
    requires date.year - (if date.month <= 2 then 1 else 0) == era * 400 + yoe
    requires 5 * (doy - date.day + 1) <= 153 * (if date.month > 2 then date.month - 3 else date.month + 9) + 2 < 5 * (doy - date.day + 1) + 5
    requires start == 365 * yoe + yoe / 4 - yoe / 100
    ensures ToDays(date) == era * 146097 + start + doy - 719468
  {
    Radix.Quotient(era * 400 + yoe, 400, era, yoe);
    Wrapped(yoe);
    Wrapped(doy);
    Wrapped(start + doy);
  }

  lemma MonthLengths()
    ensures forall y :: DaysIn(y, 1) == DaysIn(y, 3) == DaysIn(y, 5) == DaysIn(y, 7) == DaysIn(y, 8) == DaysIn(y, 10) == DaysIn(y, 12) == 31
    ensures forall y :: DaysIn(y, 4) == DaysIn(y, 6) == DaysIn(y, 9) == DaysIn(y, 11) == 30
    ensures DaysIn(1900, 2) == 28 && DaysIn(2000, 2) == 29 && DaysIn(2001, 2) == 28 && DaysIn(2020, 2) == 29 && DaysIn(2100, 2) == 28
  {
  }
}
