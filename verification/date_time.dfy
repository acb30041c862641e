/** `DateTime`: a broken-down proleptic Gregorian date and time together
    with its Unix timestamp in microseconds, the conversions between the two
    (Howard Hinnant's `days_from_civil` and `civil_from_days`), and the
    fixed-width text form `yyyy/MM/dd hh:mm:ss.nnnnnn`.

    Fields hold the values of their C++ types (`uint16_t` year, `uint8_t`
    month to second, `uint32_t` microsecond, `uint64_t` timestamp); every
    conversion into one of those types is written out. Reading the clock
    (`now*`) is not modelled. */
module DateTimes {
  import opened Ints
  import opened StringUtils

  datatype DateTime = DateTime(
    year: nat, month: nat, day: nat, hour: nat, minute: nat, second: nat,
    microsecond: nat, timestamp: nat)

  const MICROS: nat := 1_000_000
  const DAY_SECONDS: nat := 86400
  /** The days from 0000-03-01 to 1970-01-01. */
  const EPOCH_SHIFT: nat := 719468
  const ERA_DAYS: nat := 146097

  /** The default value, and what `clear()` leaves. */
  function Clear(): (dt: DateTime)
    ensures dt == DateTime(0, 0, 0, 0, 0, 0, 0, 0)
    ensures !IsValid(dt)
  {
    DateTime(0, 0, 0, 0, 0, 0, 0, 0)
  }

  // ---------------------------------------------------------------------
  // Validity

  predicate IsLeap(y: int) {
    (y % 4 == 0 && y % 100 != 0) || y % 400 == 0
  }

  /** The length of month m of year y in the Gregorian calendar. */
  function MonthLength(y: int, m: nat): nat
    requires 1 <= m <= 12
  {
    match m
    case 2 => if IsLeap(y) then 29 else 28
    case 4 => 30
    case 6 => 30
    case 9 => 30
    case 11 => 30
    case _ => 31
  }

  /** `isValid()`: years 1600 to 2500 and a real calendar date and time of
      day. */
  predicate IsValid(dt: DateTime)
    ensures IsValid(dt) <==>
      && 1600 <= dt.year <= 2500
      && 1 <= dt.month <= 12
      && 1 <= dt.day <= MonthLength(dt.year, dt.month)
      && dt.hour <= 23 && dt.minute <= 59 && dt.second <= 59
      && dt.microsecond <= 999_999
  {
    if dt.year < 1600 || dt.year > 2500 then false
    else if dt.month < 1 || dt.month > 12 then false
    else
      var daysInMonth := if dt.month == 4 || dt.month == 6 || dt.month == 9 || dt.month == 11 then 30 else 31;
      if dt.day < 1 || dt.day > daysInMonth then false
      else if dt.month == 2 && IsLeap(dt.year) && dt.day > 29 then false
      else if dt.month == 2 && !IsLeap(dt.year) && dt.day > 28 then false
      else if dt.hour > 23 || dt.minute > 59 || dt.second > 59 then false
      else dt.microsecond <= 999_999
  }

  // ---------------------------------------------------------------------
  // days_from_civil

  /** C++ division of a by a positive b: truncation toward zero. */
  function TruncDiv(a: int, b: nat): int
    requires b > 0
  {
    if a >= 0 then a / b else -((-a) / b)
  }

  /** The months counted from March: March is 0, February 11. */
  function MarchMonth(m: nat): nat
    requires 1 <= m <= 12
  {
    if m > 2 then m - 3 else m + 9
  }

  /** The day of a March-based year on which day d of March-based month mp
      falls. */
  function DoyOf(mp: nat, d: nat): nat
    requires d >= 1
  {
    (153 * mp + 2) / 5 + d - 1
  }

  /** The day of a 400-year era on which its year yoe starts. */
  function YearStart(yoe: nat): nat {
    365 * yoe + yoe / 4 - yoe / 100
  }

  /** The era of a (March-based) year: the 400-year block it lies in, with
      the source's adjustment so that negative years round down. */
  function EraOf(y: int): int {
    if y >= 0 then y / 400 else TruncDiv(y - 399, 400)
  }

  /** `daysFromCivil(y, m, d)`: the days from 1970-01-01 to the date. Only
      called on fields `isValid` accepted, so month and day are in range. */
  function DaysFromCivil(y: int, m: nat, d: nat): (days: int)
    requires 1 <= m <= 12 && 1 <= d <= 31
  {
    var y' := if m <= 2 then y - 1 else y;
    var era := EraOf(y');
    var yoe := y' - era * 400;
    EraBounds(y');
    era * ERA_DAYS + (YearStart(yoe) + DoyOf(MarchMonth(m), d)) - EPOCH_SHIFT
  }

  /** The year within the era is in 0..399 whatever the sign of y. */
  lemma EraBounds(y: int)
    ensures 0 <= y - EraOf(y) * 400 <= 399
  {
    if y >= 0 {
      DivModDef(y, 400);
    } else {
      DivModDef(399 - y, 400);
    }
  }

  // ---------------------------------------------------------------------
  // civil_from_days

  /** The year of the era in which day doe of the era falls. */
  function YoeOf(doe: nat): int {
    (doe - doe / 1460 + doe / 36524 - doe / 146096) / 365
  }

  /** A date as `civilFromDays` writes it into the fields. */
  datatype Civil = Civil(year: nat, month: nat, day: nat)

  /** `civilFromDays(days)`: the date of the day `days` after 1970-01-01;
      the year is stored into the 16-bit field. Days before 0000-03-01,
      where the source's unsigned arithmetic wraps, are not covered. */
  function CivilFromDays(days: int): (c: Civil)
    requires days + EPOCH_SHIFT >= 0
    ensures 1 <= c.month <= 12 && 1 <= c.day <= 31 && c.year < TWO_16
  {
    var z := days + EPOCH_SHIFT;
    var era := z / ERA_DAYS;
    CivilOfEraDoe(era, z - era * ERA_DAYS)
  }

  /** `civilFromDays` once the era and the day of the era are known. */
  function CivilOfEraDoe(era: int, doe: nat): (c: Civil)
    requires doe < ERA_DAYS
    ensures 1 <= c.month <= 12 && 1 <= c.day <= 31 && c.year < TWO_16
  {
    var yoe := YoeOf(doe);
    YoeBounds(doe);
    CivilOfDoy(yoe + era * 400, doe - YearStart(yoe))
  }

  /** The second half of `civilFromDays`: month and day from the day of a
      March-based year, and the civil year from the March-based one. */
  function CivilOfDoy(y: int, doy: nat): (c: Civil)
    requires doy <= 365
    ensures 1 <= c.month <= 12 && 1 <= c.day <= 31 && c.year < TWO_16
  {
    var mp := (5 * doy + 2) / 153;
    var d := doy - (153 * mp + 2) / 5 + 1;
    var m := if mp < 10 then mp + 3 else mp - 9;
    Civil((y + (if m <= 2 then 1 else 0)) % TWO_16, m, d)
  }

  /** Every day of an era falls in a year of it, at most 365 days in. */
  lemma YoeBounds(doe: nat)
    requires doe < ERA_DAYS
    ensures 0 <= YoeOf(doe) <= 399
    ensures 0 <= doe - YearStart(YoeOf(doe)) <= 365
  {
    var c, q, r, doy := EraSplit(doe);
    YoeOfParts(c, q, r, doy);
    var yoe := 100 * c + 4 * q + r;
    DivModUnique(yoe, 4, 25 * c + q, r);
    DivModUnique(yoe, 100, c, 4 * q + r);
    assert YearStart(yoe) == 36524 * c + 1461 * q + 365 * r;
  }

  /** A day of an era as centuries, four-year blocks, years and a day of
      the year. */
  lemma EraSplit(doe: nat) returns (c: nat, q: nat, r: nat, doy: nat)
    requires doe < ERA_DAYS
    ensures c < 4 && q < 25 && r < 4
    ensures doe == 36524 * c + 1461 * q + 365 * r + doy
    ensures doy <= 364 || (doy == 365 && r == 3 && (q != 24 || c == 3))
  {
    DivModDef(doe, 36524);
    c := if doe / 36524 > 3 then 3 else doe / 36524;
    var o := doe - 36524 * c;
    DivModDef(o, 1461);
    q := o / 1461;
    var o' := o - 1461 * q;
    DivModDef(o', 365);
    r := if o' / 365 > 3 then 3 else o' / 365;
    doy := o' - 365 * r;
  }

  /** Within an era the year start and `YoeOf` are inverse: a day of year
      yoe is found in year yoe. Day 365 exists only when the year ends in a
      leap February (its civil successor is a leap year). */
  lemma YoeOfYearStart(yoe: nat, doy: nat)
    requires yoe <= 399
    requires doy <= 364 || (doy == 365 && IsLeap(yoe + 1))
    ensures YoeOf(YearStart(yoe) + doy) == yoe
  {
    var c, q, r := yoe / 100, (yoe % 100) / 4, yoe % 4;
    assert yoe == 100 * c + 4 * q + r;
    assert YearStart(yoe) == 36524 * c + 1461 * q + 365 * r;
    YoeOfParts(c, q, r, doy);
  }

  lemma YoeOfParts(c: nat, q: nat, r: nat, doy: nat)
    requires c < 4 && q < 25 && r < 4
    requires doy <= 364 || (doy == 365 && r == 3 && (q != 24 || c == 3))
    ensures YoeOf(36524 * c + 1461 * q + 365 * r + doy) == 100 * c + 4 * q + r
  {
    var doe := 36524 * c + 1461 * q + 365 * r + doy;
    var e := 24 * c + q + 365 * r + doy;
    var k := if e >= 1460 then 1 else 0;
    DivModUnique(doe, 1460, 25 * c + q + k, e - 1460 * k);
    var last := if doe == 146096 then 1 else 0;
    DivModUnique(doe, 36524, c + last, doe - 36524 * (c + last));
    DivModUnique(doe, 146096, last, doe - 146096 * last);
    var yoe := 100 * c + 4 * q + r;
    var t := doy - k;
    assert doe - doe / 1460 + doe / 36524 - doe / 146096 == 365 * yoe + t;
    DivModUnique(365 * yoe + t, 365, yoe, t);
  }

  /** The month and day are recovered from the day of the year. */
  lemma MonthOfDoy(mp: nat, d: nat)
    requires mp < 12 && 1 <= d
    requires d <= MarchMonthLength(mp)
    ensures (5 * DoyOf(mp, d) + 2) / 153 == mp
    ensures DoyOf(mp, d) - (153 * mp + 2) / 5 + 1 == d
    ensures DoyOf(mp, d) <= 364 || (mp == 11 && d == 29)
  {
  }

  /** `civilFromDays` inverts `daysFromCivil` on every date `isValid`
      accepts. */
  lemma CivilRoundTrip(y: nat, m: nat, d: nat)
    requires 1600 <= y <= 2500 && 1 <= m <= 12 && 1 <= d <= MonthLength(y, m)
    ensures DaysFromCivil(y, m, d) + EPOCH_SHIFT >= 0
    ensures CivilFromDays(DaysFromCivil(y, m, d)) == Civil(y, m, d)
  {
    var era, yoe, mp, doy, doe := CivilParts(y, m, d);
    CivilOfEra(era, yoe, mp, d, doy, doe);
    DivModUnique(y, TWO_16, 0, y);
  }

  /** The quantities `daysFromCivil` computes on the way: the era, the year
      of the era, the March-based month, the day of the year and the day of
      the era. */
  lemma CivilParts(y: nat, m: nat, d: nat) returns (era: nat, yoe: nat, mp: nat, doy: nat, doe: nat)
    requires 1600 <= y <= 2500 && 1 <= m <= 12 && 1 <= d <= MonthLength(y, m)
    ensures yoe <= 399 && mp < 12 && 1 <= d <= MarchMonthLength(mp)
    ensures m == (if mp < 10 then mp + 3 else mp - 9)
    ensures y == yoe + era * 400 + (if m <= 2 then 1 else 0)
    ensures doy == DoyOf(mp, d) && doe == YearStart(yoe) + doy
    ensures doe < ERA_DAYS && YoeOf(doe) == yoe
    ensures DaysFromCivil(y, m, d) == era * ERA_DAYS + doe - EPOCH_SHIFT
  {
    var y' := if m <= 2 then y - 1 else y;
    era := y' / 400;
    yoe := y' - era * 400;
    assert EraOf(y') == era;
    DivModDef(y', 400);
    mp := MarchMonth(m);
    doy := DoyOf(mp, d);
    doe := YearStart(yoe) + doy;
    assert d <= MarchMonthLength(mp);
    MonthOfDoy(mp, d);
    if doy == 365 {
      LeapShift(y, era, yoe + 1);
    }
    DayInEra(yoe, mp, d);
  }

  /** The lengths of the months counted from March, February (the last)
      taken at its longest. */
  function MarchMonthLength(mp: nat): nat
    requires mp < 12
  {
    if mp == 11 then 29 else if mp == 1 || mp == 3 || mp == 6 || mp == 8 then 30 else 31
  }

  /** `civilFromDays` on the day of an era, year of the era and month and
      day of that year. */
  lemma CivilOfEra(era: nat, yoe: nat, mp: nat, d: nat, doy: nat, doe: nat)
    requires mp < 12 && 1 <= d <= MarchMonthLength(mp) && doy == DoyOf(mp, d)
    requires doe == YearStart(yoe) + doy && doe < ERA_DAYS && YoeOf(doe) == yoe
    ensures era * ERA_DAYS + doe - EPOCH_SHIFT + EPOCH_SHIFT >= 0
    ensures var m := if mp < 10 then mp + 3 else mp - 9;
      CivilFromDays(era * ERA_DAYS + doe - EPOCH_SHIFT) ==
      Civil((yoe + era * 400 + (if m <= 2 then 1 else 0)) % TWO_16, m, d)
  {
    CivilOfEraDay(era, doe);
    CivilOfDoyMonth(yoe + era * 400, mp, d);
    CivilOfYear(era, yoe, doy, doe);
  }

  /** `civilFromDays` splits the day into its era and the day of the era. */
  lemma CivilOfEraDay(era: nat, doe: nat)
    requires doe < ERA_DAYS
    ensures era * ERA_DAYS + doe - EPOCH_SHIFT + EPOCH_SHIFT >= 0
    ensures CivilFromDays(era * ERA_DAYS + doe - EPOCH_SHIFT) == CivilOfEraDoe(era, doe)
  {
    var z := era * ERA_DAYS + doe;
    DivModUnique(z, ERA_DAYS, era, doe);
  }

  /** Day d of March-based month mp of year yoe lies in the era, and
      `civilFromDays` finds it in year yoe. */
  lemma DayInEra(yoe: nat, mp: nat, d: nat)
    requires yoe <= 399 && mp < 12 && 1 <= d <= MarchMonthLength(mp)
    requires DoyOf(mp, d) <= 364 || IsLeap(yoe + 1)
    ensures YearStart(yoe) + DoyOf(mp, d) < ERA_DAYS && DoyOf(mp, d) <= 365
    ensures YoeOf(YearStart(yoe) + DoyOf(mp, d)) == yoe
  {
    MonthOfDoy(mp, d);
    YoeOfYearStart(yoe, DoyOf(mp, d));
    YearStartBound(yoe);
  }

  /** `civilFromDays` on a day of year yoe of the era. */
  lemma CivilOfYear(era: nat, yoe: nat, doy: nat, doe: nat)
    requires doe == YearStart(yoe) + doy && doe < ERA_DAYS && doy <= 365
    requires YoeOf(doe) == yoe
    ensures CivilOfEraDoe(era, doe) == CivilOfDoy(yoe + era * 400, doy)
  {
  }

  /** The month and day come back out of their day of the year. */
  lemma CivilOfDoyMonth(y: int, mp: nat, d: nat)
    requires mp < 12 && 1 <= d <= MarchMonthLength(mp)
    ensures DoyOf(mp, d) <= 365
    ensures var m := if mp < 10 then mp + 3 else mp - 9;
      CivilOfDoy(y, DoyOf(mp, d)) == Civil((y + (if m <= 2 then 1 else 0)) % TWO_16, m, d)
  {
    MonthOfDoy(mp, d);
  }

  /** The last year of an era starts 145731 days into it. */
  lemma YearStartBound(yoe: nat)
    requires yoe <= 399
    ensures YearStart(yoe) <= 145731
  {
    DivModDef(yoe, 4);
    DivModDef(yoe, 100);
    assert yoe / 4 <= 99;
  }

  /** Leap years repeat every 400 years. */
  lemma LeapShift(y: int, era: int, k: int)
    requires y == era * 400 + k
    ensures IsLeap(y) <==> IsLeap(k)
  {
    SameRemainder(k, era * 100, 4);
    SameRemainder(k, era * 4, 100);
    SameRemainder(k, era, 400);
    assert 4 * (era * 100) == 100 * (era * 4) == 400 * era == era * 400;
  }

  /** Adding a multiple of n keeps the remainder modulo n. */
  lemma SameRemainder(k: int, j: int, n: nat)
    requires n > 0
    ensures (n * j + k) % n == k % n
  {
    DivModDef(k, n);
    DivModUnique(n * j + k, n, j + k / n, k % n);
  }

  // ---------------------------------------------------------------------
  // Timestamps

  /** A signed or wider value stored into a `uint64_t`. */
  function Wrap64(x: int): (r: nat)
    ensures r < TWO_64
  {
    x % TWO_64
  }

  /** The seconds since 1970-01-01 00:00:00 of the fields, computed in
      signed 64-bit arithmetic (it cannot overflow for a valid date). */
  function Seconds(dt: DateTime): int
    requires IsValid(dt)
  {
    DaysFromCivil(dt.year, dt.month, dt.day) * DAY_SECONDS + dt.hour * 3600 + dt.minute * 60 + dt.second
  }

  /** `getTimestamp(dt)`: the seconds converted to `uint64_t`, times a
      million, plus the microseconds, all in 64-bit unsigned arithmetic. */
  function Timestamp(dt: DateTime): (ts: nat)
    requires IsValid(dt)
    ensures ts < TWO_64
    ensures Seconds(dt) >= 0 ==> ts == Seconds(dt) * MICROS + dt.microsecond
  {
    var ts := Wrap64(Wrap64(Seconds(dt)) * MICROS + dt.microsecond);
    if Seconds(dt) >= 0 then
      SecondsBound(dt);
      DivModUnique(Seconds(dt), TWO_64, 0, Seconds(dt));
      DivModUnique(Seconds(dt) * MICROS + dt.microsecond, TWO_64, 0, Seconds(dt) * MICROS + dt.microsecond);
      ts
    else ts
  }

  /** A valid date lies before the year 2501, well inside 64 bits of
      microseconds. */
  lemma SecondsBound(dt: DateTime)
    requires IsValid(dt)
    ensures Seconds(dt) * MICROS + dt.microsecond < TWO_64
  {
    var y := dt.year;
    var y' := if dt.month <= 2 then y - 1 else y;
    DivModDef(y', 400);
    assert y' / 400 <= 6;
    MonthOfDoy(MarchMonth(dt.month), dt.day);
    assert DaysFromCivil(y, dt.month, dt.day) <= 7 * ERA_DAYS;
  }

  /** The date of 1970-01-01 and later is exactly where seconds are not
      negative. */
  lemma SecondsSign(dt: DateTime)
    requires IsValid(dt) && dt.year >= 1970
    ensures Seconds(dt) >= 0 && DaysFromCivil(dt.year, dt.month, dt.day) >= 0
  {
    var y' := if dt.month <= 2 then dt.year - 1 else dt.year;
    DivModDef(y', 400);
    if dt.month <= 2 {
      assert y' >= 1969;
      if y' == 1969 {
        assert DaysFromCivil(dt.year, dt.month, dt.day) >= 0;
      }
    }
  }

  /** The private `set(uint64_t)`, also the `DateTime(uint64_t)`
      constructor: the timestamp split into microseconds, seconds of the
      day and days, the days turned into a date. */
  function Decompose(ts: nat): (dt: DateTime)
    requires ts < TWO_64
    ensures dt.timestamp == ts
    ensures dt.hour <= 23 && dt.minute <= 59 && dt.second <= 59 && dt.microsecond <= 999_999
    ensures dt.microsecond + MICROS * (dt.second + 60 * dt.minute + 3600 * dt.hour + DAY_SECONDS * Day(ts)) == ts
  {
    var us := ts % MICROS;
    var seconds := ts / MICROS;
    var days := seconds / DAY_SECONDS;
    var inDay := seconds % DAY_SECONDS;
    var c := CivilFromDays(days);
    DateTime(c.year, c.month, c.day, inDay / 3600, (inDay % 3600) / 60, (inDay % 3600) % 60, us, ts)
  }

  /** The days since 1970-01-01 of a timestamp. */
  function Day(ts: nat): nat {
    (ts / MICROS) / DAY_SECONDS
  }

  /** Decomposing the timestamp of a valid date from 1970 on gives its
      fields back. */
  lemma DecomposeTimestamp(dt: DateTime)
    requires IsValid(dt) && dt.year >= 1970
    ensures Decompose(Timestamp(dt)) == dt.(timestamp := Timestamp(dt))
  {
    SecondsSign(dt);
    var days := DaysFromCivil(dt.year, dt.month, dt.day);
    var inDay := dt.hour * 3600 + dt.minute * 60 + dt.second;
    var seconds := days * DAY_SECONDS + inDay;
    var ts := Timestamp(dt);
    assert ts == seconds * MICROS + dt.microsecond;
    DivModUnique(ts, MICROS, seconds, dt.microsecond);
    DivModUnique(seconds, DAY_SECONDS, days, inDay);
    DivModUnique(inDay, 3600, dt.hour, dt.minute * 60 + dt.second);
    DivModUnique(dt.minute * 60 + dt.second, 60, dt.minute, dt.second);
    CivilRoundTrip(dt.year, dt.month, dt.day);
  }

  /** Dates before 1970 have negative seconds, which wrap: the last second
      of 1969 gets the timestamp of a moment far in the future. */
  lemma PreEpochWraps()
    ensures var dt := DateTime(1969, 12, 31, 23, 59, 59, 0, 0);
      IsValid(dt) && Timestamp(dt) == TWO_64 - MICROS
  {
    var dt := DateTime(1969, 12, 31, 23, 59, 59, 0, 0);
    assert DaysFromCivil(1969, 12, 31) == -1;
    assert Seconds(dt) == -1;
    DivModUnique(-1, TWO_64, -1, TWO_64 - 1);
    DivModUnique((TWO_64 - 1) * MICROS, TWO_64, MICROS - 1, TWO_64 - MICROS);
  }

  // ---------------------------------------------------------------------
  // set

  /** `set(year, month, day, hour, minute, second, microsecond)`: the
      arguments are converted to the field types; if the result is not
      valid nothing changes and false is returned, otherwise the fields are
      stored with their timestamp. */
  function Set(dt: DateTime, y: int, mo: int, d: int, h: int, mi: int, s: int, us: int): (r: (bool, DateTime))
    ensures !r.0 ==> r.1 == dt
    ensures r.0 ==> Consistent(r.1)
    ensures r.0 ==>
      && r.1.year == y % TWO_16 && r.1.month == mo % TWO_8 && r.1.day == d % TWO_8
      && r.1.hour == h % TWO_8 && r.1.minute == mi % TWO_8 && r.1.second == s % TWO_8
      && r.1.microsecond == us % TWO_32
    ensures !r.0 <==> !IsValid(DateTime(y % TWO_16, mo % TWO_8, d % TWO_8, h % TWO_8, mi % TWO_8, s % TWO_8, us % TWO_32, 0))
  {
    var temp := DateTime(y % TWO_16, mo % TWO_8, d % TWO_8, h % TWO_8, mi % TWO_8, s % TWO_8, us % TWO_32, 0);
    if !IsValid(temp) then (false, dt)
    else (true, temp.(timestamp := Timestamp(temp)))
  }

  /** Arguments that form a valid date are stored as given. */
  lemma SetStores(dt: DateTime, y: nat, mo: nat, d: nat, h: nat, mi: nat, s: nat, us: nat)
    requires IsValid(DateTime(y, mo, d, h, mi, s, us, 0))
    ensures var e := DateTime(y, mo, d, h, mi, s, us, 0);
      Set(dt, y, mo, d, h, mi, s, us) == (true, e.(timestamp := Timestamp(e)))
  {
    DivModUnique(y, TWO_16, 0, y);
    DivModUnique(mo, TWO_8, 0, mo);
    DivModUnique(d, TWO_8, 0, d);
    DivModUnique(h, TWO_8, 0, h);
    DivModUnique(mi, TWO_8, 0, mi);
    DivModUnique(s, TWO_8, 0, s);
    DivModUnique(us, TWO_32, 0, us);
  }

  /** What `set` and `parse` produce: valid fields with their timestamp.
      From 1970 on the timestamp describes the same moment. */
  predicate Consistent(dt: DateTime) {
    IsValid(dt) && dt.timestamp == Timestamp(dt)
  }

  /** A value `set` stored from 1970 on is what its timestamp decomposes
      into: the fields and the timestamp describe the same moment. */
  lemma SetDecomposes(dt: DateTime, y: int, mo: int, d: int, h: int, mi: int, s: int, us: int)
    requires Set(dt, y, mo, d, h, mi, s, us).0 && Set(dt, y, mo, d, h, mi, s, us).1.year >= 1970
    ensures var r := Set(dt, y, mo, d, h, mi, s, us).1;
      r.timestamp < TWO_64 && Decompose(r.timestamp) == r
  {
    DecomposeConsistent(Set(dt, y, mo, d, h, mi, s, us).1);
  }

  // ---------------------------------------------------------------------
  // add*

  /** `addSeconds` and the other `add*`: k units (of `unit` microseconds)
      added to the timestamp in 64-bit unsigned arithmetic, the fields
      recomputed from it. */
  function AddUnits(dt: DateTime, k: int, unit: nat): (r: DateTime)
    requires dt.timestamp < TWO_64
    ensures r.timestamp == (dt.timestamp + k * unit) % TWO_64
    ensures r == Decompose(r.timestamp)
  {
    AddWraps(dt.timestamp, k, unit);
    Decompose(Wrap64(dt.timestamp + Wrap64(Wrap64(k) * unit)))
  }

  /** The casts to `uint64_t` do not change the sum modulo 2^64. */
  lemma AddWraps(ts: nat, k: int, unit: nat)
    ensures Wrap64(ts + Wrap64(Wrap64(k) * unit)) == (ts + k * unit) % TWO_64
  {
    var a := Wrap64(k);
    DivModDef(k, TWO_64);
    var b := Wrap64(a * unit);
    DivModDef(a * unit, TWO_64);
    var x := ts + k * unit;
    assert ts + b == x - TWO_64 * ((k / TWO_64) * unit + (a * unit) / TWO_64) by {
      assert k == TWO_64 * (k / TWO_64) + a;
      assert k * unit == TWO_64 * ((k / TWO_64) * unit) + a * unit;
    }
    ModShift(x, (k / TWO_64) * unit + (a * unit) / TWO_64);
  }

  /** Moving by a multiple of 2^64 does not change the value modulo 2^64. */
  lemma ModShift(x: int, j: int)
    ensures (x - TWO_64 * j) % TWO_64 == x % TWO_64
  {
    DivModDef(x, TWO_64);
    DivModUnique(x - TWO_64 * j, TWO_64, x / TWO_64 - j, x % TWO_64);
  }

  function AddSeconds(dt: DateTime, k: int): (r: DateTime)
    requires dt.timestamp < TWO_64
    ensures r.timestamp == (dt.timestamp + k * MICROS) % TWO_64
  {
    AddUnits(dt, k, MICROS)
  }

  function AddMinutes(dt: DateTime, k: int): (r: DateTime)
    requires dt.timestamp < TWO_64
    ensures r.timestamp == (dt.timestamp + k * 60 * MICROS) % TWO_64
  {
    MulAssoc(k, 60, MICROS);
    AddUnits(dt, k, 60 * MICROS)
  }

  function AddHours(dt: DateTime, k: int): (r: DateTime)
    requires dt.timestamp < TWO_64
    ensures r.timestamp == (dt.timestamp + k * 3600 * MICROS) % TWO_64
  {
    MulAssoc(k, 3600, MICROS);
    AddUnits(dt, k, 3600 * MICROS)
  }

  function AddDays(dt: DateTime, k: int): (r: DateTime)
    requires dt.timestamp < TWO_64
    ensures r.timestamp == (dt.timestamp + k * DAY_SECONDS * MICROS) % TWO_64
  {
    MulAssoc(k, DAY_SECONDS, MICROS);
    AddUnits(dt, k, DAY_SECONDS * MICROS)
  }

  /** Adding k units and then -k units returns to the same timestamp, and
      to the same value when the fields came from the timestamp. */
  lemma AddUndo(dt: DateTime, k: int, unit: nat)
    requires dt.timestamp < TWO_64
    ensures AddUnits(AddUnits(dt, k, unit), -k, unit).timestamp == dt.timestamp
    ensures dt == Decompose(dt.timestamp) ==> AddUnits(AddUnits(dt, k, unit), -k, unit) == dt
  {
    var x := dt.timestamp + k * unit;
    DivModDef(x, TWO_64);
    var once := x % TWO_64;
    assert once + -k * unit == dt.timestamp - TWO_64 * (x / TWO_64);
    ModShift(dt.timestamp, x / TWO_64);
    DivModUnique(dt.timestamp, TWO_64, 0, dt.timestamp);
  }

  // ---------------------------------------------------------------------
  // Text

  /** The fixed-width digits `utoa` writes for a field. */
  function Digits(n: nat, width: nat): (r: string)
    requires width >= 1
    ensures |r| == width && AllDigits(r)
    ensures DigitsValue(r, 10) == n % Pow(10, width)
  {
    var r := Utoa(n, width, 10);
    UtoaValue(n, width, 10);
    assert forall i | 0 <= i < |r| :: IsDigit(r[i]) by {
      forall i | 0 <= i < |r|
        ensures IsDigit(r[i])
      {
        assert r[i] in DIGITS[..10];
      }
    }
    r
  }

  /** The text of fields: `yyyy/MM/dd hh:mm:ss.nnnnnn`. */
  function Render(t: DateTime): (r: string)
    ensures |r| == 26
  {
    Digits(t.year, 4) + "/" + Digits(t.month, 2) + "/" + Digits(t.day, 2) + " " +
    Digits(t.hour, 2) + ":" + Digits(t.minute, 2) + ":" + Digits(t.second, 2) + "." +
    Digits(t.microsecond, 6)
  }

  /** `toString(utcOffsetMinutes)`: the fields of the timestamp moved by
      the offset (in 64-bit unsigned arithmetic), printed with fixed
      widths. The separators sit at fixed positions and every other
      character is a digit. */
  function ToString(dt: DateTime, offsetMinutes: int): (r: string)
    requires dt.timestamp < TWO_64
    ensures |r| == 26
    ensures r[4] == '/' && r[7] == '/' && r[10] == ' ' && r[13] == ':' && r[16] == ':' && r[19] == '.'
    ensures forall i | 0 <= i < 26 && i !in {4, 7, 10, 13, 16, 19} :: IsDigit(r[i])
  {
    var t := Decompose(Wrap64(dt.timestamp + offsetMinutes * 60 * MICROS));
    var r := Render(t);
    RenderShape(t);
    r
  }

  /** Where each field of the rendered text lies. */
  lemma RenderShape(t: DateTime)
    ensures var r := Render(t);
      && r[..4] == Digits(t.year, 4) && r[5..7] == Digits(t.month, 2) && r[8..10] == Digits(t.day, 2)
      && r[11..13] == Digits(t.hour, 2) && r[14..16] == Digits(t.minute, 2)
      && r[17..19] == Digits(t.second, 2) && r[20..26] == Digits(t.microsecond, 6)
      && r[4] == '/' && r[7] == '/' && r[10] == ' ' && r[13] == ':' && r[16] == ':' && r[19] == '.'
      && forall i | 0 <= i < 26 && i !in {4, 7, 10, 13, 16, 19} :: IsDigit(r[i])
  {
    RenderFields(t);
    RenderDigits(t);
  }

  lemma RenderFields(t: DateTime)
    ensures var r := Render(t);
      && r[..4] == Digits(t.year, 4) && r[5..7] == Digits(t.month, 2) && r[8..10] == Digits(t.day, 2)
      && r[11..13] == Digits(t.hour, 2) && r[14..16] == Digits(t.minute, 2)
      && r[17..19] == Digits(t.second, 2) && r[20..26] == Digits(t.microsecond, 6)
      && r[4] == '/' && r[7] == '/' && r[10] == ' ' && r[13] == ':' && r[16] == ':' && r[19] == '.'
  {
  }

  lemma RenderDigits(t: DateTime)
    ensures var r := Render(t);
      forall i | 0 <= i < 26 && i !in {4, 7, 10, 13, 16, 19} :: IsDigit(r[i])
  {
    var r := Render(t);
    RenderFields(t);
    forall i | 0 <= i < 26 && i !in {4, 7, 10, 13, 16, 19}
      ensures IsDigit(r[i])
    {
      if i < 4 { assert r[i] == r[..4][i]; }
      else if i < 7 { assert r[i] == r[5..7][i - 5]; }
      else if i < 10 { assert r[i] == r[8..10][i - 8]; }
      else if i < 13 { assert r[i] == r[11..13][i - 11]; }
      else if i < 16 { assert r[i] == r[14..16][i - 14]; }
      else if i < 19 { assert r[i] == r[17..19][i - 17]; }
      else { assert r[i] == r[20..26][i - 20]; }
    }
  }

  /** The separators of the text form are at their places. */
  predicate Separated(text: string)
    requires |text| == 26
  {
    text[4] == '/' && text[7] == '/' && text[10] == ' ' && text[13] == ':' && text[16] == ':' && text[19] == '.'
  }

  /** The fields read from their places in the text, each with `atou`
      into its field type, ignoring the error flag. */
  function ReadFields(text: string): DateTime
    requires |text| == 26
  {
    DateTime(
      Atou(text[..4], W16).value, Atou(text[5..7], W8).value, Atou(text[8..10], W8).value,
      Atou(text[11..13], W8).value, Atou(text[14..16], W8).value, Atou(text[17..19], W8).value,
      Atou(text[20..26], W32).value, 0)
  }

  /** `parse(text)`: the text must be 26 characters with the separators in
      place; each field is read with `atou` ignoring its error flag (a field
      that is not all digits reads as 0); the fields must be valid. On
      success the fields and their timestamp are stored, otherwise nothing
      changes. */
  function Parse(dt: DateTime, text: string): (r: (bool, DateTime))
    ensures |text| != 26 ==> r == (false, dt)
    ensures |text| == 26 && !Separated(text) ==> r == (false, dt)
    ensures !r.0 ==> r.1 == dt
    ensures r.0 ==> Consistent(r.1)
  {
    if |text| != 26 then (false, dt)
    else if text[4] != '/' || text[7] != '/' || text[10] != ' ' || text[13] != ':' || text[16] != ':' || text[19] != '.' then
      (false, dt)
    else
      var temp := ReadFields(text);
      if !IsValid(temp) then (false, dt)
      else (true, temp.(timestamp := Timestamp(temp)))
  }

  /** The number a text field denotes: its decimal value when it is all
      digits, 0 otherwise. */
  function FieldValue(f: string): nat {
    if AllDigits(f) then DigitsValue(f, 10) else 0
  }

  /** On success `parse` stores the decimal value of each field, read at
      its fixed place, with the timestamp of the fields; it succeeds exactly
      when the text has 26 characters, its separators in place and fields
      that form a valid date. */
  lemma ParseFields(dt: DateTime, text: string)
    ensures var r := Parse(dt, text);
      r.0 ==>
        && |text| == 26 && Separated(text)
        && r.1.year == FieldValue(text[..4]) && r.1.month == FieldValue(text[5..7])
        && r.1.day == FieldValue(text[8..10]) && r.1.hour == FieldValue(text[11..13])
        && r.1.minute == FieldValue(text[14..16]) && r.1.second == FieldValue(text[17..19])
        && r.1.microsecond == FieldValue(text[20..26])
    ensures |text| == 26 && Separated(text) ==>
      (Parse(dt, text).0 <==> IsValid(DateTime(
        FieldValue(text[..4]), FieldValue(text[5..7]), FieldValue(text[8..10]), FieldValue(text[11..13]),
        FieldValue(text[14..16]), FieldValue(text[17..19]), FieldValue(text[20..26]), 0)))
  {
    if |text| == 26 {
      assert Pow(10, 2) == 100 && Pow(10, 4) == 10000;
      assert Pow(10, 6) == 1_000_000;
      FieldRead(text[..4], W16);
      FieldRead(text[5..7], W8);
      FieldRead(text[8..10], W8);
      FieldRead(text[11..13], W8);
      FieldRead(text[14..16], W8);
      FieldRead(text[17..19], W8);
      FieldRead(text[20..26], W32);
    }
  }

  /** A field narrow enough for its type reads as the number it denotes. */
  lemma FieldRead(f: string, w: Width)
    requires 1 <= |f| <= 20 && Pow(10, |f|) <= Modulus(w)
    ensures Atou(f, w).value == FieldValue(f)
  {
    if AllDigits(f) {
      DigitsValueBound(f);
      DivModUnique(DigitsValue(f, 10), Modulus(w), 0, DigitsValue(f, 10));
    }
  }

  /** Printing fixed-width digits and reading them back gives the value
      when it fits both the width and the field type. */
  lemma DigitsBack(n: nat, width: nat, w: Width)
    requires 1 <= width <= 20 && n < Pow(10, width) && n < Modulus(w)
    ensures Atou(Digits(n, width), w) == Parsed(n, false)
  {
    DivModUnique(n, Pow(10, width), 0, n);
    DivModUnique(n, Modulus(w), 0, n);
  }

  /** Parsing the text of a value `set` or `parse` produced, dated 1970 or
      later and printed without offset, gives that value back. */
  lemma ParseToString(dt: DateTime, other: DateTime)
    requires Consistent(dt) && dt.year >= 1970
    ensures Parse(other, ToString(dt, 0)) == (true, dt)
  {
    ToStringUtc(dt);
    ParseRender(other, dt);
  }

  /** With no offset, a consistent value prints its own fields. */
  lemma ToStringUtc(dt: DateTime)
    requires Consistent(dt) && dt.year >= 1970
    ensures dt.timestamp < TWO_64 && ToString(dt, 0) == Render(dt)
  {
    var ts := dt.timestamp;
    DecomposeConsistent(dt);
    WrapSmall(ts);
    assert ts + 0 * 60 * MICROS == ts;
  }

  /** A consistent value is what its own timestamp decomposes into. */
  lemma DecomposeConsistent(dt: DateTime)
    requires Consistent(dt) && dt.year >= 1970
    ensures dt.timestamp < TWO_64 && Decompose(dt.timestamp) == dt
  {
    DecomposeTimestamp(dt);
  }

  /** Wrapping leaves a value that already fits alone. */
  lemma WrapSmall(x: nat)
    requires x < TWO_64
    ensures Wrap64(x) == x
  {
    DivModUnique(x, TWO_64, 0, x);
  }

  /** Parsing the rendered fields of a consistent value gives it back. */
  lemma ParseRender(other: DateTime, t: DateTime)
    requires Consistent(t)
    ensures Parse(other, Render(t)) == (true, t)
  {
    var r := Render(t);
    RenderShape(t);
    FieldsBack(t);
    var temp := ReadFields(r);
    assert temp == t.(timestamp := 0);
    assert IsValid(temp);
    TimestampOfFields(temp, t);
    assert Separated(r);
  }

  /** The timestamp depends on the fields only, not on the stored one. */
  lemma TimestampOfFields(a: DateTime, b: DateTime)
    requires IsValid(a) && IsValid(b) && a.(timestamp := 0) == b.(timestamp := 0)
    ensures Timestamp(a) == Timestamp(b)
  {
    assert a.year == b.year && a.month == b.month && a.day == b.day;
    assert Seconds(a) == Seconds(b);
  }

  /** Each rendered field reads back as its value. */
  lemma FieldsBack(t: DateTime)
    requires IsValid(t)
    ensures var r := Render(t);
      && Atou(r[..4], W16).value == t.year && Atou(r[5..7], W8).value == t.month
      && Atou(r[8..10], W8).value == t.day && Atou(r[11..13], W8).value == t.hour
      && Atou(r[14..16], W8).value == t.minute && Atou(r[17..19], W8).value == t.second
      && Atou(r[20..26], W32).value == t.microsecond
  {
    RenderShape(t);
    assert Pow(10, 2) == 100 && Pow(10, 4) == 10000;
    assert Pow(10, 6) == 1_000_000;
    DigitsBack(t.year, 4, W16);
    DigitsBack(t.month, 2, W8);
    DigitsBack(t.day, 2, W8);
    DigitsBack(t.hour, 2, W8);
    DigitsBack(t.minute, 2, W8);
    DigitsBack(t.second, 2, W8);
    DigitsBack(t.microsecond, 6, W32);
  }
}
