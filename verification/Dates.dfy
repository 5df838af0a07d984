/** Civil dates, Unix seconds and FAT timestamps. */
module Dates {
  import opened Vmas

  datatype DateTime = DateTime(year: int, month: nat, day: nat, hour: nat, min: nat, sec: nat)

  predicate IsLeap(year: int) { (year % 4 == 0 && year % 100 != 0) || year % 400 == 0 }

  function YearLength(year: int): nat { if IsLeap(year) then 366 else 365 }

  function MonthLength(year: int, month: nat): (r: nat)
    requires 1 <= month <= 12
  {
    if month == 2 then (if IsLeap(year) then 29 else 28)
    else if month == 4 || month == 6 || month == 9 || month == 11 then 30 else 31
  }

  ghost predicate ValidDate(year: int, month: nat, day: nat) {
    1 <= month <= 12 && 1 <= day <= MonthLength(year, month)
  }

  // ---- The closed forms ----

  /** The filesystem's. Its divisions are of non-negative numbers from year 1 on. */
  function DaysSinceEpoch(year: int, month: int, day: int): int {
    var y := if month <= 2 then year - 1 else year;
    var m := if month <= 2 then month + 12 else month;
    365 * y + y / 4 - y / 100 + y / 400 + (153 * (m - 3) + 2) / 5 + day - 719469
  }

  /** The clock's. */
  function DaysFromCivil(year: int, month: int, day: int): int {
    var y := if month <= 2 then year - 1 else year;
    var era := (if y >= 0 then y else y - 399) / 400;
    var yoe := y - era * 400;
    var doy := (153 * (month + (if month > 2 then -3 else 9)) + 2) / 5 + day - 1;
    var doe := yoe * 365 + yoe / 4 - yoe / 100 + doy;
    era * 146097 + doe - 719468
  }

  lemma EraSplit(y: nat)
    ensures var era := y / 400; var yoe := y - era * 400;
            0 <= yoe < 400 && y / 4 == 100 * era + yoe / 4 && y / 100 == 4 * era + yoe / 100
  {
  }

  /** The two closed forms agree for every date from year 1 on. */
  lemma ClosedFormsAgree(year: int, month: nat, day: int)
    requires year >= 1 && 1 <= month <= 12
    ensures DaysSinceEpoch(year, month, day) == DaysFromCivil(year, month, day)
  {
    var y := if month <= 2 then year - 1 else year;
    EraSplit(y);
  }

  // ---- Counting ----

  /** Days from the start of 1970 to the start of `year`, counted a year at a time. */
  function DaysBeforeYear(year: nat): nat
    requires year >= 1970
    decreases year
  {
    if year == 1970 then 0 else DaysBeforeYear(year - 1) + YearLength(year - 1)
  }

  /** Days of the year before `month`, counted a month at a time. */
  function DaysBeforeMonth(year: int, month: nat): nat
    requires 1 <= month <= 13
  {
    if month == 1 then 0 else DaysBeforeMonth(year, month - 1) + MonthLength(year, month - 1)
  }

  lemma OneMoreYear(year: nat)
    requires year >= 1
    ensures DaysSinceEpoch(year + 1, 1, 1) == DaysSinceEpoch(year, 1, 1) + YearLength(year)
  {
    Multiples(year);
  }

  /** A quotient goes up by one exactly at a multiple. */
  lemma Multiples(n: nat)
    requires n >= 1
    ensures n / 4 == (n - 1) / 4 + (if n % 4 == 0 then 1 else 0)
    ensures n / 100 == (n - 1) / 100 + (if n % 100 == 0 then 1 else 0)
    ensures n / 400 == (n - 1) / 400 + (if n % 400 == 0 then 1 else 0)
  {
  }

  lemma {:induction false} YearByYear(year: nat)
    requires year >= 1970
    ensures DaysSinceEpoch(year, 1, 1) == DaysBeforeYear(year)
    decreases year
  {
    if year > 1970 {
      YearByYear(year - 1);
      OneMoreYear(year - 1);
    }
  }

  /** March starts where February ends, leap day included. */
  lemma ThroughFebruary(year: nat)
    requires year >= 1
    ensures DaysSinceEpoch(year, 3, 1) == DaysSinceEpoch(year, 1, 1) + 31 + MonthLength(year, 2)
  {
    Multiples(year);
  }

  lemma MonthByMonth(year: nat, month: nat, day: int)
    requires year >= 1 && 1 <= month <= 12
    ensures DaysSinceEpoch(year, month, day) == DaysSinceEpoch(year, 1, 1) + DaysBeforeMonth(year, month) + day - 1
  {
    ThroughFebruary(year);
    MonthTable(year);
    hide MonthLength, DaysBeforeMonth;
    if month > 2 { FromMarch(year, month, day); }
  }

  lemma FromMarch(year: nat, month: nat, day: int)
    requires 3 <= month <= 12
    ensures DaysSinceEpoch(year, month, day) == DaysSinceEpoch(year, 3, 1) + (153 * (month - 3) + 2) / 5 + day - 1
  {
  }

  lemma MonthTable(year: int)
    ensures DaysBeforeMonth(year, 1) == 0 && DaysBeforeMonth(year, 2) == 31
    ensures forall month :: 3 <= month <= 12 ==>
              DaysBeforeMonth(year, month) == 31 + MonthLength(year, 2) + (153 * (month - 3) + 2) / 5
    ensures DaysBeforeMonth(year, 13) == YearLength(year)
  {
    assert DaysBeforeMonth(year, 2) == 31;
    assert DaysBeforeMonth(year, 3) == 31 + MonthLength(year, 2);
    assert DaysBeforeMonth(year, 4) == DaysBeforeMonth(year, 3) + 31;
    assert DaysBeforeMonth(year, 5) == DaysBeforeMonth(year, 4) + 30;
    assert DaysBeforeMonth(year, 6) == DaysBeforeMonth(year, 5) + 31;
    assert DaysBeforeMonth(year, 7) == DaysBeforeMonth(year, 6) + 30;
    assert DaysBeforeMonth(year, 8) == DaysBeforeMonth(year, 7) + 31;
    assert DaysBeforeMonth(year, 9) == DaysBeforeMonth(year, 8) + 31;
    assert DaysBeforeMonth(year, 10) == DaysBeforeMonth(year, 9) + 30;
    assert DaysBeforeMonth(year, 11) == DaysBeforeMonth(year, 10) + 31;
    assert DaysBeforeMonth(year, 12) == DaysBeforeMonth(year, 11) + 30;
    assert DaysBeforeMonth(year, 13) == DaysBeforeMonth(year, 12) + 31;
  }

  /** From 1970 on the closed form counts the days, year by year and month by month. */
  lemma ClosedFormCounts(year: nat, month: nat, day: int)
    requires year >= 1970 && 1 <= month <= 12
    ensures DaysSinceEpoch(year, month, day) == DaysBeforeYear(year) + DaysBeforeMonth(year, month) + day - 1
  {
    YearByYear(year);
    MonthByMonth(year, month, day);
  }

  // ---- From Unix seconds ----

  /** The year that day number falls in, and the day within it. */
  method YearOf(total: nat) returns (year: nat, days: nat)
    ensures year >= 1970 && DaysBeforeYear(year) + days == total && days < YearLength(year)
  {
    year, days := 1970, total;
    while days >= YearLength(year)
      invariant year >= 1970 && DaysBeforeYear(year) + days == total
      decreases days
    {
      days := days - YearLength(year);
      year := year + 1;
    }
  }

  method MonthOf(year: nat, dayOfYear: nat) returns (month: nat, days: nat)
    requires dayOfYear < YearLength(year)
    ensures 1 <= month <= 12 && DaysBeforeMonth(year, month) + days == dayOfYear && days < MonthLength(year, month)
  {
    MonthTable(year);
    month, days := 1, dayOfYear;
    while month <= 12 && days >= MonthLength(year, month)
      invariant 1 <= month <= 13 && DaysBeforeMonth(year, month) + days == dayOfYear
      decreases 13 - month
    {
      days := days - MonthLength(year, month);
      month := month + 1;
    }
  }

  const U32: nat := 0x1_0000_0000

  /** The date and time of day; the day count is kept in 32 bits. */
  method Civil(secs: nat) returns (dt: DateTime)
    ensures dt.year >= 1970 && ValidDate(dt.year, dt.month, dt.day) && dt.hour < 24 && dt.min < 60 && dt.sec < 60
    ensures DaysSinceEpoch(dt.year, dt.month, dt.day) == secs / 86400 % U32
    ensures secs == secs / 86400 * 86400 + dt.hour * 3600 + dt.min * 60 + dt.sec
  {
    var sec, totalMins := secs % 60, secs / 60;
    var min, totalHours := totalMins % 60, totalMins / 60;
    var hour := totalHours % 24;
    var total := totalHours / 24 % U32;
    DaySplit(secs);
    var year, dayOfYear := YearOf(total);
    var month, days := MonthOf(year, dayOfYear);
    ClosedFormCounts(year, month, days + 1);
    dt := DateTime(year, month, days + 1, hour, min, sec);
  }

  lemma DaySplit(secs: nat)
    ensures secs / 60 / 60 / 24 == secs / 86400
    ensures secs == secs / 86400 * 86400 + secs / 60 / 60 % 24 * 3600 + secs / 60 % 60 * 60 + secs % 60
  {
  }

  // ---- FAT timestamps ----

  datatype FileTime = FileTime(date: nat, time: nat)

  /** The fields side by side: seven bits of year, four of month, five of day; five of hour, six of
      minute, five of two-second ticks. */
  function ToFileTime(dt: DateTime): FileTime {
    FileTime((dt.year - 1980) % 128 * 512 + dt.month % 16 * 32 + dt.day % 32,
             dt.hour % 32 * 2048 + dt.min % 64 * 32 + dt.sec / 2 % 32)
  }

  /** Adding the masked fields is what the shifts and ors compute. */
  lemma PackedBits(y: bv16, m: bv16, d: bv16, h: bv16, n: bv16, t: bv16)
    ensures ((y & 0x7F) << 9) | ((m & 0x0F) << 5) | (d & 0x1F) == (y & 0x7F) * 512 + (m & 0x0F) * 32 + (d & 0x1F)
    ensures ((h & 0x1F) << 11) | ((n & 0x3F) << 5) | (t & 0x1F) == (h & 0x1F) * 2048 + (n & 0x3F) * 32 + (t & 0x1F)
  {
  }

  function ToDateTime(ft: FileTime): Option<DateTime> {
    if ft.date == 0 then None
    else Some(DateTime(1980 + ft.date / 512, ft.date / 32 % 16, ft.date % 32, ft.time / 2048 % 32, ft.time / 32 % 64,
      ft.time % 32 * 2))
  }

  function ToUnixSecs(dt: DateTime): nat {
    var days := DaysSinceEpoch(dt.year, dt.month, dt.day);
    if days < 0 then 0 else days * 86400 + dt.hour * 3600 + dt.min * 60 + dt.sec
  }

  /** Packing keeps every field but the odd second; the year comes back modulo 128 from 1980. */
  lemma UnpackPacked(dt: DateTime)
    requires ValidDate(dt.year, dt.month, dt.day) && dt.hour < 24 && dt.min < 60 && dt.sec < 60
    ensures ToDateTime(ToFileTime(dt)) == Some(dt.(year := 1980 + (dt.year - 1980) % 128, sec := dt.sec / 2 * 2))
    ensures ToDateTime(ToFileTime(dt)).value.year == dt.year <==> 1980 <= dt.year <= 2107
  {
    var y := (dt.year - 1980) % 128;
    assert dt.month % 16 == dt.month && dt.day % 32 == dt.day;
    assert dt.hour % 32 == dt.hour && dt.min % 64 == dt.min && dt.sec / 2 % 32 == dt.sec / 2;
    hide MonthLength, IsLeap;
    Fields(y, dt.month, dt.day);
    TimeFields(dt.hour, dt.min, dt.sec / 2);
    SameYear(dt.year);
  }

  lemma SameYear(year: int)
    ensures 1980 + (year - 1980) % 128 == year <==> 1980 <= year <= 2107
  {
  }

  lemma Fields(y: nat, m: nat, d: nat)
    requires m < 16 && d < 32
    ensures (y * 512 + m * 32 + d) / 512 == y && (y * 512 + m * 32 + d) / 32 % 16 == m
              && (y * 512 + m * 32 + d) % 32 == d
  {
    assert y * 512 + m * 32 + d == (y * 16 + m) * 32 + d;
    assert (y * 512 + m * 32 + d) / 32 == y * 16 + m;
  }

  lemma TimeFields(h: nat, n: nat, t: nat)
    requires h < 32 && n < 64 && t < 32
    ensures (h * 2048 + n * 32 + t) / 2048 % 32 == h && (h * 2048 + n * 32 + t) / 32 % 64 == n
              && (h * 2048 + n * 32 + t) % 32 == t
  {
    assert h * 2048 + n * 32 + t == (h * 64 + n) * 32 + t;
    assert (h * 2048 + n * 32 + t) / 32 == h * 64 + n;
  }

  /** Seconds to a FAT timestamp and back: the even second at or before, exactly for the times of 1980 to
      2107. */
  method RoundTrip(secs: nat) returns (r: Option<nat>)
    ensures r.Some?
    ensures r.value == secs - secs % 2 <==> DaysBeforeYear(1980) * 86400 <= secs < DaysBeforeYear(2108) * 86400
  {
    hide DaysSinceEpoch, DaysBeforeYear, ToFileTime, ToDateTime, ValidDate, ToUnixSecs;
    var dt := Civil(secs);
    UnpackPacked(dt);
    var back := ToDateTime(ToFileTime(dt));
    r := Some(ToUnixSecs(back.value));
    BackDay(dt.year, dt.month, dt.day, secs / 86400);
    BackSecond(secs, dt, back.value);
  }

  lemma BackSecond(secs: nat, dt: DateTime, back: DateTime)
    requires secs == secs / 86400 * 86400 + dt.hour * 3600 + dt.min * 60 + dt.sec && dt.hour < 24 && dt.min < 60
               && dt.sec < 60
    requires back == dt.(year := 1980 + (dt.year - 1980) % 128, sec := dt.sec / 2 * 2)
    requires DaysSinceEpoch(back.year, dt.month, dt.day) >= 0
    requires DaysSinceEpoch(back.year, dt.month, dt.day) == secs / 86400 <==>
               DaysBeforeYear(1980) <= secs / 86400 < DaysBeforeYear(2108)
    ensures ToUnixSecs(back) == secs - secs % 2 <==> DaysBeforeYear(1980) * 86400 <= secs < DaysBeforeYear(2108) * 86400
  {
    hide DaysSinceEpoch, DaysBeforeYear;
    SameDay(secs, dt.hour, dt.min, dt.sec, DaysSinceEpoch(back.year, dt.month, dt.day));
  }

  /** The stored date is the day asked for exactly for the days of 1980 to 2107. */
  lemma BackDay(year: nat, month: nat, day: nat, days: nat)
    requires year >= 1970 && ValidDate(year, month, day) && DaysSinceEpoch(year, month, day) == days % U32
    ensures DaysSinceEpoch(1980 + (year - 1980) % 128, month, day) == days <==>
              DaysBeforeYear(1980) <= days < DaysBeforeYear(2108)
    ensures DaysSinceEpoch(1980 + (year - 1980) % 128, month, day) >= 0
  {
    hide DaysSinceEpoch, DaysBeforeYear;
    var y := 1980 + (year - 1980) % 128;
    YearInRange(year, month, day);
    WrappedYear(year, month, day);
    DayBounds(y, month, day);
    YearsApart(y, 2108);
    EndOfRange();
    hide ValidDate;
    assert days % U32 == days || days >= U32;
  }

  lemma EndOfRange()
    ensures DaysBeforeYear(2108) == 50403
  {
    YearByYear(2108);
    assert DaysSinceEpoch(2108, 1, 1) == 50403;
  }

  lemma SameDay(secs: nat, hour: nat, min: nat, sec: nat, days: int)
    requires secs == secs / 86400 * 86400 + hour * 3600 + min * 60 + sec && hour < 24 && min < 60 && sec < 60
    ensures days >= 0 && days * 86400 + hour * 3600 + min * 60 + sec / 2 * 2 == secs - secs % 2 <==>
              days == secs / 86400
  {
    EvenSecond(secs, hour, min, sec);
  }

  lemma EvenSecond(secs: nat, hour: nat, min: nat, sec: nat)
    requires secs == secs / 86400 * 86400 + hour * 3600 + min * 60 + sec
    ensures secs - secs % 2 == secs / 86400 * 86400 + hour * 3600 + min * 60 + sec / 2 * 2
  {
  }

  lemma {:induction false} YearsApart(a: nat, b: nat)
    requires 1970 <= a <= b
    ensures DaysBeforeYear(b) >= DaysBeforeYear(a) + 365 * (b - a)
    decreases b
  {
    if a < b { YearsApart(a, b - 1); }
  }

  lemma YearInRange(year: nat, month: nat, day: nat)
    requires year >= 1970 && ValidDate(year, month, day)
    ensures DaysBeforeYear(1980) <= DaysSinceEpoch(year, month, day) < DaysBeforeYear(2108) <==> 1980 <= year <= 2107
  {
    ClosedFormCounts(year, month, day);
    WithinYear(year, month, day);
    if year < 1980 { YearsApart(year + 1, 1980); } else { YearsApart(1980, year); }
    if year > 2107 { YearsApart(2108, year); } else { YearsApart(year + 1, 2108); }
  }

  /** A year that wraps lands on another day. */
  lemma WrappedYear(year: nat, month: nat, day: nat)
    requires year >= 1970 && ValidDate(year, month, day)
    ensures var y := 1980 + (year - 1980) % 128;
            DaysSinceEpoch(y, month, day) >= 0
              && (DaysSinceEpoch(y, month, day) == DaysSinceEpoch(year, month, day) <==> 1980 <= year <= 2107)
  {
    hide DaysSinceEpoch, DaysBeforeYear, IsLeap;
    var y := 1980 + (year - 1980) % 128;
    DayBounds(year, month, day);
    DayBounds(y, month, day);
    assert y == year || y >= year + 128 || year >= y + 128;
    if y < year { YearsApart(y, year); } else { YearsApart(year, y); }
  }

  lemma DayBounds(year: nat, month: nat, day: nat)
    requires year >= 1970 && 1 <= month <= 12 && 1 <= day <= 31
    ensures DaysBeforeYear(year) <= DaysSinceEpoch(year, month, day) < DaysBeforeYear(year) + 366
  {
    ClosedFormCounts(year, month, day);
    MonthTable(year);
    hide DaysSinceEpoch, DaysBeforeYear, DaysBeforeMonth;
    assert 3 <= month ==> (153 * (month - 3) + 2) / 5 <= 275;
  }

  lemma WithinYear(year: int, month: nat, day: nat)
    requires ValidDate(year, month, day)
    ensures DaysBeforeMonth(year, month) + day - 1 < YearLength(year)
  {
    MonthTable(year);
  }

  /** Outside 1980 to 2107 the year is off by a multiple of 128: a time before 1980 is stored as one more
      than a century later, not as the first instant of 1980. */
  lemma EpochWraps()
    ensures ToDateTime(ToFileTime(DateTime(1970, 1, 1, 0, 0, 0))) == Some(DateTime(2098, 1, 1, 0, 0, 0))
  {
    UnpackPacked(DateTime(1970, 1, 1, 0, 0, 0));
  }
}
