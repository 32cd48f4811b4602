/**
 The update timestamp: an EFI_TIME as Unix seconds by the days-from-civil formula, against
 a plain count of the days of every year and month since 1970, and the choice of the
 timestamp of a staged update.
 */
module UpdateTime {
  import opened Bytes

  datatype EfiTime = EfiTime(year: nat, month: nat, day: nat, hour: nat, minute: nat, second: nat)

  predicate IsLeap(y: int) {
    y % 4 == 0 && (y % 100 != 0 || y % 400 == 0)
  }

  function MonthLength(y: nat, m: nat): nat
    requires 1 <= m <= 12
  {
    if m == 2 then (if IsLeap(y) then 29 else 28)
    else if m == 4 || m == 6 || m == 9 || m == 11 then 30
    else 31
  }

  /** A date of the Gregorian calendar with a time of day. */
  predicate ValidTime(t: EfiTime) {
    && 1 <= t.month <= 12 && 1 <= t.day <= MonthLength(t.year, t.month)
    && t.hour < 24 && t.minute < 60 && t.second < 60
  }

  // ----- the reference count -----

  /** Days from 1 January 1970 to 1 January of `y`, year by year. */
  function DaysToYear(y: nat): nat
    requires y >= 1970
  {
    if y == 1970 then 0 else DaysToYear(y - 1) + if IsLeap(y - 1) then 366 else 365
  }

  /** Days from 1 January to the first of `m`, month by month. */
  function DaysToMonth(y: nat, m: nat): nat
    requires 1 <= m <= 12
  {
    if m == 1 then 0 else DaysToMonth(y, m - 1) + MonthLength(y, m - 1)
  }

  function UnixSeconds(t: EfiTime): nat
    requires ValidTime(t) && t.year >= 1970
  {
    (DaysToYear(t.year) + DaysToMonth(t.year, t.month) + t.day - 1) * 86400 + t.hour * 3600 + t.minute * 60 + t.second
  }

  // ----- the code -----

  /** The day number EfiTimeToUnix computes; its years start in March. */
  function CivilDays(t: EfiTime): int
    requires ValidTime(t) && t.year >= 1
  {
    var year := t.year - if t.month <= 2 then 1 else 0;
    var era := year / 400;
    var yoe := year - era * 400;
    var doy := (153 * (t.month + if t.month > 2 then -3 else 9) + 2) / 5 + t.day - 1;
    var doe := yoe * 365 + yoe / 4 - yoe / 100 + doy;
    era * 146097 + doe - 719468
  }

  /** The seconds, cast to UINT32. */
  function EfiTimeToUnix(t: EfiTime): (r: nat)
    requires ValidTime(t) && t.year >= 1
    ensures r < TWO_32
  {
    (CivilDays(t) * 86400 + t.hour * 3600 + t.minute * 60 + t.second) % TWO_32
  }

  /** Days from the start of March year 0 to the start of March year `y`. */
  function MarchDays(y: nat): int {
    365 * y + y / 4 - y / 100 + y / 400
  }

  lemma EraForm(y: nat)
    ensures var era, yoe := y / 400, y - y / 400 * 400;
      era * 146097 + yoe * 365 + yoe / 4 - yoe / 100 == MarchDays(y)
  {
    var era, yoe := y / 400, y - y / 400 * 400;
    assert y == 400 * era + yoe && 0 <= yoe < 400;
    assert y / 4 == 100 * era + yoe / 4;
    assert y / 100 == 4 * era + yoe / 100;
  }

  /** A March year that ends in a leap year has 366 days. */
  lemma MarchStep(y: nat)
    ensures MarchDays(y + 1) == MarchDays(y) + if IsLeap(y + 1) then 366 else 365
  {
    DivStep(y, 4);
    DivStep(y, 100);
    DivStep(y, 400);
    LeapByDivisors(y + 1);
  }

  lemma DivStep(y: nat, d: nat)
    requires d == 4 || d == 100 || d == 400
    ensures (y + 1) / d == y / d + if (y + 1) % d == 0 then 1 else 0
  {
  }

  lemma LeapByDivisors(y: nat)
    ensures y % 100 == 0 ==> y % 4 == 0
    ensures y % 400 == 0 ==> y % 100 == 0
  {
    if y % 100 == 0 {
      Multiple(25 * (y / 100), 4);
      assert y == 4 * (25 * (y / 100));
    }
    if y % 400 == 0 {
      Multiple(4 * (y / 400), 100);
      assert y == 100 * (4 * (y / 400));
    }
  }

  lemma Multiple(k: nat, d: nat)
    requires d == 4 || d == 100
    ensures d * k % d == 0
  {
  }

  lemma {:induction false} YearsAgree(y: nat)
    requires y >= 1970
    ensures MarchDays(y - 1) + 306 - 719468 == DaysToYear(y)
  {
    if y > 1970 {
      YearsAgree(y - 1);
      MarchStep(y - 2);
    }
  }

  /** The month formula against the month lengths. */
  lemma MonthsAgree(y: nat, m: nat)
    requires 1 <= m <= 12
    ensures (153 * (m + if m > 2 then -3 else 9) + 2) / 5
         == if m <= 2 then 306 + DaysToMonth(y, m) else DaysToMonth(y, m) - (if IsLeap(y) then 60 else 59)
  {
    assert DaysToMonth(y, 1) == 0;
    assert DaysToMonth(y, 2) == 31;
    var march := DaysToMonth(y, 3);
    assert march == if IsLeap(y) then 60 else 59;
    assert DaysToMonth(y, 4) == march + 31;
    assert DaysToMonth(y, 5) == march + 61;
    assert DaysToMonth(y, 6) == march + 92;
    assert DaysToMonth(y, 7) == march + 122;
    assert DaysToMonth(y, 8) == march + 153;
    assert DaysToMonth(y, 9) == march + 184;
    assert DaysToMonth(y, 10) == march + 214;
    assert DaysToMonth(y, 11) == march + 245;
    assert DaysToMonth(y, 12) == march + 275;
  }

  /** The formula is the day count, for every date from 1970 on. */
  lemma CivilIsCount(t: EfiTime)
    requires ValidTime(t) && t.year >= 1970
    ensures CivilDays(t) == DaysToYear(t.year) + DaysToMonth(t.year, t.month) + t.day - 1
  {
    hide MarchDays, DaysToYear, DaysToMonth, IsLeap;
    MonthsAgree(t.year, t.month);
    YearsAgree(t.year);
    EraForm(if t.month <= 2 then t.year - 1 else t.year);
    MarchStep(t.year - 1);
  }

  /** Days to a later year, from its year length. */
  lemma {:induction false} DaysToYearMonotone(a: nat, b: nat)
    requires 1970 <= a <= b
    ensures DaysToYear(a) <= DaysToYear(b)
    decreases b - a
  {
    if a < b {
      DaysToYearMonotone(a, b - 1);
    }
  }

  lemma {:induction false} DaysToYearBound(y: nat)
    requires y >= 1970
    ensures DaysToYear(y) <= 366 * (y - 1970)
  {
    if y > 1970 {
      DaysToYearBound(y - 1);
    }
  }

  lemma DayOfYearBound(t: EfiTime)
    requires ValidTime(t)
    ensures DaysToMonth(t.year, t.month) + t.day <= if IsLeap(t.year) then 366 else 365
  {
    MonthsAgree(t.year, t.month);
  }

  /** EfiTimeToUnix is the exact Unix time, with no UINT32 wrap, for every date from 1970 to 2104. */
  lemma UnixIsExact(t: EfiTime)
    requires ValidTime(t) && 1970 <= t.year <= 2104
    ensures EfiTimeToUnix(t) == UnixSeconds(t)
  {
    hide DaysToYear, DaysToMonth, IsLeap, CivilDays;
    CivilIsCount(t);
    DayOfYearBound(t);
    DaysToYearBound(t.year);
  }

  /** Calendar order on dates. */
  ghost predicate Earlier(a: EfiTime, b: EfiTime) {
    || a.year < b.year
    || (a.year == b.year && (a.month < b.month
    || (a.month == b.month && (a.day < b.day
    || (a.day == b.day && a.hour * 3600 + a.minute * 60 + a.second < b.hour * 3600 + b.minute * 60 + b.second)))))
  }

  lemma {:induction false} DaysToMonthStep(y: nat, m: nat, n: nat)
    requires 1 <= m < n <= 12
    ensures DaysToMonth(y, m) + MonthLength(y, m) <= DaysToMonth(y, n)
    decreases n
  {
    if m < n - 1 {
      DaysToMonthStep(y, m, n - 1);
    }
  }

  /** A later time gets a larger timestamp. */
  lemma UnixIsOrdered(a: EfiTime, b: EfiTime)
    requires ValidTime(a) && ValidTime(b) && 1970 <= a.year && b.year <= 2104 && Earlier(a, b)
    ensures EfiTimeToUnix(a) < EfiTimeToUnix(b)
  {
    hide DaysToMonth, IsLeap, EfiTimeToUnix, MonthLength;
    UnixIsExact(a);
    UnixIsExact(b);
    if a.year < b.year {
      DaysToYearMonotone(a.year + 1, b.year);
      DayOfYearBound(a);
    } else if a.month < b.month {
      DaysToMonthStep(a.year, a.month, b.month);
    }
  }

  // ----- the staged timestamp -----

  /** The clock when it reads and is plausible and ahead of the installed timestamp, else one past that, as UINT32. */
  function StagingTimestamp(clock: Option<EfiTime>, installed: nat): (r: nat)
    requires clock.Some? ==> ValidTime(clock.value)
    requires installed < TWO_32
    ensures r < TWO_32
  {
    if clock.Some? && 2025 <= clock.value.year <= 2100 && EfiTimeToUnix(clock.value) > installed
    then EfiTimeToUnix(clock.value)
    else (installed + 1) % TWO_32
  }

  /** The staged timestamp always differs from the installed one. It is a later one exactly when the installed
      one is not the last UINT32. It is the true time if the clock is plausible and ahead, and else the next one. */
  lemma StagingIsFresh(clock: Option<EfiTime>, installed: nat)
    requires clock.Some? ==> ValidTime(clock.value)
    requires installed < TWO_32
    ensures StagingTimestamp(clock, installed) != installed
    ensures StagingTimestamp(clock, installed) > installed <==> installed != TWO_32 - 1
    ensures clock.Some? && 2025 <= clock.value.year <= 2100 && UnixSeconds(clock.value) > installed
      ==> StagingTimestamp(clock, installed) == UnixSeconds(clock.value)
    ensures !(clock.Some? && 2025 <= clock.value.year <= 2100 && UnixSeconds(clock.value) > installed)
      ==> StagingTimestamp(clock, installed) == if installed == 0xFFFF_FFFF then 0 else installed + 1
  {
    hide EfiTimeToUnix, UnixSeconds;
    if clock.Some? && 2025 <= clock.value.year <= 2100 {
      UnixIsExact(clock.value);
    }
  }
}
