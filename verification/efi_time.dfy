/** The calendar arithmetic of efi_gettime_wall in efi/start_main.c, against the Gregorian calendar. */
module EfiTime {
  import opened Words

  type Uint8 = x: int | 0 <= x < 0x100
  type Uint16 = x: int | 0 <= x < 0x1_0000

  const UNSPECIFIED_TIMEZONE: int := 0x7ff

  /** EFI_TIME. The zone is in minutes: local time plus zone is universal time (UEFI Specification, section 8.3). */
  datatype Time = Time(year: Uint16, month: Uint8, day: Uint8, hour: Uint8, minute: Uint8, second: Uint8,
                       nanosecond: nat, timeZone: int)

  // ---------- The calendar ----------

  predicate IsLeap(year: int) {
    year % 4 == 0 && (year % 100 != 0 || year % 400 == 0)
  }

  function YearLength(year: int): nat {
    if IsLeap(year) then 366 else 365
  }

  function MonthLength(year: int, month: int): nat {
    if month == 2 then (if IsLeap(year) then 29 else 28)
    else if month == 4 || month == 6 || month == 9 || month == 11 then 30
    else 31
  }

  ghost predicate ValidTime(t: Time) {
    && 1 <= t.year && 1 <= t.month <= 12 && 1 <= t.day <= MonthLength(t.year, t.month)
    && t.hour < 24 && t.minute < 60 && t.second < 60
  }

  /** The dates and times of day that there are. */
  lemma ValidTimeSpelledOut(t: Time)
    ensures ValidTime(t) <==>
            && 1 <= t.year && 1 <= t.month <= 12 && t.hour < 24 && t.minute < 60 && t.second < 60
            && 1 <= t.day <= [31, 28, 31, 30, 31, 30, 31, 31, 30, 31, 30, 31][t.month - 1] +
               if t.month == 2 && t.year % 4 == 0 && (t.year % 100 != 0 || t.year % 400 == 0) then 1 else 0
  {
    if 1 <= t.month <= 12 {
      assert MonthLength(t.year, t.month) ==
             [31, if IsLeap(t.year) then 29 else 28, 31, 30, 31, 30, 31, 31, 30, 31, 30, 31][t.month - 1];
    }
  }

  /** The days of the years 1 to year-1. */
  ghost function DaysBeforeYear(year: nat): nat {
    if year <= 1 then 0 else DaysBeforeYear(year - 1) + YearLength(year - 1)
  }

  /** The days of the months 1 to month-1. */
  ghost function DaysBeforeMonth(year: nat, month: nat): nat {
    if month <= 1 then 0 else DaysBeforeMonth(year, month - 1) + MonthLength(year, month - 1)
  }

  /** Days since 1970-01-01, negative before it. */
  ghost function RealDays(year: nat, month: nat, day: nat): int {
    DaysBeforeYear(year) + DaysBeforeMonth(year, month) + day - 1 - DaysBeforeYear(1970)
  }

  /** Seconds since the Epoch, 1970-01-01 00:00:00 UTC, not counting leap seconds. */
  ghost function RealSeconds(t: Time): int {
    ((RealDays(t.year, t.month, t.day) * 24 + t.hour) * 60 + t.minute) * 60 + t.second
    + if t.timeZone == UNSPECIFIED_TIMEZONE then 0 else t.timeZone * 60
  }

  /** The leap years from 1 to year. */
  function Leaps(year: int): int {
    year / 4 - year / 100 + year / 400
  }

  lemma QuotientStep(y: int, n: int)
    requires n == 4 || n == 100 || n == 400
    ensures y / n == (y - 1) / n + (if y % n == 0 then 1 else 0)
  {
  }

  lemma Divisible(y: int)
    ensures y % 400 == 0 ==> y % 100 == 0
    ensures y % 100 == 0 ==> y % 4 == 0
  {
  }

  lemma LeapsStep(year: int)
    ensures Leaps(year) == Leaps(year - 1) + if IsLeap(year) then 1 else 0
  {
    QuotientStep(year, 4);
    QuotientStep(year, 100);
    QuotientStep(year, 400);
    Divisible(year);
  }

  lemma {:induction false} DaysBeforeYearClosed(year: nat)
    requires year >= 1
    ensures DaysBeforeYear(year) == 365 * (year - 1) + Leaps(year - 1)
  {
    if year > 1 {
      DaysBeforeYearClosed(year - 1);
      LeapsStep(year - 1);
      hide Leaps, IsLeap;
    }
  }

  lemma DaysBeforeEpoch()
    ensures DaysBeforeYear(1970) == 719162
  {
    DaysBeforeYearClosed(1970);
  }

  lemma DaysBeforeMonthTable(year: nat, month: nat)
    requires 1 <= month <= 12
    ensures DaysBeforeMonth(year, month) ==
            (if month <= 2 then 31 * (month - 1) else 367 * (month - 2) / 12 + 29 + if IsLeap(year) then 1 else 0)
  {
    assert DaysBeforeMonth(year, 1) == 0;
    assert DaysBeforeMonth(year, 3) == 31 + MonthLength(year, 2);
    assert DaysBeforeMonth(year, 5) == DaysBeforeMonth(year, 3) + 61;
    assert DaysBeforeMonth(year, 7) == DaysBeforeMonth(year, 5) + 61;
    assert DaysBeforeMonth(year, 9) == DaysBeforeMonth(year, 7) + 62;
    assert DaysBeforeMonth(year, 11) == DaysBeforeMonth(year, 9) + 61;
  }

  /** The day of the year that each month begins with. */
  lemma MonthStarts(year: nat, month: nat)
    requires 1 <= month <= 12
    ensures DaysBeforeMonth(year, month) ==
            [0, 31, 59, 90, 120, 151, 181, 212, 243, 273, 304, 334][month - 1] + if month > 2 && IsLeap(year) then 1 else 0
  {
    DaysBeforeMonthTable(year, month);
  }

  /** The leap day of 2000, at 12:34:56 in a zone one hour behind universal time. */
  lemma LeapDayOf2000()
    ensures RealSeconds(Time(2000, 2, 29, 12, 34, 56, 0, 60)) == 951831296
  {
    hide DaysBeforeYear, DaysBeforeMonth;
    DaysBeforeYearClosed(2000);
    DaysBeforeEpoch();
    MonthStarts(2000, 2);
  }

  // ---------- The formula ----------

  /** The days of the formula, on the year that starts in March: month 1 is March, and 11 and 12 belong to the next year. */
  function FormulaDays(year: int, month: int, day: int): int {
    Leaps(year) + 367 * month / 12 + day + year * 365 - 719499
  }

  /** With the month adjusted as the comment in the code describes, the formula is right in all twelve months. */
  lemma FormulaIsRight(year: nat, month: nat, day: nat)
    requires 1 <= year && 1 <= month <= 12
    ensures RealDays(year, month, day) ==
            if month <= 2 then FormulaDays(year - 1, month + 10, day) else FormulaDays(year, month - 2, day)
  {
    DaysBeforeYearClosed(year);
    DaysBeforeEpoch();
    DaysBeforeMonthTable(year, month);
    LeapsStep(year);
    hide Leaps, IsLeap, DaysBeforeYear, DaysBeforeMonth;
  }

  /** In January the 8-bit month wraps to 255, the branch is missed, and the formula is some 21 years ahead. */
  lemma JanuaryIsWrong(year: nat, day: nat)
    requires 1 <= year
    ensures FormulaDays(year, 255, day) == RealDays(year, 1, day) + 7827 + if IsLeap(year) then 1 else 0
  {
    DaysBeforeYearClosed(year);
    DaysBeforeEpoch();
    DaysBeforeMonthTable(year, 1);
    LeapsStep(year);
    hide Leaps, IsLeap, DaysBeforeYear, DaysBeforeMonth;
  }

  // ---------- The code ----------

  /** The seconds of the formula from its days, each step wrapping at 64 bits. */
  function WrappedSeconds(days: int, hour: int, minute: int, second: int): Word {
    Wrap(Wrap(Wrap(Wrap(days) * 24 + hour) * 60 + minute) * 60 + second)
  }

  lemma WrappedSecondsIsWrap(days: int, hour: int, minute: int, second: int)
    ensures WrappedSeconds(days, hour, minute, second) == Wrap(((days * 24 + hour) * 60 + minute) * 60 + second)
  {
    WrapEarly(days, 24, hour);
    WrapEarly(days * 24 + hour, 60, minute);
    WrapEarly((days * 24 + hour) * 60 + minute, 60, second);
  }

  /** Some 21 years of seconds are no multiple of 2^64. */
  lemma JanuaryNeverMatches(x: int, days: int)
    requires 0 < days < 8000
    ensures Wrap(x + days * 86400) != Wrap(x)
  {
  }

  /**
    `ok` is false when the firmware call fails. The seconds of a valid time are right exactly when the
    month is not January; then they are 7827 days ahead, 7828 in a leap year.
   */
  method GettimeWall(failed: bool, firmware: Time) returns (ok: bool, secs: Word, nanosecs: nat)
    ensures ok == !failed
    ensures ok ==> nanosecs == firmware.nanosecond
    ensures ok && ValidTime(firmware) ==> (secs == Wrap(RealSeconds(firmware)) <==> firmware.month != 1)
    ensures ok && ValidTime(firmware) && firmware.month == 1 ==>
              secs == Wrap(RealSeconds(firmware) + (if IsLeap(firmware.year) then 7828 else 7827) * 86400)
  {
    hide Wrap, WrappedSeconds, FormulaDays, RealSeconds, MonthLength;
    var t := firmware;
    secs, nanosecs, ok := 0, 0, !failed;
    if failed {
      return;
    }
    t := t.(month := (t.month - 2) % 0x100);
    if 0 >= t.month {
      t := t.(month := (t.month + 12) % 0x100);
      t := t.(year := (t.year - 1) % 0x1_0000);
    }
    secs := WrappedSeconds(FormulaDays(t.year, t.month, t.day), t.hour, t.minute, t.second);
    if t.timeZone != UNSPECIFIED_TIMEZONE {
      secs := Wrap(secs + t.timeZone * 60);
    }
    nanosecs := t.nanosecond;
    if ValidTime(firmware) {
      SecondsRightExceptInJanuary(firmware, t, secs);
    }
  }

  lemma SecondsRightExceptInJanuary(before: Time, t: Time, secs: Word)
    requires ValidTime(before)
    requires t == before.(year := if before.month == 2 then before.year - 1 else before.year,
                          month := if before.month == 1 then 255 else if before.month == 2 then 12 else before.month - 2)
    requires var plain := WrappedSeconds(FormulaDays(t.year, t.month, t.day), t.hour, t.minute, t.second);
             secs == if t.timeZone != UNSPECIFIED_TIMEZONE then Wrap(plain + t.timeZone * 60) else plain
    ensures secs == Wrap(RealSeconds(before)) <==> before.month != 1
    ensures before.month == 1 ==>
              secs == Wrap(RealSeconds(before) + (if IsLeap(before.year) then 7828 else 7827) * 86400)
  {
    hide FormulaDays, RealDays, WrappedSeconds, Wrap, IsLeap, RealSeconds, MonthLength;
    var days, trueDays := FormulaDays(t.year, t.month, t.day), RealDays(before.year, before.month, before.day);
    SecondsFromDays(before, t, days, trueDays, secs);
    if before.month == 1 {
      JanuaryIsWrong(before.year, before.day);
      JanuaryNeverMatches(RealSeconds(before), days - trueDays);
    } else {
      FormulaIsRight(before.year, before.month, before.day);
    }
  }

  /** The seconds computed are off by the days that the formula is off. */
  lemma SecondsFromDays(before: Time, t: Time, days: int, trueDays: int, secs: Word)
    requires t == before.(year := t.year, month := t.month)
    requires trueDays == RealDays(before.year, before.month, before.day)
    requires var plain := WrappedSeconds(days, t.hour, t.minute, t.second);
             secs == if t.timeZone != UNSPECIFIED_TIMEZONE then Wrap(plain + t.timeZone * 60) else plain
    ensures secs == Wrap(RealSeconds(before) + (days - trueDays) * 86400)
  {
    hide RealDays, Wrap;
    var zone := if t.timeZone == UNSPECIFIED_TIMEZONE then 0 else t.timeZone * 60;
    WrappedSecondsIsWrap(days, t.hour, t.minute, t.second);
    hide WrappedSeconds;
    WrapEarly(((days * 24 + t.hour) * 60 + t.minute) * 60 + t.second, 1, zone);
  }

  // ---------- The Epoch of POSIX ----------

  /** Section 4.16 of the Base Definitions of POSIX.1-2017, from the fields of its broken-down time. */
  function PosixSeconds(tm_sec: int, tm_min: int, tm_hour: int, tm_yday: int, tm_year: int): int {
    tm_sec + tm_min * 60 + tm_hour * 3600 + tm_yday * 86400 + (tm_year - 70) * 31536000
    + (tm_year - 69) / 4 * 86400 - (tm_year - 1) / 100 * 86400 + (tm_year + 299) / 400 * 86400
  }

  /**
    From 1970 on, counting years and months agrees with the POSIX formula, plus the minutes of the zone. The zone
    2047 is the one that says nothing (section 8.3 of the UEFI Specification); the others are at most a day.
   */
  lemma RealSecondsIsPosix(t: Time)
    requires ValidTime(t) && 1970 <= t.year
    ensures var utc := PosixSeconds(t.second, t.minute, t.hour, DaysBeforeMonth(t.year, t.month) + t.day - 1, t.year - 1900);
            RealSeconds(t) == if t.timeZone == 2047 then utc else utc + t.timeZone * 60
  {
    DaysBeforeYearClosed(t.year);
    DaysBeforeEpoch();
    PosixLeaps(t.year);
    hide Leaps, DaysBeforeYear, DaysBeforeMonth;
  }

  lemma PosixLeaps(year: int)
    requires 1970 <= year
    ensures Leaps(year - 1) == (year - 1969) / 4 - (year - 1901) / 100 + (year - 1601) / 400 + 477
  {
    assert (year - 1) / 4 == (year - 1969) / 4 + 492;
    assert (year - 1) / 100 == (year - 1901) / 100 + 19;
    assert (year - 1) / 400 == (year - 1601) / 400 + 4;
  }
}
