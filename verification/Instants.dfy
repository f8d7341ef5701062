/**
 * Points on the UTC time line for the dates and clock times of cursors and rows, and
 * what they mean: one offset's clock readings order as their fields do, a day has
 * 86,400 seconds across every month and year end, and an offset moves the clock by itself.
 */
module Instants {
  import opened Wrappers
  import opened CursorCodec

  function DaysBeforeYear(y: int): int {
    (y - 1) * 365 + (y - 1) / 4 - (y - 1) / 100 + (y - 1) / 400
  }

  function DaysBeforeMonth(year: nat, month: nat): nat {
    if month <= 1 then 0 else DaysBeforeMonth(year, month - 1) + DaysInMonth(year, month - 1)
  }

  /** Microseconds on the UTC time line; a naive timestamp is read as UTC. */
  function Instant(t: Timestamp): int {
    (DaysBeforeYear(t.year) + DaysBeforeMonth(t.year, t.month) + t.day) * DAY_US
    + t.hour * HOUR_US + t.minute * MINUTE_US + t.second * SECOND_US + t.micro
    - (if t.offset.Some? then t.offset.value else 0)
  }

  // ----- the calendar, without day numbers -----

  /** The offset a timestamp is read with. */
  function ReadOffset(t: Timestamp): int {
    match t.offset
    case Some(d) => d
    case None => 0
  }

  predicate EarlierDate(t: Timestamp, u: Timestamp) {
    t.year < u.year || (t.year == u.year && (t.month < u.month || (t.month == u.month && t.day < u.day)))
  }

  predicate SameDate(t: Timestamp, u: Timestamp) {
    t.year == u.year && t.month == u.month && t.day == u.day
  }

  predicate EarlierTime(t: Timestamp, u: Timestamp) {
    t.hour < u.hour
    || (t.hour == u.hour
        && (t.minute < u.minute
            || (t.minute == u.minute && (t.second < u.second || (t.second == u.second && t.micro < u.micro)))))
  }

  /** Lexicographic in year, month, day, hour, minute, second, microsecond. */
  predicate EarlierFields(t: Timestamp, u: Timestamp) {
    EarlierDate(t, u) || (SameDate(t, u) && EarlierTime(t, u))
  }

  predicate SameFields(t: Timestamp, u: Timestamp) {
    SameDate(t, u) && t.hour == u.hour && t.minute == u.minute && t.second == u.second && t.micro == u.micro
  }

  predicate LeapYear(y: nat) {
    y % 400 == 0 || (y % 4 == 0 && y % 100 != 0)
  }

  predicate LastOfMonth(t: Timestamp) {
    || (t.month in {1, 3, 5, 7, 8, 10, 12} && t.day == 31)
    || (t.month in {4, 6, 9, 11} && t.day == 30)
    || (t.month == 2 && t.day == if LeapYear(t.year) then 29 else 28)
  }

  predicate IsMidnight(t: Timestamp) {
    t.hour == 0 && t.minute == 0 && t.second == 0 && t.micro == 0
  }

  /** The date of `u` is the one after that of `t`. */
  predicate IsDayAfter(t: Timestamp, u: Timestamp) {
    if !LastOfMonth(t) then u.year == t.year && u.month == t.month && u.day == t.day + 1
    else if t.month < 12 then u.year == t.year && u.month == t.month + 1 && u.day == 1
    else u.year == t.year + 1 && u.month == 1 && u.day == 1
  }

  // ----- day numbers -----

  function DayNumber(t: Timestamp): int {
    DaysBeforeYear(t.year) + DaysBeforeMonth(t.year, t.month) + t.day
  }

  function TimeOfDay(t: Timestamp): int {
    t.hour * HOUR_US + t.minute * MINUTE_US + t.second * SECOND_US + t.micro
  }

  lemma InstantSplits(t: Timestamp)
    ensures Instant(t) == DayNumber(t) * DAY_US + TimeOfDay(t) - ReadOffset(t)
  {
  }

  lemma TwoMonths(year: nat, month: nat)
    requires 1 <= month
    ensures DaysBeforeMonth(year, month + 1) == DaysBeforeMonth(year, month) + DaysInMonth(year, month)
  {
  }

  lemma FirstOfYear(year: nat)
    ensures DaysBeforeMonth(year, 1) == 0
  {
  }

  lemma YearLength(year: nat)
    ensures DaysBeforeMonth(year, 13) == if LeapYear(year) then 366 else 365
  {
    hide DaysBeforeMonth;
    FirstOfYear(year);
    TwoMonths(year, 1); TwoMonths(year, 2); TwoMonths(year, 3); TwoMonths(year, 4); TwoMonths(year, 5); TwoMonths(year, 6);
    TwoMonths(year, 7); TwoMonths(year, 8); TwoMonths(year, 9); TwoMonths(year, 10); TwoMonths(year, 11); TwoMonths(year, 12);
  }

  /** Which centuries and fourth years are complete. */
  lemma QuotientsStep(y: nat)
    requires y >= 1
    ensures y / 4 == (y - 1) / 4 + if y % 4 == 0 then 1 else 0
    ensures y / 100 == (y - 1) / 100 + if y % 100 == 0 then 1 else 0
    ensures y / 400 == (y - 1) / 400 + if y % 400 == 0 then 1 else 0
  {
  }

  lemma NextYear(y: nat)
    requires y >= 1
    ensures DaysBeforeYear(y + 1) == DaysBeforeYear(y) + DaysBeforeMonth(y, 13)
  {
    YearLength(y);
    QuotientsStep(y);
  }

  lemma {:induction false} MonthsBefore(year: nat, m: nat, n: nat)
    requires 1 <= m <= n
    ensures DaysBeforeMonth(year, m) <= DaysBeforeMonth(year, n)
    decreases n
  {
    if m < n {
      TwoMonths(year, n - 1);
      MonthsBefore(year, m, n - 1);
    }
  }

  lemma {:induction false} YearsBefore(y: nat, z: nat)
    requires 1 <= y <= z
    ensures DaysBeforeYear(y) <= DaysBeforeYear(z)
    decreases z
  {
    if y < z {
      NextYear(z - 1);
      YearsBefore(y, z - 1);
    }
  }

  /** A day lies within its month and its month within its year. */
  lemma DayIsInItsYear(t: Timestamp)
    requires ValidTimestamp(t)
    ensures DaysBeforeYear(t.year) < DayNumber(t) <= DaysBeforeYear(t.year + 1)
    ensures DayNumber(t) <= DaysBeforeYear(t.year) + DaysBeforeMonth(t.year, t.month + 1)
  {
    TwoMonths(t.year, t.month);
    MonthsBefore(t.year, t.month + 1, 13);
    NextYear(t.year);
    hide DaysBeforeYear, DaysBeforeMonth;
  }

  lemma EarlierDatesComeFirst(t: Timestamp, u: Timestamp)
    requires ValidTimestamp(t) && ValidTimestamp(u) && EarlierDate(t, u)
    ensures DayNumber(t) < DayNumber(u)
  {
    hide DaysBeforeYear, DaysBeforeMonth;
    DayIsInItsYear(t);
    DayIsInItsYear(u);
    if t.year < u.year {
      YearsBefore(t.year + 1, u.year);
    } else if t.month < u.month {
      MonthsBefore(t.year, t.month + 1, u.month);
    }
  }

  lemma TimesOrder(t: Timestamp, u: Timestamp)
    requires ValidTimestamp(t) && ValidTimestamp(u)
    ensures 0 <= TimeOfDay(t) < DAY_US
    ensures TimeOfDay(t) < TimeOfDay(u) <==> EarlierTime(t, u)
  {
    hide DaysInMonth;
  }

  // ----- what an instant means -----

  /** With one offset, instants order as (year, month, day, hour, minute, second, microsecond) do. */
  lemma InstantsOrderByFields(t: Timestamp, u: Timestamp)
    requires ValidTimestamp(t) && ValidTimestamp(u) && ReadOffset(t) == ReadOffset(u)
    ensures Instant(t) < Instant(u) <==> EarlierFields(t, u)
    ensures Instant(t) == Instant(u) <==> SameFields(t, u)
  {
    InstantSplits(t);
    InstantSplits(u);
    TimesOrder(t, u);
    TimesOrder(u, t);
    if EarlierDate(t, u) {
      EarlierDatesComeFirst(t, u);
    } else if EarlierDate(u, t) {
      EarlierDatesComeFirst(u, t);
    } else {
      assert SameDate(t, u);
      assert DayNumber(t) == DayNumber(u);
    }
    hide Instant, DayNumber, TimeOfDay, ValidTimestamp;
  }

  /** An offset east of UTC reads the same clock that much earlier; a naive time is read as UTC. */
  lemma OffsetMovesInstant(t: Timestamp, offset: Option<int>)
    ensures Instant(t.(offset := offset)) == Instant(t) + ReadOffset(t) - ReadOffset(t.(offset := offset))
    ensures Instant(t.(offset := None)) == Instant(t.(offset := Some(0)))
  {
  }

  /** A day is 86,400 seconds, over month ends, leap days and year ends alike. */
  lemma DaysHaveEqualLength(t: Timestamp, u: Timestamp)
    requires ValidTimestamp(t) && ValidTimestamp(u) && ReadOffset(t) == ReadOffset(u)
    requires IsMidnight(t) && IsMidnight(u) && IsDayAfter(t, u)
    ensures Instant(u) == Instant(t) + 86_400_000_000
  {
    hide DaysBeforeYear, DaysBeforeMonth;
    TwoMonths(t.year, t.month);
    NextYear(t.year);
    assert LastOfMonth(t) <==> t.day == DaysInMonth(t.year, t.month);
    FirstOfYear(u.year);
    FirstOfYear(t.year);
  }

  /** Every day but the last the calendar knows has a next one, and only the days of the calendar do. */
  lemma EveryDayHasANext(t: Timestamp)
    requires ValidTimestamp(t) && !(t.year == 9999 && t.month == 12 && t.day == 31)
    ensures exists u :: ValidTimestamp(u) && IsDayAfter(t, u) && u.offset == t.offset && IsMidnight(u)
  {
    var u :=
      if !LastOfMonth(t) then Timestamp(t.year, t.month, t.day + 1, 0, 0, 0, 0, t.offset)
      else if t.month < 12 then Timestamp(t.year, t.month + 1, 1, 0, 0, 0, 0, t.offset)
      else Timestamp(t.year + 1, 1, 1, 0, 0, 0, 0, t.offset);
    assert ValidTimestamp(u) && IsDayAfter(t, u);
  }

  /** Within a day the clock runs evenly. */
  lemma ClockRunsEvenly(t: Timestamp, u: Timestamp)
    requires SameDate(t, u) && ReadOffset(t) == ReadOffset(u)
    ensures Instant(u) - Instant(t)
         == (u.hour - t.hour) * 3_600_000_000 + (u.minute - t.minute) * 60_000_000
          + (u.second - t.second) * 1_000_000 + (u.micro - t.micro)
  {
  }
}
