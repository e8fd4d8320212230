/** Times as a directory entry stores them, and the two conversions. */
module DosDate {
  const DAYS: seq<nat> := [0, 31, 59, 90, 120, 151, 181, 212, 243, 273, 304, 334, 0, 0, 0, 0]

  const SEC_PER_DAY: nat := 86400
  const DAY_PER_YR: nat := 365
  const DAY_PER_10YR: nat := 3652
  const MIN_DATE: nat := 315532800
  // The days of the years 0 to 127 that a date can hold.
  const MAX_DAYS: nat := 46752

  function LeapDays(year: nat): nat {
    (year + 3) / 4
  }

  predicate LeapYear(year: nat) {
    year % 4 == 0
  }

  // ----- the fields of a stored time

  function Second(time: nat): nat {
    time % 32 * 2
  }

  function Minute(time: nat): nat {
    time / 32 % 64
  }

  function Hour(time: nat): nat {
    time / 2048
  }

  function Day(date: nat): nat {
    date % 32
  }

  // Counted from 0; a month field of 0 reads as 15.
  function Month(date: nat): (m: nat)
    ensures m < 16
  {
    (date / 32 - 1) % 16
  }

  function Year(date: nat): nat {
    date / 512
  }

  function MonthLength(year: nat, month: nat): nat
    requires month < 12
  {
    if month == 11 then 31
    else DAYS[month + 1] - DAYS[month] + if month == 1 && LeapYear(year) then 1 else 0
  }

  /** The twelve months of a common and of a leap year. */
  lemma MonthsAre(year: nat, month: nat)
    requires month < 12
    ensures MonthLength(year, month) == [31, if year % 4 == 0 then 29 else 28, 31, 30, 31, 30, 31, 31, 30, 31, 30, 31][month]
  {
  }

  predicate ValidStamp(time: nat, date: nat) {
    && time < 0x1_0000 && Second(time) < 60 && Minute(time) < 60 && Hour(time) < 24
    && date < 0x1_0000 && date / 32 % 16 >= 1 && Month(date) < 12 && 1 <= Day(date) <= MonthLength(Year(date), Month(date))
  }

  // ----- from a stored time to seconds

  function DayNumber(date: nat): int {
    (Day(date) - 1) + DAYS[Month(date)] + Year(date) / 4 + Year(date) * DAY_PER_YR
    + if LeapYear(Year(date)) && Month(date) < 2 then 0 else 1
  }

  function TimeOfDay(time: nat): nat {
    Second(time) + Minute(time) * 60 + Hour(time) * 3600
  }

  function EntryTime(time: nat, date: nat, minutesWest: int): int {
    TimeOfDay(time) + (DayNumber(date) + DAY_PER_10YR) * SEC_PER_DAY + minutesWest * 60
  }

  // ----- from seconds to a stored time

  lemma TimePacked(sec: nat, min: nat, hour: nat)
    requires sec < 60 && min < 60 && hour < 24
    ensures var t := hour * 2048 + min * 32 + sec / 2;
            t < 0x1_0000 && Second(t) == sec - sec % 2 && Minute(t) == min && Hour(t) == hour
  {
  }

  lemma DatePacked(day: nat, month: nat, year: nat)
    requires day < 32 && 1 <= month <= 12 && year < 128
    ensures var d := year * 512 + month * 32 + day;
            d < 0x1_0000 && Day(d) == day && Month(d) == month - 1 && Year(d) == year && d / 32 % 16 == month
  {
  }

  // One correction of the year is enough: the leap days never make up a whole year.
  lemma YearFound(days: nat)
    requires days < MAX_DAYS
    ensures var guess := days / DAY_PER_YR;
            var before := LeapDays(guess) + guess * DAY_PER_YR;
            && (before > days ==> guess > 0)
            && var year: int := if before > days then guess - 1 else guess;
            && 0 <= year < 128
            && LeapDays(year) + year * DAY_PER_YR <= days
            && days < LeapDays(year) + year * DAY_PER_YR + DAY_PER_YR + if LeapYear(year) then 1 else 0
  {
  }

  // The month, counted from 1, and the day in it, of a day in a year.
  method FindMonth(days: nat, year: nat) returns (day: nat, month: nat)
    requires days < DAY_PER_YR + if LeapYear(year) then 1 else 0
    ensures 1 <= month <= 12 && 1 <= day <= MonthLength(year, month - 1)
    ensures (day - 1) + DAYS[month - 1] + (if LeapYear(year) && month >= 3 then 1 else 0) == days
  {
    day, month := days, 0;
    if day == DAYS[2] && LeapYear(year) {
      month := 2;
    } else {
      if LeapYear(year) && day > DAYS[2] {
        day := day - 1;
      }
      while month < 12
        invariant 0 <= month <= 12 && forall m :: 0 <= m < month ==> DAYS[m] <= day
      {
        if DAYS[month] > day {
          break;
        }
        month := month + 1;
      }
    }
    day := day - DAYS[month - 1] + 1;
  }

  lemma StampIs(sec: nat, min: nat, hour: nat, day: nat, month: nat, year: nat)
    requires sec < 60 && min < 60 && hour < 24 && year < 128
    requires 1 <= month <= 12 && 1 <= day <= MonthLength(year, month - 1)
    ensures var time, date := hour * 2048 + min * 32 + sec / 2, year * 512 + month * 32 + day;
            && ValidStamp(time, date) && TimeOfDay(time) == sec - sec % 2 + min * 60 + hour * 3600
            && DayNumber(date) == day - 1 + DAYS[month - 1] + LeapDays(year) + year * DAY_PER_YR
                                  + if LeapYear(year) && month >= 3 then 1 else 0
  {
    TimePacked(sec, min, hour);
    MonthShort(year, month - 1);
    DatePacked(day, month, year);
    hide Day, Month, Year, Second, Minute, Hour;
  }

  lemma MonthShort(year: nat, month: nat)
    requires month < 12
    ensures 28 <= MonthLength(year, month) <= 31
  {
  }

  /** The stored form of a time; what is before 1980 becomes the first of January 1980. Reading it back
      gives the time again, rounded down to an even second. */
  method ConvertDate(linux: int, minutesWest: int) returns (time: nat, date: nat)
    requires linux - minutesWest * 60 < MIN_DATE + MAX_DAYS * SEC_PER_DAY
    ensures ValidStamp(time, date)
    ensures var t := if linux - minutesWest * 60 < MIN_DATE then MIN_DATE + minutesWest * 60 else linux;
            EntryTime(time, date, minutesWest) == t - t % 2
  {
    hide ValidStamp, TimeOfDay, DayNumber, EntryTime, MonthLength;
    var t := linux - minutesWest * 60;
    if t < MIN_DATE {
      t := MIN_DATE;
    }
    var sec, min, hour := t % 60, t / 60 % 60, t / 3600 % 24;
    time := hour * 2048 + min * 32 + sec / 2;
    var days: nat := (t - MIN_DATE) / SEC_PER_DAY;
    DaysBound(t);
    YearFound(days);
    var year: nat := days / DAY_PER_YR;
    if LeapDays(year) + year * DAY_PER_YR > days {
      year := year - 1;
    }
    var day, month := FindMonth(days - (LeapDays(year) + year * DAY_PER_YR), year);
    date := year * 512 + month * 32 + day;
    StampIs(sec, min, hour, day, month, year);
    Assembled(t, days, time, date, minutesWest);
  }

  lemma DaysBound(t: int)
    requires MIN_DATE <= t < MIN_DATE + MAX_DAYS * SEC_PER_DAY
    ensures 0 <= (t - MIN_DATE) / SEC_PER_DAY < MAX_DAYS
  {
  }

  lemma Assembled(t: nat, days: nat, time: nat, date: nat, minutesWest: int)
    requires t >= MIN_DATE && days == (t - MIN_DATE) / SEC_PER_DAY && DayNumber(date) == days
    requires TimeOfDay(time) == t % 60 - t % 60 % 2 + t / 60 % 60 * 60 + t / 3600 % 24 * 3600
    ensures var u := t + minutesWest * 60;
            EntryTime(time, date, minutesWest) == u - u % 2
  {
    hide TimeOfDay, DayNumber;
    DayParts(t, days);
    EvenShift(t, minutesWest);
  }

  lemma EvenShift(t: int, minutes: int)
    ensures (t + minutes * 60) % 2 == t % 2
  {
    var half := minutes * 30;
    assert t + minutes * 60 == t + 2 * half;
  }

  // The parts of a time make up the time.
  lemma DayParts(t: nat, days: nat)
    requires t >= MIN_DATE && days == (t - MIN_DATE) / SEC_PER_DAY
    ensures t % 60 - t % 60 % 2 + t / 60 % 60 * 60 + t / 3600 % 24 * 3600 + (days + DAY_PER_10YR) * SEC_PER_DAY == t - t % 2
  {
    var d := t / SEC_PER_DAY;
    assert d == days + DAY_PER_10YR;
    assert t / 3600 / 24 == d;
    assert t / 60 / 60 == t / 3600;
  }

  // ----- the other way round

  // A valid day is found again from its number.
  lemma DayIsUnique(a: nat, b: nat)
    requires a < 0x1_0000 && a / 32 % 16 >= 1 && Month(a) < 12 && 1 <= Day(a) <= MonthLength(Year(a), Month(a))
    requires b < 0x1_0000 && b / 32 % 16 >= 1 && Month(b) < 12 && 1 <= Day(b) <= MonthLength(Year(b), Month(b))
    requires DayNumber(a) == DayNumber(b)
    ensures a == b
  {
    YearBounds(a);
    YearBounds(b);
    if Year(a) < Year(b) {
      YearsApart(Year(a), Year(b));
    } else if Year(b) < Year(a) {
      YearsApart(Year(b), Year(a));
    }
    SameYear(a, b);
  }

  lemma YearBounds(d: nat)
    requires Month(d) < 12 && 1 <= Day(d) <= MonthLength(Year(d), Month(d))
    ensures var first := LeapDays(Year(d)) + Year(d) * DAY_PER_YR;
            first <= DayNumber(d) < first + DAY_PER_YR + if LeapYear(Year(d)) then 1 else 0
  {
    hide Day, Month, Year;
  }

  lemma YearsApart(x: nat, y: nat)
    requires x < y
    ensures LeapDays(x) + x * DAY_PER_YR + DAY_PER_YR + (if LeapYear(x) then 1 else 0) <= LeapDays(y) + y * DAY_PER_YR
  {
  }

  lemma SameYear(a: nat, b: nat)
    requires a < 0x1_0000 && a / 32 % 16 >= 1 && Month(a) < 12 && 1 <= Day(a) <= MonthLength(Year(a), Month(a))
    requires b < 0x1_0000 && b / 32 % 16 >= 1 && Month(b) < 12 && 1 <= Day(b) <= MonthLength(Year(b), Month(b))
    requires DayNumber(a) == DayNumber(b) && Year(a) == Year(b)
    ensures a == b
  {
    MonthIsUnique(Year(a), Month(a), Day(a), Month(b), Day(b));
    DateWord(a);
    DateWord(b);
  }

  function DayInYear(year: nat, month: nat, day: nat): int
    requires month < 12
  {
    day - 1 + DAYS[month] + if LeapYear(year) && month < 2 then 0 else 1
  }

  lemma MonthIsUnique(year: nat, m: nat, d: nat, m': nat, d': nat)
    requires m < 12 && 1 <= d <= MonthLength(year, m) && m' < 12 && 1 <= d' <= MonthLength(year, m')
    requires DayInYear(year, m, d) == DayInYear(year, m', d')
    ensures m == m' && d == d'
  {
    if m < m' {
      LaterMonth(year, m, d, m', d');
    } else if m' < m {
      LaterMonth(year, m', d', m, d);
    }
  }

  lemma {:induction false} LaterMonth(year: nat, m: nat, d: nat, n: nat, e: nat)
    requires m < n < 12 && 1 <= d <= MonthLength(year, m) && 1 <= e
    ensures DayInYear(year, m, d) < DayInYear(year, n, e)
    decreases n
  {
    if m < n - 1 {
      LaterMonth(year, m, d, n - 1, 1);
      assert DayInYear(year, n - 1, 1) < DayInYear(year, n, 1);
    }
  }

  lemma DateWord(d: nat)
    requires d / 32 % 16 >= 1
    ensures d == Year(d) * 512 + (Month(d) + 1) * 32 + Day(d)
  {
  }

  /** A stored time and date with valid fields is the only one that reads as this time, so storing
      the time that was read gives the same two words again. */
  lemma StampIsUnique(time: nat, date: nat, time': nat, date': nat, minutesWest: int)
    requires ValidStamp(time, date) && ValidStamp(time', date')
    requires EntryTime(time, date, minutesWest) == EntryTime(time', date', minutesWest)
    ensures time == time' && date == date'
  {
    assert TimeOfDay(time) < SEC_PER_DAY && TimeOfDay(time') < SEC_PER_DAY;
    DayIsUnique(date, date');
    assert TimeOfDay(time) == TimeOfDay(time');
    TimeIsUnique(time, time');
  }

  // The date of the day after, whatever it ends: a month, a year or neither.
  function DayAfter(date: nat): nat
    requires Month(date) < 12
  {
    if Day(date) < MonthLength(Year(date), Month(date)) then date + 1
    else if Month(date) < 11 then Year(date) * 512 + (Month(date) + 2) * 32 + 1
    else (Year(date) + 1) * 512 + 32 + 1
  }

  /** Days are numbered as the calendar has them, from the first of January 1980 on. */
  lemma DaysInOrder(date: nat)
    requires date / 32 % 16 >= 1 && Month(date) < 12 && 1 <= Day(date) <= MonthLength(Year(date), Month(date))
    ensures DayNumber(DayAfter(date)) == DayNumber(date) + 1
    ensures DayNumber(0 * 512 + 1 * 32 + 1) == 0
  {
    DateWord(date);
    var y, m := Year(date), Month(date);
    MonthShort(y, m);
    if Day(date) < MonthLength(y, m) {
      FieldsAre(y, m + 1, Day(date) + 1);
    } else if m < 11 {
      FieldsAre(y, m + 2, 1);
    } else {
      FieldsAre(y + 1, 1, 1);
    }
  }

  lemma FieldsAre(year: nat, month: nat, day: nat)
    requires day < 32 && 1 <= month <= 12
    ensures var d := year * 512 + month * 32 + day; Day(d) == day && Month(d) == month - 1 && Year(d) == year
  {
  }

  lemma StampsRead()
    ensures var time, date := 23 * 2048 + 31 * 32 + 15, 29 * 512 + 2 * 32 + 13;
            ValidStamp(time, date) && EntryTime(time, date, 0) == 1234567890
    ensures var date := 20 * 512 + 2 * 32 + 29; ValidStamp(0, date) && EntryTime(0, date, 0) == 951782400
  {
    hide ValidStamp, TimeOfDay, DayNumber, MonthLength;
    MonthsAre(29, 1);
    StampIs(30, 31, 23, 13, 2, 29);
    MonthsAre(20, 1);
    StampIs(0, 0, 0, 29, 2, 20);
  }

  /** The thirteenth of February 2009 at 23:31:30, and the start of a leap day. */
  method KnownStamps() returns (time: nat, date: nat, leapTime: nat, leapDate: nat)
    ensures time == 23 * 2048 + 31 * 32 + 15 && date == 29 * 512 + 2 * 32 + 13
    ensures leapTime == 0 && leapDate == 20 * 512 + 2 * 32 + 29
  {
    hide ValidStamp, EntryTime;
    StampsRead();
    time, date := ConvertDate(1234567890, 0);
    StampIsUnique(time, date, 23 * 2048 + 31 * 32 + 15, 29 * 512 + 2 * 32 + 13, 0);
    leapTime, leapDate := ConvertDate(951782400, 0);
    StampIsUnique(leapTime, leapDate, 0, 20 * 512 + 2 * 32 + 29, 0);
  }

  lemma TimeIsUnique(a: nat, b: nat)
    requires a < 0x1_0000 && Second(a) < 60 && Minute(a) < 60 && b < 0x1_0000 && Second(b) < 60 && Minute(b) < 60
    requires TimeOfDay(a) == TimeOfDay(b)
    ensures a == b
  {
    RadixIsUnique(Second(a), Minute(a), Hour(a), Second(b), Minute(b), Hour(b));
    TimeWord(a);
    TimeWord(b);
  }

  lemma RadixIsUnique(s: nat, m: nat, h: nat, s': nat, m': nat, h': nat)
    requires s < 60 && m < 60 && s' < 60 && m' < 60 && s + m * 60 + h * 3600 == s' + m' * 60 + h' * 3600
    ensures s == s' && m == m' && h == h'
  {
  }

  lemma TimeWord(t: nat)
    ensures t == Hour(t) * 2048 + Minute(t) * 32 + Second(t) / 2
  {
  }
}
