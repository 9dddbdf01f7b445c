/** `java.time` as far as the core uses it: a date is a day number, a
    date-time is a date and a time of day to the second, and a booked slot is
    read back as its `HH:MM` label. */
module Time {
  import opened Text


  /** A day number (days since an arbitrary epoch); `LocalDate`. */
  type LocalDate = int

  type Hour = h: int | 0 <= h < 24
  type Minute = m: int | 0 <= m < 60
  type Second = s: int | 0 <= s < 60

  /** A time of day to the second; sub-second precision is not modelled. */
  datatype LocalTime = LocalTime(hour: Hour, minute: Minute, second: Second)

  datatype LocalDateTime = LocalDateTime(date: LocalDate, time: LocalTime)

  function SecondOfDay(t: LocalTime): (n: int)
    ensures 0 <= n < 86400
  {
    t.hour * 3600 + t.minute * 60 + t.second
  }

  /** `LocalTime.ofSecondOfDay`. */
  function OfSecondOfDay(n: int): (t: LocalTime)
    requires 0 <= n < 86400
    ensures SecondOfDay(t) == n
  {
    LocalTime(n / 3600, n % 3600 / 60, n % 60)
  }

  /** `a.isBefore(b)`: `LocalDateTime.compareTo` orders by date, then by
      time of day. */
  predicate IsBefore(a: LocalDateTime, b: LocalDateTime)
  {
    a.date < b.date || (a.date == b.date && TimeBefore(a.time, b.time))
  }

  /** `LocalTime.isBefore`: `LocalTime.compareTo` orders by hour, then
      minute, then second. */
  predicate TimeBefore(a: LocalTime, b: LocalTime)
  {
    a.hour < b.hour || (a.hour == b.hour && (a.minute < b.minute || (a.minute == b.minute && a.second < b.second)))
  }

  /** `LocalDateTime.of(date, time)`. */
  function Of(date: LocalDate, time: LocalTime): LocalDateTime
  {
    LocalDateTime(date, time)
  }

  /** `dt.toLocalDate()`. */
  function ToLocalDate(dt: LocalDateTime): LocalDate
  {
    dt.date
  }

  /** `dt.toLocalTime()`. */
  function ToLocalTime(dt: LocalDateTime): LocalTime
  {
    dt.time
  }

  /** `date.atStartOfDay()`. */
  function AtStartOfDay(date: LocalDate): LocalDateTime
  {
    LocalDateTime(date, LocalTime(0, 0, 0))
  }

  /** `date.atTime(hour, minute, second)`. */
  function AtTime(date: LocalDate, hour: Hour, minute: Minute, second: Second): LocalDateTime
  {
    LocalDateTime(date, LocalTime(hour, minute, second))
  }

  /** `dt.plusHours(hours)`: the date-time `hours` hours later, carrying over
      into following (or preceding) days. */
  function PlusHours(dt: LocalDateTime, hours: int): LocalDateTime
  {
    var total := SecondOfDay(dt.time) + hours * 3600;
    LocalDateTime(dt.date + total / 86400, OfSecondOfDay(total % 86400))
  }

  /** The inclusive range test of a `...Between(start, end)` query. */
  predicate InRange(t: LocalDateTime, start: LocalDateTime, end: LocalDateTime)
  {
    !IsBefore(t, start) && !IsBefore(end, t)
  }

  /** The window `[date 00:00:00, date 23:59:59]` the services query with. */
  predicate WithinDay(t: LocalDateTime, date: LocalDate)
  {
    InRange(t, AtStartOfDay(date), AtTime(date, 23, 59, 59))
  }

  /** At one-second precision the day window holds exactly the date-times of
      that date. */
  lemma WithinDayIffSameDate(t: LocalDateTime, date: LocalDate)
    ensures WithinDay(t, date) <==> t.date == date
  {
  }

  /** One hour later is strictly later, and it is the next hour of the same
      day, or midnight hour of the next day after 23:xx; minutes and seconds
      are kept. */
  lemma PlusOneHour(dt: LocalDateTime)
    ensures IsBefore(dt, PlusHours(dt, 1))
    ensures PlusHours(dt, 1).time.minute == dt.time.minute
    ensures PlusHours(dt, 1).time.second == dt.time.second
    ensures dt.time.hour < 23 ==> PlusHours(dt, 1).date == dt.date && PlusHours(dt, 1).time.hour == dt.time.hour + 1
    ensures dt.time.hour == 23 ==> PlusHours(dt, 1).date == dt.date + 1 && PlusHours(dt, 1).time.hour == 0
  {
    var h: int, m: int, sec: int := dt.time.hour, dt.time.minute, dt.time.second;
    var total := SecondOfDay(dt.time) + 3600;
    var next: Hour := (h + 1) % 24;
    assert total == (h + 1) * 3600 + m * 60 + sec;
    if h < 23 {
      DivModDay(0, total);
    } else {
      DivModDay(1, m * 60 + sec);
    }
    DecomposeSecondOfDay(next, m, sec);
  }

  lemma DivModDay(q: int, r: int)
    requires 0 <= r < 86400
    ensures (q * 86400 + r) / 86400 == q && (q * 86400 + r) % 86400 == r
  {
  }

  /** `OfSecondOfDay` reads hour, minute and second back. */
  lemma DecomposeSecondOfDay(h: Hour, m: Minute, sec: Second)
    ensures OfSecondOfDay(h * 3600 + m * 60 + sec) == LocalTime(h, m, sec)
  {
    var n := h * 3600 + m * 60 + sec;
    assert n / 3600 == h && n % 3600 == m * 60 + sec;
    assert (m * 60 + sec) / 60 == m && n % 60 == sec;
  }

  /** `t.toString().substring(0, 5)`: `LocalTime.toString` starts with the
      zero-padded hour and minute, so its first five characters are `HH:MM`. */
  function Label(t: LocalTime): (r: string)
    ensures |r| == 5 && r[2] == ':'
    ensures BeforeColon(r) == TwoDigits(t.hour)
    ensures r[..2] == TwoDigits(t.hour) && r[3..] == TwoDigits(t.minute)
  {
    var r := TwoDigits(t.hour) + [':'] + TwoDigits(t.minute);
    assert BeforeColon(r[2..]) == [];
    assert BeforeColon(r[1..]) == [r[1]] + BeforeColon(r[2..]);
    r
  }

  /** Two times share a label exactly when they agree to the minute. */
  lemma LabelInjective(a: LocalTime, b: LocalTime)
    ensures Label(a) == Label(b) <==> a.hour == b.hour && a.minute == b.minute
  {
    if Label(a) == Label(b) {
      assert Label(a)[..2] == TwoDigits(a.hour) && Label(b)[..2] == TwoDigits(b.hour);
      assert Label(a)[3..] == TwoDigits(a.minute) && Label(b)[3..] == TwoDigits(b.minute);
      TwoDigitsInjective(a.hour, b.hour);
      TwoDigitsInjective(a.minute, b.minute);
    }
  }
}
