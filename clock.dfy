/**
 * Times of day and calendar dates as Python's `datetime.time` and
 * `datetime.date` represent them.
 */
module Clock {

  const MinutesPerDay: int := 1440
  const MicrosPerMinute: int := 60000000

  /** A `datetime.time`: hour, minute, second and microsecond fields. */
  datatype TimeOfDay = TimeOfDay(hour: int, minute: int, second: int, micro: int)
  {
    predicate Valid()
    {
      0 <= hour < 24 && 0 <= minute < 60 && 0 <= second < 60 && 0 <= micro < 1000000
    }
  }

  /** Microseconds since midnight; Python orders `time` values by exactly this number. */
  function Micros(t: TimeOfDay): int
  {
    ((t.hour * 60 + t.minute) * 60 + t.second) * 1000000 + t.micro
  }

  /** `hour * 60 + minute`, the whole minutes since midnight. */
  function MinuteOf(t: TimeOfDay): int
  {
    t.hour * 60 + t.minute
  }

  /** `t.replace(second=0, microsecond=0)`. */
  function Truncate(t: TimeOfDay): (r: TimeOfDay)
    ensures t.Valid() ==> r.Valid()
    ensures MinuteOf(r) == MinuteOf(t) && r.second == 0 && r.micro == 0
    ensures Micros(r) == MinuteOf(t) * MicrosPerMinute
  {
    t.(second := 0, micro := 0)
  }

  /** The whole-minute time `m` (minutes since midnight) comes strictly before `t`. */
  predicate MinuteBefore(m: int, t: TimeOfDay)
  {
    m * MicrosPerMinute < Micros(t)
  }

  /** For a valid time, "minute `m` is before `t`" is a comparison of whole minutes, then of the rest. */
  lemma MinuteBeforeMinutos(m: int, t: TimeOfDay)
    requires t.Valid()
    ensures MinuteBefore(m, t) <==> m < MinuteOf(t) || (m == MinuteOf(t) && (t.second > 0 || t.micro > 0))
  {
    var resto := t.second * 1000000 + t.micro;
    assert Micros(t) == MinuteOf(t) * MicrosPerMinute + resto;
    assert 0 <= resto < MicrosPerMinute;
    if m < MinuteOf(t) {
      assert m * MicrosPerMinute <= (MinuteOf(t) - 1) * MicrosPerMinute;
    } else if m > MinuteOf(t) {
      assert m * MicrosPerMinute >= (MinuteOf(t) + 1) * MicrosPerMinute;
    }
  }

  /** Once both sides are truncated, comparing times is comparing whole minutes. */
  lemma TruncatedOrder(a: TimeOfDay, b: TimeOfDay)
    ensures Micros(Truncate(a)) < Micros(Truncate(b)) <==> MinuteOf(a) < MinuteOf(b)
    ensures Micros(Truncate(a)) <= Micros(Truncate(b)) <==> MinuteOf(a) <= MinuteOf(b)
  {
  }

  /** Truncation keeps a valid time inside its own minute and never moves it forward. */
  lemma TruncateWithinMinute(t: TimeOfDay)
    requires t.Valid()
    ensures Micros(Truncate(t)) <= Micros(t) < Micros(Truncate(t)) + MicrosPerMinute
    ensures 0 <= MinuteOf(t) < MinutesPerDay
    ensures Truncate(Truncate(t)) == Truncate(t)
  {
  }

  /** The whole-minute time `m` minutes after midnight (`0 <= m < MinutesPerDay`). */
  function AtMinute(m: int): (t: TimeOfDay)
    requires 0 <= m < MinutesPerDay
    ensures t.Valid() && MinuteOf(t) == m && Micros(t) == m * MicrosPerMinute
  {
    TimeOfDay(m / 60, m % 60, 0, 0)
  }

  /**
   * `(datetime.combine(day, t) + timedelta(minutes=minutos)).time()`: the date
   * part is dropped, so the sum wraps around at midnight and keeps the seconds.
   */
  function AddMinutes(t: TimeOfDay, minutos: int): (r: TimeOfDay)
    ensures r.Valid() <== t.Valid()
    ensures MinuteOf(r) == (MinuteOf(t) + minutos) % MinutesPerDay
    ensures r.second == t.second && r.micro == t.micro
  {
    var total := (MinuteOf(t) + minutos) % MinutesPerDay;
    TimeOfDay(total / 60, total % 60, t.second, t.micro)
  }

  /** Without crossing midnight, adding minutes is plain addition on the time line. */
  lemma AddMinutesSinCruce(t: TimeOfDay, minutos: int)
    requires t.Valid() && 0 <= MinuteOf(t) + minutos < MinutesPerDay
    ensures Micros(AddMinutes(t, minutos)) == Micros(t) + minutos * MicrosPerMinute
  {
  }

  /** Crossing midnight forward lands a whole day earlier than plain addition. */
  lemma AddMinutesCruce(t: TimeOfDay, minutos: int)
    requires t.Valid() && minutos < MinutesPerDay && MinutesPerDay <= MinuteOf(t) + minutos
    ensures Micros(AddMinutes(t, minutos)) == Micros(t) + (minutos - MinutesPerDay) * MicrosPerMinute
    ensures Micros(AddMinutes(t, minutos)) < Micros(t)
  {
  }

  /** Two additions are one addition of the total. */
  lemma AddMinutesCompone(t: TimeOfDay, a: int, b: int)
    ensures AddMinutes(AddMinutes(t, a), b) == AddMinutes(t, a + b)
  {
    var x := (MinuteOf(t) + a) % MinutesPerDay;
    assert MinuteOf(AddMinutes(t, a)) == x;
    assert (x + b) % MinutesPerDay == (MinuteOf(t) + a + b) % MinutesPerDay by {
      assert MinuteOf(t) + a == ((MinuteOf(t) + a) / MinutesPerDay) * MinutesPerDay + x;
      ModSumaMultiplo(x + b, (MinuteOf(t) + a) / MinutesPerDay);
    }
  }

  /** Adding whole days does not change the remainder modulo a day. */
  lemma ModSumaMultiplo(n: int, q: int)
    ensures (n + q * MinutesPerDay) % MinutesPerDay == n % MinutesPerDay
  {
  }

  /** A date as its proleptic Gregorian ordinal (`date.toordinal()`, 0001-01-01 is 1). */
  type Date = int

  /** `date.weekday()`: Monday is 0 and Sunday is 6; 0001-01-01 was a Monday. */
  function Weekday(d: Date): (w: int)
    ensures 0 <= w < 7
  {
    (d + 6) % 7
  }

  /**
   * The weekday is Monday (0) on 0001-01-01 and on 2025-12-05 Friday (4); it
   * advances by one each day and repeats every seven days.
   */
  lemma WeekdayCalendario(d: Date)
    ensures Weekday(1) == 0 && Weekday(739590) == 4
    ensures Weekday(d + 1) == (Weekday(d) + 1) % 7
    ensures Weekday(d + 7) == Weekday(d)
  {
  }
}
