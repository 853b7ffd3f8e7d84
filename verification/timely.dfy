/** Times of day and durations (app/utils/timely.py).

    A `time` is modelled as whole seconds since midnight and a `timedelta`
    as signed whole seconds; microseconds are not modelled. */
module Timely {

  const SecondsPerMinute: int := 60
  const SecondsPerHour: int := 3600
  const SecondsPerDay: int := 86400

  /** A wall-clock time on one day, 00:00:00 .. 23:59:59. */
  type TimeOfDay = s: int | 0 <= s < 86400

  /** A signed duration in seconds. */
  type Duration = int

  function Hours(h: int): Duration { h * SecondsPerHour }
  function Minutes(m: int): Duration { m * SecondsPerMinute }

  /** `delta(start, end)`: both times are combined with the same calendar day
      and subtracted, so the result is the signed same-day difference. */
  function Delta(start: TimeOfDay, end: TimeOfDay): (r: Duration)
    ensures r >= 0 <==> start <= end
    ensures r == 0 <==> start == end
    ensures -SecondsPerDay < r < SecondsPerDay
    ensures start + r == end
  {
    end - start
  }

  lemma DeltaSelf(t: TimeOfDay)
    ensures Delta(t, t) == 0
  {
  }

  lemma DeltaAntisymmetric(a: TimeOfDay, b: TimeOfDay)
    ensures Delta(a, b) == -Delta(b, a)
  {
  }

  lemma DeltaAdditive(a: TimeOfDay, b: TimeOfDay, c: TimeOfDay)
    ensures Delta(a, b) + Delta(b, c) == Delta(a, c)
  {
  }
}
