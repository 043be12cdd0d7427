/** The relationship timer: the number of whole days, hours, minutes and
    seconds since a fixed start instant. Instants are integer milliseconds
    (what subtracting two JavaScript `Date` objects yields). */
module ElapsedTime {
  import JsMath

  const MsPerSecond := 1000
  const MsPerMinute := 1000 * 60
  const MsPerHour := 1000 * 60 * 60
  const MsPerDay := 1000 * 60 * 60 * 24

  /** What `calculateTime` returns and the timer shows in its four fields. */
  datatype Breakdown = Breakdown(days: int, hours: int, minutes: int, seconds: int)

  /** Hours, minutes and seconds each below the next larger unit. */
  predicate Normalized(b: Breakdown) {
    0 <= b.days && 0 <= b.hours < 24 && 0 <= b.minutes < 60 && 0 <= b.seconds < 60
  }

  /** The whole number of seconds a breakdown stands for. */
  function TotalSeconds(b: Breakdown): int {
    b.days * 86400 + b.hours * 3600 + b.minutes * 60 + b.seconds
  }

  /** `calculateTime` as the browser evaluates it, in exact arithmetic:
      real division, JavaScript's truncating `%`, then `Math.floor`. Defined
      for every `diff`, including the negative one of a start in the future. */
  function CalculateTimeJs(diff: int): Breakdown {
    var d := diff as real;
    Breakdown(
      (d / MsPerDay as real).Floor,
      JsMath.RealRem(d / MsPerHour as real, 24.0).Floor,
      JsMath.RealRem(d / 1000.0 / 60.0, 60.0).Floor,
      JsMath.RealRem(d / 1000.0, 60.0).Floor)
  }

  /** The same breakdown in integer arithmetic, for a start that is not in the future. */
  function CalculateTime(now: int, start: int): (b: Breakdown)
    requires start <= now
    ensures Normalized(b)
    ensures TotalSeconds(b) == (now - start) / MsPerSecond
  {
    var diff := now - start;
    var b := Breakdown(diff / MsPerDay, diff / MsPerHour % 24,
                       diff / MsPerMinute % 60, diff / MsPerSecond % 60);
    Reassemble(diff);
    b
  }

  /** Each unit's count is the remainder left by the next larger unit, so the
      four counts add back up to the whole seconds elapsed. */
  lemma Reassemble(diff: int)
    requires 0 <= diff
    ensures diff / MsPerDay * 86400 + diff / MsPerHour % 24 * 3600
            + diff / MsPerMinute % 60 * 60 + diff / MsPerSecond % 60
            == diff / MsPerSecond
  {
    var s := diff / 1000;
    JsMath.NestedDivision(diff, 1000, 60);
    JsMath.NestedDivision(diff, 1000, 3600);
    JsMath.NestedDivision(diff, 1000, 86400);
    JsMath.NestedDivision(s, 60, 60);
    JsMath.NestedDivision(s, 3600, 24);
    assert diff / MsPerMinute == s / 60;
    assert diff / MsPerHour == s / 3600 == s / 60 / 60;
    assert diff / MsPerDay == s / 86400 == s / 3600 / 24;
  }

  /** The browser's floating-point formula agrees with the integer one
      whenever the start is not in the future. */
  lemma {:induction false} JsAgreesWithInteger(now: int, start: int)
    requires start <= now
    ensures CalculateTimeJs(now - start) == CalculateTime(now, start)
  {
    var diff := now - start;
    var d := diff as real;
    var js := CalculateTimeJs(diff);
    assert js.days == diff / MsPerDay by {
      JsMath.FloorOfQuotient(diff, MsPerDay);
    }
    assert js.hours == diff / MsPerHour % 24 by {
      JsMath.FloorOfRemainder(diff, MsPerHour, 24);
    }
    assert js.minutes == diff / MsPerMinute % 60 by {
      DivideTwice(d);
      JsMath.FloorOfRemainder(diff, MsPerMinute, 60);
    }
    assert js.seconds == diff / MsPerSecond % 60 by {
      JsMath.FloorOfRemainder(diff, MsPerSecond, 60);
    }
  }

  lemma DivideTwice(d: real)
    ensures d / 1000.0 / 60.0 == d / MsPerMinute as real
  {
  }

  /** A normalized breakdown is the only one that adds up to the elapsed
      seconds: counting back from its total, plus any sub-second remainder,
      gives it back. */
  lemma {:induction false} BreakdownRoundTrip(b: Breakdown, ms: int, start: int)
    requires Normalized(b) && 0 <= ms < 1000
    ensures CalculateTime(start + TotalSeconds(b) * 1000 + ms, start) == b
  {
    var diff := TotalSeconds(b) * 1000 + ms;
    JsMath.DivisionUnique(diff, 1000, TotalSeconds(b), ms);
    var s := TotalSeconds(b);
    JsMath.DivisionUnique(s, 60, b.days * 1440 + b.hours * 60 + b.minutes, b.seconds);
    JsMath.DivisionUnique(s / 60, 60, b.days * 24 + b.hours, b.minutes);
    JsMath.DivisionUnique(s / 3600, 24, b.days, b.hours);
    JsMath.NestedDivision(s, 60, 60);
    JsMath.NestedDivision(s, 3600, 24);
    JsMath.NestedDivision(diff, 1000, 60);
    JsMath.NestedDivision(diff, 1000, 3600);
    JsMath.NestedDivision(diff, 1000, 86400);
  }

  /** The start date is 2023-12-10T00:00:00; at 2023-12-11T01:02:03 the
      timer reads one day, one hour, two minutes and three seconds. */
  lemma ExampleOneDayLater(start: int)
    ensures CalculateTime(start + 90123000, start) == Breakdown(1, 1, 2, 3)
  {
  }

  /** A start in the future is not clamped: the day count goes negative. */
  lemma FutureStartGivesNegativeDays(now: int, start: int)
    requires now < start
    ensures CalculateTimeJs(now - start).days < 0
  {
    JsMath.FloorOfQuotient(now - start, MsPerDay);
  }

  /** With a start in the future every field is at most zero: the day count is
      negative and the others lie between minus one larger unit and zero
      (`Math.floor` of JavaScript's remainder, which keeps the sign). */
  lemma FutureStartFieldBounds(diff: int)
    requires diff < 0
    ensures CalculateTimeJs(diff).days < 0
    ensures -24 <= CalculateTimeJs(diff).hours <= 0
    ensures -60 <= CalculateTimeJs(diff).minutes <= 0
    ensures -60 <= CalculateTimeJs(diff).seconds <= 0
  {
    var d := diff as real;
    JsMath.FloorOfQuotient(diff, MsPerDay);
    JsMath.RemainderOfNegative(d / MsPerHour as real, 24.0);
    JsMath.RemainderOfNegative(d / 1000.0 / 60.0, 60.0);
    JsMath.RemainderOfNegative(d / 1000.0, 60.0);
  }

  /** Half an hour short of a day before the start, the fields read
      -1 days, -24 hours, -30 minutes and 0 seconds. */
  lemma ExampleBeforeStart()
    ensures CalculateTimeJs(-84600000) == Breakdown(-1, -24, -30, 0)
  {
  }
}
