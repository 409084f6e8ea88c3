/** ConstantDelaySchedule, the schedule of an `@every` entry. Durations and instants are in nanoseconds. */
module CronDelay {
  const SECOND := 1_000_000_000

  /** Every: the Delay of the schedule. */
  function Every(duration: int): (delay: int)
    ensures delay >= 1_000_000_000 && delay % 1_000_000_000 == 0
    ensures duration >= 1_000_000_000 ==> delay <= duration < delay + 1_000_000_000
    ensures duration < 1_000_000_000 ==> delay == 1_000_000_000
  {
    var d := if duration < SECOND then SECOND else duration;
    d - d % SECOND
  }

  /** ConstantDelaySchedule.Next; the instant's Nanosecond() is its remainder modulo a second. */
  function Next(delay: int, t: int): int {
    t + delay - t % SECOND
  }

  /** The next activation is on the second, later than t, and the whole delay after the second t lies in. */
  lemma NextIsOnTheSecond(duration: int, t: int)
    ensures var n := Next(Every(duration), t);
            n % SECOND == 0 && t < n <= t + Every(duration) && n / SECOND == t / SECOND + Every(duration) / SECOND
  {
    var k, s := Every(duration) / SECOND, t / SECOND;
    assert Every(duration) == k * SECOND;
    assert t - t % SECOND == s * SECOND;
    assert Next(Every(duration), t) == (k + s) * SECOND;
  }
}
