/** `DateTime` instants as .NET counts them: ticks of 100 ns since 0001-01-01,
    and the conversion to Unix seconds of `DateTimeOffset.ToUnixTimeSeconds`. */
module Clock {

  type Ticks = nat

  const TicksPerSecond: nat := 10_000_000
  const TicksPerMinute: nat := 600_000_000
  /** Seconds from 0001-01-01 to 1970-01-01. */
  const UnixEpochSeconds: int := 62_135_596_800
  /** The ticks of `DateTime.MaxValue`. */
  const MaxTicks: nat := 3_155_378_975_999_999_999

  function AddMinutes(t: Ticks, minutes: nat): Ticks {
    t + minutes * TicksPerMinute
  }

  /** Whole seconds since the Unix epoch; the sub-second part is dropped. */
  function ToUnixTimeSeconds(t: Ticks): int {
    t / TicksPerSecond - UnixEpochSeconds
  }

  lemma {:induction false} UnixSecondsAfterMinutes(t: Ticks, minutes: nat)
    ensures ToUnixTimeSeconds(AddMinutes(t, minutes)) == ToUnixTimeSeconds(t) + 60 * minutes
  {
    var q := t / TicksPerSecond;
    var r := t % TicksPerSecond;
    assert t == q * TicksPerSecond + r;
    assert AddMinutes(t, minutes) == (q + 60 * minutes) * TicksPerSecond + r;
  }

  /** The Unix seconds of any `DateTime` lie in the range of a 64-bit signed integer. */
  lemma UnixSecondsBounds(t: Ticks)
    requires t <= MaxTicks
    ensures -UnixEpochSeconds <= ToUnixTimeSeconds(t) <= 253_402_300_799
  {
  }
}
