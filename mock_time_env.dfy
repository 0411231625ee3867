/**
 * MockSystemClock: a test clock whose time, in microseconds since 0, moves
 * only when it is set or when a sleep or a timed wait is mocked.  Time never
 * moves backwards.  The wrapped real clock, the condition variable's mutex,
 * the thread yield and the sync points are not part of this model; the coin
 * TimedWait tosses is a parameter.
 */
module MockTimeEnv {

  const UINT64_MAX: nat := 0xFFFF_FFFF_FFFF_FFFF
  const kMicrosInSecond: nat := 1_000_000

  type UInt64 = x: nat | x <= UINT64_MAX
  type Int32 = x: int | -0x8000_0000 <= x < 0x8000_0000
  type Int64 = x: int | -0x8000_0000_0000_0000 <= x < 0x8000_0000_0000_0000

  /** `static_cast<uint64_t>` of a signed 64-bit count: negative values wrap around. */
  function ToUInt64(x: Int64): (r: UInt64)
    ensures 0 <= x ==> r == x
    ensures x < 0 ==> r == x + UINT64_MAX + 1
  {
    if x < 0 then x + UINT64_MAX + 1 else x
  }

  /** The time TimedWait sleeps: up to the deadline, or nothing when it has passed. */
  function TimedWaitDelay(nowMicros: UInt64, deadlineMicros: UInt64): (delay: UInt64)
    ensures nowMicros + delay == if deadlineMicros > nowMicros then deadlineMicros else nowMicros
  {
    if deadlineMicros > nowMicros then deadlineMicros - nowMicros else 0
  }

  class MockSystemClock {
    var currentTimeUs: UInt64

    constructor ()
      ensures currentTimeUs == 0
    {
      currentTimeUs := 0;
    }

    /** Whole seconds, rounded down. */
    function NowSeconds(): (s: UInt64)
      reads this
      ensures s * kMicrosInSecond <= currentTimeUs < (s + 1) * kMicrosInSecond
    {
      currentTimeUs / kMicrosInSecond
    }

    /** The current time; its whole seconds are what NowSeconds reports. */
    function NowMicros(): (t: UInt64)
      reads this
      ensures t / kMicrosInSecond == NowSeconds()
    {
      currentTimeUs
    }

    /** Requires that the time in nanoseconds fits in 64 bits. */
    function NowNanos(): (ns: UInt64)
      reads this
      requires currentTimeUs <= UINT64_MAX / 1000
      ensures ns / 1000 == currentTimeUs && ns % 1000 == 0
    {
      currentTimeUs * 1000
    }

    /** The time in whole seconds, as a signed 64-bit value; always OK. */
    method GetCurrentTime() returns (ok: bool, timeSec: Int64)
      ensures ok
      ensures timeSec == NowSeconds()
      ensures timeSec * kMicrosInSecond <= currentTimeUs < (timeSec + 1) * kMicrosInSecond
    {
      timeSec := currentTimeUs / kMicrosInSecond;
      ok := true;
    }

    /** Sets the time to a whole number of seconds, never backwards and without overflow. */
    method SetCurrentTime(timeSec: UInt64)
      requires timeSec < UINT64_MAX / kMicrosInSecond
      requires timeSec * kMicrosInSecond >= currentTimeUs
      modifies this
      ensures currentTimeUs == timeSec * kMicrosInSecond
      ensures NowSeconds() == timeSec && old(currentTimeUs) <= currentTimeUs
    {
      currentTimeUs := timeSec * kMicrosInSecond;
    }

    /** A fake sleep: the time advances by exactly `micros`. */
    method SleepForMicroseconds(micros: Int32)
      requires micros >= 0
      requires currentTimeUs + micros <= UINT64_MAX
      modifies this
      ensures currentTimeUs == old(currentTimeUs) + micros
    {
      currentTimeUs := currentTimeUs + micros;
    }

    /** A fake sleep of whole seconds. */
    method MockSleepForSeconds(seconds: Int32)
      requires seconds >= 0
      requires currentTimeUs + seconds * kMicrosInSecond <= UINT64_MAX
      modifies this
      ensures currentTimeUs == old(currentTimeUs) + seconds * kMicrosInSecond
    {
      var micros: UInt64 := seconds * kMicrosInSecond;
      currentTimeUs := currentTimeUs + micros;
    }

    /**
     * A synthetic timed wait: on a mocked timeout the time jumps to the
     * deadline when that lies ahead; otherwise it is unchanged.  Returns
     * whether it timed out.
     */
    method TimedWait(deadline: Int64, mockTimeout: bool) returns (timedOut: bool)
      modifies this
      ensures timedOut == mockTimeout
      ensures !mockTimeout ==> currentTimeUs == old(currentTimeUs)
      ensures mockTimeout ==> currentTimeUs == old(currentTimeUs) + TimedWaitDelay(old(currentTimeUs), ToUInt64(deadline))
      ensures mockTimeout ==> currentTimeUs == if ToUInt64(deadline) > old(currentTimeUs)
                                                then ToUInt64(deadline) else old(currentTimeUs)
    {
      var nowMicros := NowMicros();
      var deadlineMicros := ToUInt64(deadline);
      var delayMicros: UInt64;
      if deadlineMicros > nowMicros {
        delayMicros := deadlineMicros - nowMicros;
      } else {
        delayMicros := 0;
      }
      if mockTimeout {
        currentTimeUs := currentTimeUs + delayMicros;
      }
      timedOut := mockTimeout;
    }
  }
}
