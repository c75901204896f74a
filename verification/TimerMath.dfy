/** When a software timer is due: 32-bit time stamps against true 64-bit microseconds. */
module TimerMath {
  import opened Bytes

  const WRAP := 0x1_0000_0000

  function Sub32(a: word32, b: word32): (r: word32) {
    if a >= b then a as int - b else a as int - b + WRAP
  }

  /** The test of the timer walk: the low halves of the two times, subtracted with wrap-around. */
  predicate Due(time: nat, last: nat, period: word32) {
    Sub32(Low32(time), Low32(last)) >= period
  }

  lemma ElapsedModulo(time: nat, last: nat)
    requires last <= time
    ensures Sub32(Low32(time), Low32(last)) == (time - last) % WRAP
  {
    var a, b := time / WRAP, last / WRAP;
    var x, y := time % WRAP, last % WRAP;
    assert time == WRAP * a + x && last == WRAP * b + y;
    if x >= y {
      Remainder(time - last, a - b, x - y);
    } else {
      Remainder(time - last, a - b - 1, x - y + WRAP);
    }
  }

  lemma Remainder(n: int, q: int, r: int)
    requires n == WRAP * q + r && 0 <= r < WRAP
    ensures n % WRAP == r
  {
  }

  /** A timer whose last event is not in the future never fires early, whatever has wrapped, and it fires as
      soon as it is due if it is looked at before 2^32 microseconds have passed. */
  lemma DueInTrueTime(time: nat, last: nat, period: word32)
    requires last <= time
    ensures Due(time, last, period) ==> time - last >= period
    ensures time - last < WRAP ==> (Due(time, last, period) <==> time - last >= period)
  {
    ElapsedModulo(time, last);
    var n := time - last;
    assert n % WRAP <= n;
  }

  /** A timer restarted after the pass took its time stamp has its last event in the future; it fires at
      once unless its period is within that much of 2^32. */
  lemma RestartedMeanwhile(time: nat, last: nat, period: word32)
    requires time < last < time + WRAP
    ensures Due(time, last, period) <==> period <= WRAP - (last - time)
  {
    ElapsedModulo(last, time);
    Remainder(last - time, 0, last - time);
    assert Low32(last) != Low32(time);
  }
}
