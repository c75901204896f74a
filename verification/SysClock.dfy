/** The microsecond clock. utime reads the down counter and the millisecond total without a lock and starts
    again when the counter's COUNTFLAG says that it wrapped meanwhile; every read is one step, and any number of
    core cycles can pass between two steps. The wrap and its handler are one atomic step. */
module SysClock {
  import opened Bytes

  const CYCLES_PER_US := 144           // SystemCoreClock / 1000000
  const PERIOD := 144000               // SystemCoreClock / 1000

  /** The hardware and the total the handler keeps, after `cycles` core cycles. */
  datatype Hw = Hw(cycles: nat, usAddition: nat, countFlag: bool)

  function Val(h: Hw): (v: nat)
    ensures v < PERIOD
  {
    PERIOD - 1 - h.cycles % PERIOD
  }

  function Tick(h: Hw): (r: Hw) {
    if (h.cycles + 1) % PERIOD == 0 then Hw(h.cycles + 1, h.usAddition + 1000, true) else h.(cycles := h.cycles + 1)
  }

  /** Where utime has got to. A 64-bit load is two 32-bit loads, in either order. `readAt` is the cycle at
      which VAL was read and `startedAt` the one at which the call began. */
  datatype Reader =
    | Idle
    | AtVal(startedAt: nat)
    | AtTotal(startedAt: nat, readAt: nat, ticks: nat, low: Option<nat>, high: Option<nat>)
    | AtFlag(startedAt: nat, readAt: nat, ticks: nat, res: nat)

  datatype Result = Result(startedAt: nat, readAt: nat, endedAt: nat, value: int)

  datatype Sys = Sys(hw: Hw, reader: Reader, results: seq<Result>)

  datatype Step = Cycle | Call | ReadVal | ReadLow | ReadHigh | ReadFlag

  const HALF := 0x1_0000_0000

  function Combine(r: Reader): (s: Reader)
    requires r.AtTotal?
  {
    if r.low.Some? && r.high.Some? then AtFlag(r.startedAt, r.readAt, r.ticks, r.high.value * HALF + r.low.value) else r
  }

  predicate Enabled(s: Sys, step: Step) {
    match step
    case Cycle => true
    case Call => s.reader.Idle?
    case ReadVal => s.reader.AtVal?
    case ReadLow => s.reader.AtTotal? && s.reader.low.None?
    case ReadHigh => s.reader.AtTotal? && s.reader.high.None?
    case ReadFlag => s.reader.AtFlag?
  }

  function Next(s: Sys, step: Step): (r: Sys)
    requires Enabled(s, step)
  {
    match step
    case Cycle => s.(hw := Tick(s.hw))
    case Call => s.(reader := AtVal(s.hw.cycles), hw := s.hw.(countFlag := false))  // the first CTRL read
    case ReadVal => s.(reader := AtTotal(s.reader.startedAt, s.hw.cycles, Val(s.hw), None, None))
    case ReadLow => s.(reader := Combine(s.reader.(low := Some(s.hw.usAddition % HALF))))
    case ReadHigh => s.(reader := Combine(s.reader.(high := Some(s.hw.usAddition / HALF))))
    case ReadFlag =>
      var r := s.reader;
      var cleared := s.hw.(countFlag := false);
      if s.hw.countFlag then
        Sys(cleared, AtVal(r.startedAt), s.results)
      else
        Sys(cleared, Idle,
            s.results + [Result(r.startedAt, r.readAt, s.hw.cycles, r.res + (1000 - r.ticks / CYCLES_PER_US))])
  }

  const START := Sys(Hw(0, 0, false), Idle, [])

  /** The time at a cycle: whole microseconds elapsed, plus one. */
  function TimeAt(cycle: nat): (us: nat) {
    cycle / CYCLES_PER_US + 1
  }

  // ---------- Invariant ----------

  predicate Counting(h: Hw) {
    h.usAddition == 1000 * (h.cycles / PERIOD)
  }

  /** No wrap since `cycle`. */
  predicate SamePeriod(h: Hw, cycle: nat) {
    cycle <= h.cycles && cycle / PERIOD == h.cycles / PERIOD
  }

  /** What a reader knows: as long as the flag is clear, no wrap has happened since VAL was read. */
  predicate Consistent(h: Hw, r: Reader) {
    match r
    case Idle => true
    case AtVal(start) => start <= h.cycles
    case AtTotal(start, at, ticks, low, high) =>
      && start <= at <= h.cycles && ticks == PERIOD - 1 - at % PERIOD
      && (!h.countFlag ==>
          && SamePeriod(h, at)
          && (low.Some? ==> low.value == h.usAddition % HALF)
          && (high.Some? ==> high.value == h.usAddition / HALF))
    case AtFlag(start, at, ticks, res) =>
      && start <= at <= h.cycles && ticks == PERIOD - 1 - at % PERIOD
      && (!h.countFlag ==> SamePeriod(h, at) && res == h.usAddition)
  }

  predicate Right(r: Result) {
    r.startedAt <= r.readAt <= r.endedAt && r.value == TimeAt(r.readAt)
  }

  predicate InOrder(rs: seq<Result>) {
    forall i, j | 0 <= i < j < |rs| :: rs[i].endedAt <= rs[j].startedAt
  }

  predicate Inv(s: Sys) {
    && Counting(s.hw)
    && Consistent(s.hw, s.reader)
    && (forall r | r in s.results :: Right(r) && r.endedAt <= s.hw.cycles)
    && InOrder(s.results)
    && (!s.reader.Idle? ==> forall r | r in s.results :: r.endedAt <= s.reader.startedAt)
  }

  lemma TickCounts(h: Hw)
    requires Counting(h)
    ensures Counting(Tick(h))
    ensures (h.cycles + 1) / PERIOD == h.cycles / PERIOD + if (h.cycles + 1) % PERIOD == 0 then 1 else 0
  {
    var q, r := h.cycles / PERIOD, h.cycles % PERIOD;
    assert h.cycles == PERIOD * q + r;
    if r + 1 == PERIOD {
      assert h.cycles + 1 == PERIOD * (q + 1);
      assert (h.cycles + 1) / PERIOD == q + 1 && (h.cycles + 1) % PERIOD == 0;
    } else {
      assert h.cycles + 1 == PERIOD * q + (r + 1);
      assert (h.cycles + 1) / PERIOD == q && (h.cycles + 1) % PERIOD == r + 1;
    }
  }

  lemma TickKeepsInv(s: Sys)
    requires Inv(s)
    ensures Inv(Next(s, Cycle))
  {
    TickCounts(s.hw);
  }

  /** The formula is exact: counting down from 143999, rounding each part, gives elapsed / 144 + 1. */
  lemma ReadingIsExact(cycle: nat)
    ensures 1000 * (cycle / PERIOD) + (1000 - (PERIOD - 1 - cycle % PERIOD) / CYCLES_PER_US) == TimeAt(cycle)
  {
    var p, r := cycle / PERIOD, cycle % PERIOD;
    var q, t := r / CYCLES_PER_US, r % CYCLES_PER_US;
    assert cycle == PERIOD * p + r && r == CYCLES_PER_US * q + t;
    assert PERIOD - 1 - r == CYCLES_PER_US * (999 - q) + (CYCLES_PER_US - 1 - t);
    Quotient(PERIOD - 1 - r, 999 - q, CYCLES_PER_US - 1 - t);
    Quotient(cycle, 1000 * p + q, t);
  }

  lemma Quotient(n: int, q: int, r: int)
    requires n == CYCLES_PER_US * q + r && 0 <= r < CYCLES_PER_US
    ensures n / CYCLES_PER_US == q
  {
  }

  lemma ReadKeepsInv(s: Sys, step: Step)
    requires Inv(s) && Enabled(s, step) && !step.Cycle?
    ensures Inv(Next(s, step))
  {
    match step
    case ReadFlag =>
      var r := s.reader;
      if !s.hw.countFlag {
        ReadingIsExact(r.readAt);
        var value := r.res + (1000 - r.ticks / CYCLES_PER_US);
        assert value == TimeAt(r.readAt);
      }
    case ReadLow => Halves(s.hw.usAddition);
    case ReadHigh => Halves(s.hw.usAddition);
    case _ =>
  }

  lemma Halves(n: nat)
    ensures n / HALF * HALF + n % HALF == n
  {
  }

  predicate IsRun(s: Sys, steps: seq<Step>, t: Sys)
    decreases steps
  {
    if steps == [] then t == s else Enabled(s, steps[0]) && IsRun(Next(s, steps[0]), steps[1..], t)
  }

  lemma {:induction false} RunKeepsInv(s: Sys, steps: seq<Step>, t: Sys)
    requires Inv(s) && IsRun(s, steps, t)
    ensures Inv(t)
    decreases steps
  {
    if steps != [] {
      if steps[0].Cycle? {
        TickKeepsInv(s);
      } else {
        ReadKeepsInv(s, steps[0]);
      }
      RunKeepsInv(Next(s, steps[0]), steps[1..], t);
    }
  }

  /** Linearizability: in every interleaving of the reader with the counter and its interrupt, every value
      utime returns is the time at an instant inside the call, and later calls never return less. */
  lemma ClockIsLinearizable(steps: seq<Step>, t: Sys)
    requires IsRun(START, steps, t)
    ensures forall r | r in t.results :: r.startedAt <= r.readAt <= r.endedAt && r.value == TimeAt(r.readAt)
    ensures forall i, j | 0 <= i < j < |t.results| :: t.results[i].value <= t.results[j].value
  {
    RunKeepsInv(START, steps, t);
    forall i, j | 0 <= i < j < |t.results|
      ensures t.results[i].value <= t.results[j].value
    {
      assert t.results[i] in t.results && t.results[j] in t.results;
      TimeIsMonotone(t.results[i].readAt, t.results[j].readAt);
    }
  }

  lemma TimeIsMonotone(a: nat, b: nat)
    requires a <= b
    ensures TimeAt(a) <= TimeAt(b)
  {
  }

  /** A call that is not overtaken by a wrap finishes on its first attempt, whichever half of the total it reads
      first. */
  lemma QuietCallReturns(s: Sys, ticks: seq<nat>, first: Step, second: Step)
    requires Inv(s) && s.reader.Idle? && |ticks| == 4
    requires (first == ReadLow && second == ReadHigh) || (first == ReadHigh && second == ReadLow)
    requires s.hw.cycles % PERIOD + ticks[0] + ticks[1] + ticks[2] + ticks[3] < PERIOD
    ensures var a := Next(s, Call);
            var b := Next(Wait(a, ticks[0]), ReadVal);
            var c := Next(Wait(b, ticks[1]), first);
            var d := Next(Wait(c, ticks[2]), second);
            var e := Next(Wait(d, ticks[3]), ReadFlag);
            e.reader.Idle? && |e.results| == |s.results| + 1
  {
    var a := Next(s, Call);
    WaitIsQuiet(a, ticks[0]);
    var b := Next(Wait(a, ticks[0]), ReadVal);
    WaitIsQuiet(b, ticks[1]);
    var c := Next(Wait(b, ticks[1]), first);
    WaitIsQuiet(c, ticks[2]);
    var d := Next(Wait(c, ticks[2]), second);
    WaitIsQuiet(d, ticks[3]);
  }

  function Wait(s: Sys, n: nat): (r: Sys)
    ensures r.reader == s.reader && r.results == s.results
    decreases n
  {
    if n == 0 then s else Wait(Next(s, Cycle), n - 1)
  }

  lemma {:induction false} WaitIsQuiet(s: Sys, n: nat)
    requires s.hw.cycles % PERIOD + n < PERIOD
    ensures Wait(s, n).hw == s.hw.(cycles := s.hw.cycles + n)
    ensures (s.hw.cycles + n) % PERIOD == s.hw.cycles % PERIOD + n
    decreases n
  {
    if n > 0 {
      var q, r := s.hw.cycles / PERIOD, s.hw.cycles % PERIOD;
      assert s.hw.cycles + 1 == PERIOD * q + (r + 1);
      assert (s.hw.cycles + 1) % PERIOD == r + 1;
      WaitIsQuiet(Next(s, Cycle), n - 1);
    }
  }
}
