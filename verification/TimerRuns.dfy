/** Passes over the timer list, seen from one timer: what a pass does to it, and when it fires over many passes. */
module TimerRuns {
  import opened Bytes
  import opened Lists
  import opened TimerMath
  import opened TimerWalk
  import opened SoftTimers

  predicate FiredIn(log: seq<Visited>, x: Timer) {
    log != [] && (FiredIn(log[..|log| - 1], x) || (log[|log| - 1].timer == x && log[|log| - 1].fired))
  }

  /** When the callback of `x` returned, if it ran. */
  function ReturnedIn(log: seq<Visited>, x: Timer): (n: nat) {
    if log == [] then 0
    else if log[|log| - 1].timer == x && log[|log| - 1].fired then log[|log| - 1].returned
    else ReturnedIn(log[..|log| - 1], x)
  }

  /** Callbacks of other timers leave `x` alone, and no callback unlinks a timer other than its own. */
  predicate Spares(script: Script, x: Timer) {
    forall k, t | 0 <= k < |script| && t in script[k] ::
      forall c | c in script[k][t] :: (t != x ==> c.t != x) && (c.Free? ==> c.t == t)
  }

  /** The callback of `x` does not unlink, reset or stop it. It may restart it. */
  predicate Keeps(script: Script, x: Timer) {
    forall k | 0 <= k < |script| && x in script[k] :: KeepsIn(script[k][x], x)
  }

  predicate KeepsIn(cs: seq<Call<Timer>>, x: Timer) {
    forall c | c in cs && c.t == x :: c.Add? || c.Run?
  }

  lemma SparedCalls(script: Script, k: nat, t: Timer, x: Timer)
    requires Spares(script, x)
    ensures OwnFrees(t, CallsOf(script, k, t))
    ensures t != x ==> forall c | c in CallsOf(script, k, t) :: c.t != x
    ensures t == x && Keeps(script, x) ==> KeepsIn(CallsOf(script, k, t), x)
  {
  }

  // ---------- One pass ----------

  /** The visits so far are those of the walk. */
  predicate Walked(p: Pass) {
    Go(Begin(p.start), Calls(p.log)).visited == Timers(p.log)
  }

  /** Each visit is of the timer that the walk had reached. */
  lemma Reached(p: Pass)
    requires p.log != [] && Walked(p)
    ensures Go(Begin(p.start), Calls(Earlier(p).log)).at == Some(Last(p).timer) && Walked(Earlier(p))
    ensures Calls(p.log)[..|p.log| - 1] == Calls(Earlier(p).log)
  {
    var n := |p.log| - 1;
    var css := Calls(p.log);
    assert css[..n] == Calls(Earlier(p).log);
    var w := Go(Begin(p.start), css[..n]);
    assert Go(Begin(p.start), css) == Visit(w, css[n]);
    TimersCount(p.log);
    TimersCount(Earlier(p).log);
    VisitsCount(Begin(p.start), css[..n]);
    assert w.at.Some?;
    assert (w.visited + [w.at.value])[..|w.visited|] == w.visited;
    assert Timers(p.log)[..n] == Timers(Earlier(p).log);
  }

  lemma {:induction false} TimersCount(log: seq<Visited>)
    ensures |Timers(log)| == |log|
  {
    if log != [] {
      TimersCount(log[..|log| - 1]);
    }
  }

  lemma {:induction false} LogFreesOwn(p: Pass, script: Script, x: Timer)
    requires Walked(p) && AllTold(p, script) && Spares(script, x)
    ensures OwnFreesOnly(Begin(p.start), Calls(p.log))
    decreases |p.log|
  {
    if p.log != [] {
      Reached(p);
      LogFreesOwn(Earlier(p), script, x);
      SparedCalls(script, Firings(Earlier(p).log), Last(p).timer, x);
    }
  }

  lemma {:induction false} NotTouched(p: Pass, script: Script, x: Timer)
    requires AllTold(p, script) && Spares(script, x) && x !in Timers(p.log)
    ensures LastTouch(p.log, x) == None && !FiredIn(p.log, x)
    decreases |p.log|
  {
    if p.log != [] {
      assert x !in Timers(Earlier(p).log) && Last(p).timer != x;
      SparedCalls(script, Firings(Earlier(p).log), Last(p).timer, x);
      NotTouched(Earlier(p), script, x);
    }
  }

  /** `r` is what the own callback of a timer can leave of the setting `e`, when it keeps the timer and returned at
      `returned`. */
  predicate Refired(e: Expected, r: Expected, returned: nat) {
    r.active && r.period == e.period && r.stamp.Exactly? && returned <= r.stamp.last
  }

  lemma {:induction false} EffectKeeps(e: Expected, cs: seq<Call<Timer>>, x: Timer, timers: seq<Timer>, from: nat)
    requires KeepsIn(cs, x) && e.active
    ensures var r := EffectAll(e, cs, x, timers, from); r.active && r.period == e.period
    decreases cs
  {
    if cs != [] {
      EffectKeeps(Effect(e, cs[0], x, timers, from), cs[1..], x, After(timers, cs[0]), from);
    }
  }

  /** In a pass that visits `x` once and whose callbacks spare it, `x` fires exactly when it was active and due with the
      setting it had at the start. Unless it fires it is left alone; if it fires and its callback keeps it, it stays
      active, with its period and the stamp of the firing. */
  lemma {:induction false} OneVisit(p: Pass, script: Script, x: Timer)
    requires AllTold(p, script) && Spares(script, x)
    requires Distinct(Timers(p.log)) && x in Timers(p.log) && x in p.was
    ensures FiredIn(p.log, x) <==> p.was[x].active && Due(p.time, p.was[x].last, p.was[x].period)
    ensures !FiredIn(p.log, x) ==> LastTouch(p.log, x) == None
    ensures FiredIn(p.log, x) ==>
              && p.time <= ReturnedIn(p.log, x)
              && Expect(p, x).stamp.Exactly? && ReturnedIn(p.log, x) <= Expect(p, x).stamp.last
    ensures FiredIn(p.log, x) && Keeps(script, x) ==> Refired(Start(p.was[x]), Expect(p, x), ReturnedIn(p.log, x))
    decreases |p.log|
  {
    var q, v := Earlier(p), Last(p);
    DistinctParts(Timers(q.log), [v.timer]);
    SparedCalls(script, Firings(q.log), v.timer, x);
    if v.timer == x {
      assert x in [v.timer];
      NotTouched(q, script, x);
      Untouched(q, x);
      if v.fired && Keeps(script, x) {
        EffectKeeps(Expect(q, x), v.calls, x, ListOf(q), p.time);
      }
    } else {
      OneVisit(q, script, x);
      if v.fired {
        EffectNone(Expect(q, x), v.calls, x, ListOf(q), p.time);
      }
    }
  }

  /** No call of the pass unlinks `x`, if it does not fire or its callback keeps it. */
  lemma {:induction false} NoFree(p: Pass, script: Script, x: Timer)
    requires AllTold(p, script) && Spares(script, x) && (FiredIn(p.log, x) ==> Keeps(script, x))
    ensures forall cs | cs in Calls(p.log) :: Free(x) !in cs
    decreases |p.log|
  {
    if p.log != [] {
      NoFree(Earlier(p), script, x);
      SparedCalls(script, Firings(Earlier(p).log), Last(p).timer, x);
    }
  }

  /** One pass, seen from a timer that its callbacks spare. */
  method OnePass(l: TimerList, script: Script, x: Timer) returns (ghost p: Pass)
    requires l.Valid() && x in l.pool && Within(script, l.pool) && Spares(script, x)
    modifies l`head, l`timers, l`now, l.pool
    ensures l.Valid() && old(l.now) <= p.time <= l.now
    ensures Timers(p.log) == old(l.timers) && Distinct(Timers(p.log))
    ensures x in old(l.timers) ==>
              (FiredIn(p.log, x) <==> Active(old(x.flags)) && Due(p.time, old(x.lastEvent), old(x.period)))
    ensures x in old(l.timers) && !FiredIn(p.log, x) ==> x in l.timers && SettingOf(x) == old(SettingOf(x))
    ensures x in old(l.timers) && FiredIn(p.log, x) ==> p.time <= ReturnedIn(p.log, x) <= x.lastEvent <= l.now
    ensures x in old(l.timers) && FiredIn(p.log, x) && Keeps(script, x) ==>
              x in l.timers && Active(x.flags) && x.period == old(x.period)
  {
    l.TimersDistinct();
    p := l.Stmr(script);
    LogFreesOwn(p, script, x);
    OwnFreesVisitAll(p.start, Calls(p.log));
    assert l.Known(p, x);
    if x in p.start {
      OneVisit(p, script, x);
      if !FiredIn(p.log, x) {
        Untouched(p, x);
      }
      if !FiredIn(p.log, x) || Keeps(script, x) {
        NoFree(p, script, x);
        WalkKeeps(Begin(p.start), Calls(p.log), x);
      }
    }
  }

  // ---------- A pass in which a callback restarts another timer ----------

  /** The first callback restarts the timer behind its own. That timer's visit finds it active, with its period and a
      stamp no older than the pass; and if the clock has moved on meanwhile, by less than 2^32 and by no more than that
      leaves for the period, it fires at once, however long its period. */
  method RestartedFires(l: TimerList, a: Timer, b: Timer) returns (ghost p: Pass)
    requires l.Valid() && |l.timers| > 1 && a == l.timers[0] && b == l.timers[1]
    modifies l`head, l`timers, l`now, l.pool
    ensures l.Valid() && |p.log| > 1 && p.log[0].timer == a && p.log[1].timer == b
    ensures p.log[0].fired ==>
              var v := p.log[1];
              && v.saw.active && v.saw.period == old(b.period) && p.time <= v.saw.last
              && (p.time < v.saw.last <= p.time + WRAP - v.saw.period && v.saw.last < p.time + WRAP ==> v.fired)
  {
    l.PairsDiffer();
    var script: Script := [map[a := [Run(b)]]];
    p := l.Stmr(script);
    RunsOnly(p, script);
    OwnFreesVisitAll(p.start, Calls(p.log));
    TimersCount(p.log);
    Restart(p, script, a, b);
  }

  lemma {:induction false} RunsOnly(p: Pass, script: Script)
    requires Walked(p) && AllTold(p, script)
    requires forall k, t | 0 <= k < |script| && t in script[k] :: forall c | c in script[k][t] :: c.Run?
    ensures OwnFreesOnly(Begin(p.start), Calls(p.log))
    decreases |p.log|
  {
    if p.log != [] {
      Reached(p);
      RunsOnly(Earlier(p), script);
      assert forall c | c in Last(p).calls :: c.Run?;
    }
  }

  /** The k-th visit, told by those before it. */
  lemma {:induction false} VisitAt(p: Pass, script: Script, k: nat)
    requires AllTold(p, script) && k < |p.log|
    ensures var q := p.(log := p.log[..k]); AllTold(q, script) && Told(q, p.log[k], script)
    decreases |p.log|
  {
    if k < |p.log| - 1 {
      VisitAt(Earlier(p), script, k);
      assert Earlier(p).log[..k] == p.log[..k] && Earlier(p).log[k] == p.log[k];
    } else {
      assert p.(log := p.log[..k]) == Earlier(p);
    }
  }

  lemma {:induction false} TimerAt(log: seq<Visited>, k: nat)
    requires k < |log|
    ensures |Timers(log)| == |log| && Timers(log)[k] == log[k].timer
  {
    TimersCount(log);
    var front := log[..|log| - 1];
    TimersCount(front);
    if k < |front| {
      TimerAt(front, k);
    }
  }

  lemma Restart(p: Pass, script: Script, a: Timer, b: Timer)
    requires script == [map[a := [Run(b)]]] && AllTold(p, script) && a != b && |p.log| > 1
    requires Timers(p.log) == p.start && |p.start| == |p.log| && p.start[0] == a && p.start[1] == b
    ensures p.log[0].timer == a && p.log[1].timer == b
    ensures p.log[0].fired ==>
              var v := p.log[1];
              && b in p.was && v.saw.active && v.saw.period == p.was[b].period && p.time <= v.saw.last
              && (p.time < v.saw.last <= p.time + WRAP - v.saw.period && v.saw.last < p.time + WRAP ==> v.fired)
  {
    VisitAt(p, script, 0);
    VisitAt(p, script, 1);
    TimerAt(p.log, 0);
    TimerAt(p.log, 1);
    var q0, q1 := p.(log := p.log[..0]), p.(log := p.log[..1]);
    assert q0.log == [] && q1 == More(q0, p.log[0]);
    if p.log[0].fired {
      assert p.log[0].calls == [Run(b)];
      AfterRun(q0, p.log[0], b);
      FiresEarly(q1, p.log[1], script);
    }
  }

  lemma AfterRun(p: Pass, v: Visited, b: Timer)
    requires p.log == [] && v.fired && v.timer != b && v.calls == [Run(b)] && b in p.was
    ensures Expect(More(p, v), b) == Expected(true, p.was[b].period, Since(p.time))
  {
    LogMore(p, v);
    var e := Start(p.was[b]);
    var cs, timers := v.calls, ListOf(p);
    assert cs[0] == Run(b) && cs[1..] == [];
    assert EffectAll(e, cs, b, timers, p.time)
        == EffectAll(Effect(e, cs[0], b, timers, p.time), cs[1..], b, After(timers, cs[0]), p.time);
  }

  lemma FiresEarly(q: Pass, v: Visited, script: Script)
    requires Told(q, v, script) && v.saw.active
    ensures q.time < v.saw.last <= q.time + WRAP - v.saw.period && v.saw.last < q.time + WRAP ==> v.fired
  {
    if v.saw.last < q.time + WRAP {
      EarlyExactly(q, v, script);
    }
  }

  // ---------- A pass whose callbacks unlink other timers ----------

  predicate PlainScript(script: Script) {
    forall k, t | 0 <= k < |script| && t in script[k] :: PlainCalls(script[k][t])
  }

  lemma {:induction false} PlainLog(p: Pass, script: Script)
    requires AllTold(p, script) && PlainScript(script)
    ensures forall cs | cs in Calls(p.log) :: PlainCalls(cs)
    decreases |p.log|
  {
    if p.log != [] {
      PlainLog(Earlier(p), script);
      assert PlainCalls(CallsOf(script, Firings(Earlier(p).log), Last(p).timer));
    }
  }

  /** A pass whose callbacks make free, stop and run calls. It visits every timer that is still linked at its end if and
      only if, each time a callback unlinked the timer saved as the next, all that stood behind it was unlinked later in
      the pass. A timer so unlinked is visited all the same, and fires like any other if it is active and due. */
  method PlainPass(l: TimerList, script: Script) returns (ghost p: Pass, ghost made: seq<Made<Timer>>)
    requires l.Valid() && Within(script, l.pool) && PlainScript(script)
    modifies l`head, l`timers, l`now, l.pool
    ensures l.Valid() && p.start == old(l.timers) && AllTold(p, script)
    ensures made == Go(Begin(old(l.timers)), Calls(p.log)).made
    ensures Timers(p.log) == Minus(old(l.timers), Skipped(made))
    ensures (forall t | t in old(l.timers) && t in l.timers :: t in Timers(p.log))
       <==> (forall j, t | 0 <= j < |made| && t in Behind(made[j]) :: !LeftBehind(made, j, t))
    ensures forall m | m in made && Cuts(m) :: m.call.t in Timers(p.log)
  {
    l.TimersDistinct();
    p := l.Stmr(script);
    made := Go(Begin(p.start), Calls(p.log)).made;
    PlainLog(p, script);
    PlainWalk(Begin(p.start), Calls(p.log));
    VisitsInOrder(p.start, Calls(p.log));
    MissedExactly(p.start, Calls(p.log));
    CompleteExactly(p.start, Calls(p.log));
  }

  /** Any pass: what it visits is the visits until its walk last started over, which it does when a callback links
      the saved timer again, and from then on the timers linked at that moment, in order, without those taken away
      since. */
  method AnyPass(l: TimerList, script: Script) returns (ghost p: Pass, ghost g: Segment<Timer>)
    requires l.Valid() && Within(script, l.pool)
    modifies l`head, l`timers, l`now, l.pool
    ensures l.Valid() && p.start == old(l.timers) && AllTold(p, script)
    ensures g == SegmentOf(p.start, Go(Begin(p.start), Calls(p.log)).made)
    ensures Timers(p.log) == g.done + Minus(g.list, Skipped(g.made)) && Distinct(g.list)
  {
    l.TimersDistinct();
    p := l.Stmr(script);
    VisitsExactly(p.start, Calls(p.log));
    g := SegmentOf(p.start, Go(Begin(p.start), Calls(p.log)).made);
  }

  // ---------- Many passes, up to the first firing ----------

  predicate Quiet(ps: seq<Pass>, n: nat, x: Timer) {
    forall i | 0 <= i < n && i < |ps| :: !FiredIn(ps[i].log, x)
  }

  lemma QuietMore(ps: seq<Pass>, p: Pass, x: Timer)
    ensures forall i | 0 <= i <= |ps| :: Quiet(ps + [p], i, x) <==> Quiet(ps, i, x)
    ensures Quiet(ps + [p], |ps| + 1, x) <==> Quiet(ps, |ps|, x) && !FiredIn(p.log, x)
  {
    var more := ps + [p];
    assert more[|ps|] == p && forall j | 0 <= j < |ps| :: more[j] == ps[j];
  }

  predicate OnceIn(log: seq<Visited>, x: Timer) {
    Distinct(Timers(log)) && x in Timers(log)
  }

  /** Until `x` first fires, every pass visits it exactly once, and the visit fires exactly when `x` is due by the
      wrapped test. */
  predicate Follows(ps: seq<Pass>, x: Timer, last: nat, period: word32) {
    forall k | 0 <= k < |ps| && Quiet(ps, k, x) :: AsDue(ps[k], x, last, period)
  }

  predicate AsDue(p: Pass, x: Timer, last: nat, period: word32) {
    OnceIn(p.log, x) && (FiredIn(p.log, x) <==> Due(p.time, last, period))
  }

  lemma FollowsMore(ps: seq<Pass>, p: Pass, x: Timer, last: nat, period: word32)
    requires Follows(ps, x, last, period) && (Quiet(ps, |ps|, x) ==> AsDue(p, x, last, period))
    ensures Follows(ps + [p], x, last, period)
  {
    QuietMore(ps, p, x);
    var more := ps + [p];
    forall k | 0 <= k < |more| && Quiet(more, k, x) ensures AsDue(more[k], x, last, period) {
      assert more[k] == if k < |ps| then ps[k] else p;
    }
  }

  /** A run of passes; before each of them the main program calls timer functions too. None of these calls and no
      callback but its own concerns `x`. The passes follow the event and the period that `x` had at the start. */
  method RunPasses(l: TimerList, scripts: seq<Script>, between: seq<seq<Call<Timer>>>, x: Timer)
    returns (ghost ps: seq<Pass>)
    requires l.Valid() && x in l.timers && Active(x.flags) && |between| == |scripts|
    requires forall k | 0 <= k < |scripts| :: Within(scripts[k], l.pool) && Spares(scripts[k], x)
    requires forall k | 0 <= k < |scripts| :: forall c | c in between[k] :: c.t in l.pool && c.t != x
    modifies l`head, l`timers, l`now, l.pool
    ensures l.Valid() && |ps| == |scripts|
    ensures forall k | 0 <= k < |ps| :: old(l.now) <= ps[k].time
    ensures Follows(ps, x, old(x.lastEvent), old(x.period))
    ensures Quiet(ps, |ps|, x) ==> x in l.timers && SettingOf(x) == old(SettingOf(x))
    ensures old(x.lastEvent) <= old(l.now)
  {
    ghost var start := SettingOf(x);
    ps := [];
    var k := 0;
    while k < |scripts|
      invariant 0 <= k == |ps| <= |scripts| && l.Valid() && old(l.now) <= l.now
      invariant Quiet(ps, k, x) ==> x in l.timers && SettingOf(x) == start
      invariant forall i | 0 <= i < k :: old(l.now) <= ps[i].time
      invariant Follows(ps, x, start.last, start.period)
    {
      MakeOther(l, between[k], x);
      ghost var p := OnePass(l, scripts[k], x);
      QuietMore(ps, p, x);
      FollowsMore(ps, p, x, start.last, start.period);
      ps := ps + [p];
      k := k + 1;
    }
  }

  /** Calls on other timers. */
  method MakeOther(l: TimerList, calls: seq<Call<Timer>>, x: Timer)
    requires l.Valid() && x in l.pool && forall c | c in calls :: c.t in l.pool && c.t != x
    modifies l`head, l`timers, l`now, l.pool
    ensures l.Valid() && old(l.now) <= l.now && SettingOf(x) == old(SettingOf(x))
    ensures x in old(l.timers) ==> x in l.timers
  {
    ghost var exp := map t | t in l.pool :: Start(SettingOf(t));
    EffectNone(exp[x], calls, x, l.timers, l.now);
    assert Free(x) !in calls;
    if x in l.timers {
      CallsKeep(l.timers, calls, x);
    }
    l.Make(calls, exp, l.now);
  }

  /** In true microseconds, over such a run: `x` never fires before a period has passed since its last event; and it
      fires in the first pass at which a period has passed, if up to then each pass sees the event less than 2^32
      microseconds old. */
  lemma FiresWhenDue(ps: seq<Pass>, f: nat, x: Timer, last: nat, period: word32)
    requires Follows(ps, x, last, period)
    requires f < |ps| && forall k | 0 <= k <= f :: last <= ps[k].time
    ensures Quiet(ps, f, x) && FiredIn(ps[f].log, x) ==> ps[f].time - last >= period
    ensures (forall k | 0 <= k <= f :: ps[k].time - last < WRAP)
            && (forall k | 0 <= k < f :: ps[k].time - last < period) && ps[f].time - last >= period
            ==> Quiet(ps, f, x) && FiredIn(ps[f].log, x)
  {
    DueInTrueTime(ps[f].time, last, period);
    if (forall k | 0 <= k < f :: ps[k].time - last < period) {
      QuietUntil(ps, f, x, last, period);
    }
  }

  lemma {:induction false} QuietUntil(ps: seq<Pass>, f: nat, x: Timer, last: nat, period: word32)
    requires Follows(ps, x, last, period)
    requires f <= |ps| && forall k | 0 <= k < f :: last <= ps[k].time && ps[k].time - last < period
    ensures Quiet(ps, f, x)
    decreases f
  {
    if f > 0 {
      QuietUntil(ps, f - 1, x, last, period);
      DueInTrueTime(ps[f - 1].time, last, period);
    }
  }

  // ---------- Many passes, firing after firing ----------

  /** One pass of a timer whose last event was at `last` before and is at `next` after it. */
  predicate Ticks(p: Pass, x: Timer, last: nat, next: nat, period: word32) {
    && AsDue(p, x, last, period) && last <= p.time
    && if FiredIn(p.log, x) then p.time <= ReturnedIn(p.log, x) <= next else next == last
  }

  predicate Periodic(ps: seq<Pass>, lasts: seq<nat>, x: Timer, period: word32) {
    |lasts| == |ps| + 1 && forall k | 0 <= k < |ps| :: Ticks(ps[k], x, lasts[k], lasts[k + 1], period)
  }

  lemma PeriodicMore(ps: seq<Pass>, lasts: seq<nat>, p: Pass, next: nat, x: Timer, period: word32)
    requires Periodic(ps, lasts, x, period) && Ticks(p, x, lasts[|ps|], next, period)
    ensures Periodic(ps + [p], lasts + [next], x, period)
  {
    var more, stamps := ps + [p], lasts + [next];
    forall k | 0 <= k < |more| ensures Ticks(more[k], x, stamps[k], stamps[k + 1], period) {
      assert stamps[k] == lasts[k];
      assert more[k] == if k < |ps| then ps[k] else p;
    }
  }

  /** The same run for a timer that its own callback keeps: it goes on for any number of firings. Every pass visits `x`
      exactly once, and fires it exactly when it is due by the wrapped test since its last firing. */
  method RunPeriodic(l: TimerList, scripts: seq<Script>, between: seq<seq<Call<Timer>>>, x: Timer)
    returns (ghost ps: seq<Pass>, ghost lasts: seq<nat>)
    requires l.Valid() && x in l.timers && Active(x.flags) && |between| == |scripts|
    requires forall k | 0 <= k < |scripts| ::
               Within(scripts[k], l.pool) && Spares(scripts[k], x) && Keeps(scripts[k], x)
    requires forall k | 0 <= k < |scripts| :: forall c | c in between[k] :: c.t in l.pool && c.t != x
    modifies l`head, l`timers, l`now, l.pool
    ensures l.Valid() && |ps| == |scripts| && Periodic(ps, lasts, x, old(x.period))
    ensures lasts[0] == old(x.lastEvent) && lasts[|ps|] == x.lastEvent
    ensures x in l.timers && Active(x.flags) && x.period == old(x.period)
  {
    ghost var period := x.period;
    ps, lasts := [], [x.lastEvent];
    var k := 0;
    while k < |scripts|
      invariant 0 <= k == |ps| <= |scripts| && l.Valid()
      invariant x in l.timers && Active(x.flags) && x.period == period
      invariant Periodic(ps, lasts, x, period) && lasts[0] == old(x.lastEvent) && lasts[|ps|] == x.lastEvent
    {
      MakeOther(l, between[k], x);
      ghost var p := OnePass(l, scripts[k], x);
      PeriodicMore(ps, lasts, p, x.lastEvent, x, period);
      ps, lasts := ps + [p], lasts + [x.lastEvent];
      k := k + 1;
    }
  }

  /** In true microseconds: the timer fires in a pass only when a period has passed since its last event, and then,
      if that is less than 2^32 microseconds ago. A firing comes at least a period after the callback of any earlier
      one has returned. */
  lemma {:induction false} FiringsApart(ps: seq<Pass>, lasts: seq<nat>, x: Timer, period: word32, i: nat, j: nat)
    requires Periodic(ps, lasts, x, period) && i < j < |ps| && FiredIn(ps[i].log, x)
    ensures ps[i].time <= ReturnedIn(ps[i].log, x) <= lasts[j]
    ensures FiredIn(ps[j].log, x) ==> ps[j].time - lasts[j] >= period && ps[j].time - ReturnedIn(ps[i].log, x) >= period
    ensures ps[j].time - lasts[j] < WRAP ==> (FiredIn(ps[j].log, x) <==> ps[j].time - lasts[j] >= period)
    decreases j
  {
    assert Ticks(ps[j - 1], x, lasts[j - 1], lasts[j], period) && Ticks(ps[j], x, lasts[j], lasts[j + 1], period);
    if i < j - 1 {
      FiringsApart(ps, lasts, x, period, i, j - 1);
    }
    DueInTrueTime(ps[j].time, lasts[j], period);
  }
}
