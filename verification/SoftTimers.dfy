/** The software timers: an intrusive list that the main loop walks while callbacks relink it. */
module SoftTimers {
  import opened Bytes
  import opened Lists
  import opened TimerMath
  import opened TimerWalk

  class Timer {
    var period: word32
    var event: word32
    var flags: word32
    var next: Timer?
    ghost var lastEvent: nat  // the event in true microseconds

    constructor (period: word32, active: bool)
      ensures this.period == period && event == 0 && lastEvent == 0 && next == null
      ensures flags == if active then 1 else 0
    {
      this.period, event, flags, next, lastEvent := period, 0, if active then 1 else 0, null, 0;
    }
  }

  predicate Active(flags: word32) {
    flags % 2 == 1
  }

  /** The 32-bit stamp is the low half of a time that has passed. */
  predicate Stamped(event: word32, lastEvent: nat, now: nat) {
    event == Low32(lastEvent) && lastEvent <= now
  }

  /** The fields that decide whether a timer fires. */
  datatype Setting = Setting(active: bool, last: nat, period: word32)

  ghost function SettingOf(t: Timer): (s: Setting)
    reads t
  {
    Setting(Active(t.flags), t.lastEvent, t.period)
  }

  /** What a call makes of the setting of its timer; `linked` says whether that is in the list. */
  function Changed(s: Setting, c: Call<Timer>, linked: bool, now: nat): (r: Setting) {
    match c
    case Init(_) => if linked then s else Setting(false, 0, 0)
    case Stop(_) => s.(active := false)
    case Run(_) => s.(active := true, last := now)
    case _ => s
  }

  /** What one visit of the walk saw and did. `returned` is the clock when the callback returned, and `stamp` the
      timer's last event afterwards. */
  datatype Visited = Visited(
    timer: Timer, saw: Setting, fired: bool, calls: seq<Call<Timer>>, returned: nat, stamp: nat)

  /** A visit fires exactly when the timer is active and due by the wrapped test; firing stamps the timer, after its
      callback has returned, and nothing else does. */
  predicate Sound(v: Visited, time: nat) {
    && (v.fired <==> v.saw.active && Due(time, v.saw.last, v.saw.period))
    && (if v.fired then time <= v.returned <= v.stamp else v.stamp == v.saw.last && v.calls == [])
  }

  function Timers(log: seq<Visited>): (s: seq<Timer>) {
    if log == [] then [] else Timers(log[..|log| - 1]) + [log[|log| - 1].timer]
  }

  function Calls(log: seq<Visited>): (css: seq<seq<Call<Timer>>>)
    ensures |css| == |log|
  {
    if log == [] then [] else Calls(log[..|log| - 1]) + [log[|log| - 1].calls]
  }

  function Firings(log: seq<Visited>): (n: nat) {
    if log == [] then 0 else Firings(log[..|log| - 1]) + if log[|log| - 1].fired then 1 else 0
  }

  predicate Touches(v: Visited, x: Timer) {
    v.fired && (v.timer == x || exists c | c in v.calls :: c.t == x)
  }

  /** The last visit in which a timer fired or a callback called a function on it. */
  function LastTouch(log: seq<Visited>, x: Timer): (v: Option<Visited>) {
    if log == [] then None
    else if Touches(log[|log| - 1], x) then Some(log[|log| - 1])
    else LastTouch(log[..|log| - 1], x)
  }

  predicate Runs(calls: seq<Call<Timer>>, x: Timer) {
    Run(x) in calls
  }

  predicate Restarts(v: Visited, x: Timer) {
    v.fired && (v.timer == x || Runs(v.calls, x))
  }

  /** A timer has fired or been restarted, and so carries a stamp newer than the time of the pass. */
  predicate Restarted(log: seq<Visited>, x: Timer) {
    log != [] && (Restarted(log[..|log| - 1], x) || Restarts(log[|log| - 1], x))
  }

  /** Which calls the callbacks of a pass make: the k-th one to run, if it is that of `t`, makes `script[k][t]`. */
  type Script = seq<map<Timer, seq<Call<Timer>>>>

  function CallsOf(script: Script, k: nat, t: Timer): (cs: seq<Call<Timer>>) {
    if k < |script| && t in script[k] then script[k][t] else []
  }

  ghost predicate Within(script: Script, pool: set<Timer>) {
    forall k, t | 0 <= k < |script| && t in script[k] :: forall c | c in script[k][t] :: c.t in pool
  }

  lemma CallsWithin(script: Script, k: nat, t: Timer, pool: set<Timer>)
    requires Within(script, pool)
    ensures forall c | c in CallsOf(script, k, t) :: c.t in pool
  {
  }

  // ---------- What calls and visits make of settings ----------

  /** When the last event was: exactly then, or at a time not known but no earlier. */
  datatype Stamp = Exactly(last: nat) | Since(from: nat)

  datatype Expected = Expected(active: bool, period: word32, stamp: Stamp)

  function Start(s: Setting): (e: Expected) {
    Expected(s.active, s.period, Exactly(s.last))
  }

  predicate Meets(s: Setting, e: Expected) {
    && s.active == e.active && s.period == e.period
    && match e.stamp
       case Exactly(last) => s.last == last
       case Since(from) => from <= s.last
  }

  /** The effect of a call on the setting of `x` while `timers` are linked; `from` is a time already past. */
  function Effect(e: Expected, c: Call<Timer>, x: Timer, timers: seq<Timer>, from: nat): (r: Expected) {
    if c.t != x then e
    else
      match c
      case Init(_) => if x in timers then e else Expected(false, 0, Exactly(0))
      case Stop(_) => e.(active := false)
      case Run(_) => e.(active := true, stamp := Since(from))
      case _ => e
  }

  function EffectAll(e: Expected, cs: seq<Call<Timer>>, x: Timer, timers: seq<Timer>, from: nat): (r: Expected)
    decreases cs
  {
    if cs == [] then e else EffectAll(Effect(e, cs[0], x, timers, from), cs[1..], x, After(timers, cs[0]), from)
  }

  lemma EffectMeets(s: Setting, e: Expected, c: Call<Timer>, timers: seq<Timer>, now: nat, from: nat)
    requires Meets(s, e) && from <= now
    ensures Meets(Changed(s, c, c.t in timers, now), Effect(e, c, c.t, timers, from))
  {
  }

  /** The effect of a visit: that of the callback's calls, and the stamp of the timer that fired. */
  function AfterVisit(e: Expected, v: Visited, x: Timer, timers: seq<Timer>, time: nat): (r: Expected) {
    if !v.fired then e
    else
      var called := EffectAll(e, v.calls, x, timers, time);
      if v.timer == x then called.(stamp := Exactly(v.stamp)) else called
  }

  /** A pass: its time stamp, the timers linked and the settings at its start, and its visits so far. */
  datatype Pass = Pass(time: nat, start: seq<Timer>, was: map<Timer, Setting>, log: seq<Visited>)

  function Earlier(p: Pass): (q: Pass)
    requires p.log != []
  {
    p.(log := p.log[..|p.log| - 1])
  }

  function Last(p: Pass): (v: Visited)
    requires p.log != []
  {
    p.log[|p.log| - 1]
  }

  /** The list after the visits so far. */
  function ListOf(p: Pass): (s: seq<Timer>) {
    Go(Begin(p.start), Calls(p.log)).timers
  }

  /** The setting of `x` after the visits so far. */
  function Expect(p: Pass, x: Timer): (e: Expected)
    requires x in p.was
    decreases |p.log|
  {
    if p.log == [] then Start(p.was[x])
    else AfterVisit(Expect(Earlier(p), x), Last(p), x, ListOf(Earlier(p)), p.time)
  }

  /** A visit, given those before it: sound, making the calls of the script, and finding the setting that the visits
      before it have left. */
  ghost predicate Told(p: Pass, v: Visited, script: Script) {
    && Sound(v, p.time)
    && (v.fired ==> v.calls == CallsOf(script, Firings(p.log), v.timer))
    && v.timer in p.was && Meets(v.saw, Expect(p, v.timer))
  }

  ghost predicate AllTold(p: Pass, script: Script)
    decreases |p.log|
  {
    p.log == [] || (AllTold(Earlier(p), script) && Told(Earlier(p), Last(p), script))
  }

  function More(p: Pass, v: Visited): (q: Pass) {
    p.(log := p.log + [v])
  }

  lemma LogMore(p: Pass, v: Visited)
    ensures var q := More(p, v);
            && q.log != [] && Earlier(q) == p && Last(q) == v
            && Timers(q.log) == Timers(p.log) + [v.timer] && Calls(q.log) == Calls(p.log) + [v.calls]
            && Firings(q.log) == Firings(p.log) + if v.fired then 1 else 0
  {
    assert (p.log + [v])[..|p.log|] == p.log;
  }

  /** One more visit, in terms of the walk and of what is expected of each timer. */
  lemma PassMore(p: Pass, v: Visited, script: Script)
    requires AllTold(p, script) && Told(p, v, script)
    ensures var q := More(p, v);
            && AllTold(q, script) && Timers(q.log) == Timers(p.log) + [v.timer]
            && Firings(q.log) == Firings(p.log) + (if v.fired then 1 else 0)
            && Go(Begin(p.start), Calls(q.log)) == Visit(Go(Begin(p.start), Calls(p.log)), v.calls)
            && forall x | x in p.was :: Expect(q, x) == AfterVisit(Expect(p, x), v, x, ListOf(p), p.time)
  {
    LogMore(p, v);
    var css := Calls(p.log) + [v.calls];
    assert css[..|css| - 1] == Calls(p.log);
  }

  lemma {:induction false} EffectNone(e: Expected, cs: seq<Call<Timer>>, x: Timer, timers: seq<Timer>, from: nat)
    requires forall c | c in cs :: c.t != x
    ensures EffectAll(e, cs, x, timers, from) == e
    decreases cs
  {
    if cs != [] {
      EffectNone(e, cs[1..], x, After(timers, cs[0]), from);
    }
  }

  /** Without Run, a stamp stays or is cleared. */
  lemma {:induction false} EffectOld(e: Expected, cs: seq<Call<Timer>>, x: Timer, timers: seq<Timer>, from: nat)
    requires !Runs(cs, x) && e.stamp.Exactly?
    ensures var r := EffectAll(e, cs, x, timers, from); r.stamp == e.stamp || r.stamp == Exactly(0)
    decreases cs
  {
    if cs != [] {
      EffectOld(Effect(e, cs[0], x, timers, from), cs[1..], x, After(timers, cs[0]), from);
    }
  }

  /** A timer that no visit touched has its setting. */
  lemma {:induction false} Untouched(p: Pass, x: Timer)
    requires x in p.was && LastTouch(p.log, x) == None
    ensures Expect(p, x) == Start(p.was[x])
    decreases |p.log|
  {
    if p.log != [] {
      Untouched(Earlier(p), x);
      if Last(p).fired {
        EffectNone(Expect(Earlier(p), x), Last(p).calls, x, ListOf(Earlier(p)), p.time);
      }
    }
  }

  /** A timer not restarted in this pass has no stamp newer than the pass. */
  lemma {:induction false} NotRestarted(p: Pass, x: Timer)
    requires x in p.was && p.was[x].last <= p.time && !Restarted(p.log, x)
    ensures var e := Expect(p, x); e.stamp.Exactly? && e.stamp.last <= p.time
    decreases |p.log|
  {
    if p.log != [] {
      NotRestarted(Earlier(p), x);
      if Last(p).fired {
        EffectOld(Expect(Earlier(p), x), Last(p).calls, x, ListOf(Earlier(p)), p.time);
      }
    }
  }

  function FirstOf(s: seq<Timer>): (t: Timer?) {
    if s == [] then null else s[0]
  }

  function At(s: seq<Timer>, i: nat): (t: Timer?) {
    if i < |s| then s[i] else null
  }

  function Ptr(t: Timer?): (p: Option<Timer>) {
    if t == null then None else Some(t)
  }

  /** Successors in a list from which the element at `i + 1` has been cut. */
  lemma CutAt(s: seq<Timer>, i: nat, k: nat)
    requires i + 1 < |s| && k + 1 < |s|
    ensures var c := s[..i + 1] + s[i + 2..];
            && c[k] == (if k <= i then s[k] else s[k + 1])
            && At(c, k + 1) == if k < i then At(s, k + 1) else At(s, k + 2)
  {
  }

  class TimerList {
    var head: Timer?
    var now: nat                   // what utime last returned
    ghost var timers: seq<Timer>   // the linked timers, first to last
    ghost const pool: set<Timer>   // every timer of the program

    ghost predicate Valid()
      reads this, pool
    {
      && (forall t | t in timers :: t in pool)
      && head == FirstOf(timers)
      && (forall i {:trigger timers[i].next} | 0 <= i < |timers| :: timers[i].next == At(timers, i + 1))
      && (forall t | t in pool && t !in timers :: t.next == null)
      && (forall t | t in pool :: Stamped(t.event, t.lastEvent, now))
    }

    constructor (ghost pool: set<Timer>)
      requires forall t | t in pool :: t.event == 0 && t.lastEvent == 0 && t.next == null
      ensures Valid() && timers == [] && this.pool == pool
    {
      head, now, timers := null, 0, [];
      this.pool := pool;
    }

    /** Time only goes forward. */
    method UTime() returns (time: nat)
      requires Valid()
      modifies this`now
      ensures Valid() && time == now >= old(now)
    {
      var later: nat :| now <= later;
      now := later;
      return now;
    }

    method LinkFirst(t: Timer)
      requires Valid() && t in pool && t !in timers
      modifies this`head, this`timers, t`next
      ensures Valid() && timers == [t] + old(timers)
    {
      ghost var s := timers;
      t.next := head;
      head := t;
      timers := [t] + timers;
      forall i | 0 <= i < |timers| ensures timers[i].next == At(timers, i + 1) {
        if i > 0 {
          assert timers[i] == s[i - 1] && s[i - 1].next == At(s, i);
        }
      }
    }

    method Add(t: Timer)
      requires Valid() && t in pool && t !in timers
      modifies this`head, this`timers, t`next
      ensures Valid() && timers == [t] + old(timers)
    {
      LinkFirst(t);
    }

    method Init(t: Timer)
      requires Valid() && t in pool && t !in timers
      modifies this`head, this`timers, t
      ensures Valid() && timers == [t] + old(timers)
      ensures t.period == t.event == t.flags == 0 && t.lastEvent == 0
    {
      t.period, t.event, t.flags := 0, 0, 0;
      t.lastEvent := 0;
      LinkFirst(t);
    }

    /** A list that ends cannot contain a timer twice. */
    lemma {:induction false} NoRepeat(i: nat, j: nat)
      requires Valid() && i < j < |timers|
      ensures timers[i] != timers[j]
      decreases |timers| - j
    {
      assert timers[i].next == At(timers, i + 1) && timers[j].next == At(timers, j + 1);
      if j + 1 < |timers| {
        NoRepeat(i + 1, j + 1);
      }
    }

    lemma PairsDiffer()
      requires Valid()
      ensures Distinct(timers) && forall i, j | 0 <= i < j < |timers| :: timers[i] != timers[j]
    {
      DistinctMeans(timers);
      forall i, j | 0 <= i < j < |timers| ensures timers[i] != timers[j] {
        NoRepeat(i, j);
      }
    }

    /** The list is acyclic and free of duplicates. */
    lemma TimersDistinct()
      requires Valid()
      ensures Distinct(timers)
    {
      PairsDiffer();
    }

    /** Unlinks exactly `t`; the others keep their order. A timer that is not linked is left alone. */
    method Free(t: Timer)
      requires Valid() && t in pool
      modifies this`head, this`timers, pool`next
      ensures Valid() && timers == Minus(old(timers), {t})
      ensures t in old(timers) ==> t.next == null
      ensures t !in old(timers) ==> t.next == old(t.next)
    {
      if head == null { MinusNone(timers, {t}); return; }
      TimersDistinct();
      if t == head {
        MinusOne(timers, 0);
        UnlinkFirst();
        return;
      }
      var p: Timer := head;
      ghost var i := 0;
      while p.next != null
        invariant 0 <= i < |timers| && p == timers[i]
        invariant forall k | 0 <= k <= i :: timers[k] != t
        decreases |timers| - i
      {
        assert p.next == At(timers, i + 1);
        if p.next == t {
          MinusOne(timers, i + 1);
          UnlinkAfter(p, i);
          return;
        }
        p := p.next;
        i := i + 1;
      }
      assert timers[i].next == At(timers, i + 1);
      MinusNone(timers, {t});
    }

    method UnlinkFirst()
      requires Valid() && timers != []
      modifies this`head, this`timers, pool`next
      ensures Valid() && timers == old(timers)[1..] && old(timers)[0].next == null
    {
      ghost var s := timers;
      PairsDiffer();
      var t: Timer := head;
      assert s[0].next == At(s, 1);
      head := t.next;
      t.next := null;
      timers := timers[1..];
      forall k | 0 <= k < |timers| ensures timers[k].next == At(timers, k + 1) {
        assert timers[k] == s[k + 1] && old(s[k + 1].next) == At(s, k + 2);
      }
    }

    method UnlinkAfter(p: Timer, ghost i: nat)
      requires Valid() && i + 1 < |timers| && p == timers[i]
      modifies this`timers, pool`next
      ensures Valid() && timers == old(timers)[..i + 1] + old(timers)[i + 2..] && old(timers)[i + 1].next == null
    {
      ghost var s := timers;
      PairsDiffer();
      assert s[i].next == At(s, i + 1) && s[i + 1].next == At(s, i + 2);
      var t: Timer := p.next;
      p.next := t.next;
      t.next := null;
      timers := s[..i + 1] + s[i + 2..];
      forall k | 0 <= k < |timers| ensures timers[k].next == At(timers, k + 1) {
        CutAt(s, i, k);
      }
    }

    method Stop(t: Timer)
      requires Valid() && t in pool
      modifies t`flags
      ensures Valid() && !Active(t.flags) && t.flags / 2 == old(t.flags) / 2
    {
      t.flags := t.flags - t.flags % 2;
    }

    method Run(t: Timer)
      requires Valid() && t in pool
      modifies t`flags, t`event, t`lastEvent, this`now
      ensures Valid() && now >= old(now) && Active(t.flags) && t.flags / 2 == old(t.flags) / 2 && t.lastEvent == now
    {
      t.flags := t.flags + 1 - t.flags % 2;
      var time := UTime();
      t.event := Low32(time);
      t.lastEvent := time;
    }

    /** What linking a linked timer does, and why the interface excludes it: the links from the first timer on then lead
        round for ever through that timer and those that stood before it. */
    method LinkAgain(t: Timer, ghost i: nat)
      requires Valid() && i < |timers| && t == timers[i]
      modifies this`head, t`next
      ensures head == t && t.next == timers[0]
      ensures forall k | 0 <= k < i :: timers[k].next == timers[k + 1]
    {
      ghost var s := timers;
      PairsDiffer();
      assert forall k | 0 <= k < i :: s[k].next == At(s, k + 1);
      t.next := head;
      head := t;
    }

    // ---------- Callbacks ----------

    /** The link of any timer is what the list says. */
    lemma NextIs(t: Timer)
      requires Valid() && t in pool
      ensures Ptr(t.next) == NextOf(t, timers)
    {
      PairsDiffer();
      if t in timers {
        var i :| 0 <= i < |timers| && timers[i] == t;
        assert timers[i].next == At(timers, i + 1);
        FromAt(timers, i);
      } else {
        FromUnlinked(t, timers);
      }
    }

    method IsLinked(t: Timer) returns (linked: bool)
      requires Valid()
      ensures linked <==> t in timers
    {
      var p := head;
      ghost var i := 0;
      while p != null
        invariant 0 <= i <= |timers| && p == At(timers, i)
        invariant forall k | 0 <= k < i :: timers[k] != t
        decreases |timers| - i
      {
        if p == t { return true; }
        assert timers[i].next == At(timers, i + 1);
        p := p.next;
        i := i + 1;
      }
      return false;
    }

    /** One call. A callback that would link a linked timer is outside the interface; such a call is not made. */
    method Do(c: Call<Timer>)
      requires Valid() && c.t in pool
      modifies this`head, this`timers, this`now, pool
      ensures Valid() && now >= old(now) && timers == After(old(timers), c)
      ensures forall x | x in pool && x != c.t :: SettingOf(x) == old(SettingOf(x))
      ensures SettingOf(c.t) == Changed(old(SettingOf(c.t)), c, c.t in old(timers), now)
    {
      match c {
        case Free(x) => Free(x);
        case Add(x) =>
          var linked := IsLinked(x);
          if !linked { Add(x); }
        case Init(x) =>
          var linked := IsLinked(x);
          if !linked { Init(x); }
        case Stop(x) => Stop(x);
        case Run(x) => Run(x);
      }
    }

    ghost predicate AllMeet(exp: map<Timer, Expected>)
      reads pool
    {
      forall x | x in pool :: x in exp && Meets(SettingOf(x), exp[x])
    }

    /** The calls of a callback, one after the other, and what they make of any timer that met `exp` before. */
    method Make(calls: seq<Call<Timer>>, ghost exp: map<Timer, Expected>, ghost from: nat)
      requires Valid() && from <= now && forall c | c in calls :: c.t in pool
      requires AllMeet(exp)
      modifies this`head, this`timers, this`now, pool
      ensures Valid() && now >= old(now) && timers == AfterAll(old(timers), calls)
      ensures forall x | x in pool :: Meets(SettingOf(x), EffectAll(exp[x], calls, x, old(timers), from))
      decreases |calls|
    {
      if calls == [] { return; }
      ghost var next := map x | x in pool :: Effect(exp[x], calls[0], x, timers, from);
      var c := calls[0];
      ghost var linked := timers;
      ghost var was := SettingOf(c.t);
      Do(c);
      EffectMeets(was, exp[c.t], c, linked, now, from);
      assert forall d | d in calls[1..] :: d in calls;
      assert forall x | x in pool && x != c.t :: next[x] == exp[x];
      Make(calls[1..], next, from);
    }

    // ---------- One pass ----------

    /** The body of the walk: the cursor moves on before the callback runs. The timer may have been unlinked. */
    method VisitOne(t: Timer, time: nat, calls: seq<Call<Timer>>, ghost exp: map<Timer, Expected>)
      returns (fired: bool, succ: Timer?, ghost v: Visited)
      requires Valid() && t in pool && time <= now && forall c | c in calls :: c.t in pool
      requires AllMeet(exp)
      modifies this`head, this`timers, this`now, pool
      ensures Valid() && now >= old(now)
      ensures Ptr(succ) == NextOf(t, old(timers)) && (succ != null ==> succ in pool)
      ensures |From(Ptr(succ), old(timers))| < |From(Ptr(t), old(timers))|
      ensures timers == AfterAll(old(timers), v.calls)
      ensures v.timer == t && v.fired == fired && v.saw == old(SettingOf(t)) && v.stamp == t.lastEvent && Sound(v, time)
      ensures v.fired ==> v.calls == calls && v.returned <= t.lastEvent == now
      ensures forall x | x in pool :: Meets(SettingOf(x), AfterVisit(exp[x], v, x, old(timers), time))
    {
      NextIs(t);
      PairsDiffer();
      FromNext(t, timers);
      fired, succ := false, t.next;
      ghost var saw := SettingOf(t);
      v := Visited(t, saw, false, [], time, t.lastEvent);
      if !Active(t.flags) { return; }
      var elapsed := Sub32(Low32(time), t.event);
      if elapsed < t.period { return; }
      fired := true;
      ghost var returned := Callback(calls, exp, time);
      Restamp(t);
      v := Visited(t, saw, true, calls, returned, t.lastEvent);
    }

    /** The callback makes its calls, and takes its time: the clock may have moved on when it returns. */
    method Callback(calls: seq<Call<Timer>>, ghost exp: map<Timer, Expected>, ghost from: nat)
      returns (ghost returned: nat)
      requires Valid() && from <= now && forall c | c in calls :: c.t in pool
      requires AllMeet(exp)
      modifies this`head, this`timers, this`now, pool
      ensures Valid() && old(now) <= now == returned && timers == AfterAll(old(timers), calls)
      ensures forall x | x in pool :: Meets(SettingOf(x), EffectAll(exp[x], calls, x, old(timers), from))
    {
      Make(calls, exp, from);
      var later := UTime();
      returned := later;
    }

    method Restamp(t: Timer)
      requires Valid() && t in pool
      modifies this`now, t`event, t`lastEvent
      ensures Valid() && old(now) <= t.lastEvent == now
    {
      var end := UTime();
      t.event := Low32(end);
      t.lastEvent := end;
    }

    /** What the visits so far tell about a timer. */
    ghost predicate Known(p: Pass, x: Timer)
      reads x
    {
      x in p.was && Meets(SettingOf(x), Expect(p, x))
    }

    /** What holds between two visits. */
    ghost predicate Walking(p: Pass, script: Script, at: Timer?)
      reads this, pool
    {
      && Valid() && p.time <= now && (at != null ==> at in pool)
      && (var w := Go(Begin(p.start), Calls(p.log));
          w.timers == timers && w.at == Ptr(at) && w.visited == Timers(p.log))
      && AllTold(p, script)
      && p.was.Keys == pool
      && (forall x | x in pool :: Known(p, x))
    }

    /** One turn of the loop. */
    method Advance(t: Timer, time: nat, calls: seq<Call<Timer>>, ghost script: Script, ghost p: Pass)
      returns (fired: bool, succ: Timer?, ghost q: Pass)
      requires Walking(p, script, t) && time == p.time && (forall c | c in calls :: c.t in pool)
      requires calls == CallsOf(script, Firings(p.log), t)
      modifies this`head, this`timers, this`now, pool
      ensures Walking(q, script, succ) && now >= old(now) && q == p.(log := q.log)
      ensures Firings(q.log) == Firings(p.log) + if fired then 1 else 0
      ensures !fired || calls == [] ==> |From(Ptr(succ), timers)| < |From(Ptr(t), old(timers))|
    {
      ghost var v;
      ghost var exp := map x | x in pool :: Expect(p, x);
      fired, succ, v := VisitOne(t, time, calls, exp);
      q := More(p, v);
      PassMore(p, v, script);
      forall x | x in pool ensures Known(q, x) {
        assert Expect(q, x) == AfterVisit(exp[x], v, x, old(timers), time);
      }
    }

    /** stmr. The calls that callbacks make are those of the script, and the list and the walk move as `Go` says: which
        timers are visited is determined by the list and the calls. Each visit fires exactly when the timer is active
        and due by the wrapped test. What a visit finds, and what the pass leaves, are the settings at the start as
        changed by the visits and calls in between. */
    method Stmr(script: Script) returns (ghost p: Pass)
      requires Valid() && Within(script, pool)
      modifies this`head, this`timers, this`now, pool
      ensures Valid() && old(now) <= p.time <= now && p.start == old(timers)
      ensures var w := Go(Begin(old(timers)), Calls(p.log));
              w.at == None && w.timers == timers && w.visited == Timers(p.log)
      ensures AllTold(p, script)
      ensures p.was.Keys == pool && forall x | x in pool :: p.was[x] == old(SettingOf(x)) && p.was[x].last <= p.time
      ensures forall x | x in pool :: Known(p, x)
    {
      ghost var was := map t | t in pool :: SettingOf(t);
      ghost var start := timers;
      var time := UTime();
      p := Pass(time, start, was, []);
      var tmr := head;
      var k := 0;
      while tmr != null
        invariant Walking(p, script, tmr) && p == Pass(time, start, was, p.log) && k == Firings(p.log)
        decreases if k < |script| then |script| - k else 0, |From(Ptr(tmr), timers)|
      {
        var fired;
        CallsWithin(script, k, tmr, pool);
        fired, tmr, p := Advance(tmr, time, CallsOf(script, k, tmr), script, p);
        if fired { k := k + 1; }
      }
    }
  }

  /** In true microseconds: a visit to a timer not restarted in this pass never fires before a period has passed since
      its last event, and fires whenever it is active and due, if less than 2^32 microseconds have passed. */
  lemma VisitInTrueTime(p: Pass, v: Visited, script: Script)
    requires Told(p, v, script) && !Restarted(p.log, v.timer) && p.was[v.timer].last <= p.time
    ensures v.fired ==> v.saw.active && p.time - v.saw.last >= v.saw.period
    ensures p.time - v.saw.last < WRAP ==> (v.fired <==> v.saw.active && p.time - v.saw.last >= v.saw.period)
  {
    NotRestarted(p, v.timer);
    DueInTrueTime(p.time, v.saw.last, v.saw.period);
  }

  /** A visit fires before a period has passed since the last event exactly when the timer is active, carries a
      stamp newer than the pass, and its period is at most 2^32 minus that difference. Such a stamp is the work of
      another callback of the pass, or of an earlier visit. */
  lemma EarlyExactly(p: Pass, v: Visited, script: Script)
    requires Told(p, v, script) && v.saw.last < p.time + WRAP
    ensures (v.fired && p.time - v.saw.last < v.saw.period)
       <==> (v.saw.active && p.time < v.saw.last && v.saw.period <= WRAP - (v.saw.last - p.time))
    ensures p.was[v.timer].last <= p.time < v.saw.last ==> Restarted(p.log, v.timer)
  {
    if p.time < v.saw.last {
      RestartedMeanwhile(p.time, v.saw.last, v.saw.period);
      if p.was[v.timer].last <= p.time && !Restarted(p.log, v.timer) {
        NotRestarted(p, v.timer);
      }
    } else {
      DueInTrueTime(p.time, v.saw.last, v.saw.period);
    }
  }
}
