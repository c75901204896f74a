/** The walk over the timer list, on values: what the callbacks of a pass do to the list and to the walk that is
    under way. The walk saves the successor of the timer it visits before that timer's callback runs. */
module TimerWalk {
  import opened Bytes
  import opened Lists

  /** A call a callback can make. */
  datatype Call<T> = Free(t: T) | Add(t: T) | Init(t: T) | Stop(t: T) | Run(t: T)

  /** The linked timers after a call. Linking a timer twice is outside the interface; such a call is not made. */
  function After<T(==)>(s: seq<T>, c: Call<T>): (r: seq<T>) {
    match c
    case Free(x) => Minus(s, {x})
    case Add(x) => if x in s then s else [x] + s
    case Init(x) => if x in s then s else [x] + s
    case _ => s
  }

  function AfterAll<T(==)>(s: seq<T>, cs: seq<Call<T>>): (r: seq<T>)
    decreases cs
  {
    if cs == [] then s else AfterAll(After(s, cs[0]), cs[1..])
  }

  /** The timers met from `x` on by following the links. The link of a timer that is not linked is null. */
  function From<T(==)>(x: Option<T>, s: seq<T>): (r: seq<T>) {
    match x
    case None => []
    case Some(t) => if s == [] then [t] else if s[0] == t then s else From(x, s[1..])
  }

  function NextOf<T(==)>(x: T, s: seq<T>): (r: Option<T>) {
    var f := From(Some(x), s);
    if |f| > 1 then Some(f[1]) else None
  }

  /** A call, the saved timer at which the walk will go on, and the list when the call was made. */
  datatype Made<T> = Made(call: Call<T>, saved: Option<T>, timers: seq<T>)

  /** `at` is the timer to be visited next. */
  datatype Walk<T> = Walk(timers: seq<T>, at: Option<T>, visited: seq<T>, made: seq<Made<T>>)

  function Trace<T(==)>(s: seq<T>, saved: Option<T>, cs: seq<Call<T>>): (made: seq<Made<T>>)
    decreases cs
  {
    if cs == [] then [] else [Made(cs[0], saved, s)] + Trace(After(s, cs[0]), saved, cs[1..])
  }

  function Begin<T>(s: seq<T>): (w: Walk<T>) {
    Walk(s, if s == [] then None else Some(s[0]), [], [])
  }

  /** One visit, during which the calls `cs` are made. */
  function Visit<T(==)>(w: Walk<T>, cs: seq<Call<T>>): (r: Walk<T>) {
    match w.at
    case None => w
    case Some(t) =>
      var saved := NextOf(t, w.timers);
      Walk(AfterAll(w.timers, cs), saved, w.visited + [t], w.made + Trace(w.timers, saved, cs))
  }

  function Go<T(==)>(w: Walk<T>, css: seq<seq<Call<T>>>): (r: Walk<T>) {
    if css == [] then w else Visit(Go(w, css[..|css| - 1]), css[|css| - 1])
  }

  // ---------- What calls do to the walk ----------

  function Ahead<T(==)>(m: Made<T>): (r: seq<T>) {
    From(m.saved, m.timers)
  }

  /** What the walk would visit after the saved timer. */
  function Behind<T(==)>(m: Made<T>): (r: seq<T>) {
    if Ahead(m) == [] then [] else Ahead(m)[1..]
  }

  /** The call unlinks the saved timer. */
  predicate Cuts<T(==)>(m: Made<T>) {
    m.call.Free? && m.saved == Some(m.call.t)
  }

  /** The call links the saved timer, which was unlinked. */
  predicate Relinks<T(==)>(m: Made<T>) {
    (m.call.Add? || m.call.Init?) && m.saved == Some(m.call.t) && m.call.t !in m.timers
  }

  predicate Plain<T(==)>(made: seq<Made<T>>) {
    forall m | m in made :: !m.call.Add? && !m.call.Init?
  }

  function Elements<T(==)>(s: seq<T>): (r: set<T>) {
    set x | x in s
  }

  /** What a call takes away from the walk: a timer still ahead, or all that stands behind the saved one. */
  function Taken<T(==)>(m: Made<T>): (r: set<T>) {
    if Cuts(m) then Elements(Behind(m))
    else if m.call.Free? && m.call.t in Ahead(m) then {m.call.t}
    else {}
  }

  function Skipped<T(==)>(made: seq<Made<T>>): (r: set<T>) {
    if made == [] then {} else Skipped(made[..|made| - 1]) + Taken(made[|made| - 1])
  }

  /** The timers a cut has left behind and no later call has unlinked. */
  function Lost<T(==)>(made: seq<Made<T>>): (r: set<T>) {
    if made == [] then {} else LostAfter(Lost(made[..|made| - 1]), made[|made| - 1])
  }

  function LostAfter<T(==)>(lost: set<T>, m: Made<T>): (r: set<T>) {
    if !m.call.Free? then lost
    else (lost - {m.call.t}) + if Cuts(m) then Elements(Behind(m)) else {}
  }

  // ---------- Following the links ----------

  lemma {:induction false} FromAt<T>(s: seq<T>, i: nat)
    requires Distinct(s) && i < |s|
    ensures From(Some(s[i]), s) == s[i..]
    decreases i
  {
    if i > 0 {
      assert s[1..][i - 1] == s[i] && s[i] in s[1..];
      FromAt(s[1..], i - 1);
      assert s[1..][i - 1..] == s[i..];
    }
  }

  lemma {:induction false} FromUnlinked<T>(x: T, s: seq<T>)
    requires x !in s
    ensures From(Some(x), s) == [x]
  {
    if s != [] {
      FromUnlinked(x, s[1..]);
    }
  }

  lemma {:induction false} FromStarts<T>(x: T, s: seq<T>)
    ensures From(Some(x), s) != [] && From(Some(x), s)[0] == x
    ensures forall y | y in From(Some(x), s) :: y == x || y in s
    ensures |From(Some(x), s)| > 1 ==> x in s
  {
    if s != [] && s[0] != x {
      FromStarts(x, s[1..]);
    }
  }

  /** Moving on takes the first timer off what is ahead. */
  lemma FromNext<T>(x: T, s: seq<T>)
    requires Distinct(s)
    ensures From(Some(x), s) != [] && From(NextOf(x, s), s) == From(Some(x), s)[1..]
    ensures NextOf(x, s).Some? ==> NextOf(x, s).value in s
  {
    if x in s {
      var i :| 0 <= i < |s| && s[i] == x;
      FromAt(s, i);
      if i + 1 < |s| {
        FromAt(s, i + 1);
      }
    } else {
      FromUnlinked(x, s);
    }
  }

  lemma {:induction false} FromMinus<T>(x: Option<T>, s: seq<T>, y: T)
    requires x != Some(y)
    ensures From(x, Minus(s, {y})) == Minus(From(x, s), {y})
  {
    if x.Some? {
      if s == [] {
        assert Minus([x.value], {y}) == [x.value] + Minus([], {y});
      } else if s[0] != x.value {
        FromMinus(x, s[1..], y);
      }
    }
  }

  lemma FromFirst<T>(x: Option<T>, s: seq<T>, y: T)
    requires x != Some(y)
    ensures From(x, [y] + s) == From(x, s)
  {
    assert ([y] + s)[1..] == s;
  }

  // ---------- One call ----------

  /** The state of a walk between two calls: `visited` is done, and `q` is the saved timer. */
  ghost predicate On<T>(all: seq<T>, visited: seq<T>, q: Option<T>, s: seq<T>, made: seq<Made<T>>) {
    && Distinct(all) && Distinct(s)
    && visited + From(q, s) == Minus(all, Skipped(made))
    && (forall x | x in Lost(made) :: x in s && x in all && x !in visited && x !in From(q, s))
    && (forall m | m in made && Cuts(m) :: m.call.t in visited || q == Some(m.call.t))
    && (Plain(made) ==> forall x | x in all && x in s :: x in visited || x in From(q, s) || x in Lost(made))
  }

  lemma AfterKeepsDistinct<T>(s: seq<T>, c: Call<T>)
    requires Distinct(s)
    ensures Distinct(After(s, c))
  {
    match c
    case Free(x) => MinusKeepsDistinct(s, {x});
    case Add(x) => assert ([x] + s)[1..] == s;
    case Init(x) => assert ([x] + s)[1..] == s;
    case _ =>
  }

  lemma MadeMore<T>(made: seq<Made<T>>, m: Made<T>)
    ensures Skipped(made + [m]) == Skipped(made) + Taken(m)
    ensures Lost(made + [m]) == LostAfter(Lost(made), m)
  {
    assert (made + [m])[..|made|] == made;
  }

  /** Taking away what stands behind, or one timer ahead. */
  lemma MinusAhead<T>(all: seq<T>, gone: set<T>, visited: seq<T>, ahead: seq<T>, more: set<T>)
    requires Distinct(all) && visited + ahead == Minus(all, gone)
    requires forall x | x in more :: x in ahead
    ensures visited + Minus(ahead, more) == Minus(all, gone + more)
    ensures (forall x | x in visited :: x !in ahead) && Distinct(ahead)
    ensures forall x | x in ahead :: x in all
  {
    MinusKeepsDistinct(all, gone);
    DistinctParts(visited, ahead);
    MinusTwice(all, gone, more);
    MinusAppend(visited, ahead, more);
    MinusNone(visited, more);
    forall x | x in ahead ensures x in all {
      assert x in visited + ahead;
    }
  }

  lemma OnlyFirst<T>(ahead: seq<T>)
    requires ahead != [] && Distinct(ahead)
    ensures Minus(ahead, Elements(ahead[1..])) == [ahead[0]]
  {
    MinusAllOf(ahead[1..], Elements(ahead[1..]));
    assert ahead[0] !in ahead[1..];
  }

  lemma {:induction false} MinusAllOf<T>(s: seq<T>, gone: set<T>)
    requires forall x | x in s :: x in gone
    ensures Minus(s, gone) == []
  {
    if s != [] {
      MinusAllOf(s[1..], gone);
    }
  }

  /** Unlinking the saved timer: it is still visited, and all that stood behind it is lost. */
  lemma CutStep<T>(all: seq<T>, visited: seq<T>, s: seq<T>, made: seq<Made<T>>, t: T)
    requires On(all, visited, Some(t), s, made)
    ensures On(all, visited, Some(t), Minus(s, {t}), made + [Made(Free(t), Some(t), s)])
  {
    var m, ahead := Made(Free(t), Some(t), s), From(Some(t), s);
    MadeMore(made, m);
    FromStarts(t, s);
    FromUnlinked(t, Minus(s, {t}));
    MinusAhead(all, Skipped(made), visited, ahead, Elements(ahead[1..]));
    OnlyFirst(ahead);
    MinusKeepsDistinct(s, {t});
    CutLoses(all, visited, s, Lost(made), t);
  }

  lemma CutLoses<T>(all: seq<T>, visited: seq<T>, s: seq<T>, lost: set<T>, t: T)
    requires var ahead := From(Some(t), s);
             && Distinct(ahead) && (forall x | x in visited :: x !in ahead) && (forall x | x in ahead :: x in all)
             && forall x | x in lost :: x in s && x in all && x !in visited && x !in ahead
    ensures forall x | x in LostAfter(lost, Made(Free(t), Some(t), s)) ::
              x in Minus(s, {t}) && x in all && x !in visited && x != t
    ensures From(Some(t), s) != [] && From(Some(t), s) == [t] + From(Some(t), s)[1..]
  {
    FromStarts(t, s);
    var ahead := From(Some(t), s);
    forall x | x in LostAfter(lost, Made(Free(t), Some(t), s))
      ensures x in Minus(s, {t}) && x in all && x !in visited && x != t
    {
      if x in ahead[1..] {
        assert x in ahead;
      } else {
        assert t in ahead;
      }
    }
  }

  /** Unlinking any other timer. */
  lemma FreeStep<T>(all: seq<T>, visited: seq<T>, q: Option<T>, s: seq<T>, made: seq<Made<T>>, y: T)
    requires On(all, visited, q, s, made) && q != Some(y)
    ensures On(all, visited, q, Minus(s, {y}), made + [Made(Free(y), q, s)])
  {
    var m, ahead := Made(Free(y), q, s), From(q, s);
    MadeMore(made, m);
    FromMinus(q, s, y);
    MinusAhead(all, Skipped(made), visited, ahead, Taken(m));
    MinusKeepsDistinct(s, {y});
    if y !in ahead {
      MinusNone(ahead, {y});
      MinusNone(ahead, {});
    }
    assert Minus(ahead, Taken(m)) == Minus(ahead, {y});
    if q.Some? {
      FromStarts(q.value, s);
    }
  }

  lemma AddStep<T>(all: seq<T>, visited: seq<T>, q: Option<T>, s: seq<T>, made: seq<Made<T>>, c: Call<T>)
    requires On(all, visited, q, s, made) && !Relinks(Made(c, q, s)) && !c.Free?
    ensures On(all, visited, q, After(s, c), made + [Made(c, q, s)])
  {
    MadeMore(made, Made(c, q, s));
    AfterKeepsDistinct(s, c);
    assert Taken(Made(c, q, s)) == {} && Skipped(made) + {} == Skipped(made);
    assert c in [c] && Made(c, q, s) in made + [Made(c, q, s)];
    if (c.Add? || c.Init?) && c.t !in s {
      FromFirst(q, s, c.t);
      assert Made(c, q, s) in made + [Made(c, q, s)];
    } else {
      assert forall m | m in made :: m in made + [Made(c, q, s)];
    }
  }

  lemma CallStep<T>(all: seq<T>, visited: seq<T>, q: Option<T>, s: seq<T>, made: seq<Made<T>>, c: Call<T>)
    requires On(all, visited, q, s, made) && !Relinks(Made(c, q, s))
    ensures On(all, visited, q, After(s, c), made + [Made(c, q, s)])
  {
    if !c.Free? {
      AddStep(all, visited, q, s, made, c);
    } else if q == Some(c.t) {
      CutStep(all, visited, s, made, c.t);
    } else {
      FreeStep(all, visited, q, s, made, c.t);
    }
  }

  lemma AppendStep<T>(a: seq<T>, x: T, b: seq<T>)
    ensures a + [x] + b == a + ([x] + b)
  {
  }

  predicate NoRelink<T(==)>(made: seq<Made<T>>) {
    forall m | m in made :: !Relinks(m)
  }

  lemma {:induction false} CallSteps<T>(all: seq<T>, visited: seq<T>, q: Option<T>, s: seq<T>, made: seq<Made<T>>,
                                        cs: seq<Call<T>>)
    requires On(all, visited, q, s, made) && NoRelink(Trace(s, q, cs))
    ensures On(all, visited, q, AfterAll(s, cs), made + Trace(s, q, cs))
    decreases cs
  {
    if cs == [] {
      assert made + [] == made;
    } else {
      var m, rest := Made(cs[0], q, s), Trace(After(s, cs[0]), q, cs[1..]);
      assert Trace(s, q, cs) == [m] + rest;
      assert m in [m] + rest && forall x | x in rest :: x in [m] + rest;
      CallStep(all, visited, q, s, made, cs[0]);
      AppendStep(made, m, rest);
      CallSteps(all, visited, q, After(s, cs[0]), made + [m], cs[1..]);
    }
  }

  /** The saved timer is saved anew and the one reached is visited. */
  lemma ReachNext<T>(all: seq<T>, visited: seq<T>, t: T, s: seq<T>, made: seq<Made<T>>)
    requires On(all, visited, Some(t), s, made)
    ensures On(all, visited + [t], NextOf(t, s), s, made)
  {
    FromNext(t, s);
    FromStarts(t, s);
    var ahead := From(Some(t), s);
    assert visited + ahead == visited + [t] + ahead[1..];
  }

  ghost predicate OnWalk<T>(all: seq<T>, w: Walk<T>) {
    On(all, w.visited, w.at, w.timers, w.made)
  }

  lemma {:induction false} WalkIsOn<T>(all: seq<T>, css: seq<seq<Call<T>>>)
    requires Distinct(all) && NoRelink(Go(Begin(all), css).made)
    ensures OnWalk(all, Go(Begin(all), css))
  {
    var n := |css| - 1;
    if css == [] {
      MinusNone(all, {});
      assert [] + From(Begin(all).at, all) == all;
    } else {
      var w := Go(Begin(all), css[..n]);
      assert forall m | m in w.made :: m in Go(Begin(all), css).made;
      WalkIsOn(all, css[..n]);
      if w.at.Some? {
        var t := w.at.value;
        var saved := NextOf(t, w.timers);
        assert forall m | m in Trace(w.timers, saved, css[n]) :: m in Go(Begin(all), css).made;
        ReachNext(all, w.visited, t, w.timers, w.made);
        CallSteps(all, w.visited + [t], saved, w.timers, w.made, css[n]);
      }
    }
  }

  // ---------- What a pass visits ----------

  /** Unless a callback unlinks the saved timer and links it again, a pass visits the timers linked at its start once
      each and in order, except those that calls have taken away. */
  lemma VisitsInOrder<T>(all: seq<T>, css: seq<seq<Call<T>>>)
    requires Distinct(all)
    ensures var w := Go(Begin(all), css);
            w.at == None && NoRelink(w.made) ==> w.visited == Minus(all, Skipped(w.made)) && Distinct(w.visited)
  {
    var w := Go(Begin(all), css);
    if w.at == None && NoRelink(w.made) {
      WalkIsOn(all, css);
      MinusKeepsDistinct(all, Skipped(w.made));
      assert w.visited + [] == w.visited;
    }
  }

  /** For callbacks that link nothing: the timers still linked at the end that the pass did not visit are exactly
      those that stood behind a saved timer when a callback unlinked it. The unlinked timer itself is visited. */
  lemma MissedExactly<T>(all: seq<T>, css: seq<seq<Call<T>>>)
    requires Distinct(all)
    ensures var w := Go(Begin(all), css);
            w.at == None && Plain(w.made) ==>
              && (forall x | x in all :: x in w.timers && x !in w.visited <==> x in Lost(w.made))
              && (forall m | m in w.made && Cuts(m) :: m.call.t in w.visited)
  {
    var w := Go(Begin(all), css);
    if w.at == None && Plain(w.made) {
      WalkIsOn(all, css);
    }
  }

  /** A timer is lost when it stood behind a saved timer that was unlinked, and was not unlinked later. */
  predicate LeftBehind<T(==)>(made: seq<Made<T>>, j: nat, x: T)
    requires j < |made|
  {
    Cuts(made[j]) && x in Behind(made[j]) && forall i | j < i < |made| :: made[i].call != Free(x)
  }

  lemma LeftBehindMore<T>(made: seq<Made<T>>, m: Made<T>, j: nat, x: T)
    requires j <= |made|
    ensures LeftBehind(made + [m], j, x)
       <==> if j < |made| then LeftBehind(made, j, x) && m.call != Free(x) else Cuts(m) && x in Behind(m)
  {
    var more := made + [m];
    assert more[|made|] == m && forall i | 0 <= i < |made| :: more[i] == made[i];
  }

  lemma {:induction false} LostExactly<T>(made: seq<Made<T>>, x: T)
    ensures x in Lost(made) <==> exists j | 0 <= j < |made| :: LeftBehind(made, j, x)
  {
    if made != [] {
      var n := |made| - 1;
      var front, m := made[..n], made[n];
      assert made == front + [m];
      LostExactly(front, x);
      forall j | 0 <= j <= n
        ensures LeftBehind(made, j, x)
           <==> if j < n then LeftBehind(front, j, x) && m.call != Free(x) else Cuts(m) && x in Behind(m)
      {
        LeftBehindMore(front, m, j, x);
      }
      assert Cuts(m) && x in Behind(m) ==> LeftBehind(made, n, x);
    }
  }

  /** A pass whose callbacks link nothing visits every timer that is not unlinked, if and only if each time a callback
      unlinks the saved timer all that stands behind it is unlinked later in the same pass: in particular when
      no callback unlinks the saved timer while others are linked behind it. */
  lemma CompleteExactly<T>(all: seq<T>, css: seq<seq<Call<T>>>)
    requires Distinct(all)
    ensures var w := Go(Begin(all), css);
            w.at == None && Plain(w.made) ==>
              ((forall x | x in all && x in w.timers :: x in w.visited)
               <==> forall j, x | 0 <= j < |w.made| && x in Behind(w.made[j]) :: !LeftBehind(w.made, j, x))
  {
    var w := Go(Begin(all), css);
    if w.at == None && Plain(w.made) {
      MissedExactly(all, css);
      WalkIsOn(all, css);
      forall j, x | 0 <= j < |w.made| && x in Behind(w.made[j]) && LeftBehind(w.made, j, x)
        ensures x in all && x in w.timers && x !in w.visited
      {
        LostExactly(w.made, x);
      }
      forall x | x in all && x in w.timers && x !in w.visited
        ensures exists j | 0 <= j < |w.made| :: x in Behind(w.made[j]) && LeftBehind(w.made, j, x)
      {
        LostExactly(w.made, x);
      }
    }
  }

  /** Calls that link nothing. */
  predicate PlainCalls<T(==)>(cs: seq<Call<T>>) {
    forall c | c in cs :: !c.Add? && !c.Init?
  }

  lemma {:induction false} PlainTrace<T>(s: seq<T>, saved: Option<T>, cs: seq<Call<T>>)
    requires PlainCalls(cs)
    ensures Plain(Trace(s, saved, cs))
    decreases cs
  {
    if cs != [] {
      PlainTrace(After(s, cs[0]), saved, cs[1..]);
    }
  }

  lemma {:induction false} PlainWalk<T>(w: Walk<T>, css: seq<seq<Call<T>>>)
    requires Plain(w.made) && forall cs | cs in css :: PlainCalls(cs)
    ensures Plain(Go(w, css).made)
  {
    if css != [] {
      var n := |css| - 1;
      PlainWalk(w, css[..n]);
      var v := Go(w, css[..n]);
      if v.at.Some? {
        PlainTrace(v.timers, NextOf(v.at.value, v.timers), css[n]);
      }
    }
  }

  /** The smallest example: the first callback unlinks the second timer and nothing else is called. The second timer
      is visited although it is no longer linked, and the timers behind it are not visited although they are. */
  lemma CutShort<T>(all: seq<T>, css: seq<seq<Call<T>>>)
    requires Distinct(all) && |all| > 2 && css != [] && css[0] == [Free(all[1])]
    requires forall i | 0 < i < |css| :: css[i] == []
    ensures var w := Go(Begin(all), css);
            w.at == None ==>
              w.visited == all[..2] && w.timers == all[..1] + all[2..] && Lost(w.made) == Elements(all[2..])
  {
    FirstCut(all, css);
    var m := Made(Free(all[1]), Some(all[1]), all);
    OneCut(all, m);
    MinusOne(all, 1);
    FrontOnly(all, 2);
    VisitsInOrder(all, css);
  }

  lemma OneCut<T>(all: seq<T>, m: Made<T>)
    requires Distinct(all) && |all| > 2 && m == Made(Free(all[1]), Some(all[1]), all)
    ensures Skipped([m]) == Lost([m]) == Elements(all[2..]) && NoRelink([m])
  {
    FromAt(all, 1);
    assert Behind(m) == all[2..];
    MadeMore([], m);
    assert [] + [m] == [m];
  }

  lemma FrontOnly<T>(all: seq<T>, k: nat)
    requires Distinct(all) && k <= |all|
    ensures Minus(all, Elements(all[k..])) == all[..k]
  {
    var gone := Elements(all[k..]);
    assert all == all[..k] + all[k..];
    DistinctParts(all[..k], all[k..]);
    MinusAppend(all[..k], all[k..], gone);
    MinusNone(all[..k], gone);
    MinusAllOf(all[k..], gone);
  }

  lemma {:induction false} FirstCut<T>(all: seq<T>, css: seq<seq<Call<T>>>)
    requires Distinct(all) && |all| > 2 && css != [] && css[0] == [Free(all[1])]
    requires forall i | 0 < i < |css| :: css[i] == []
    ensures var w := Go(Begin(all), css);
            w.made == [Made(Free(all[1]), Some(all[1]), all)] && w.timers == Minus(all, {all[1]})
  {
    var n := |css| - 1;
    if n == 0 {
      assert css[..0] == [];
      FromAt(all, 0);
      var cs := css[0];
      assert cs[1..] == [] && cs[0] == Free(all[1]);
      assert Trace(all, Some(all[1]), cs)
          == [Made(cs[0], Some(all[1]), all)] + Trace(After(all, cs[0]), Some(all[1]), cs[1..]);
      assert AfterAll(all, cs) == AfterAll(After(all, cs[0]), cs[1..]);
    } else {
      FirstCut(all, css[..n]);
      assert css[n] == [];
    }
  }

  // ---------- Callbacks that cut nothing off ----------

  /** No callback of the walk unlinks the timer behind its own, unless that is the last one. */
  predicate CutsNothing<T(==)>(w: Walk<T>, css: seq<seq<Call<T>>>) {
    css == []
    || (CutsNothing(w, css[..|css| - 1])
        && var v := Go(w, css[..|css| - 1]);
           v.at.Some? ==>
             |From(v.at, v.timers)| <= 2
             || forall c | c in css[|css| - 1] && c.Free? :: NextOf(v.at.value, v.timers) != Some(c.t))
  }

  predicate NothingBehind<T(==)>(m: Made<T>) {
    Cuts(m) ==> Behind(m) == []
  }

  lemma {:induction false} TraceCuts<T>(s: seq<T>, saved: Option<T>, cs: seq<Call<T>>)
    requires PlainCalls(cs)
    requires |From(saved, s)| <= 1 || forall c | c in cs && c.Free? :: saved != Some(c.t)
    ensures forall m | m in Trace(s, saved, cs) :: NothingBehind(m)
    decreases cs
  {
    if cs != [] {
      var c := cs[0];
      assert NothingBehind(Made(c, saved, s));
      assert forall d | d in cs[1..] :: d in cs;
      if c.Free? {
        if saved == Some(c.t) {
          FromUnlinked(c.t, Minus(s, {c.t}));
        } else {
          FromMinus(saved, s, c.t);
        }
      }
      TraceCuts(After(s, c), saved, cs[1..]);
    }
  }

  lemma {:induction false} WalkCuts<T>(all: seq<T>, css: seq<seq<Call<T>>>)
    requires Distinct(all) && CutsNothing(Begin(all), css) && forall cs | cs in css :: PlainCalls(cs)
    ensures forall m | m in Go(Begin(all), css).made :: NothingBehind(m)
  {
    if css != [] {
      var n := |css| - 1;
      WalkCuts(all, css[..n]);
      var v := Go(Begin(all), css[..n]);
      if v.at.Some? {
        PlainWalk(Begin(all), css[..n]);
        WalkIsOn(all, css[..n]);
        FromNext(v.at.value, v.timers);
        TraceCuts(v.timers, NextOf(v.at.value, v.timers), css[n]);
      }
    }
  }

  /** When callbacks link nothing, and none unlinks the timer behind its own while others stand behind that one, a pass
      visits every timer that is not unlinked. */
  lemma CompleteWithoutCuts<T>(all: seq<T>, css: seq<seq<Call<T>>>)
    requires Distinct(all) && CutsNothing(Begin(all), css) && forall cs | cs in css :: PlainCalls(cs)
    ensures var w := Go(Begin(all), css); w.at == None ==> forall x | x in all && x in w.timers :: x in w.visited
  {
    WalkCuts(all, css);
    PlainWalk(Begin(all), css);
    CompleteExactly(all, css);
    var made := Go(Begin(all), css).made;
    forall j, x | 0 <= j < |made| && x in Behind(made[j]) ensures !LeftBehind(made, j, x) {
      assert made[j] in made && NothingBehind(made[j]);
    }
  }

  // ---------- Callbacks that link the saved timer again ----------

  function Front<T>(s: seq<T>): (r: seq<T>) {
    if s == [] then [] else s[..|s| - 1]
  }

  /** The part of a walk since it last started over: the visits before that, the list at that moment, and the calls made
      since. When the saved timer is linked again it is the first of the list, and the walk starts over with it. */
  datatype Segment<T> = Segment(done: seq<T>, list: seq<T>, made: seq<Made<T>>)

  function SegmentOf<T(==)>(all: seq<T>, made: seq<Made<T>>): (g: Segment<T>) {
    if made == [] then Segment([], all, [])
    else
      var g, m := SegmentOf(all, made[..|made| - 1]), made[|made| - 1];
      if Relinks(m) then Segment(g.done + Front(Minus(g.list, Skipped(g.made))), After(m.timers, m.call), [])
      else g.(made := g.made + [m])
  }

  lemma SegmentMore<T>(all: seq<T>, made: seq<Made<T>>, m: Made<T>)
    ensures var g := SegmentOf(all, made);
            SegmentOf(all, made + [m]) ==
            if Relinks(m) then Segment(g.done + Front(Minus(g.list, Skipped(g.made))), After(m.timers, m.call), [])
            else g.(made := g.made + [m])
  {
    assert (made + [m])[..|made|] == made;
  }

  ghost predicate OnSegment<T>(all: seq<T>, visited: seq<T>, q: Option<T>, s: seq<T>, made: seq<Made<T>>) {
    var g := SegmentOf(all, made);
    g.done <= visited && On(g.list, visited[|g.done|..], q, s, g.made)
  }

  lemma OnAnew<T>(s: seq<T>, t: T)
    requires Distinct(s) && t !in s
    ensures On([t] + s, [], Some(t), [t] + s, [])
  {
    var list := [t] + s;
    assert list[1..] == s;
    MinusNone(list, {});
    assert From(Some(t), list) == list && [] + list == list;
  }

  lemma RelinkStep<T>(all: seq<T>, visited: seq<T>, s: seq<T>, made: seq<Made<T>>, c: Call<T>)
    requires OnSegment(all, visited, Some(c.t), s, made) && Relinks(Made(c, Some(c.t), s))
    ensures OnSegment(all, visited, Some(c.t), After(s, c), made + [Made(c, Some(c.t), s)])
  {
    var g, t := SegmentOf(all, made), c.t;
    var since := visited[|g.done|..];
    SegmentMore(all, made, Made(c, Some(t), s));
    PendingLast(g.list, since, s, g.made, t);
    assert g.done + since == visited && visited[|visited|..] == [];
    OnAnew(s, t);
  }

  lemma PendingLast<T>(list: seq<T>, since: seq<T>, s: seq<T>, made: seq<Made<T>>, t: T)
    requires On(list, since, Some(t), s, made) && t !in s
    ensures Front(Minus(list, Skipped(made))) == since
  {
    FromUnlinked(t, s);
    assert Front(since + [t]) == since;
  }

  lemma SegmentStep<T>(all: seq<T>, visited: seq<T>, q: Option<T>, s: seq<T>, made: seq<Made<T>>, c: Call<T>)
    requires OnSegment(all, visited, q, s, made)
    ensures OnSegment(all, visited, q, After(s, c), made + [Made(c, q, s)])
  {
    if Relinks(Made(c, q, s)) {
      RelinkStep(all, visited, s, made, c);
    } else {
      var g := SegmentOf(all, made);
      SegmentMore(all, made, Made(c, q, s));
      CallStep(g.list, visited[|g.done|..], q, s, g.made, c);
    }
  }

  lemma {:induction false} SegmentSteps<T>(all: seq<T>, visited: seq<T>, q: Option<T>, s: seq<T>, made: seq<Made<T>>,
                                           cs: seq<Call<T>>)
    requires OnSegment(all, visited, q, s, made)
    ensures OnSegment(all, visited, q, AfterAll(s, cs), made + Trace(s, q, cs))
    decreases cs
  {
    if cs == [] {
      assert made + [] == made;
    } else {
      var m, rest := Made(cs[0], q, s), Trace(After(s, cs[0]), q, cs[1..]);
      SegmentStep(all, visited, q, s, made, cs[0]);
      AppendStep(made, m, rest);
      SegmentSteps(all, visited, q, After(s, cs[0]), made + [m], cs[1..]);
    }
  }

  lemma {:induction false} WalkIsSegmented<T>(all: seq<T>, css: seq<seq<Call<T>>>)
    requires Distinct(all)
    ensures var w := Go(Begin(all), css); OnSegment(all, w.visited, w.at, w.timers, w.made)
  {
    if css == [] {
      MinusNone(all, {});
      assert [] + From(Begin(all).at, all) == all;
    } else {
      var n := |css| - 1;
      WalkIsSegmented(all, css[..n]);
      SegmentVisit(all, Go(Begin(all), css[..n]), css[n]);
    }
  }

  lemma SegmentVisit<T>(all: seq<T>, w: Walk<T>, cs: seq<Call<T>>)
    requires OnSegment(all, w.visited, w.at, w.timers, w.made)
    ensures var v := Visit(w, cs); OnSegment(all, v.visited, v.at, v.timers, v.made)
  {
    if w.at.Some? {
      var t, g := w.at.value, SegmentOf(all, w.made);
      var since := w.visited[|g.done|..];
      ReachNext(g.list, since, t, w.timers, g.made);
      assert (w.visited + [t])[|g.done|..] == since + [t];
      SegmentSteps(all, w.visited + [t], NextOf(t, w.timers), w.timers, w.made, cs);
    }
  }

  /** What any pass visits: the visits until it last started over, and from then on the timers linked at that
      moment, once each and in order, except those that calls have taken away since. */
  lemma VisitsExactly<T>(all: seq<T>, css: seq<seq<Call<T>>>)
    requires Distinct(all)
    ensures var w := Go(Begin(all), css);
            var g := SegmentOf(all, w.made);
            w.at == None ==> w.visited == g.done + Minus(g.list, Skipped(g.made)) && Distinct(g.list)
  {
    WalkIsSegmented(all, css);
    var w := Go(Begin(all), css);
    var g := SegmentOf(all, w.made);
    if w.at == None {
      var since := w.visited[|g.done|..];
      assert since + [] == since && w.visited == g.done + since;
    }
  }

  /** Which timers are visited again: those visited before that were still linked when the walk last started over, and
      that no call has taken away since. */
  lemma VisitedAgainExactly<T>(all: seq<T>, css: seq<seq<Call<T>>>, x: T)
    requires Distinct(all)
    ensures var w := Go(Begin(all), css);
            var g := SegmentOf(all, w.made);
            w.at == None ==>
              && |g.done| <= |w.visited| && w.visited[..|g.done|] == g.done
              && (x in w.visited[|g.done|..] <==> x in g.list && x !in Skipped(g.made))
  {
    VisitsExactly(all, css);
    var w := Go(Begin(all), css);
    var g := SegmentOf(all, w.made);
    if w.at == None {
      var since := Minus(g.list, Skipped(g.made));
      assert (g.done + since)[|g.done|..] == since;
    }
  }

  /** The smallest pass that visits a timer twice: the first callback unlinks the second timer and links it again. */
  lemma VisitedTwice<T>(a: T, b: T)
    requires a != b
    ensures var w := Go(Begin([a, b]), [[Free(b), Add(b)], [], []]);
            w.at == None && w.visited == [a, b, a] && w.timers == [b, a]
  {
    RelinkTwo(a, b);
    NextOfTwo(a, b);
    NextOfTwo(b, a);
    GoThree(Begin([a, b]), [Free(b), Add(b)], [], []);
  }

  lemma RelinkTwo<T>(a: T, b: T)
    requires a != b
    ensures AfterAll([a, b], [Free(b), Add(b)]) == [b, a]
  {
    var s, cs := [a, b], [Free(b), Add(b)];
    var rest := cs[1..];
    assert rest == [Add(b)] && rest[1..] == [];
    assert s[1..] == [b] && [b][1..] == [];
    assert Minus(s, {b}) == [a] + Minus([b], {b}) == [a];
    assert AfterAll(s, cs) == AfterAll([a], rest);
    assert AfterAll([a], rest) == AfterAll([b] + [a], rest[1..]) == [b] + [a];
  }

  lemma NextOfTwo<T>(a: T, b: T)
    requires a != b
    ensures NextOf(a, [a, b]) == Some(b) && NextOf(b, [a, b]) == None
  {
    assert [a, b][1..] == [b];
    assert From(Some(b), [a, b]) == From(Some(b), [b]) == [b];
  }

  lemma GoThree<T>(w: Walk<T>, a: seq<Call<T>>, b: seq<Call<T>>, c: seq<Call<T>>)
    ensures Go(w, [a, b, c]) == Visit(Visit(Visit(w, a), b), c)
  {
    var three, two, one := [a, b, c], [a, b], [a];
    assert three[..2] == two && two[..1] == one && one[..0] == [];
    assert Go(w, one) == Visit(Go(w, one[..0]), a);
    assert Go(w, two) == Visit(Go(w, two[..1]), b);
    assert Go(w, three) == Visit(Go(w, three[..2]), c);
  }

  // ---------- Callbacks that unlink no timer but their own ----------

  predicate OwnFrees<T(==)>(t: T, cs: seq<Call<T>>) {
    forall c | c in cs && c.Free? :: c.t == t
  }

  ghost predicate Calm<T>(all: seq<T>, visited: seq<T>, q: Option<T>, s: seq<T>) {
    Distinct(all) && Distinct(s) && visited + From(q, s) == all && (q.Some? ==> q.value in s)
  }

  lemma {:induction false} CalmCalls<T>(all: seq<T>, visited: seq<T>, q: Option<T>, s: seq<T>, t: T, cs: seq<Call<T>>)
    requires Calm(all, visited, q, s) && t in visited && OwnFrees(t, cs)
    ensures Calm(all, visited, q, AfterAll(s, cs))
    decreases cs
  {
    if cs != [] {
      var c := cs[0];
      AfterKeepsDistinct(s, c);
      DistinctParts(visited, From(q, s));
      if c.Free? {
        if q.Some? {
          FromStarts(q.value, s);
        }
        FromMinus(q, s, c.t);
        MinusNone(From(q, s), {c.t});
      } else if (c.Add? || c.Init?) && c.t !in s {
        FromFirst(q, s, c.t);
      }
      CalmCalls(all, visited, q, After(s, c), t, cs[1..]);
    }
  }

  /** Each callback of the walk unlinks no timer but its own. */
  predicate OwnFreesOnly<T(==)>(w: Walk<T>, css: seq<seq<Call<T>>>) {
    css == []
    || (OwnFreesOnly(w, css[..|css| - 1])
        && var v := Go(w, css[..|css| - 1]); v.at.Some? && OwnFrees(v.at.value, css[|css| - 1]))
  }

  lemma CalmVisit<T>(all: seq<T>, w: Walk<T>, cs: seq<Call<T>>)
    requires Calm(all, w.visited, w.at, w.timers) && w.at.Some? && OwnFrees(w.at.value, cs)
    ensures var v := Visit(w, cs); Calm(all, v.visited, v.at, v.timers)
  {
    var t := w.at.value;
    FromNext(t, w.timers);
    FromStarts(t, w.timers);
    var ahead := From(Some(t), w.timers);
    assert w.visited + ahead == w.visited + [t] + ahead[1..];
    CalmCalls(all, w.visited + [t], NextOf(t, w.timers), w.timers, t, cs);
  }

  /** Then a pass visits exactly the timers linked at its start, in order, whatever else the callbacks do. */
  lemma {:induction false} OwnFreesVisitAll<T>(all: seq<T>, css: seq<seq<Call<T>>>)
    requires Distinct(all) && OwnFreesOnly(Begin(all), css)
    ensures var w := Go(Begin(all), css); Calm(all, w.visited, w.at, w.timers) && (w.at == None ==> w.visited == all)
  {
    if css == [] {
      assert [] + From(Begin(all).at, all) == all;
    } else {
      var n := |css| - 1;
      OwnFreesVisitAll(all, css[..n]);
      CalmVisit(all, Go(Begin(all), css[..n]), css[n]);
    }
    var w := Go(Begin(all), css);
    assert w.visited + [] == w.visited;
  }

  lemma {:induction false} VisitsCount<T>(w: Walk<T>, css: seq<seq<Call<T>>>)
    ensures |w.visited| <= |Go(w, css).visited| <= |w.visited| + |css|
  {
    if css != [] {
      VisitsCount(w, css[..|css| - 1]);
    }
  }

  /** A timer that no call unlinks stays linked. */
  lemma {:induction false} CallsKeep<T>(s: seq<T>, cs: seq<Call<T>>, x: T)
    requires x in s && Free(x) !in cs
    ensures x in AfterAll(s, cs)
    decreases cs
  {
    if cs != [] {
      CallsKeep(After(s, cs[0]), cs[1..], x);
    }
  }

  lemma {:induction false} WalkKeeps<T>(w: Walk<T>, css: seq<seq<Call<T>>>, x: T)
    requires x in w.timers && forall cs | cs in css :: Free(x) !in cs
    ensures x in Go(w, css).timers
  {
    if css != [] {
      var n := |css| - 1;
      WalkKeeps(w, css[..n], x);
      CallsKeep(Go(w, css[..n]).timers, css[n], x);
    }
  }
}
