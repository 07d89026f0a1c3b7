/**
Cyclic timers over whole runs of sys_check_timeouts: one that is never overloaded does not
drift, however late its callbacks are made.
*/
module CyclicRuns {
  import opened TimerQueue
  import opened Timers

  /** The entries with handler h, in order. */
  ghost function ForH(q: seq<Entry>, h: Handler): seq<Entry> {
    if q == [] then [] else (if q[0].h == h then [q[0]] else []) + ForH(q[1..], h)
  }

  lemma {:induction false} ForJoin(a: seq<Entry>, b: seq<Entry>, h: Handler)
    ensures ForH(a + b, h) == ForH(a, h) + ForH(b, h)
    decreases |a|
  {
    hide ForH;
    if a == [] {
      ForNone(h);
      assert a + b == b;
    } else {
      ForHead(a, h);
      ForHead(a + b, h);
      assert (a + b)[1..] == a[1..] + b;
      ForJoin(a[1..], b, h);
    }
  }

  lemma {:induction false} ForIns(q: seq<Entry>, x: Entry, h: Handler)
    ensures x.h != h ==> ForH(Ins(q, x), h) == ForH(q, h)
    ensures x.h == h && ForH(q, h) == [] ==> ForH(Ins(q, x), h) == [x]
    decreases |q|
  {
    if q == [] || x.due < q[0].due {
      assert ([x] + q)[1..] == q;
    } else {
      ForIns(q[1..], x, h);
      assert ([q[0]] + Ins(q[1..], x))[1..] == Ins(q[1..], x);
    }
  }

  lemma ForWithout(q: seq<Entry>, g: Handler, h: Handler)
    requires g != h
    ensures ForH(Without(q, g), h) == ForH(q, h)
  {
    hide ForH, Find;
    var k := Find(q, g);
    if k < |q| {
      ForJoin(q[..k], q[k + 1..], h);
      ForJoin(q[..k], q[k..], h);
      ForHead(q[k..], h);
      assert q[..k] + q[k..] == q && q[k..][1..] == q[k + 1..];
    }
  }

  /** The callback neither starts nor stops h. */
  ghost predicate Leaves(ops: seq<Op>, h: Handler) {
    forall i :: 0 <= i < |ops| ==> !ops[i].Elapse? ==> ops[i].h != h
  }

  lemma {:induction false} ForDoAll(w: World, ops: seq<Op>, h: Handler)
    requires Leaves(ops, h)
    ensures ForH(DoAll(w, ops).q, h) == ForH(w.q, h)
    decreases |ops|
  {
    hide ForH, Ins, Without;
    if ops != [] {
      var op := ops[0];
      match op {
        case Elapse(_) =>
        case Start(msecs, g) => ForIns(w.q, Entry(w.clock + msecs, g), h);
        case Stop(g) => ForWithout(w.q, g, h);
      }
      ForDoAll(Do(w, op), ops[1..], h);
    }
  }

  /** A firing leaves the timer h alone, or puts it back one interval later, or one from now if that time is over. */
  lemma ForFire(w: World, e: Entry, ops: seq<Op>, h: Handler)
    requires h.Cyclic? && Leaves(ops, h)
    ensures e.h != h ==> ForH(Fire(w, e, ops).q, h) == ForH(w.q, h)
    ensures e.h == h && ForH(w.q, h) == [] ==>
              var c, next := Fire(w, e, ops).clock, e.due + h.interval;
              ForH(Fire(w, e, ops).q, h) == [Entry(if c <= next then next else c + h.interval, h)]
  {
    hide ForH, Ins, DoAll;
    if !e.h.Null? {
      var w1 := DoAll(w, ops);
      ForDoAll(w, ops, h);
      if e.h.Cyclic? { ForIns(w1.q, Entry(NextDue(e.due, e.h.interval, w1.clock), e.h), h); }
    }
  }

  /** No callback of the k-th timer fired, if it is h, ends later than one interval behind its time. */
  ghost predicate OnTime(w: World, fired: seq<Entry>, env: seq<seq<Op>>, h: Handler)
    requires h.Cyclic?
  {
    forall k :: 0 <= k < |fired| && fired[k].h == h ==> FireAll(w, fired[..k + 1], env).clock <= fired[k].due + h.interval
  }

  ghost predicate AllLeave(env: seq<seq<Op>>, h: Handler) {
    forall k :: 0 <= k < |env| ==> Leaves(env[k], h)
  }

  /** The entries of `times` are due at d, d + interval, d + 2 * interval and so on. */
  ghost predicate Steady(times: seq<Entry>, d: int, h: Handler)
    requires h.Cyclic?
  {
    forall k :: 0 <= k < |times| ==> times[k] == Entry(d + k * h.interval, h)
  }

  /** One call of sys_check_timeouts. */
  lemma {:induction false} SteadyCall(w: World, fired: seq<Entry>, env: seq<seq<Op>>, h: Handler, d: int)
    requires h.Cyclic? && ForH(w.q, h) == [Entry(d, h)] && AllLeave(env, h) && Heads(w, fired, env) && OnTime(w, fired, env, h)
    ensures Steady(ForH(fired, h), d, h)
    ensures ForH(FireAll(w, fired, env).q, h) == [Entry(d + |ForH(fired, h)| * h.interval, h)]
    decreases |fired|
  {
    hide ForH, Fire, FireAll, Heads, OnTime, Steady;
    if fired == [] {
      ForNone(h);
      NoneFired(w, env, h, d);
    } else {
      var k := |fired| - 1;
      var before, e := fired[..k], fired[k];
      ShorterCall(w, fired, env, h);
      SteadyCall(w, before, env, h, d);
      assert fired == before + [e];
      SteadyFiring(w, before, e, env, h, d);
    }
  }

  lemma NoneFired(w: World, env: seq<seq<Op>>, h: Handler, d: int)
    requires h.Cyclic?
    ensures FireAll(w, [], env) == w && Steady([], d, h)
  {
  }

  lemma SteadyFiring(w: World, before: seq<Entry>, e: Entry, env: seq<seq<Op>>, h: Handler, d: int)
    requires h.Cyclic? && AllLeave(env, h) && Heads(w, before, env) && FireAll(w, before, env).q != [] && FireAll(w, before, env).q[0] == e
    requires e.h == h ==> FireAll(w, before + [e], env).clock <= e.due + h.interval
    requires Steady(ForH(before, h), d, h) && ForH(FireAll(w, before, env).q, h) == [Entry(d + |ForH(before, h)| * h.interval, h)]
    ensures Steady(ForH(before + [e], h), d, h)
    ensures ForH(FireAll(w, before + [e], env).q, h) == [Entry(d + |ForH(before + [e], h)| * h.interval, h)]
  {
    hide ForH, Fire, FireAll, Heads, Steady;
    var w1, n := FireAll(w, before, env), |ForH(before, h)|;
    ForJoin(before, [e], h);
    ForOne(e, h);
    ForHead(w1.q, h);
    FireAllNext(w, before, env, e);
    assert Leaves(OpsAt(env, |before|), h);
    ForFire(World(w1.q[1..], w1.clock), e, OpsAt(env, |before|), h);
    if e.h == h {
      SteadyHead(w1.q, d + n * h.interval, h);
      SteadyNext(ForH(before, h), d, h);
      NextMultiple(d, n, h.interval);
    } else {
      assert ForH(before, h) + [] == ForH(before, h);
    }
  }

  lemma SteadyHead(q: seq<Entry>, d: int, h: Handler)
    requires q != [] && q[0].h == h && ForH(q, h) == [Entry(d, h)]
    ensures q[0] == Entry(d, h) && ForH(q[1..], h) == []
  {
    assert ForH(q, h)[0] == q[0];
  }

  lemma SteadyNext(times: seq<Entry>, d: int, h: Handler)
    requires h.Cyclic? && Steady(times, d, h)
    ensures Steady(times + [Entry(d + |times| * h.interval, h)], d, h)
  {
  }

  lemma NextMultiple(d: int, n: nat, i: nat)
    ensures d + n * i + i == d + (n + 1) * i
  {
  }

  lemma ForNone(h: Handler)
    ensures ForH([], h) == []
  {
  }

  lemma ForOne(e: Entry, h: Handler)
    ensures ForH([e], h) == if e.h == h then [e] else []
  {
  }

  lemma ForHead(q: seq<Entry>, h: Handler)
    requires q != []
    ensures ForH(q, h) == (if q[0].h == h then [q[0]] else []) + ForH(q[1..], h)
  {
  }

  lemma ShorterCall(w: World, fired: seq<Entry>, env: seq<seq<Op>>, h: Handler)
    requires h.Cyclic? && fired != [] && Heads(w, fired, env) && OnTime(w, fired, env, h)
    ensures var k := |fired| - 1;
            var w1 := FireAll(w, fired[..k], env);
            && Heads(w, fired[..k], env) && OnTime(w, fired[..k], env, h) && w1.q != [] && w1.q[0] == fired[k]
            && (fired[k].h == h ==> FireAll(w, fired[..k] + [fired[k]], env).clock <= fired[k].due + h.interval)
  {
    hide FireAll;
    var before := fired[..|fired| - 1];
    assert HeadAt(w, fired, env, |fired| - 1);
    assert fired[..|fired| - 1 + 1] == before + [fired[|fired| - 1]];
    forall k | 0 <= k < |before| ensures HeadAt(w, before, env, k) {
      assert before[..k] == fired[..k];
      assert HeadAt(w, fired, env, k);
    }
    forall k | 0 <= k < |before| && before[k].h == h
      ensures FireAll(w, before[..k + 1], env).clock <= before[k].due + h.interval
    {
      assert before[..k + 1] == fired[..k + 1];
    }
  }

  // ---------------------------------------------------------------- many calls

  /** Some time passes, and then sys_check_timeouts fires these timers. */
  datatype Turn = Turn(wait: nat, env: seq<seq<Op>>, fired: seq<Entry>)

  ghost function Wait(w: World, wait: nat): World {
    World(w.q, w.clock + wait)
  }

  ghost function After(w: World, turns: seq<Turn>): World
    decreases |turns|
  {
    if turns == [] then w else
    var t := turns[0];
    After(FireAll(Wait(w, t.wait), t.fired, t.env), turns[1..])
  }

  ghost predicate IsRun(w: World, turns: seq<Turn>)
    decreases |turns|
  {
    turns == [] || (
      var t := turns[0];
      Heads(Wait(w, t.wait), t.fired, t.env) && IsRun(FireAll(Wait(w, t.wait), t.fired, t.env), turns[1..]))
  }

  /** Callbacks leave h to itself, and it is never overloaded. */
  ghost predicate Undisturbed(w: World, turns: seq<Turn>, h: Handler)
    requires h.Cyclic?
    decreases |turns|
  {
    turns == [] || (
      var t := turns[0];
      && AllLeave(t.env, h) && OnTime(Wait(w, t.wait), t.fired, t.env, h)
      && Undisturbed(FireAll(Wait(w, t.wait), t.fired, t.env), turns[1..], h))
  }

  ghost function AllFired(turns: seq<Turn>): seq<Entry> {
    if turns == [] then [] else turns[0].fired + AllFired(turns[1..])
  }

  /**
  No drift: a cyclic timer that is due at d and is never overloaded fires for the times d,
  d + interval, d + 2 * interval and so on, and after n firings is pending for d + n * interval.
  */
  lemma {:induction false} NoDrift(w: World, turns: seq<Turn>, h: Handler, d: int)
    requires h.Cyclic? && ForH(w.q, h) == [Entry(d, h)] && IsRun(w, turns) && Undisturbed(w, turns, h)
    ensures var times := ForH(AllFired(turns), h);
            && (forall k :: 0 <= k < |times| ==> times[k] == Entry(d + k * h.interval, h))
            && ForH(After(w, turns).q, h) == [Entry(d + |times| * h.interval, h)]
    decreases |turns|
  {
    hide ForH, FireAll, Heads, OnTime, AllLeave;
    if turns == [] {
      ForNone(h);
    } else {
      var t, rest := turns[0], turns[1..];
      var w1 := FireAll(Wait(w, t.wait), t.fired, t.env);
      var a, b := ForH(t.fired, h), ForH(AllFired(rest), h);
      SteadyCall(Wait(w, t.wait), t.fired, t.env, h, d);
      var d1 := d + |a| * h.interval;
      NoDrift(w1, rest, h, d1);
      ForJoin(t.fired, AllFired(rest), h);
      SteadyJoin(a, b, d, h);
    }
  }

  lemma SteadyJoin(a: seq<Entry>, b: seq<Entry>, d: int, h: Handler)
    requires h.Cyclic? && Steady(a, d, h) && Steady(b, d + |a| * h.interval, h)
    ensures Steady(a + b, d, h) && d + |a| * h.interval + |b| * h.interval == d + |a + b| * h.interval
  {
    forall k | |a| <= k < |a + b| ensures (a + b)[k] == Entry(d + k * h.interval, h) {
      assert (a + b)[k] == b[k - |a|];
      Sum(|a|, k - |a|, h.interval);
    }
    Sum(|a|, |b|, h.interval);
  }

  lemma Sum(x: nat, y: nat, i: nat)
    ensures x * i + y * i == (x + y) * i
  {
  }

  /** A turn of the timer list. */
  method TakeTurn(list: TimerList, wait: nat, env: seq<seq<Op>>, ghost lo: int, ghost reach: nat) returns (ghost t: Turn)
    requires list.Valid() && Good(World(list.queue, list.clock + wait), list.clock + wait, lo, reach, ElapsedAll(env), lo)
    requires forall k :: 0 <= k < |env| ==> TameOps(env[k], reach)
    modifies list
    ensures list.Valid() && t.wait == wait && t.env == env
    ensures IsRun(old(list.State()), [t]) && list.State() == After(old(list.State()), [t])
    ensures forall e :: e in t.fired ==> e.due <= old(list.clock) + wait && (e in old(list.queue) || (e.h.Cyclic? && e.due == old(list.clock) + wait))
    ensures forall e :: e in old(list.queue) && e.due <= old(list.clock) + wait && NoStop(env, e.h) ==> e in t.fired
  {
    hide FireAll, Heads, Good;
    ghost var w := list.State();
    list.clock := list.clock + wait;
    ghost var fired := list.CheckTimeouts(env, lo, reach);
    t := Turn(wait, env, fired);
    assert [t][1..] == [];
  }

  lemma {:induction false} NoTime(w: World, fired: seq<Entry>)
    ensures FireAll(w, fired, []).clock == w.clock
    decreases |fired|
  {
    if fired != [] { NoTime(w, fired[..|fired| - 1]); }
  }

  lemma {:induction false} ForMember(q: seq<Entry>, e: Entry)
    requires e in q
    ensures ForH(q, e.h) != []
    decreases |q|
  {
    if q[0] != e { ForMember(q[1..], e); }
  }

  lemma {:induction false} ForFrom(q: seq<Entry>, h: Handler)
    ensures forall e :: e in ForH(q, h) ==> e in q
    decreases |q|
  {
    if q != [] { ForFrom(q[1..], h); }
  }

  /** A timer of 1000 ms that is due at 100 and called at 105 is due again at 1100. */
  method LateTimer() returns (list: TimerList)
    ensures list.Valid() && ForH(list.queue, Cyclic(0, 1000)) == [Entry(1100, Cyclic(0, 1000))]
  {
    hide FireAll, ForH, Heads, NoStop, Wrap, Ins;
    var h := Cyclic(0, 1000);
    list := new TimerList(0);
    list.Timeout(100, h);
    assert list.queue == [Entry(100, h)] by { FirstIn(Entry(100, h)); }
    ghost var w := list.State();
    ghost var t := TakeTurn(list, 105, [], 0, 1000);
    ForOne(Entry(100, h), h);
    LateTurn(w, t, h);
    NoDrift(w, [t], h, 100);
    NoStops(h);
    ForMember(t.fired, Entry(100, h));
    ghost var times := ForH(AllFired([t]), h);
    assert AllFired([t]) == t.fired by { assert [t][1..] == []; }
    ForFrom(t.fired, h);
    assert |times| == 1 by { OneTime(times, h); }
  }

  lemma OneTime(times: seq<Entry>, h: Handler)
    requires h == Cyclic(0, 1000) && times != [] && (forall k :: 0 <= k < |times| ==> times[k] == Entry(100 + k * h.interval, h))
    requires forall e :: e in times ==> e.due <= 105
    ensures |times| == 1
  {
    var e := times[|times| - 1];
    assert e in times;
  }

  lemma FirstIn(e: Entry)
    ensures Ins([], e) == [e]
  {
  }

  lemma NoStops(h: Handler)
    ensures NoStop([], h)
  {
  }

  lemma LateTurn(w: World, t: Turn, h: Handler)
    requires h == Cyclic(0, 1000) && w.clock == 0 && t.wait == 105 && t.env == []
    requires forall e :: e in t.fired ==> e.due >= 100
    ensures Undisturbed(w, [t], h)
  {
    hide FireAll;
    assert [t][1..] == [];
    forall k | 0 <= k < |t.fired| && t.fired[k].h == h
      ensures FireAll(Wait(w, t.wait), t.fired[..k + 1], t.env).clock <= t.fired[k].due + h.interval
    {
      NoTime(Wait(w, t.wait), t.fired[..k + 1]);
      assert t.fired[k] in t.fired;
    }
  }
}
