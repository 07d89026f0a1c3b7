/**
timeouts.c: the u32_t timer list refines the queue of TimerQueue as long as the times that are
compared lie within half the 32-bit range of each other.
*/
module Timers {
  import opened TimerQueue
  import opened Wrap32

  /** What a callback does: time passes, sys_timeout, sys_untimeout. */
  datatype Op = Elapse(ms: nat) | Start(msecs: nat, h: Handler) | Stop(h: Handler)

  // ---------------------------------------------------------------- callbacks as functions

  /** The position of the first entry with handler h. */
  ghost function Find(q: seq<Entry>, h: Handler): (k: nat)
    ensures k <= |q| && (k < |q| ==> q[k].h == h) && forall i :: 0 <= i < k ==> q[i].h != h
  {
    if q == [] || q[0].h == h then 0 else 1 + Find(q[1..], h)
  }

  ghost function Without(q: seq<Entry>, h: Handler): seq<Entry> {
    var k := Find(q, h);
    if k < |q| then q[..k] + q[k + 1..] else q
  }

  datatype World = World(q: seq<Entry>, clock: nat)

  ghost function Do(w: World, op: Op): World {
    match op
    case Elapse(ms) => World(w.q, w.clock + ms)
    case Start(msecs, h) => World(Ins(w.q, Entry(w.clock + msecs, h)), w.clock)
    case Stop(h) => World(Without(w.q, h), w.clock)
  }

  ghost function DoAll(w: World, ops: seq<Op>): World
    decreases |ops|
  {
    if ops == [] then w else DoAll(Do(w, ops[0]), ops[1..])
  }

  /** When a cyclic timer that was due at `due` is due again, if its callback ends at `clock`. */
  function NextDue(due: int, interval: nat, clock: int): int {
    if due + interval < clock then clock + interval else due + interval
  }

  /** The callback of e, and its rescheduling if it is cyclic. */
  ghost function Fire(w: World, e: Entry, ops: seq<Op>): World {
    if e.h.Null? then w else
    var w1 := DoAll(w, ops);
    if e.h.Cyclic? then World(Ins(w1.q, Entry(NextDue(e.due, e.h.interval, w1.clock), e.h)), w1.clock) else w1
  }

  // ---------------------------------------------------------------- the half range

  function Elapsed(ops: seq<Op>): nat {
    if ops == [] then 0 else (if ops[0].Elapse? then ops[0].ms else 0) + Elapsed(ops[1..])
  }

  function ElapsedAll(env: seq<seq<Op>>): nat {
    if env == [] then 0 else Elapsed(env[0]) + ElapsedAll(env[1..])
  }

  predicate TameH(h: Handler, reach: nat) {
    h.Cyclic? ==> 0 < h.interval <= reach
  }

  /** Timers are only added for later, and no further than `reach`. */
  predicate TameOp(op: Op, reach: nat) {
    op.Start? ==> 0 < op.msecs <= reach && op.msecs <= MAX_MSECS && TameH(op.h, reach)
  }

  predicate TameOps(ops: seq<Op>, reach: nat) {
    forall i :: 0 <= i < |ops| ==> TameOp(ops[i], reach)
  }

  /**
  All that is pending lies in a window of half the 32-bit range from lo on, in which the time
  `left` and the longest timer still fit; nothing is due before `floor`.
  */
  ghost predicate Good(w: World, now: int, lo: int, reach: nat, left: nat, floor: int) {
    && Sorted(w.q) && lo <= floor <= now <= w.clock && w.clock + left + reach < lo + HALF
    && forall e :: e in w.q ==> floor <= e.due < lo + HALF && TameH(e.h, reach)
  }

  /** The times that a new timer is compared with are near. */
  lemma GoodNear(w: World, now: int, lo: int, reach: nat, left: nat, floor: int, d: int)
    requires Good(w, now, lo, reach, left, floor) && w.clock <= d <= w.clock + left + reach
    ensures forall e :: e in w.q ==> Near(d, e.due)
  {
  }

  lemma GoodBounds(w: World, now: int, lo: int, reach: nat, left: nat, floor: int)
    requires Good(w, now, lo, reach, left, floor)
    ensures lo <= floor <= now <= w.clock
  {
  }

  lemma GoodElapse(w: World, now: int, lo: int, reach: nat, left: nat, floor: int, ms: nat)
    requires Good(w, now, lo, reach, left + ms, floor)
    ensures Good(World(w.q, w.clock + ms), now, lo, reach, left, floor)
  {
  }

  lemma GoodIns(w: World, now: int, lo: int, reach: nat, left: nat, floor: int, x: Entry, h: Handler)
    requires Good(w, now, lo, reach, left, floor) && now <= x.due <= w.clock + left + reach && TameH(x.h, reach)
    ensures Good(World(Ins(w.q, x), w.clock), now, lo, reach, left, floor)
    ensures Total(Ins(w.q, x), now) == Total(w.q, now) + Weight(x, now)
    ensures TotalH(Ins(w.q, x), now, h) == TotalH(w.q, now, h) + if x.h == h then Weight(x, now) else 0
    ensures forall e :: e in w.q || e == x <==> e in Ins(w.q, x)
  {
    hide Ins, Total, TotalH, Sorted;
    InsSorted(w.q, x);
    InsTotal(w.q, x, now, h);
    InsIn(w.q, x);
  }

  lemma GoodWithout(w: World, now: int, lo: int, reach: nat, left: nat, floor: int, g: Handler, h: Handler)
    requires Good(w, now, lo, reach, left, floor)
    ensures Good(World(Without(w.q, g), w.clock), now, lo, reach, left, floor)
    ensures Total(Without(w.q, g), now) <= Total(w.q, now) && TotalH(Without(w.q, g), now, h) <= TotalH(w.q, now, h)
    ensures forall e :: e in w.q && e.h != g ==> e in Without(w.q, g)
    ensures forall e :: e in Without(w.q, g) ==> e in w.q
  {
    hide Total, TotalH, Find, TameH;
    var k := Find(w.q, g);
    if k < |w.q| { DropTotal(w.q, k, now, h); }
    assert k < |w.q| ==> w.q == w.q[..k] + [w.q[k]] + w.q[k + 1..];
  }

  /** The callback takes h off the list. */
  ghost predicate Stops(ops: seq<Op>, h: Handler) {
    exists i :: 0 <= i < |ops| && ops[i] == Stop(h)
  }

  /** Nothing that a callback does makes more work for the call that runs it. */
  lemma {:induction false} DoAllGood(w: World, ops: seq<Op>, now: int, lo: int, reach: nat, left: nat, floor: int, h: Handler)
    requires Good(w, now, lo, reach, left + Elapsed(ops), floor) && TameOps(ops, reach)
    ensures var r := DoAll(w, ops);
            && Good(r, now, lo, reach, left, floor) && r.clock == w.clock + Elapsed(ops)
            && Total(r.q, now) <= Total(w.q, now)
            && TotalH(r.q, now, h) <= TotalH(w.q, now, h)
            && (forall e :: e in w.q && !Stops(ops, e.h) ==> e in r.q)
            && (forall e :: e in r.q ==> e in w.q || now < e.due)
    decreases |ops|
  {
    hide Ins, Without, Total, TotalH, Stops;
    if ops != [] {
      var op, rest := ops[0], ops[1..];
      assert TameOp(op, reach);
      var w1 := Do(w, op);
      var more := left + Elapsed(rest);
      match op {
        case Elapse(ms) => GoodElapse(w, now, lo, reach, more, floor, ms);
        case Start(msecs, g) => GoodIns(w, now, lo, reach, more, floor, Entry(w.clock + msecs, g), h);
        case Stop(g) => GoodWithout(w, now, lo, reach, more, floor, g, h);
      }
      DoAllGood(w1, rest, now, lo, reach, left, floor, h);
      forall e | e in w.q && (op == Stop(e.h) || Stops(rest, e.h)) ensures Stops(ops, e.h) {
        StopsTail(ops, e.h);
      }
    }
  }

  lemma StopsTail(ops: seq<Op>, h: Handler)
    requires ops != [] && (ops[0] == Stop(h) || Stops(ops[1..], h))
    ensures Stops(ops, h)
  {
    if ops[0] != Stop(h) {
      var i :| 0 <= i < |ops[1..]| && ops[1..][i] == Stop(h);
      assert ops[i + 1] == Stop(h);
    }
  }

  /** A callback with its rescheduling: the entry's own share of the work is gone. */
  lemma FireGood(w: World, e: Entry, ops: seq<Op>, now: int, lo: int, reach: nat, left: nat, h: Handler)
    requires Good(w, now, lo, reach, left + Elapsed(ops), e.due) && TameOps(ops, reach) && TameH(e.h, reach) && e.due <= now
    ensures var r := Fire(w, e, ops);
            && Good(r, now, lo, reach, left, e.due) && r.clock <= w.clock + Elapsed(ops)
            && Total(r.q, now) < Total(w.q, now) + Weight(e, now)
            && TotalH(r.q, now, h) + (if e.h == h then 1 else 0) <= TotalH(w.q, now, h) + (if e.h == h then Weight(e, now) else 0)
            && (forall x :: x in w.q && !Stops(ops, x.h) ==> x in r.q)
            && (forall x :: x in r.q ==> x in w.q || now < x.due || (x.h == e.h && e.h.Cyclic? && x.due == now))
  {
    if !e.h.Null? {
      DoAllGood(w, ops, now, lo, reach, left, e.due, h);
      var w1 := DoAll(w, ops);
      if e.h.Cyclic? {
        GoodIns(w1, now, lo, reach, left, e.due, Entry(NextDue(e.due, e.h.interval, w1.clock), e.h), h);
      }
    }
  }

  /** A cyclic timer that is not overloaded is due again exactly its interval later, an overloaded one its interval from now. */
  lemma FireReschedules(w: World, e: Entry, ops: seq<Op>, now: int, lo: int, reach: nat, left: nat)
    requires Good(w, now, lo, reach, left + Elapsed(ops), e.due) && TameOps(ops, reach) && TameH(e.h, reach) && e.due <= now
    requires e.h.Cyclic?
    ensures var r, next := Fire(w, e, ops), e.due + e.h.interval;
            && (r.clock <= next ==> Entry(next, e.h) in r.q)
            && (r.clock > next ==> Entry(r.clock + e.h.interval, e.h) in r.q)
  {
    DoAllGood(w, ops, now, lo, reach, left, e.due, e.h);
    var w1 := DoAll(w, ops);
    InsIn(w1.q, Entry(NextDue(e.due, e.h.interval, w1.clock), e.h));
  }

  lemma Rebase(d: int, b: int, c: int)
    ensures U32(U32(U32(d) - U32(b)) + U32(c)) == U32(d - b + c)
  {
    U32Sub(d, b);
    U32Add(d - b, c);
  }

  /** One step of a callback. */
  lemma DoGood(w: World, ops: seq<Op>, now: int, lo: int, reach: nat, left: nat, floor: int)
    requires ops != [] && Good(w, now, lo, reach, left + Elapsed(ops), floor) && TameOps(ops, reach)
    ensures Good(Do(w, ops[0]), now, lo, reach, left + Elapsed(ops[1..]), floor) && TameOps(ops[1..], reach)
    ensures ops[0].Start? ==> ops[0].msecs <= MAX_MSECS && forall e :: e in w.q ==> Near(w.clock + ops[0].msecs, e.due)
  {
    hide Ins, Without, Good;
    var op, more := ops[0], left + Elapsed(ops[1..]);
    assert TameOp(op, reach);
    match op {
      case Elapse(ms) => GoodElapse(w, now, lo, reach, more, floor, ms);
      case Start(msecs, g) =>
        GoodNear(w, now, lo, reach, more, floor, w.clock + msecs);
        GoodBounds(w, now, lo, reach, more, floor);
        GoodIns(w, now, lo, reach, more, floor, Entry(w.clock + msecs, g), g);
      case Stop(g) => GoodWithout(w, now, lo, reach, more, floor, g, g);
    }
  }

  lemma CyclicNear(w: World, now: int, lo: int, reach: nat, left: nat, due: int, interval: nat)
    requires Good(w, now, lo, reach, left, due) && 0 < interval <= reach
    ensures U32(interval) == interval && Near(due + interval, w.clock)
    ensures forall e :: e in w.q ==> Near(NextDue(due, interval, w.clock), e.due)
  {
    GoodNear(w, now, lo, reach, left, due, NextDue(due, interval, w.clock));
    U32Is(interval, 0, interval);
  }

  /** No callback of env takes h off the list. */
  ghost predicate NoStop(env: seq<seq<Op>>, h: Handler) {
    forall k :: 0 <= k < |env| ==> !Stops(env[k], h)
  }

  lemma NoStopIs(env: seq<seq<Op>>, h: Handler)
    ensures NoStop(env, h) <==> forall k, j :: 0 <= k < |env| && 0 <= j < |env[k]| ==> env[k][j] != Stop(h)
  {
    forall k | 0 <= k < |env| ensures Stops(env[k], h) <==> exists j :: 0 <= j < |env[k]| && env[k][j] == Stop(h) { }
  }

  /** Taking the first timer, which has expired. */
  lemma PopGood(w: World, now: int, lo: int, reach: nat, left: nat, floor: int)
    requires Good(w, now, lo, reach, left, floor) && w.q != [] && w.q[0].due <= now
    ensures Good(World(w.q[1..], w.clock), now, lo, reach, left, w.q[0].due) && TameH(w.q[0].h, reach) && floor <= w.q[0].due
  {
    forall e | e in w.q[1..] ensures w.q[0].due <= e.due && e in w.q {
      var i :| 0 <= i < |w.q[1..]| && w.q[1..][i] == e;
      assert w.q[i + 1] == e;
    }
    assert w.q[0] in w.q;
  }

  ghost predicate Bounded(fired: seq<Entry>, q: seq<Entry>, q0: seq<Entry>, now: int, h: Handler) {
    CountH(fired, h) + TotalH(q, now, h) <= (if h.Cyclic? then 2 else 1) * CountH(q0, h)
  }

  ghost predicate AllBounded(fired: seq<Entry>, q: seq<Entry>, q0: seq<Entry>, now: int) {
    forall h :: Bounded(fired, q, q0, now, h)
  }

  ghost predicate UpTo(fired: seq<Entry>, floor: int) {
    forall e :: e in fired ==> e.due <= floor
  }

  /** What no callback stops is fired or still pending. */
  ghost predicate Kept(q0: seq<Entry>, env: seq<seq<Op>>, fired: seq<Entry>, q: seq<Entry>) {
    forall e :: e in q0 && NoStop(env, e.h) ==> e in fired || e in q
  }

  /** What was fired or is due was pending at the start, or is a cyclic timer due again at once. */
  ghost predicate Origin(q0: seq<Entry>, fired: seq<Entry>, q: seq<Entry>, now: int) {
    forall e :: e in fired || (e in q && e.due <= now) ==> e in q0 || (e.h.Cyclic? && e.due == now)
  }

  /** ops is a callback of env. */
  ghost predicate Harmless(env: seq<seq<Op>>, ops: seq<Op>) {
    forall h :: NoStop(env, h) ==> !Stops(ops, h)
  }

  /** Firing the first timer of w loses no other, and adds none that is due but itself. */
  ghost predicate Passes(w: World, r: World, ops: seq<Op>, now: int)
    requires w.q != []
  {
    && (forall x :: x in w.q && !Stops(ops, x.h) ==> x == w.q[0] || x in r.q)
    && (forall x :: x in r.q && x.due <= now ==> x in w.q || (x.h.Cyclic? && x.due == now))
  }

  lemma CheckBegins(q: seq<Entry>, env: seq<seq<Op>>, now: int, lo: int)
    ensures Sorted([]) && UpTo([], lo) && AllBounded([], q, q, now) && Kept(q, env, [], q) && Origin(q, [], q, now)
    ensures Sources(q, env, [], q, now, now)
    ensures forall w :: AllAgain(w, env, [], q)
    ensures forall w :: FireAll(w, [], env) == w && Heads(w, [], env)
  {
    forall h ensures Bounded([], q, q, now, h) { TotalBound(q, now, h); }
  }

  lemma CheckEnds(q0: seq<Entry>, env: seq<seq<Op>>, fired: seq<Entry>, q: seq<Entry>, now: int, floor: int)
    requires AllBounded(fired, q, q0, now) && Kept(q0, env, fired, q) && Origin(q0, fired, q, now) && UpTo(fired, floor) && floor <= now
    requires forall e :: e in q ==> now < e.due
    ensures forall e :: e in fired ==> e.due <= now
    ensures forall h :: CountH(fired, h) <= (if h.Cyclic? then 2 else 1) * CountH(q0, h)
    ensures forall e :: e in q0 && e.due <= now && NoStop(env, e.h) ==> e in fired
    ensures forall e :: e in fired ==> e in q0 || (e.h.Cyclic? && e.due == now)
    ensures forall e :: e in q0 && now < e.due && NoStop(env, e.h) ==> e in q
  {
    hide NoStop;
    forall h ensures CountH(fired, h) <= (if h.Cyclic? then 2 else 1) * CountH(q0, h) { assert Bounded(fired, q, q0, now, h); }
  }

  lemma MembersStep(w: World, r: World, fired: seq<Entry>, q0: seq<Entry>, env: seq<seq<Op>>, ops: seq<Op>, now: int)
    requires w.q != [] && w.q[0].due <= now && Kept(q0, env, fired, w.q) && Origin(q0, fired, w.q, now)
    requires Harmless(env, ops) && Passes(w, r, ops, now)
    ensures Kept(q0, env, fired + [w.q[0]], r.q) && Origin(q0, fired + [w.q[0]], r.q, now)
  {
    hide NoStop, Stops;
  }

  /** The loop of sys_check_timeouts: what one firing leaves to do. */
  lemma CheckStep(w: World, r: World, fired: seq<Entry>, q0: seq<Entry>, ops: seq<Op>, now: int, lo: int, reach: nat, left: nat, floor: int)
    requires Good(w, now, lo, reach, left + Elapsed(ops), floor) && TameOps(ops, reach) && w.q != [] && w.q[0].due <= now
    requires r == Fire(World(w.q[1..], w.clock), w.q[0], ops)
    requires Sorted(fired) && UpTo(fired, floor) && AllBounded(fired, w.q, q0, now)
    ensures Good(r, now, lo, reach, left, w.q[0].due) && Total(r.q, now) < Total(w.q, now)
    ensures Sorted(fired + [w.q[0]]) && UpTo(fired + [w.q[0]], w.q[0].due) && AllBounded(fired + [w.q[0]], r.q, q0, now)
    ensures Passes(w, r, ops, now)
  {
    hide Fire, Stops, TameOps, Good, Sorted, Total, TotalH, CountH;
    var e, w1 := w.q[0], World(w.q[1..], w.clock);
    PopGood(w, now, lo, reach, left + Elapsed(ops), floor);
    forall h ensures Bounded(fired + [e], r.q, q0, now, h) {
      assert Bounded(fired, w.q, q0, now, h);
      FireGood(w1, e, ops, now, lo, reach, left, h);
      CountNext(fired, e, h);
      TotalHead(w.q, now, h);
    }
    FireGood(w1, e, ops, now, lo, reach, left, e.h);
    TotalHead(w.q, now, e.h);
    SortedNext(fired, e, floor);
    assert w.q == [e] + w1.q;
  }

  // ---------------------------------------------------------------- all firings of a call

  function OpsAt(env: seq<seq<Op>>, k: nat): seq<Op> {
    if k < |env| then env[k] else []
  }

  /** The state after the timers `fired` were taken off the list and called, one after the other. */
  ghost function FireAll(w: World, fired: seq<Entry>, env: seq<seq<Op>>): World
    decreases |fired|
  {
    if fired == [] then w
    else
      var k := |fired| - 1;
      var w1 := FireAll(w, fired[..k], env);
      Fire(World(if w1.q == [] then [] else w1.q[1..], w1.clock), fired[k], OpsAt(env, k))
  }

  /** Each of them was the first of the list when its turn came. */
  ghost predicate Heads(w: World, fired: seq<Entry>, env: seq<seq<Op>>) {
    forall k :: 0 <= k < |fired| ==> HeadAt(w, fired, env, k)
  }

  ghost predicate HeadAt(w: World, fired: seq<Entry>, env: seq<seq<Op>>, k: nat)
    requires k < |fired|
  {
    var w1 := FireAll(w, fired[..k], env);
    w1.q != [] && w1.q[0] == fired[k]
  }

  lemma FireAllNext(w: World, fired: seq<Entry>, env: seq<seq<Op>>, e: Entry)
    requires Heads(w, fired, env) && FireAll(w, fired, env).q != [] && FireAll(w, fired, env).q[0] == e
    ensures var w1 := FireAll(w, fired, env);
            FireAll(w, fired + [e], env) == Fire(World(w1.q[1..], w1.clock), e, OpsAt(env, |fired|))
    ensures Heads(w, fired + [e], env)
  {
    hide Fire;
    var next := fired + [e];
    assert next[..|fired|] == fired;
    forall k | 0 <= k < |next| ensures HeadAt(w, next, env, k) {
      if k < |fired| {
        assert next[..k] == fired[..k];
        assert HeadAt(w, fired, env, k);
      }
    }
  }

  /** A fired cyclic timer is on the list again, or was and has been fired again; c is when its callback ended. */
  ghost predicate Again(fired: seq<Entry>, q: seq<Entry>, c: int, i: nat)
    requires i < |fired|
  {
    fired[i].h.Cyclic? ==>
      var x := Entry(NextDue(fired[i].due, fired[i].h.interval, c), fired[i].h);
      x in q || x in fired[i + 1..]
  }

  ghost predicate AllAgain(w: World, env: seq<seq<Op>>, fired: seq<Entry>, q: seq<Entry>) {
    forall i :: 0 <= i < |fired| && NoStop(env, fired[i].h) ==> Again(fired, q, FireAll(w, fired[..i + 1], env).clock, i)
  }

  lemma AllAgainIs(w: World, env: seq<seq<Op>>, fired: seq<Entry>, q: seq<Entry>)
    requires AllAgain(w, env, fired, q)
    ensures forall i :: 0 <= i < |fired| && fired[i].h.Cyclic? && NoStop(env, fired[i].h) ==>
              var e, c := fired[i], FireAll(w, fired[..i + 1], env).clock;
              var x := Entry(if c <= e.due + e.h.interval then e.due + e.h.interval else c + e.h.interval, e.h);
              x in q || x in fired[i + 1..]
  {
    hide FireAll, NoStop;
    forall i | 0 <= i < |fired| && fired[i].h.Cyclic? && NoStop(env, fired[i].h)
      ensures Again(fired, q, FireAll(w, fired[..i + 1], env).clock, i)
    {
    }
  }

  /** A callback started e between the times lo and hi. */
  ghost predicate StartedBy(ops: seq<Op>, e: Entry, lo: int, hi: int) {
    exists j :: 0 <= j < |ops| && StartedAt(ops[j], e, lo, hi)
  }

  ghost predicate StartedAt(op: Op, e: Entry, lo: int, hi: int) {
    op.Start? && op.h == e.h && lo + op.msecs <= e.due <= hi + op.msecs
  }

  ghost predicate Started(env: seq<seq<Op>>, e: Entry, lo: int, hi: int) {
    exists k :: 0 <= k < |env| && StartedBy(env[k], e, lo, hi)
  }

  /** e is a cyclic timer that was fired and is due again. */
  ghost predicate Returned(fired: seq<Entry>, e: Entry, lo: int, hi: int) {
    exists i, c :: 0 <= i < |fired| && lo <= c <= hi && ReturnedAt(fired[i], e, c)
  }

  ghost predicate ReturnedAt(f: Entry, e: Entry, c: int) {
    f.h.Cyclic? && e == Entry(NextDue(f.due, f.h.interval, c), f.h)
  }

  /** Everything pending was pending before, was started by a callback, or is due again. */
  ghost predicate Sources(q0: seq<Entry>, env: seq<seq<Op>>, fired: seq<Entry>, q: seq<Entry>, lo: int, hi: int) {
    forall e :: e in q ==> e in q0 || Started(env, e, lo, hi) || Returned(fired, e, lo, hi)
  }

  lemma {:induction false} DoAllSources(w: World, ops: seq<Op>, now: int, lo: int, reach: nat, left: nat, floor: int)
    requires Good(w, now, lo, reach, left + Elapsed(ops), floor) && TameOps(ops, reach)
    ensures forall e :: e in DoAll(w, ops).q ==> e in w.q || StartedBy(ops, e, w.clock, DoAll(w, ops).clock)
    ensures w.clock <= DoAll(w, ops).clock
    decreases |ops|
  {
    hide Do, Good, StartedBy, TameOps;
    if ops != [] {
      var op, rest, w1, r := ops[0], ops[1..], Do(w, ops[0]), DoAll(w, ops);
      DoGood(w, ops, now, lo, reach, left, floor);
      DoAllSources(w1, rest, now, lo, reach, left, floor);
      GoodSorted(w, now, lo, reach, left + Elapsed(ops), floor);
      OneSource(w, op);
      forall e | e in r.q && e !in w.q ensures StartedBy(ops, e, w.clock, r.clock) {
        FirstOrLater(ops, e, w.clock, w1.clock, r.clock);
      }
    }
  }

  lemma GoodSorted(w: World, now: int, lo: int, reach: nat, left: nat, floor: int)
    requires Good(w, now, lo, reach, left, floor)
    ensures Sorted(w.q)
  {
  }

  lemma FirstOrLater(ops: seq<Op>, e: Entry, lo: int, mid: int, hi: int)
    requires ops != [] && lo <= mid <= hi && (StartedAt(ops[0], e, lo, lo) || StartedBy(ops[1..], e, mid, hi))
    ensures StartedBy(ops, e, lo, hi)
  {
    if StartedAt(ops[0], e, lo, lo) {
      assert StartedAt(ops[0], e, lo, hi);
    } else {
      var j :| 0 <= j < |ops[1..]| && StartedAt(ops[1..][j], e, mid, hi);
      assert StartedAt(ops[j + 1], e, lo, hi);
    }
  }

  lemma OneSource(w: World, op: Op)
    requires Sorted(w.q)
    ensures w.clock <= Do(w, op).clock
    ensures forall e :: e in Do(w, op).q ==> e in w.q || StartedAt(op, e, w.clock, w.clock)
  {
    if op.Start? { InsIn(w.q, Entry(w.clock + op.msecs, op.h)); }
  }

  lemma FireSources(w: World, e: Entry, ops: seq<Op>, now: int, lo: int, reach: nat, left: nat)
    requires Good(w, now, lo, reach, left + Elapsed(ops), e.due) && TameOps(ops, reach) && TameH(e.h, reach) && e.due <= now
    ensures var r := Fire(w, e, ops);
            && w.clock <= r.clock
            && forall x :: x in r.q ==> x in w.q || StartedBy(ops, x, w.clock, r.clock) || ReturnedAt(e, x, r.clock)
  {
    hide StartedBy, DoAll;
    if !e.h.Null? {
      DoAllSources(w, ops, now, lo, reach, left, e.due);
      DoAllGood(w, ops, now, lo, reach, left, e.due, e.h);
      if e.h.Cyclic? { InsIn(DoAll(w, ops).q, Entry(NextDue(e.due, e.h.interval, DoAll(w, ops).clock), e.h)); }
    }
  }

  /** One more firing, for what is on the list again and where the rest comes from. */
  lemma AgainStep(w0: World, w: World, r: World, fired: seq<Entry>, env: seq<seq<Op>>, ops: seq<Op>, now: int)
    requires w.q != [] && AllAgain(w0, env, fired, w.q) && r == FireAll(w0, fired + [w.q[0]], env)
    requires Harmless(env, ops) && Passes(w, r, ops, now)
    requires w.q[0].h.Cyclic? ==> Entry(NextDue(w.q[0].due, w.q[0].h.interval, r.clock), w.q[0].h) in r.q
    ensures AllAgain(w0, env, fired + [w.q[0]], r.q)
  {
    hide NoStop, Stops, FireAll;
    var e := w.q[0];
    var next := fired + [e];
    forall i | 0 <= i < |next| && NoStop(env, next[i].h) ensures Again(next, r.q, FireAll(w0, next[..i + 1], env).clock, i) {
      if i < |fired| {
        assert next[..i + 1] == fired[..i + 1];
        assert Again(fired, w.q, FireAll(w0, fired[..i + 1], env).clock, i);
        assert next[i + 1..] == fired[i + 1..] + [e];
      } else {
        assert next[..i + 1] == next;
      }
    }
  }

  lemma SourcesStep(w: World, r: World, fired: seq<Entry>, q0: seq<Entry>, env: seq<seq<Op>>, k: nat, lo: int)
    requires w.q != [] && Sources(q0, env, fired, w.q, lo, w.clock) && lo <= w.clock <= r.clock
    requires forall x :: x in r.q ==> x in w.q || StartedBy(OpsAt(env, k), x, w.clock, r.clock) || ReturnedAt(w.q[0], x, r.clock)
    ensures Sources(q0, env, fired + [w.q[0]], r.q, lo, r.clock)
  {
    var next := fired + [w.q[0]];
    forall e | e in r.q ensures e in q0 || Started(env, e, lo, r.clock) || Returned(next, e, lo, r.clock) {
      if e in w.q {
        if Started(env, e, lo, w.clock) {
          var i :| 0 <= i < |env| && StartedBy(env[i], e, lo, w.clock);
          WiderStart(env[i], e, lo, w.clock, lo, r.clock);
        } else if Returned(fired, e, lo, w.clock) {
          var i, c :| 0 <= i < |fired| && lo <= c <= w.clock && ReturnedAt(fired[i], e, c);
          assert ReturnedAt(next[i], e, c);
        }
      } else if ReturnedAt(w.q[0], e, r.clock) {
        assert ReturnedAt(next[|fired|], e, r.clock);
      } else {
        WiderStart(OpsAt(env, k), e, w.clock, r.clock, lo, r.clock);
        NoStart(e, w.clock, r.clock);
        assert k < |env| && StartedBy(env[k], e, lo, r.clock);
      }
    }
  }

  /** Both, for a firing from a list within the window. */
  lemma LaterStep(w0: World, w: World, r: World, fired: seq<Entry>, q0: seq<Entry>, env: seq<seq<Op>>, now: int, lo: int, reach: nat, left: nat, floor: int)
    requires var ops := OpsAt(env, |fired|);
             && Good(w, now, lo, reach, left + Elapsed(ops), floor) && TameOps(ops, reach) && w.q != [] && w.q[0].due <= now
             && r == Fire(World(w.q[1..], w.clock), w.q[0], ops) && Harmless(env, ops) && Passes(w, r, ops, now)
    requires AllAgain(w0, env, fired, w.q) && Sources(q0, env, fired, w.q, now, w.clock) && r == FireAll(w0, fired + [w.q[0]], env)
    ensures AllAgain(w0, env, fired + [w.q[0]], r.q) && Sources(q0, env, fired + [w.q[0]], r.q, now, r.clock)
  {
    hide Fire, FireAll, AllAgain, Sources, Harmless, Passes, Good, StartedBy, Sorted, TameOps, Elapsed;
    var ops, e, w1 := OpsAt(env, |fired|), w.q[0], World(w.q[1..], w.clock);
    GoodBounds(w, now, lo, reach, left + Elapsed(ops), floor);
    PopGood(w, now, lo, reach, left + Elapsed(ops), floor);
    FireSources(w1, e, ops, now, lo, reach, left);
    if e.h.Cyclic? { FireReschedules(w1, e, ops, now, lo, reach, left); }
    AgainStep(w0, w, r, fired, env, ops, now);
    assert w.q == [e] + w1.q;
    SourcesStep(w, r, fired, q0, env, |fired|, now);
  }

  lemma NoStart(e: Entry, lo: int, hi: int)
    ensures !StartedBy([], e, lo, hi)
  {
  }

  lemma WiderStart(ops: seq<Op>, e: Entry, lo: int, hi: int, lo': int, hi': int)
    requires StartedBy(ops, e, lo, hi) && lo' <= lo && hi <= hi'
    ensures StartedBy(ops, e, lo', hi')
  {
    var j :| 0 <= j < |ops| && StartedAt(ops[j], e, lo, hi);
    assert StartedAt(ops[j], e, lo', hi');
  }

  // ---------------------------------------------------------------- the list

  class TimerList {
    /** The list from next_timeout on. */
    var list: seq<Timer>
    /** current_timeout_due_time */
    var currentDue: nat
    /** The time; sys_now() shows it as a u32_t. */
    var clock: nat
    /** The list with unbounded due times. */
    ghost var queue: seq<Entry>

    ghost predicate Valid()
      reads this
    {
      list == Wrap(queue) && Sorted(queue)
    }

    ghost function State(): World
      reads this
    {
      World(queue, clock)
    }

    constructor (now: nat)
      ensures Valid() && queue == [] && clock == now
    {
      list, currentDue, clock, queue := [], 0, now, [];
    }

    /** sys_now */
    function Now(): nat
      reads this
    {
      U32(clock)
    }

    /** sys_timeout_abs, for a timer due at d. */
    method TimeoutAbs(time: nat, h: Handler, ghost d: int)
      requires Valid() && time == U32(d) && forall e :: e in queue ==> Near(d, e.due)
      modifies `list, `queue
      ensures Valid() && queue == Ins(old(queue), Entry(d, h))
    {
      hide Ins, Wrap, Sorted, U32, TimeLess, Near;
      var t := Timer(time, h);
      ghost var x := Entry(d, h);
      InsSorted(queue, x);
      if list == [] {
        InsWrap(queue, x, 0);
        list, queue := [t], Ins(queue, x);
        return;
      }
      TimeLessIs(d, queue[0].due);
      if TimeLess(time, list[0].time) {
        InsWrap(queue, x, 0);
        list, queue := [t] + list, Ins(queue, x);
      } else {
        var i := 0;
        while i + 1 < |list| && !TimeLess(time, list[i + 1].time)
          invariant queue == old(queue) && list == Wrap(queue)
          invariant i < |list| && forall j :: 0 <= j <= i ==> queue[j].due <= d
        {
          TimeLessIs(d, queue[i + 1].due);
          i := i + 1;
        }
        if i + 1 < |list| { TimeLessIs(d, queue[i + 1].due); }
        InsWrap(queue, x, i + 1);
        list, queue := list[..i + 1] + [t] + list[i + 1..], Ins(queue, x);
      }
    }

    /** sys_timeout */
    method Timeout(msecs: nat, h: Handler)
      requires Valid() && msecs <= MAX_MSECS && forall e :: e in queue ==> Near(clock + msecs, e.due)
      modifies `list, `queue
      ensures Valid() && queue == Ins(old(queue), Entry(clock + msecs, h))
    {
      U32Add(clock, msecs);
      assert U32(msecs) == msecs;
      TimeoutAbs(U32(Now() + msecs), h, clock + msecs);
    }

    /** sys_untimeout: the first timer with handler h goes, the others stay. */
    method Untimeout(h: Handler)
      requires Valid()
      modifies `list, `queue
      ensures Valid() && queue == Without(old(queue), h)
    {
      hide U32, Wrap, Find, Sorted;
      ghost var k := Find(queue, h);
      if k < |queue| { DropWrap(queue, k); }
      var i := 0;
      while i < |list|
        invariant i <= k && list == Wrap(queue) && queue == old(queue)
      {
        if list[i].h == h {
          list, queue := list[..i] + list[i + 1..], queue[..i] + queue[i + 1..];
          return;
        }
        i := i + 1;
      }
    }

    /** sys_restart_timeouts: the first timer is due now, the others as far behind it as before. */
    method Restart()
      requires Valid()
      modifies `list, `queue
      ensures Valid() && queue == (if old(queue) == [] then [] else Shift(old(queue), clock - old(queue)[0].due))
    {
      hide U32, Wrap;
      if list == [] {
        return;
      }
      var base := list[0].time;
      ghost var delta := clock - queue[0].due;
      var i := 0;
      ghost var q := Shift(queue, delta);
      while i < |list|
        invariant i <= |list| == |queue| && queue == old(queue) && Sorted(queue)
        invariant forall j :: 0 <= j < i ==> list[j] == Timer(U32(q[j].due), queue[j].h)
        invariant forall j :: i <= j < |list| ==> list[j] == Timer(U32(queue[j].due), queue[j].h)
        invariant base == U32(queue[0].due)
      {
        Rebase(queue[i].due, queue[0].due, clock);
        list := list[i := list[i].(time := U32(U32(list[i].time - base) + Now()))];
        i := i + 1;
      }
      queue := q;
    }

    /** sys_timeouts_sleeptime: the least remaining time over all timers. */
    method SleepTime() returns (r: nat)
      requires Valid() && (queue != [] ==> Near(queue[0].due, clock))
      ensures queue == [] ==> r == INFINITE
      ensures queue != [] ==> r <= MAX_TIMEOUT && exists i :: 0 <= i < |queue| && r == if queue[i].due < clock then 0 else queue[i].due - clock
      ensures forall i :: 0 <= i < |queue| ==> r <= if queue[i].due < clock then 0 else queue[i].due - clock
    {
      if list == [] {
        return INFINITE;
      }
      TimeLessIs(queue[0].due, clock);
      U32Sub(queue[0].due, clock);
      if TimeLess(list[0].time, Now()) {
        return 0;
      }
      U32Is(queue[0].due - clock, 0, queue[0].due - clock);
      return U32(list[0].time - Now());
    }

    /** What a callback does. */
    method RunOps(ops: seq<Op>, ghost now: int, ghost lo: int, ghost reach: nat, ghost left: nat, ghost floor: int)
      requires Valid() && TameOps(ops, reach) && Good(State(), now, lo, reach, left + Elapsed(ops), floor)
      modifies `list, `queue, `clock
      ensures Valid() && State() == DoAll(old(State()), ops)
      decreases |ops|
    {
      hide Ins, Without, Sorted, U32, Wrap;
      if ops != [] {
        var op := ops[0];
        assert TameOp(op, reach);
        DoGood(State(), ops, now, lo, reach, left, floor);
        match op {
          case Elapse(ms) => clock := clock + ms;
          case Start(msecs, h) => Timeout(msecs, h);
          case Stop(h) => Untimeout(h);
        }
        RunOps(ops[1..], now, lo, reach, left, floor);
      }
    }

    /** lwip_cyclic_timer; `ops` is what its handler does. */
    method CyclicTimer(h: Handler, ops: seq<Op>, ghost now: int, ghost lo: int, ghost reach: nat, ghost left: nat, ghost due: int)
      requires Valid() && h.Cyclic? && TameH(h, reach) && currentDue == U32(due) && due <= now && TameOps(ops, reach)
      requires Good(State(), now, lo, reach, left + Elapsed(ops), due)
      modifies `list, `queue, `clock
      ensures Valid() && State() == Fire(old(State()), Entry(due, h), ops)
    {
      hide Ins, Without, Sorted, DoAll, TimeLess, U32, Good, TameOps, Wrap;
      DoAllGood(State(), ops, now, lo, reach, left, due, h);
      RunOps(ops, now, lo, reach, left, due);
      U32Add(due, h.interval);
      U32Add(clock, h.interval);
      CyclicNear(State(), now, lo, reach, left, due, h.interval);
      TimeLessIs(due + h.interval, clock);
      var next := U32(currentDue + h.interval);
      if TimeLess(next, Now()) {
        TimeoutAbs(U32(Now() + h.interval), h, clock + h.interval);
      } else {
        TimeoutAbs(next, h, due + h.interval);
      }
    }

    /** The call of a timer's function. */
    method FireOne(h: Handler, ops: seq<Op>, ghost now: int, ghost lo: int, ghost reach: nat, ghost left: nat, ghost due: int)
      requires Valid() && TameH(h, reach) && currentDue == U32(due) && due <= now && TameOps(ops, reach)
      requires Good(State(), now, lo, reach, left + Elapsed(ops), due)
      modifies `list, `queue, `clock
      ensures Valid() && State() == Fire(old(State()), Entry(due, h), ops)
    {
      if h.Cyclic? {
        CyclicTimer(h, ops, now, lo, reach, left, due);
      } else if h.OneShot? {
        RunOps(ops, now, lo, reach, left, due);
      }
    }

    /** The first timer, which has expired, is taken off the list and called. */
    method FireFirst(ops: seq<Op>, ghost now: int, ghost lo: int, ghost reach: nat, ghost left: nat, ghost floor: int)
      requires Valid() && queue != [] && queue[0].due <= now && TameOps(ops, reach)
      requires Good(State(), now, lo, reach, left + Elapsed(ops), floor)
      modifies this
      ensures Valid() && State() == Fire(World(old(queue)[1..], old(clock)), old(queue)[0], ops)
    {
      hide Good, Fire, TameOps, U32;
      PopGood(State(), now, lo, reach, left + Elapsed(ops), floor);
      ghost var e := queue[0];
      var t := list[0];
      list, queue := list[1..], queue[1..];
      currentDue := t.time;
      FireOne(t.h, ops, now, lo, reach, left, e.due);
    }

    /** The loop of sys_check_timeouts. */
    method CheckLoop(env: seq<seq<Op>>, ghost lo: int, ghost reach: nat) returns (ghost fired: seq<Entry>)
      requires Valid() && Good(State(), clock, lo, reach, ElapsedAll(env), lo)
      requires forall k :: 0 <= k < |env| ==> TameOps(env[k], reach)
      modifies this
      ensures Valid() && old(clock) <= clock
      ensures State() == FireAll(old(State()), fired, env) && Heads(old(State()), fired, env)
      ensures Sorted(fired) && forall e :: e in fired ==> e.due <= old(clock)
      ensures forall e :: e in queue ==> old(clock) < e.due
      ensures forall h :: CountH(fired, h) <= (if h.Cyclic? then 2 else 1) * CountH(old(queue), h)
      ensures forall e :: e in old(queue) && e.due <= old(clock) && NoStop(env, e.h) ==> e in fired
      ensures forall e :: e in fired ==> e in old(queue) || (e.h.Cyclic? && e.due == old(clock))
      ensures forall e :: e in old(queue) && old(clock) < e.due && NoStop(env, e.h) ==> e in queue
      ensures Sources(old(queue), env, fired, queue, old(clock), clock)
      ensures AllAgain(old(State()), env, fired, queue)
    {
      hide Ins, Without, Fire, TimeLess, CountH, TotalH, Total, U32, Stops, NoStop, Good, Sorted, TameOps, UpTo, AllBounded, Kept, Origin, Harmless, Passes, Wrap, FireAll, Heads, AllAgain, Sources, StartedBy, ReturnedAt, Elapsed, ElapsedAll;
      ghost var q0, now0, w0 := queue, clock, State();
      var now, k := Now(), 0;
      fired := [];
      ghost var floor := lo;
      CheckBegins(q0, env, now0, lo);
      GoodBounds(State(), now0, lo, reach, ElapsedAll(env), lo);
      assert env[0..] == env;
      while true
        invariant Valid() && k <= |env| && lo <= floor <= now0 && Good(State(), now0, lo, reach, ElapsedAll(env[k..]), floor)
        invariant Sorted(fired) && UpTo(fired, floor) && AllBounded(fired, queue, q0, now0)
        invariant Kept(q0, env, fired, queue) && Origin(q0, fired, queue, now0)
        invariant State() == FireAll(w0, fired, env) && Heads(w0, fired, env) && k == (if |fired| < |env| then |fired| else |env|)
        invariant AllAgain(w0, env, fired, queue) && Sources(q0, env, fired, queue, now0, clock)
        decreases Total(queue, now0)
      {
        GoodBounds(State(), now0, lo, reach, ElapsedAll(env[k..]), floor);
        if list == [] {
          CheckEnds(q0, env, fired, queue, now0, floor);
          return;
        }
        ghost var w, e := State(), queue[0];
        HeadNear(w, now0, lo, reach, ElapsedAll(env[k..]), floor);
        TimeLessIs(now0, e.due);
        if TimeLess(now, list[0].time) {
          CheckEnds(q0, env, fired, queue, now0, floor);
          return;
        }
        var ops := if k < |env| then env[k] else [];
        assert ops == OpsAt(env, |fired|);
        NextOps(env, k, reach);
        k := if k < |env| then k + 1 else k;
        ghost var left := ElapsedAll(env[k..]);
        FireFirst(ops, now0, lo, reach, left, floor);
        CheckStep(w, State(), fired, q0, ops, now0, lo, reach, left, floor);
        MembersStep(w, State(), fired, q0, env, ops, now0);
        FireAllNext(w0, fired, env, e);
        LaterStep(w0, w, State(), fired, q0, env, now0, lo, reach, left, floor);
        GoodBounds(State(), now0, lo, reach, left, e.due);
        fired, floor := fired + [e], e.due;
      }
    }

    /**
    sys_check_timeouts; the k-th callback does env[k]. All pending times, the time that passes
    and the longest timer fit into half the 32-bit range from lo on.
    */
    method CheckTimeouts(env: seq<seq<Op>>, ghost lo: int, ghost reach: nat) returns (ghost fired: seq<Entry>)
      requires Valid() && Good(State(), clock, lo, reach, ElapsedAll(env), lo)
      requires forall k :: 0 <= k < |env| ==> TameOps(env[k], reach)
      modifies this
      ensures Valid() && old(clock) <= clock
      ensures State() == FireAll(old(State()), fired, env) && Heads(old(State()), fired, env)
      ensures Sorted(fired) && forall e :: e in fired ==> e.due <= old(clock)
      ensures forall e :: e in queue ==> old(clock) < e.due
      ensures forall h :: CountH(fired, h) <= (if h.Cyclic? then 2 else 1) * CountH(old(queue), h)
      ensures forall e :: e in old(queue) && e.due <= old(clock) && NoStop(env, e.h) ==> e in fired
      ensures forall e :: e in fired ==> e in old(queue) || (e.h.Cyclic? && e.due == old(clock))
      ensures forall e :: e in old(queue) && old(clock) < e.due && NoStop(env, e.h) ==> e in queue
      ensures Sources(old(queue), env, fired, queue, old(clock), clock)
      ensures forall i :: 0 <= i < |fired| && fired[i].h.Cyclic? && NoStop(env, fired[i].h) ==>
                var e, c := fired[i], FireAll(old(State()), fired[..i + 1], env).clock;
                var x := Entry(if c <= e.due + e.h.interval then e.due + e.h.interval else c + e.h.interval, e.h);
                x in queue || x in fired[i + 1..]
    {
      hide FireAll, Heads, NoStop, AllAgain, Sources, Sorted, CountH, Good, TameOps, Wrap, U32, ElapsedAll, Valid, NextDue;
      ghost var w := State();
      fired := CheckLoop(env, lo, reach);
      AllAgainIs(w, env, fired, queue);
    }
  }

  lemma DropWrap(q: seq<Entry>, k: nat)
    requires Sorted(q) && k < |q|
    ensures Sorted(q[..k] + q[k + 1..]) && Wrap(q[..k] + q[k + 1..]) == Wrap(q)[..k] + Wrap(q)[k + 1..]
  {
    hide U32;
    assert |Wrap(q[..k] + q[k + 1..])| == |Wrap(q)[..k] + Wrap(q)[k + 1..]|;
  }

  lemma HeadNear(w: World, now: int, lo: int, reach: nat, left: nat, floor: int)
    requires Good(w, now, lo, reach, left, floor) && w.q != []
    ensures Near(now, w.q[0].due)
    ensures now < w.q[0].due ==> forall e :: e in w.q ==> now < e.due
  {
    assert w.q[0] in w.q;
  }

  lemma NextOps(env: seq<seq<Op>>, k: nat, reach: nat)
    requires k <= |env| && forall i :: 0 <= i < |env| ==> TameOps(env[i], reach)
    ensures var ops, k' := if k < |env| then env[k] else [], if k < |env| then k + 1 else k;
            && TameOps(ops, reach) && ElapsedAll(env[k..]) == ElapsedAll(env[k'..]) + Elapsed(ops)
            && Harmless(env, ops)
  {
    if k < |env| {
      assert env[k..][1..] == env[k + 1..];
    }
  }
}
