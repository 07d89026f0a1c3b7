/**
The timer list of timeouts.c over unbounded time: a priority queue that is first-in-first-out
among equal times.
*/
module TimerQueue {
  import opened Wrap32

  /** A timer's function and argument; lwip_cyclic_timer gets its cyclic timer as argument. */
  datatype Handler = Cyclic(id: nat, interval: nat) | OneShot(id: nat, arg: nat) | Null

  datatype Entry = Entry(due: int, h: Handler)

  /** struct sys_timeo: `time` is a u32_t. */
  datatype Timer = Timer(time: nat, h: Handler)

  const HALF: nat := 0x8000_0000
  /** LWIP_MAX_TIMEOUT */
  const MAX_TIMEOUT: nat := 0x7FFF_FFFF
  /** The longest time that sys_timeout takes. */
  const MAX_MSECS: nat := 0x3FFF_FFFF
  const INFINITE: nat := 0xFFFF_FFFF

  // ---------------------------------------------------------------- wrap-around

  /** TIME_LESS_THAN */
  predicate TimeLess(t: nat, compareTo: nat) {
    U32(t - compareTo) > MAX_TIMEOUT
  }

  /** Within half the range the macro is the order of unbounded time. */
  lemma TimeLessIs(a: int, b: int)
    requires Near(a, b)
    ensures TimeLess(U32(a), U32(b)) <==> a < b
  {
    SignOfDifference(a, b);
  }

  // ---------------------------------------------------------------- the queue

  ghost predicate Sorted(q: seq<Entry>) {
    forall i, j :: 0 <= i < j < |q| ==> q[i].due <= q[j].due
  }

  /** Behind everything that is due no later. */
  ghost function Ins(q: seq<Entry>, x: Entry): (r: seq<Entry>)
    ensures |r| == |q| + 1
  {
    if q == [] || x.due < q[0].due then [x] + q else [q[0]] + Ins(q[1..], x)
  }

  lemma {:induction false} InsAt(q: seq<Entry>, x: Entry, k: nat)
    requires k <= |q| && (forall i :: 0 <= i < k ==> q[i].due <= x.due) && (k < |q| ==> x.due < q[k].due)
    ensures Ins(q, x) == q[..k] + [x] + q[k..]
    decreases k
  {
    if k > 0 {
      InsAt(q[1..], x, k - 1);
      assert q[..k] == [q[0]] + q[1..][..k - 1] && q[1..][k - 1..] == q[k..];
    }
  }

  lemma {:induction false} InsSplit(q: seq<Entry>, x: Entry) returns (k: nat)
    requires Sorted(q)
    ensures k <= |q| && (forall i :: 0 <= i < k ==> q[i].due <= x.due) && (forall i :: k <= i < |q| ==> x.due < q[i].due)
    ensures Ins(q, x) == q[..k] + [x] + q[k..]
  {
    k := 0;
    while k < |q| && q[k].due <= x.due
      invariant k <= |q| && forall i :: 0 <= i < k ==> q[i].due <= x.due
    {
      k := k + 1;
    }
    InsAt(q, x, k);
  }

  lemma InsSorted(q: seq<Entry>, x: Entry)
    requires Sorted(q)
    ensures Sorted(Ins(q, x)) && multiset(Ins(q, x)) == multiset(q) + multiset{x}
  {
    hide Ins;
    var k := InsSplit(q, x);
    SortedMiddle(q, x, k);
    hide Sorted;
    assert q == q[..k] + q[k..];
  }

  lemma SortedMiddle(q: seq<Entry>, x: Entry, k: nat)
    requires Sorted(q) && k <= |q|
    requires (forall i :: 0 <= i < k ==> q[i].due <= x.due) && (forall i :: k <= i < |q| ==> x.due < q[i].due)
    ensures Sorted(q[..k] + [x] + q[k..])
  {
    var r := q[..k] + [x] + q[k..];
    forall i, j | 0 <= i < j < |r| ensures r[i].due <= r[j].due {
      assert r[i] == (if i < k then q[i] else if i == k then x else q[i - 1]);
      assert r[j] == (if j < k then q[j] else if j == k then x else q[j - 1]);
    }
  }

  lemma InsIn(q: seq<Entry>, x: Entry)
    requires Sorted(q)
    ensures forall e :: e in Ins(q, x) <==> e == x || e in q
  {
    var k := InsSplit(q, x);
    hide Ins, Sorted;
    assert q == q[..k] + q[k..];
  }

  /** The entries due at time d, in order. */
  ghost function DueAt(q: seq<Entry>, d: int): seq<Entry> {
    if q == [] then [] else (if q[0].due == d then [q[0]] else []) + DueAt(q[1..], d)
  }

  /** First in, first out among equal times: a new entry is the last of its time. */
  lemma {:induction false} InsFifo(q: seq<Entry>, x: Entry, d: int)
    requires Sorted(q)
    ensures DueAt(Ins(q, x), d) == if x.due == d then DueAt(q, d) + [x] else DueAt(q, d)
    decreases |q|
  {
    if q == [] || x.due < q[0].due {
      assert ([x] + q)[1..] == q;
      if x.due == d { NoneDue(q, d); }
    } else {
      InsFifo(q[1..], x, d);
      assert ([q[0]] + Ins(q[1..], x))[1..] == Ins(q[1..], x);
    }
  }

  lemma {:induction false} NoneDue(q: seq<Entry>, d: int)
    requires forall i :: 0 <= i < |q| ==> q[i].due != d
    ensures DueAt(q, d) == []
    decreases |q|
  {
    if q != [] { NoneDue(q[1..], d); }
  }

  /** Every due time moved by the same amount. */
  ghost function Shift(q: seq<Entry>, delta: int): (r: seq<Entry>)
    ensures |r| == |q| && forall i :: 0 <= i < |q| ==> r[i] == Entry(q[i].due + delta, q[i].h)
  {
    seq(|q|, i requires 0 <= i < |q| => Entry(q[i].due + delta, q[i].h))
  }

  /** What the u32_t list shows of the queue. */
  ghost function Wrap(q: seq<Entry>): (r: seq<Timer>)
    ensures |r| == |q| && forall i :: 0 <= i < |q| ==> r[i] == Timer(U32(q[i].due), q[i].h)
  {
    seq(|q|, i requires 0 <= i < |q| => Timer(U32(q[i].due), q[i].h))
  }

  lemma InsWrap(q: seq<Entry>, x: Entry, k: nat)
    requires k <= |q| && (forall i :: 0 <= i < k ==> q[i].due <= x.due) && (k < |q| ==> x.due < q[k].due)
    ensures Wrap(Ins(q, x)) == Wrap(q)[..k] + [Timer(U32(x.due), x.h)] + Wrap(q)[k..]
  {
    hide U32, Ins;
    InsAt(q, x, k);
  }

  // ---------------------------------------------------------------- counting

  ghost function CountH(q: seq<Entry>, h: Handler): nat {
    if q == [] then 0 else (if q[0].h == h then 1 else 0) + CountH(q[1..], h)
  }

  /** How often an entry can still fire in a call that began at `now`. */
  ghost function Weight(e: Entry, now: int): nat {
    if now < e.due then 0 else if e.h.Cyclic? && e.due < now then 2 else 1
  }

  ghost function Total(q: seq<Entry>, now: int): nat {
    if q == [] then 0 else Weight(q[0], now) + Total(q[1..], now)
  }

  ghost function TotalH(q: seq<Entry>, now: int, h: Handler): nat {
    if q == [] then 0 else (if q[0].h == h then Weight(q[0], now) else 0) + TotalH(q[1..], now, h)
  }

  lemma {:induction false} TotalJoin(a: seq<Entry>, b: seq<Entry>, now: int, h: Handler)
    ensures Total(a + b, now) == Total(a, now) + Total(b, now)
    ensures TotalH(a + b, now, h) == TotalH(a, now, h) + TotalH(b, now, h)
    ensures CountH(a + b, h) == CountH(a, h) + CountH(b, h)
    decreases |a|
  {
    if a == [] {
      assert a + b == b;
    } else {
      assert (a + b)[1..] == a[1..] + b;
      TotalJoin(a[1..], b, now, h);
    }
  }

  lemma TotalHead(q: seq<Entry>, now: int, h: Handler)
    requires q != []
    ensures Total(q, now) == Total(q[1..], now) + Weight(q[0], now)
    ensures TotalH(q, now, h) == TotalH(q[1..], now, h) + if q[0].h == h then Weight(q[0], now) else 0
  {
  }

  lemma CountNext(q: seq<Entry>, x: Entry, h: Handler)
    ensures CountH(q + [x], h) == CountH(q, h) + if x.h == h then 1 else 0
  {
    TotalJoin(q, [x], 0, h);
  }

  lemma SortedNext(q: seq<Entry>, x: Entry, floor: int)
    requires Sorted(q) && (forall e :: e in q ==> e.due <= floor) && floor <= x.due
    ensures Sorted(q + [x]) && forall e :: e in q + [x] ==> e.due <= x.due
  {
  }

  lemma {:induction false} TotalBound(q: seq<Entry>, now: int, h: Handler)
    ensures TotalH(q, now, h) <= (if h.Cyclic? then 2 else 1) * CountH(q, h)
    decreases |q|
  {
    if q != [] { TotalBound(q[1..], now, h); }
  }

  lemma TotalMiddle(a: seq<Entry>, x: Entry, c: seq<Entry>, now: int, h: Handler)
    ensures Total(a + [x] + c, now) == Total(a + c, now) + Weight(x, now)
    ensures TotalH(a + [x] + c, now, h) == TotalH(a + c, now, h) + if x.h == h then Weight(x, now) else 0
  {
    var r := [x] + c;
    TotalHead(r, now, h);
    hide Total, TotalH, CountH;
    assert r[1..] == c && a + [x] + c == a + r;
    TotalJoin(a, r, now, h);
    TotalJoin(a, c, now, h);
  }

  lemma InsTotal(q: seq<Entry>, x: Entry, now: int, h: Handler)
    requires Sorted(q)
    ensures Total(Ins(q, x), now) == Total(q, now) + Weight(x, now)
    ensures TotalH(Ins(q, x), now, h) == TotalH(q, now, h) + if x.h == h then Weight(x, now) else 0
  {
    hide Total, TotalH, Ins;
    var k := InsSplit(q, x);
    TotalMiddle(q[..k], x, q[k..], now, h);
    assert q[..k] + q[k..] == q;
  }

  lemma DropTotal(q: seq<Entry>, k: nat, now: int, h: Handler)
    requires k < |q|
    ensures Total(q[..k] + q[k + 1..], now) == Total(q, now) - Weight(q[k], now)
    ensures TotalH(q[..k] + q[k + 1..], now, h) == TotalH(q, now, h) - if q[k].h == h then Weight(q[k], now) else 0
  {
    hide Total, TotalH;
    TotalMiddle(q[..k], q[k], q[k + 1..], now, h);
    assert q[..k] + [q[k]] + q[k + 1..] == q;
  }
}
