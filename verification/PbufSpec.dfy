/**
The pbuf memory of pbuf.c as a value: which pbufs are live, how they are chained, who
references them, and what the chains hold.
*/
module PbufSpec {
  import opened Prelude

  type Id = nat

  /**
  struct pbuf. The payload is `len` bytes of `buf` from `off` on; `contiguous` says that the
  buffer lies behind the struct, so that headers may be put in front of the payload.
  */
  datatype Pbuf = Pbuf(next: Option<Id>, buf: seq<byte>, off: nat, len: nat, totLen: nat, ref: nat, contiguous: bool) {
    ghost predicate WellFormed() {
      off + len <= |buf| && len < 0x1_0000 && totLen < 0x1_0000 && 0 < ref < 256
    }

    function Payload(): (r: seq<byte>)
      requires off + len <= |buf|
      ensures |r| == len
    {
      buf[off..off + len]
    }
  }

  type Mem = map<Id, Pbuf>

  // ---------------------------------------------------------------- reference counts

  /** The pbufs whose next pointer is p. */
  ghost function Preds(m: Mem, p: Id): set<Id> {
    set q | q in m && m[q].next == Some(p)
  }

  ghost function Extra(extra: Option<Id>, p: Id): nat {
    if extra == Some(p) then 1 else 0
  }

  ghost predicate RefOk(m: Mem, handles: multiset<Id>, extra: Option<Id>, p: Id)
    requires p in m
  {
    m[p].ref == handles[p] + |Preds(m, p)| + Extra(extra, p)
  }

  ghost predicate NextIn(m: Mem, p: Id)
    requires p in m
  {
    m[p].next.Some? ==> m[p].next.value in m
  }

  ghost predicate Closed(m: Mem) {
    forall p {:trigger NextIn(m, p)} :: p in m ==> NextIn(m, p)
  }

  /**
  Every count equals the handles that callers hold plus the next pointers to the pbuf, plus
  one for `extra`, whose reference is being given up; nothing points to a freed pbuf.
  */
  ghost predicate Refs(m: Mem, handles: multiset<Id>, extra: Option<Id>) {
    && Closed(m)
    && (forall p :: p in handles ==> p in m)
    && (extra.Some? ==> extra.value in m)
    && (forall p {:trigger RefOk(m, handles, extra, p)} :: p in m ==> RefOk(m, handles, extra, p))
    && (forall p :: p in m ==> 0 < m[p].ref)
  }

  datatype Freed = Freed(mem: Mem, count: nat)

  /** pbuf_free: deallocate from p on while the count drops to zero. */
  ghost function FreeFrom(m: Mem, p: Option<Id>): Freed
    decreases |m|
  {
    if p.None? || p.value !in m then Freed(m, 0)
    else if m[p.value].ref > 1 then Freed(m[p.value := m[p.value].(ref := m[p.value].ref - 1)], 0)
    else
      var r := FreeFrom(m - {p.value}, m[p.value].next);
      r.(count := r.count + 1)
  }

  /** Deallocating p hands its reference on to its successor. */
  lemma DropRefs(m: Mem, handles: multiset<Id>, p: Id)
    requires Refs(m, handles, Some(p)) && m[p].ref == 1
    ensures Refs(m - {p}, handles, m[p].next)
  {
    var m' := m - {p};
    assert m[p].next == Some(p) ==> p in Preds(m, p);
    assert RefOk(m, handles, Some(p), p);
    assert Preds(m, p) == {} && handles[p] == 0;
    forall q | q in m' ensures RefOk(m', handles, m[p].next, q) {
      assert RefOk(m, handles, Some(p), q);
      if m[p].next == Some(q) {
        assert Preds(m', q) == Preds(m, q) - {p} && p in Preds(m, q);
      } else {
        assert Preds(m', q) == Preds(m, q);
      }
    }
    assert NextIn(m, p);
    forall q | q in m' ensures NextIn(m', q) {
      assert NextIn(m, q);
      assert m'[q].next == Some(p) ==> q in Preds(m, p);
    }
  }

  lemma SameEdgesRefs(m: Mem, p: Id, b: Pbuf, q: Id)
    requires p in m && b.next == m[p].next
    ensures Preds(m[p := b], q) == Preds(m, q)
  {
  }

  /** pbuf_free keeps every count right. */
  lemma {:induction false} FreeKeepsRefs(m: Mem, handles: multiset<Id>, p: Option<Id>)
    requires Refs(m, handles, p)
    ensures Refs(FreeFrom(m, p).mem, handles, None)
    decreases |m|
  {
    if p.Some? {
      var a := p.value;
      if m[a].ref > 1 {
        var m' := FreeFrom(m, p).mem;
        forall q | q in m' ensures RefOk(m', handles, None, q) && NextIn(m', q) {
          SameEdgesRefs(m, a, m'[a], q);
          assert RefOk(m, handles, p, q) && NextIn(m, q);
        }
      } else {
        DropRefs(m, handles, a);
        FreeKeepsRefs(m - {a}, handles, m[a].next);
      }
    } else {
      forall q | q in m ensures RefOk(m, handles, None, q) { assert RefOk(m, handles, p, q); }
    }
  }

  /** pbuf_free changes nothing about a surviving pbuf but, for at most one, its count. */
  lemma {:induction false} FreeFrame(m: Mem, p: Option<Id>)
    ensures forall q :: q in FreeFrom(m, p).mem ==> q in m && FreeFrom(m, p).mem[q] == m[q].(ref := FreeFrom(m, p).mem[q].ref)
    ensures forall q :: q in FreeFrom(m, p).mem ==> 0 < m[q].ref ==> 0 < FreeFrom(m, p).mem[q].ref <= m[q].ref
    decreases |m|
  {
    if p.Some? && p.value in m && m[p.value].ref <= 1 {
      FreeFrame(m - {p.value}, m[p.value].next);
    }
  }

  /** Nothing is freed exactly when the first pbuf stays. */
  lemma FreeCount(m: Mem, p: Id)
    requires p in m
    ensures FreeFrom(m, Some(p)).count == 0 <==> p in FreeFrom(m, Some(p)).mem
  {
    if m[p].ref <= 1 { FreeFrame(m - {p}, m[p].next); }
  }

  /** Changing one next pointer moves one reference. */
  lemma SetNextPreds(m: Mem, p: Id, n: Option<Id>, q: Id)
    requires p in m
    ensures var m' := m[p := m[p].(next := n)];
            |Preds(m', q)| == |Preds(m, q)| - (if m[p].next == Some(q) then 1 else 0) + (if n == Some(q) then 1 else 0)
  {
    var m' := m[p := m[p].(next := n)];
    var before, after := Preds(m, q), Preds(m', q);
    assert forall r :: r != p ==> (r in before <==> r in after);
    if m[p].next == Some(q) {
      assert p in before;
      assert after == if n == Some(q) then before else before - {p};
    } else {
      assert p !in before;
      assert after == if n == Some(q) then before + {p} else before;
    }
  }

  /** Cutting the link behind p leaves the reference to its successor to be given up. */
  lemma CutRefs(m: Mem, handles: multiset<Id>, p: Id)
    requires Refs(m, handles, None) && p in m
    ensures Refs(m[p := m[p].(next := None)], handles, m[p].next)
  {
    var m' := m[p := m[p].(next := None)];
    assert NextIn(m, p);
    forall q | q in m' ensures RefOk(m', handles, m[p].next, q) && NextIn(m', q) {
      SetNextPreds(m, p, None, q);
      assert RefOk(m, handles, None, q) && NextIn(m, q);
    }
  }

  // ---------------------------------------------------------------- chains

  /** s lists the pbufs from p on. */
  ghost predicate IsChain(m: Mem, p: Option<Id>, s: seq<Id>)
    decreases |s|
  {
    if s == [] then p == None
    else p == Some(s[0]) && s[0] in m && IsChain(m, m[s[0]].next, s[1..])
  }

  /** A rank that falls along next pointers: the pbufs form no cycle. */
  ghost predicate Ranked(m: Mem, rank: map<Id, nat>) {
    && (forall p :: p in m ==> p in rank)
    && (forall p {:trigger Falls(m, rank, p)} :: p in m ==> Falls(m, rank, p))
  }

  ghost predicate Falls(m: Mem, rank: map<Id, nat>, p: Id)
    requires p in m && p in rank
  {
    m[p].next.Some? && m[p].next.value in rank ==> rank[m[p].next.value] < rank[p]
  }

  ghost function ChainFrom(m: Mem, rank: map<Id, nat>, p: Option<Id>): (s: seq<Id>)
    requires Closed(m) && Ranked(m, rank) && (p.Some? ==> p.value in m)
    ensures IsChain(m, p, s)
    decreases if p.Some? then rank[p.value] + 1 else 0
  {
    if p.None? then []
    else
      assert NextIn(m, p.value) && Falls(m, rank, p.value);
      [p.value] + ChainFrom(m, rank, m[p.value].next)
  }

  lemma {:induction false} ChainUnique(m: Mem, p: Option<Id>, s: seq<Id>, t: seq<Id>)
    requires IsChain(m, p, s) && IsChain(m, p, t)
    ensures s == t
    decreases |s|
  {
    if s != [] && t != [] {
      ChainUnique(m, m[s[0]].next, s[1..], t[1..]);
      assert s == [s[0]] + s[1..] && t == [t[0]] + t[1..];
    }
  }

  /** Position i of a chain: what it is chained to, and that its tail is a chain. */
  lemma {:induction false} ChainAt(m: Mem, p: Option<Id>, s: seq<Id>, i: nat)
    requires IsChain(m, p, s) && i < |s|
    ensures s[i] in m && m[s[i]].next == (if i + 1 < |s| then Some(s[i + 1]) else None)
    ensures IsChain(m, Some(s[i]), s[i..])
    decreases i
  {
    if i == 0 {
      assert s[0..] == s;
    } else {
      ChainAt(m, m[s[0]].next, s[1..], i - 1);
      assert s[1..][i - 1..] == s[i..];
    }
  }

  lemma {:induction false} ChainRanks(m: Mem, rank: map<Id, nat>, p: Option<Id>, s: seq<Id>, i: nat, j: nat)
    requires IsChain(m, p, s) && Closed(m) && Ranked(m, rank) && i < j < |s|
    ensures s[i] in rank && s[j] in rank && rank[s[j]] < rank[s[i]] && s[i] != s[j]
    decreases j
  {
    ChainAt(m, p, s, j - 1);
    ChainAt(m, p, s, j);
    assert Falls(m, rank, s[j - 1]);
    if i < j - 1 {
      ChainRanks(m, rank, p, s, i, j - 1);
    }
  }

  lemma ChainDistinct(m: Mem, rank: map<Id, nat>, p: Option<Id>, s: seq<Id>)
    requires IsChain(m, p, s) && Closed(m) && Ranked(m, rank)
    ensures Distinct(s) && forall i :: 0 <= i < |s| ==> s[i] in m
  {
    forall i, j | 0 <= i < j < |s| ensures s[i] != s[j] { ChainRanks(m, rank, p, s, i, j); }
    forall i | 0 <= i < |s| ensures s[i] in m { ChainAt(m, p, s, i); }
  }

  /** A chain stays a chain when its pbufs keep their next pointers. */
  lemma {:induction false} ChainFrame(m: Mem, m': Mem, p: Option<Id>, s: seq<Id>)
    requires IsChain(m, p, s)
    requires forall i :: 0 <= i < |s| ==> s[i] in m' && (s[i] in m ==> m'[s[i]].next == m[s[i]].next)
    ensures IsChain(m', p, s)
    decreases |s|
  {
    if s != [] {
      forall i | 0 <= i < |s[1..]| ensures s[1..][i] in m' && (s[1..][i] in m ==> m'[s[1..][i]].next == m[s[1..][i]].next) {
        assert s[1..][i] == s[i + 1];
      }
      ChainFrame(m, m', m[s[0]].next, s[1..]);
    }
  }

  // ---------------------------------------------------------------- nothing leaks

  /** A pbuf of highest rank among the live ones. */
  lemma {:induction false} Highest(m: Mem, rank: map<Id, nat>, keys: set<Id>) returns (p: Id)
    requires keys != {} && forall q :: q in keys ==> q in rank
    ensures p in keys && forall q :: q in keys ==> rank[q] <= rank[p]
    decreases keys
  {
    p :| p in keys;
    if keys != {p} {
      var q := Highest(m, rank, keys - {p});
      p := if rank[p] < rank[q] then q else p;
    }
  }

  lemma PredsHigher(m: Mem, rank: map<Id, nat>, p: Id)
    requires Ranked(m, rank) && p in m
    ensures forall q :: q in Preds(m, p) ==> rank[p] < rank[q]
  {
    forall q | q in Preds(m, p) ensures rank[p] < rank[q] { assert Falls(m, rank, q); }
  }

  /** When every handle has been given up, no pbuf is left. */
  lemma NothingLeaks(m: Mem, rank: map<Id, nat>)
    requires Refs(m, multiset{}, None) && Ranked(m, rank)
    ensures m == map[]
  {
    if m.Keys != {} {
      var p := Highest(m, rank, m.Keys);
      assert RefOk(m, multiset{}, None, p);
      assert forall q :: q in Preds(m, p) ==> q in m.Keys;
      PredsHigher(m, rank, p);
      assert false;
    }
  }

  // ---------------------------------------------------------------- contents

  ghost predicate Sound(m: Mem) {
    forall p :: p in m ==> m[p].WellFormed()
  }

  ghost predicate Within(m: Mem, s: seq<Id>) {
    forall i :: 0 <= i < |s| ==> s[i] in m && m[s[i]].off + m[s[i]].len <= |m[s[i]].buf|
  }

  /** The bytes of the pbufs s, as one string. */
  ghost function Flat(m: Mem, s: seq<Id>): seq<byte>
    requires Within(m, s)
    decreases |s|
  {
    if s == [] then [] else m[s[0]].Payload() + Flat(m, s[1..])
  }

  lemma FlatHead(m: Mem, s: seq<Id>)
    requires Within(m, s)
    ensures s == [] ==> Flat(m, s) == []
    ensures s != [] ==> Within(m, s[1..]) && Flat(m, s) == m[s[0]].Payload() + Flat(m, s[1..])
  {
  }

  lemma {:induction false} FlatJoin(m: Mem, s: seq<Id>, t: seq<Id>)
    requires Within(m, s) && Within(m, t)
    ensures Within(m, s + t) && Flat(m, s + t) == Flat(m, s) + Flat(m, t)
    decreases |s|
  {
    if s == [] {
      assert s + t == t;
    } else {
      assert s[0] == (s + t)[0] && (s + t)[1..] == s[1..] + t;
      FlatJoin(m, s[1..], t);
    }
  }

  lemma {:induction false} FlatFrame(m: Mem, m': Mem, s: seq<Id>)
    requires Within(m, s) && Within(m', s)
    requires forall i :: 0 <= i < |s| ==> m[s[i]].Payload() == m'[s[i]].Payload()
    ensures Flat(m, s) == Flat(m', s)
    decreases |s|
  {
    if s != [] {
      FlatFrame(m, m', s[1..]);
    }
  }

  /** tot_len of the pbuf that p is chained to. */
  ghost function TailTot(m: Mem, p: Option<Id>): nat {
    if p.Some? && p.value in m then m[p.value].totLen else 0
  }

  /** p->tot_len is p->len plus the tot_len of the rest, as u16_t arithmetic. */
  ghost predicate TotOk(m: Mem, p: Id)
    requires p in m
  {
    m[p].totLen == U16(m[p].len + TailTot(m, m[p].next))
  }

  ghost predicate AllTot(m: Mem) {
    forall p {:trigger TotOk(m, p)} :: p in m ==> TotOk(m, p)
  }

  /** pbuf_free keeps tot_len right: nothing that stays points to what goes. */
  lemma {:induction false} FreeTot(m: Mem, handles: multiset<Id>, p: Option<Id>)
    requires Refs(m, handles, p) && AllTot(m)
    ensures AllTot(FreeFrom(m, p).mem)
    decreases |m|
  {
    hide U16;
    if p.Some? {
      var a := p.value;
      assert RefOk(m, handles, p, a);
      if m[a].ref > 1 {
        var m' := FreeFrom(m, p).mem;
        forall q | q in m' ensures TotOk(m', q) { assert TotOk(m, q); }
      } else {
        DropRefs(m, handles, a);
        var m' := m - {a};
        assert Preds(m, a) == {};
        forall q | q in m' ensures TotOk(m', q) {
          assert TotOk(m, q);
          assert m[q].next == Some(a) ==> q in Preds(m, a);
        }
        FreeTot(m', handles, m[a].next);
      }
    }
  }

  /** How many pbufs at the front of a chain nobody else refers to. */
  ghost function Lone(m: Mem, s: seq<Id>): nat
    requires forall i :: 0 <= i < |s| ==> s[i] in m
  {
    if s == [] || m[s[0]].ref > 1 then 0 else 1 + Lone(m, s[1..])
  }

  lemma {:induction false} LoneFrame(m: Mem, m': Mem, s: seq<Id>)
    requires forall i :: 0 <= i < |s| ==> s[i] in m && s[i] in m' && m'[s[i]].ref == m[s[i]].ref
    ensures Lone(m', s) == Lone(m, s)
    decreases |s|
  {
    if s != [] { LoneFrame(m, m', s[1..]); }
  }

  /** pbuf_free deallocates as many pbufs as nobody else refers to at the front of the chain. */
  lemma {:induction false} FreeCountIs(m: Mem, p: Option<Id>, s: seq<Id>)
    requires IsChain(m, p, s) && Distinct(s) && forall i :: 0 <= i < |s| ==> s[i] in m
    ensures FreeFrom(m, p).count == Lone(m, s)
    decreases |s|
  {
    if s != [] && m[s[0]].ref <= 1 {
      var m', t := m - {s[0]}, s[1..];
      assert forall i :: 0 <= i < |t| ==> t[i] == s[i + 1];
      ChainFrame(m, m', m[s[0]].next, t);
      FreeCountIs(m', m[s[0]].next, t);
      LoneFrame(m, m', t);
    }
  }

  /** So tot_len is the number of bytes from the pbuf on. */
  lemma {:induction false} TotIsLength(m: Mem, p: Option<Id>, s: seq<Id>)
    requires IsChain(m, p, s) && Within(m, s) && forall i :: 0 <= i < |s| ==> TotOk(m, s[i])
    ensures TailTot(m, p) == U16(|Flat(m, s)|)
    decreases |s|
  {
    if s == [] {
      assert U16(0) == 0;
    } else {
      hide U16;
      assert forall i :: 0 <= i < |s[1..]| ==> s[1..][i] == s[i + 1];
      TotIsLength(m, m[s[0]].next, s[1..]);
      assert TotOk(m, s[0]);
      ModShift(m[s[0]].len, |Flat(m, s[1..])|, 0);
      assert |Flat(m, s)| == m[s[0]].len + |Flat(m, s[1..])|;
    }
  }

  // ---------------------------------------------------------------- pbuf_cat

  ghost function CatMem(m: Mem, s: seq<Id>, t: Id): Mem
    requires s != [] && t in m
  {
    map q | q in m :: if q in s
      then m[q].(totLen := U16(m[q].totLen + m[t].totLen),
                 next := if q == s[|s| - 1] then Some(t) else m[q].next)
      else m[q]
  }

  lemma PredsSame(m: Mem, m': Mem, q: Id)
    requires m.Keys == m'.Keys && forall p :: p in m ==> m[p].next == m'[p].next
    ensures Preds(m, q) == Preds(m', q)
  {
  }

  /** pbuf_cat takes over the caller's handle on t. */
  lemma CatRefs(m: Mem, handles: multiset<Id>, s: seq<Id>, t: Id)
    requires Refs(m, handles, None) && s != [] && IsChain(m, Some(s[0]), s) && t in handles
    ensures Refs(CatMem(m, s, t), handles - multiset{t}, None)
  {
    var m', last := CatMem(m, s, t), s[|s| - 1];
    ChainAt(m, Some(s[0]), s, |s| - 1);
    var m1 := m[last := m[last].(next := Some(t))];
    assert forall q :: q in m ==> m'[q].next == m1[q].next && m'[q].ref == m[q].ref;
    hide CatMem;
    forall q | q in m' ensures RefOk(m', handles - multiset{t}, None, q) && NextIn(m', q) {
      SetNextPreds(m, last, Some(t), q);
      PredsSame(m1, m', q);
      assert RefOk(m, handles, None, q) && NextIn(m, q);
    }
  }

  /** No cycle arises when the head chain does not end inside the tail chain. */
  lemma CatRanked(m: Mem, rank: map<Id, nat>, s: seq<Id>, t: Id, ts: seq<Id>) returns (rank': map<Id, nat>)
    requires Closed(m) && Ranked(m, rank) && s != [] && IsChain(m, Some(s[0]), s)
    requires t in m && IsChain(m, Some(t), ts) && s[|s| - 1] !in ts
    ensures Ranked(CatMem(m, s, t), rank')
  {
    rank' := map q | q in m :: if q in ts then rank[q] else rank[q] + rank[t] + 1;
    var m' := CatMem(m, s, t);
    ChainAt(m, Some(s[0]), s, |s| - 1);
    forall q | q in m' ensures Falls(m', rank', q) {
      assert NextIn(m, q) && Falls(m, rank, q);
      if q in ts { InTail(m, rank, t, ts, q); }
      if m'[q].next.Some? && m'[q].next.value in ts { InTail(m, rank, t, ts, m'[q].next.value); }
    }
  }

  /** The tail chain is closed under next and t ranks highest in it. */
  lemma InTail(m: Mem, rank: map<Id, nat>, t: Id, ts: seq<Id>, q: Id)
    requires Closed(m) && Ranked(m, rank) && IsChain(m, Some(t), ts) && q in ts
    ensures q in m && rank[q] <= rank[t] && (m[q].next.Some? ==> m[q].next.value in ts)
  {
    var i :| 0 <= i < |ts| && ts[i] == q;
    ChainAt(m, Some(t), ts, i);
    if i > 0 { ChainRanks(m, rank, Some(t), ts, 0, i); }
  }

  /** pbuf_cat concatenates. */
  lemma CatFlat(m: Mem, rank: map<Id, nat>, s: seq<Id>, t: Id, ts: seq<Id>)
    requires Closed(m) && Ranked(m, rank) && Sound(m) && s != [] && IsChain(m, Some(s[0]), s)
    requires t in m && IsChain(m, Some(t), ts) && s[|s| - 1] !in ts
    ensures Within(m, s) && Within(m, ts) && Within(CatMem(m, s, t), s + ts)
    ensures IsChain(CatMem(m, s, t), Some(s[0]), s + ts)
    ensures Flat(CatMem(m, s, t), s + ts) == Flat(m, s) + Flat(m, ts)
  {
    hide IsChain, Flat;
    var m' := CatMem(m, s, t);
    ChainDistinct(m, rank, Some(s[0]), s);
    ChainDistinct(m, rank, Some(t), ts);
    ChainFrame(m, m', Some(t), ts);
    CatChain(m, rank, s, s, t, ts);
    FlatFrame(m, m', s);
    FlatFrame(m, m', ts);
    FlatJoin(m', s, ts);
  }

  lemma {:induction false} CatChain(m: Mem, rank: map<Id, nat>, s: seq<Id>, u: seq<Id>, t: Id, ts: seq<Id>)
    requires s != [] && t in m && u != [] && |u| <= |s| && u == s[|s| - |u|..] && IsChain(m, Some(u[0]), u)
    requires Distinct(s) && IsChain(CatMem(m, s, t), Some(t), ts)
    ensures IsChain(CatMem(m, s, t), Some(u[0]), u + ts)
    decreases |u|
  {
    assert u[0] == s[|s| - |u|];
    assert (u + ts)[0] == u[0] && (u + ts)[1..] == u[1..] + ts;
    if |u| == 1 {
      assert u[1..] + ts == ts;
    } else {
      assert u[1..] == s[|s| - |u| + 1..] && u[0] != s[|s| - 1];
      CatChain(m, rank, s, u[1..], t, ts);
    }
  }

  /** A pbuf outside the chain s points into it. */
  ghost predicate Shared(m: Mem, s: seq<Id>) {
    exists q :: q in m && q !in s && PointsInto(m, s, q)
  }

  /** pbuf_cat keeps tot_len right everywhere exactly when nothing else points into the head chain, or t is empty. */
  lemma CatTot(m: Mem, rank: map<Id, nat>, s: seq<Id>, t: Id, ts: seq<Id>)
    requires Closed(m) && Ranked(m, rank) && Sound(m) && AllTot(m) && s != [] && IsChain(m, Some(s[0]), s)
    requires t in m && IsChain(m, Some(t), ts) && s[|s| - 1] !in ts
    ensures AllTot(CatMem(m, s, t)) <==> !Shared(m, s) || m[t].totLen == 0
  {
    var m' := CatMem(m, s, t);
    forall q | q in m ensures TotOk(m', q) <==> m[t].totLen == 0 || q in s || !PointsInto(m, s, q) {
      if q in s { CatTotInside(m, rank, s, t, ts, q); } else { CatTotOutside(m, s, t, q); }
    }
    assert AllTot(m') <==> forall q :: q in m ==> TotOk(m', q);
  }

  ghost predicate PointsInto(m: Mem, s: seq<Id>, q: Id)
    requires q in m
  {
    m[q].next.Some? && m[q].next.value in s
  }

  lemma CatTotInside(m: Mem, rank: map<Id, nat>, s: seq<Id>, t: Id, ts: seq<Id>, q: Id)
    requires Closed(m) && Ranked(m, rank) && Sound(m) && AllTot(m) && s != [] && IsChain(m, Some(s[0]), s)
    requires t in m && IsChain(m, Some(t), ts) && s[|s| - 1] !in ts && q in s
    ensures q in m && TotOk(CatMem(m, s, t), q)
  {
    hide U16, IsChain, Closed, Ranked, Sound;
    ChainDistinct(m, rank, Some(s[0]), s);
    TailDisjoint(m, rank, s, t, ts);
    var i :| 0 <= i < |s| && s[i] == q;
    ChainAt(m, Some(s[0]), s, i);
    assert TotOk(m, q);
    var m' := CatMem(m, s, t);
    assert m'[q].len == m[q].len && m'[q].totLen == U16(m[q].totLen + m[t].totLen);
    assert m'[t] == m[t];
    if i + 1 < |s| {
      assert s[i + 1] in m && m'[s[i + 1]].totLen == U16(m[s[i + 1]].totLen + m[t].totLen);
      assert m'[q].next == Some(s[i + 1]);
    } else {
      assert m'[q].next == Some(t);
    }
    hide CatMem;
    assert TailTot(m', m'[q].next) == if i + 1 < |s| then U16(TailTot(m, m[q].next) + m[t].totLen) else m[t].totLen;
    ModShift(m[q].len, TailTot(m, m[q].next), m[t].totLen);
  }

  lemma CatTotOutside(m: Mem, s: seq<Id>, t: Id, q: Id)
    requires Closed(m) && Sound(m) && AllTot(m) && s != [] && t in m && q in m && q !in s
    ensures TotOk(CatMem(m, s, t), q) <==> m[t].totLen == 0 || !PointsInto(m, s, q)
  {
    hide U16;
    assert TotOk(m, q);
    if PointsInto(m, s, q) {
      assert NextIn(m, q);
      assert m[t].WellFormed() && m[q].WellFormed();
      ModShift(m[q].len, TailTot(m, m[q].next), m[t].totLen);
      ModMoves(m[q].totLen, m[t].totLen);
    }
  }

  lemma ModShift(len: nat, a: nat, n: nat)
    ensures U16(U16(len + a) + n) == U16(len + U16(a + n)) == U16(len + a + n)
  {
  }

  lemma ModMoves(x: nat, n: nat)
    requires x < 0x1_0000 && n < 0x1_0000
    ensures U16(x + n) == x <==> n == 0
  {
  }

  /** t is not in the head chain: its chain would end like the head chain does. */
  lemma {:induction false} TailDisjoint(m: Mem, rank: map<Id, nat>, s: seq<Id>, t: Id, ts: seq<Id>)
    requires Closed(m) && Ranked(m, rank) && s != [] && IsChain(m, Some(s[0]), s)
    requires t in m && IsChain(m, Some(t), ts) && s[|s| - 1] !in ts
    ensures t !in s
  {
    if t in s {
      var i :| 0 <= i < |s| && s[i] == t;
      ChainAt(m, Some(s[0]), s, i);
      assert s[i..][|s| - 1 - i] == s[|s| - 1];
      ChainUnique(m, Some(t), ts, s[i..]);
      assert false;
    }
  }
}
