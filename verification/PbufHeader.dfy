/**
Headers in front of a pbuf's payload, and pbuf_free_header, which drops bytes from the
front of a chain across pbufs.
*/
module PbufHeader {
  import opened Prelude
  import opened PbufSpec

  /** pbuf_add_header_impl when it succeeds. */
  function AddHdr(m: Mem, a: Id, n: nat): Mem
    requires a in m && n <= m[a].off
  {
    m[a := m[a].(off := m[a].off - n, len := U16(m[a].len + n), totLen := U16(m[a].totLen + n))]
  }

  /** pbuf_remove_header when it succeeds. */
  function RemoveHdr(m: Mem, a: Id, n: nat): Mem
    requires a in m && n <= m[a].len
  {
    m[a := m[a].(off := m[a].off + n, len := m[a].len - n, totLen := U16(m[a].totLen - n))]
  }

  /** Removing a header undoes adding it, and is refused exactly when len wrapped. */
  lemma RemoveUndoesAdd(m: Mem, a: Id, n: nat)
    requires a in m && n <= m[a].off && m[a].totLen + n < 0x1_0000 && m[a].len < 0x1_0000
    ensures n <= AddHdr(m, a, n)[a].len <==> m[a].len + n < 0x1_0000
    ensures m[a].len + n < 0x1_0000 ==> RemoveHdr(AddHdr(m, a, n), a, n) == m
  {
  }

  lemma SameLinks(m: Mem, m': Mem, handles: multiset<Id>, rank: map<Id, nat>, extra: Option<Id>)
    requires Refs(m, handles, extra) && Ranked(m, rank) && m.Keys == m'.Keys
    requires forall q :: q in m ==> m'[q].next == m[q].next && m'[q].ref == m[q].ref
    ensures Refs(m', handles, extra) && Ranked(m', rank)
  {
    forall q | q in m' ensures RefOk(m', handles, extra, q) && NextIn(m', q) && Falls(m', rank, q) {
      PredsSame(m, m', q);
      assert RefOk(m, handles, extra, q) && NextIn(m, q) && Falls(m, rank, q);
    }
  }

  /** Taking bytes off the front of a keeps tot_len right everywhere exactly when nothing points to a. */
  lemma RemoveTot(m: Mem, rank: map<Id, nat>, a: Id, n: nat)
    requires Closed(m) && Ranked(m, rank) && Sound(m) && AllTot(m) && a in m && n <= m[a].len
    ensures AllTot(RemoveHdr(m, a, n)) <==> Preds(m, a) == {} || n == 0
  {
    hide U16;
    var m' := RemoveHdr(m, a, n);
    forall q | q in m ensures TotOk(m', q) <==> n == 0 || m[q].next != Some(a) {
      assert TotOk(m, q) && Falls(m, rank, q) && NextIn(m, q);
      assert m[q].WellFormed() && m[a].WellFormed();
      if q == a {
        Shift16(m[a].len, TailTot(m, m[a].next), n);
      } else if m[q].next == Some(a) {
        Shift16(m[q].len, m[a].totLen, n);
        Moves16(m[q].len + m[a].totLen, n);
      }
    }
    if Preds(m, a) != {} {
      var q :| q in Preds(m, a);
      assert TotOk(m', q) <==> n == 0;
    } else {
      assert forall q :: q in m && m[q].next == Some(a) ==> q in Preds(m, a);
    }
  }

  /** So does putting a header in front of a. */
  lemma AddTot(m: Mem, rank: map<Id, nat>, a: Id, n: nat)
    requires Closed(m) && Ranked(m, rank) && Sound(m) && AllTot(m) && a in m && n <= m[a].off && n < 0x1_0000
    ensures AllTot(AddHdr(m, a, n)) <==> Preds(m, a) == {} || n == 0
  {
    hide U16;
    var m' := AddHdr(m, a, n);
    forall q | q in m ensures TotOk(m', q) <==> n == 0 || m[q].next != Some(a) {
      assert TotOk(m, q) && Falls(m, rank, q) && NextIn(m, q);
      if q == a {
        Grow16(m[a].len, TailTot(m, m[a].next), n);
        Grow16(m[a].len, n, TailTot(m, m[a].next));
      } else if m[q].next == Some(a) {
        Grow16(m[q].len, m[a].totLen, n);
        Grows16(m[q].len + m[a].totLen, n);
      }
    }
    if Preds(m, a) != {} {
      var q :| q in Preds(m, a);
      assert TotOk(m', q) <==> n == 0;
    } else {
      assert forall q :: q in m && m[q].next == Some(a) ==> q in Preds(m, a);
    }
  }

  lemma Grow16(len: nat, a: nat, n: nat)
    ensures U16(U16(len + a) + n) == U16(len + n + a) == U16(len + U16(a + n))
  {
  }

  lemma Grows16(x: nat, n: nat)
    requires n < 0x1_0000
    ensures U16(x + n) == U16(x) <==> n == 0
  {
  }

  lemma Shift16(len: nat, a: nat, n: nat)
    ensures U16(U16(len + a) - n) == U16(len - n + a) == U16(len + U16(a - n))
  {
  }

  lemma Moves16(x: nat, n: nat)
    requires n < 0x1_0000
    ensures U16(x - n) == U16(x) <==> n == 0
  {
  }

  // ---------------------------------------------------------------- pbuf_free_header

  /** Unlink the first pbuf of a chain and give up the reference to it. */
  ghost function DropHead(m: Mem, a: Id): Mem
    requires a in m
  {
    if m[a].ref > 1 then m[a := m[a].(next := None, ref := m[a].ref - 1)] else m - {a}
  }

  lemma DropHeadIsFree(m: Mem, a: Id)
    requires a in m
    ensures FreeFrom(m[a := m[a].(next := None)], Some(a)).mem == DropHead(m, a)
  {
    var m1 := m[a := m[a].(next := None)];
    assert m1 - {a} == m - {a};
  }

  /** The handle on the first pbuf becomes a handle on the second. */
  ghost function Passed(handles: multiset<Id>, a: Id, next: Option<Id>): multiset<Id> {
    handles - multiset{a} + if next.Some? then multiset{next.value} else multiset{}
  }

  lemma DropHeadRefs(m: Mem, handles: multiset<Id>, rank: map<Id, nat>, a: Id)
    requires Refs(m, handles, None) && Ranked(m, rank) && Sound(m) && a in handles
    ensures a in m && Refs(DropHead(m, a), Passed(handles, a, m[a].next), None)
    ensures Ranked(DropHead(m, a), rank) && Sound(DropHead(m, a))
  {
    hide FreeFrom, Refs;
    NotSelf(m, handles, rank, a);
    var m1, h := m[a := m[a].(next := None)], Passed(handles, a, m[a].next);
    CutRefs(m, handles, a);
    PassRefs(m1, handles, a, m[a].next);
    FreeKeepsRefs(m1, h, Some(a));
    DropHeadIsFree(m, a);
    var m2 := DropHead(m, a);
    forall q | q in m2 ensures Falls(m2, rank, q) && m2[q].WellFormed() { assert Falls(m, rank, q) && m[q].WellFormed(); }
  }

  lemma NotSelf(m: Mem, handles: multiset<Id>, rank: map<Id, nat>, a: Id)
    requires Refs(m, handles, None) && Ranked(m, rank) && a in handles
    ensures a in m && m[a].next != Some(a)
  {
    assert NextIn(m, a) && Falls(m, rank, a);
  }

  lemma PassRefs(m: Mem, handles: multiset<Id>, a: Id, next: Option<Id>)
    requires Refs(m, handles, next) && a in handles && next != Some(a)
    ensures Refs(m, Passed(handles, a, next), Some(a))
  {
    var h := Passed(handles, a, next);
    forall q | q in m ensures RefOk(m, h, Some(a), q) { assert RefOk(m, handles, next, q); }
  }

  /** Dropping a pbuf keeps tot_len right everywhere exactly when nobody else refers to it, or nothing follows it. */
  lemma DropHeadTot(m: Mem, handles: multiset<Id>, rank: map<Id, nat>, a: Id)
    requires Refs(m, handles, None) && Ranked(m, rank) && Sound(m) && AllTot(m) && a in handles
    ensures AllTot(DropHead(m, a)) <==> m[a].ref == 1 || TailTot(m, m[a].next) == 0
  {
    hide U16;
    var m' := DropHead(m, a);
    assert RefOk(m, handles, None, a) && NextIn(m, a) && Falls(m, rank, a);
    assert m[a].WellFormed() && TotOk(m, a);
    assert m[a].ref == 1 ==> Preds(m, a) == {};
    forall q | q in m' && q != a ensures TotOk(m', q) {
      assert TotOk(m, q) && NextIn(m, q) && Falls(m, rank, q);
      assert m[q].next == Some(a) ==> q in Preds(m, a);
    }
    if m[a].ref > 1 {
      if m[a].next.Some? { assert m[m[a].next.value].WellFormed(); }
      Small16(m[a].len, TailTot(m, m[a].next));
      assert TotOk(m', a) <==> m[a].totLen == U16(m[a].len + 0);
    }
  }

  lemma Small16(len: nat, tail: nat)
    requires len < 0x1_0000 && tail < 0x1_0000
    ensures U16(len + tail) == U16(len + 0) <==> tail == 0
  {
  }

  /** pbuf_free_header on the chain s: the memory and the new first pbuf. */
  ghost function HeadersOff(m: Mem, s: seq<Id>, n: nat): (Mem, seq<Id>)
    requires Within(m, s) && Distinct(s)
    decreases |s|
  {
    if n == 0 || s == [] then (m, s)
    else if n >= m[s[0]].len then
      assert Distinct(s[1..]) by { DistinctTail(s); }
      assert Within(DropHead(m, s[0]), s[1..]) by { DropHeadFrame(m, s); }
      HeadersOff(DropHead(m, s[0]), s[1..], n - m[s[0]].len)
    else (RemoveHdr(m, s[0], n), s)
  }

  lemma DistinctTail(s: seq<Id>)
    requires Distinct(s) && s != []
    ensures Distinct(s[1..]) && s[0] !in s[1..]
  {
  }

  /** The rest of the chain is untouched by dropping its first pbuf. */
  lemma DropHeadFrame(m: Mem, s: seq<Id>)
    requires Within(m, s) && Distinct(s) && s != []
    ensures Within(DropHead(m, s[0]), s[1..])
    ensures forall i :: 0 < i < |s| ==> s[i] in DropHead(m, s[0]) && DropHead(m, s[0])[s[i]] == m[s[i]]
  {
    assert forall i :: 0 <= i < |s[1..]| ==> s[1..][i] == s[i + 1];
  }

  /** pbuf_free_header drops a prefix of the contents, and the result is a chain. */
  lemma {:induction false} HeadersFlat(m: Mem, s: seq<Id>, n: nat)
    requires Within(m, s) && Distinct(s) && IsChain(m, if s == [] then None else Some(s[0]), s)
    ensures var (m', t) := HeadersOff(m, s, n);
            && Within(m', t) && IsChain(m', if t == [] then None else Some(t[0]), t)
            && Flat(m', t) == if n <= |Flat(m, s)| then Flat(m, s)[n..] else []
    decreases |s|
  {
    hide Distinct, DropHead, Flat;
    if n == 0 || s == [] {
    } else if n >= m[s[0]].len {
      var a, m1 := s[0], DropHead(m, s[0]);
      DistinctTail(s);
      DropHeadFrame(m, s);
      assert forall i :: 0 <= i < |s[1..]| ==> s[1..][i] == s[i + 1];
      ChainFrame(m, m1, m[a].next, s[1..]);
      FlatFrame(m, m1, s[1..]);
      FlatHead(m, s);
      HeadersFlat(m1, s[1..], n - m[a].len);
    } else {
      RemoveFlat(m, s, n);
      FlatHead(m, s);
    }
    FlatHead(m, []);
  }

  lemma RemoveFlat(m: Mem, s: seq<Id>, n: nat)
    requires Within(m, s) && Distinct(s) && s != [] && IsChain(m, Some(s[0]), s) && n <= m[s[0]].len
    ensures var m' := RemoveHdr(m, s[0], n);
            Within(m', s) && IsChain(m', Some(s[0]), s) && Flat(m', s) == Flat(m, s)[n..]
  {
    hide IsChain, Distinct, U16, Flat;
    var m' := RemoveHdr(m, s[0], n);
    DistinctTail(s);
    var t := s[1..];
    forall i | 0 <= i < |t| ensures t[i] in m' && m'[t[i]] == m[t[i]] { assert t[i] == s[i + 1]; }
    ChainFrame(m, m', Some(s[0]), s);
    FlatFrame(m, m', t);
    FlatHead(m, s);
    FlatHead(m', s);
    assert m'[s[0]].Payload() == m[s[0]].Payload()[n..];
  }

  /** How many pbufs pbuf_free_header drops, and how many bytes it takes off the next one. */
  ghost function Drops(m: Mem, s: seq<Id>, n: nat): (r: (nat, nat))
    requires Within(m, s)
    ensures r.0 <= |s|
    decreases |s|
  {
    if n == 0 || s == [] || n < m[s[0]].len then (0, n)
    else
      var (k, left) := Drops(m, s[1..], n - m[s[0]].len);
      (k + 1, left)
  }

  ghost predicate DropOk(m: Mem, s: seq<Id>, i: nat)
    requires Within(m, s) && i < |s|
  {
    m[s[i]].ref == 1 || TailTot(m, m[s[i]].next) == 0
  }

  /**
  Every pbuf that is dropped has no other reference or nothing behind it; and if the next one
  is shortened, nothing points to it but the one dropped before it.
  */
  ghost predicate HeadersClean(m: Mem, s: seq<Id>, n: nat)
    requires Within(m, s)
  {
    var (k, left) := Drops(m, s, n);
    && (forall i :: 0 <= i < k ==> DropOk(m, s, i))
    && (k < |s| && left > 0 ==> Preds(m, s[k]) <= if k == 0 then {} else {s[k - 1]})
  }

  /** pbuf_free_header keeps tot_len right everywhere exactly when it is clean. */
  lemma {:induction false} HeadersTot(m: Mem, handles: multiset<Id>, rank: map<Id, nat>, s: seq<Id>, n: nat)
    requires Refs(m, handles, None) && Ranked(m, rank) && Sound(m) && AllTot(m) && Within(m, s) && Distinct(s)
    requires IsChain(m, if s == [] then None else Some(s[0]), s)
    requires s != [] ==> s[0] in handles
    ensures AllTot(HeadersOff(m, s, n).0) <==> HeadersClean(m, s, n)
    decreases |s|
  {
    hide IsChain, TotOk, U16, Preds, RefOk, Closed, Ranked, Sound;
    if n == 0 || s == [] {
    } else if n >= m[s[0]].len {
      var a, m1 := s[0], DropHead(m, s[0]);
      var t := s[1..];
      DistinctTail(s);
      DropHeadFrame(m, s);
      HeadLinks(m, s);
      DropHeadRefs(m, handles, rank, a);
      DropHeadTot(m, handles, rank, a);
      CleanStep(m, s, n);
      if AllTot(m1) {
        HeadersTot(m1, Passed(handles, a, m[a].next), rank, t, n - m[a].len);
      } else {
        BadStays(m, rank, handles, s, n);
      }
    } else {
      RemoveTot(m, rank, s[0], n);
    }
  }

  lemma HeadLinks(m: Mem, s: seq<Id>)
    requires s != [] && IsChain(m, Some(s[0]), s) && Within(m, s) && Distinct(s)
    ensures m[s[0]].next == (if |s| > 1 then Some(s[1]) else None)
    ensures IsChain(DropHead(m, s[0]), m[s[0]].next, s[1..])
  {
    DropHeadFrame(m, s);
    assert forall i :: 0 <= i < |s[1..]| ==> s[1..][i] == s[i + 1];
    ChainFrame(m, DropHead(m, s[0]), m[s[0]].next, s[1..]);
  }

  /** The condition for the whole chain is the one for its first pbuf and that for the rest. */
  lemma CleanStep(m: Mem, s: seq<Id>, n: nat)
    requires Within(m, s) && Distinct(s) && s != [] && IsChain(m, Some(s[0]), s) && 0 < n && n >= m[s[0]].len
    requires Within(DropHead(m, s[0]), s[1..])
    ensures HeadersClean(m, s, n) <==>
              DropOk(m, s, 0) && HeadersClean(DropHead(m, s[0]), s[1..], n - m[s[0]].len)
  {
    hide DropHead, IsChain, Distinct, DropOk, Preds;
    var m1, t := DropHead(m, s[0]), s[1..];
    DropHeadFrame(m, s);
    HeadLinks(m, s);
    assert forall i :: 0 <= i < |t| ==> t[i] == s[i + 1];
    DropsFrame(m, m1, t, n - m[s[0]].len);
    var (k, left) := Drops(m1, t, n - m[s[0]].len);
    assert Drops(m, s, n) == (k + 1, left);
    forall i: nat | i < k ensures DropOk(m, s, i + 1) <==> DropOk(m1, t, i) { DropOkSame(m, s, i); }
    CleanDrops(m, m1, s, k);
    if k < |t| { PredsDropped(m, s, k + 1); }
  }

  lemma DropOkSame(m: Mem, s: seq<Id>, i: nat)
    requires Within(m, s) && Distinct(s) && s != [] && IsChain(m, Some(s[0]), s) && Within(DropHead(m, s[0]), s[1..]) && i + 1 < |s|
    ensures DropOk(m, s, i + 1) <==> DropOk(DropHead(m, s[0]), s[1..], i)
  {
    hide DropHead, IsChain, Distinct;
    DropHeadFrame(m, s);
    ChainAt(m, Some(s[0]), s, i + 1);
  }

  lemma CleanDrops(m: Mem, m1: Mem, s: seq<Id>, k: nat)
    requires Within(m, s) && s != [] && Within(m1, s[1..]) && k < |s|
    requires forall i: nat :: i < k ==> (DropOk(m, s, i + 1) <==> DropOk(m1, s[1..], i))
    ensures (forall i :: 0 <= i < k + 1 ==> DropOk(m, s, i)) <==> DropOk(m, s, 0) && forall i :: 0 <= i < k ==> DropOk(m1, s[1..], i)
  {
    hide DropOk;
    if DropOk(m, s, 0) && forall i :: 0 <= i < k ==> DropOk(m1, s[1..], i) {
      forall i | 0 <= i < k + 1 ensures DropOk(m, s, i) {
        if i > 0 { assert DropOk(m1, s[1..], i - 1); }
      }
    }
    if forall i :: 0 <= i < k + 1 ==> DropOk(m, s, i) {
      forall i: nat | i < k ensures DropOk(m1, s[1..], i) { assert DropOk(m, s, i + 1); }
    }
  }

  lemma {:induction false} DropsFrame(m: Mem, m': Mem, s: seq<Id>, n: nat)
    requires Within(m, s) && Within(m', s) && forall i :: 0 <= i < |s| ==> m'[s[i]].len == m[s[i]].len
    ensures Drops(m', s, n) == Drops(m, s, n)
    decreases |s|
  {
    if !(n == 0 || s == [] || n < m[s[0]].len) { DropsFrame(m, m', s[1..], n - m[s[0]].len); }
  }

  /** Dropping the first pbuf takes away its pointer and no other. */
  lemma PredsDropped(m: Mem, s: seq<Id>, k: nat)
    requires Within(m, s) && Distinct(s) && s != [] && 0 < k < |s| && m[s[0]].next == (if |s| > 1 then Some(s[1]) else None)
    ensures Preds(m, s[k]) <= {s[k - 1]} <==> Preds(DropHead(m, s[0]), s[k]) <= if k == 1 then {} else {s[k - 1]}
  {
    var m1 := DropHead(m, s[0]);
    assert Preds(m1, s[k]) == Preds(m, s[k]) - {s[0]};
    assert s[0] in Preds(m, s[k]) ==> k == 1;
  }

  /** A first pbuf that was dropped and is wrong stays so. */
  lemma BadStays(m: Mem, rank: map<Id, nat>, handles: multiset<Id>, s: seq<Id>, n: nat)
    requires Refs(m, handles, None) && Ranked(m, rank) && Sound(m) && AllTot(m) && Within(m, s) && Distinct(s)
    requires s != [] && s[0] in handles && 0 < n && n >= m[s[0]].len && !AllTot(DropHead(m, s[0]))
    ensures !AllTot(HeadersOff(m, s, n).0)
  {
    var a, m1, t := s[0], DropHead(m, s[0]), s[1..];
    DropHeadWrong(m, handles, rank, a);
    DistinctTail(s);
    DropHeadFrame(m, s);
    HeadersElsewhere(m1, t, n - m[a].len, a);
    var m' := HeadersOff(m, s, n).0;
    assert !TotOk(m', a);
  }

  lemma DropHeadWrong(m: Mem, handles: multiset<Id>, rank: map<Id, nat>, a: Id)
    requires Refs(m, handles, None) && Ranked(m, rank) && Sound(m) && AllTot(m) && a in handles && !AllTot(DropHead(m, a))
    ensures var m1 := DropHead(m, a); a in m1 && m1[a].next == None && !TotOk(m1, a)
  {
    var m1 := DropHead(m, a);
    assert RefOk(m, handles, None, a) && NextIn(m, a) && Falls(m, rank, a);
    assert m[a].ref == 1 ==> Preds(m, a) == {};
    forall q | q in m1 && q != a ensures TotOk(m1, q) {
      assert TotOk(m, q) && NextIn(m, q) && Falls(m, rank, q);
      assert m[q].next == Some(a) ==> q in Preds(m, a);
    }
  }

  /** pbuf_free_header touches the pbufs of its chain only. */
  lemma {:induction false} HeadersElsewhere(m: Mem, s: seq<Id>, n: nat, q: Id)
    requires Within(m, s) && Distinct(s) && q in m && q !in s
    ensures q in HeadersOff(m, s, n).0 && HeadersOff(m, s, n).0[q] == m[q]
    decreases |s|
  {
    if n == 0 || s == [] {
    } else if n >= m[s[0]].len {
      DistinctTail(s);
      DropHeadFrame(m, s);
      HeadersElsewhere(DropHead(m, s[0]), s[1..], n - m[s[0]].len, q);
    }
  }
}
