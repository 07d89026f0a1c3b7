/**
Chains built by pbuf_alloc from pool elements.
*/
module PbufPool {
  import opened Prelude
  import opened PbufSpec

  /** The i-th of n pbufs that were put at the end of memory, behind the pbufs of m0. */
  ghost predicate PoolAt(m: Mem, first: Id, n: nat, rem: nat, i: nat)
    requires i < n
  {
    var q := first + i;
    && q in m && m[q].WellFormed() && m[q].ref == 1
    && m[q].next == (if i + 1 < n then Some(q + 1) else None)
    && m[q].totLen == m[q].len + (if i + 1 < n && q + 1 in m then m[q + 1].totLen else rem)
  }

  /** m is m0 and a chain of n new pbufs from `first` on, which lacks rem bytes of the request. */
  ghost predicate Pool(m0: Mem, m: Mem, first: Id, n: nat, rem: nat) {
    && (forall q :: q in m0 ==> q < first && q in m && m[q] == m0[q])
    && (forall q :: q in m ==> q in m0 || first <= q < first + n)
    && (forall i :: 0 <= i < n ==> PoolAt(m, first, n, rem, i))
  }

  ghost function PoolIds(first: Id, n: nat): seq<Id> {
    seq(n, i requires 0 <= i => first + i)
  }

  ghost function PoolRankOf(first: Id, n: nat, q: Id): nat {
    if first <= q < first + n then n - (q - first) else 0
  }

  ghost function PoolRank(rank0: map<Id, nat>, m0: Mem, first: Id, n: nat): map<Id, nat>
    requires forall q :: q in m0 ==> q in rank0
  {
    (map q | q in PoolIds(first, n) :: PoolRankOf(first, n, q)) + (map q | q in m0 :: rank0[q])
  }

  ghost function PoolHandles(handles0: multiset<Id>, first: Id, n: nat): multiset<Id> {
    if n == 0 then handles0 else handles0 + multiset{first}
  }

  /** The new chain fits into the reference counts: one handle on its first pbuf. */
  lemma PoolRefs(m0: Mem, handles0: multiset<Id>, rank0: map<Id, nat>, m: Mem, first: Id, n: nat, rem: nat)
    requires Refs(m0, handles0, None) && Ranked(m0, rank0) && Sound(m0) && Pool(m0, m, first, n, rem)
    ensures Refs(m, PoolHandles(handles0, first, n), None) && Ranked(m, PoolRank(rank0, m0, first, n)) && Sound(m)
  {
    var handles, rank := PoolHandles(handles0, first, n), PoolRank(rank0, m0, first, n);
    forall q | q in m ensures PoolRefsAt(m, handles, rank, q) {
      if q in m0 { PoolOld(m0, handles0, rank0, m, first, n, rem, q); } else { PoolNew(m0, handles0, rank0, m, first, n, rem, q); }
    }
    forall q | q in m ensures RefOk(m, handles, None, q) && NextIn(m, q) && Falls(m, rank, q) && m[q].WellFormed() {
      assert PoolRefsAt(m, handles, rank, q);
    }
    forall q | q in handles ensures q in m {
      if q == first && n > 0 { assert PoolAt(m, first, n, rem, 0); }
    }
  }

  ghost predicate PoolRefsAt(m: Mem, handles: multiset<Id>, rank: map<Id, nat>, q: Id)
    requires q in m
  {
    RefOk(m, handles, None, q) && NextIn(m, q) && q in rank && Falls(m, rank, q) && m[q].WellFormed()
  }

  /** Old pbufs point to old ones, and new ones to the next new one. */
  lemma PoolLinks(m0: Mem, m: Mem, first: Id, n: nat, rem: nat)
    requires Closed(m0) && Pool(m0, m, first, n, rem)
    ensures forall p :: p in m0 && m[p].next.Some? ==> m[p].next.value in m0
    ensures forall p :: p in m && p !in m0 && m[p].next.Some? ==> m[p].next.value == p + 1 && m[p].next.value !in m0
  {
    forall p | p in m0 && m[p].next.Some? ensures m[p].next.value in m0 { assert NextIn(m0, p); }
    forall p | p in m && p !in m0 && m[p].next.Some? ensures m[p].next.value == p + 1 && m[p].next.value !in m0 {
      assert PoolAt(m, first, n, rem, p - first);
    }
  }

  lemma PoolOld(m0: Mem, handles0: multiset<Id>, rank0: map<Id, nat>, m: Mem, first: Id, n: nat, rem: nat, q: Id)
    requires Refs(m0, handles0, None) && Ranked(m0, rank0) && Sound(m0) && Pool(m0, m, first, n, rem) && q in m0
    ensures PoolRefsAt(m, PoolHandles(handles0, first, n), PoolRank(rank0, m0, first, n), q)
  {
    assert RefOk(m0, handles0, None, q) && NextIn(m0, q) && Falls(m0, rank0, q) && m0[q].WellFormed();
    PoolLinks(m0, m, first, n, rem);
    assert Preds(m, q) == Preds(m0, q);
  }

  lemma PoolPreds(m0: Mem, m: Mem, first: Id, n: nat, rem: nat, i: nat)
    requires Closed(m0) && Pool(m0, m, first, n, rem) && i < n
    ensures Preds(m, first + i) == if i > 0 then {first + i - 1} else {}
  {
    var q := first + i;
    assert PoolAt(m, first, n, rem, i);
    PoolLinks(m0, m, first, n, rem);
    if i > 0 { assert PoolAt(m, first, n, rem, i - 1); }
  }

  lemma PoolFalls(m0: Mem, rank0: map<Id, nat>, m: Mem, first: Id, n: nat, rem: nat, i: nat)
    requires Ranked(m0, rank0) && Pool(m0, m, first, n, rem) && i < n
    ensures var q, rank := first + i, PoolRank(rank0, m0, first, n);
            q in m && q in rank && Falls(m, rank, q) && NextIn(m, q)
  {
    assert PoolAt(m, first, n, rem, i);
    assert PoolIds(first, n)[i] == first + i;
    if i + 1 < n {
      assert PoolAt(m, first, n, rem, i + 1);
      assert PoolIds(first, n)[i + 1] == first + i + 1;
    }
  }

  lemma PoolNew(m0: Mem, handles0: multiset<Id>, rank0: map<Id, nat>, m: Mem, first: Id, n: nat, rem: nat, q: Id)
    requires Refs(m0, handles0, None) && Ranked(m0, rank0) && Pool(m0, m, first, n, rem) && q in m && q !in m0
    ensures PoolRefsAt(m, PoolHandles(handles0, first, n), PoolRank(rank0, m0, first, n), q)
  {
    hide Preds, PoolRank, Ranked;
    var i := q - first;
    assert PoolAt(m, first, n, rem, i);
    PoolPreds(m0, m, first, n, rem, i);
    PoolFalls(m0, rank0, m, first, n, rem, i);
    assert q !in handles0;
  }

  /** The new chain and what was there before have the right tot_len. */
  lemma PoolTot(m0: Mem, m: Mem, first: Id, n: nat)
    requires Closed(m0) && AllTot(m0) && Pool(m0, m, first, n, 0)
    ensures AllTot(m)
  {
    PoolLinks(m0, m, first, n, 0);
    forall q | q in m ensures TotOk(m, q) {
      if q in m0 {
        assert TotOk(m0, q) && NextIn(m0, q);
      } else {
        assert PoolAt(m, first, n, 0, q - first);
        if q + 1 < first + n { assert PoolAt(m, first, n, 0, q + 1 - first); }
      }
    }
  }

  /** How many pool elements of `bufsize` bytes a request takes when the first keeps `offset` bytes free. */
  function Elements(length: nat, offset: nat, bufsize: nat): (n: nat)
    requires offset < bufsize
    ensures n > 0
    decreases length
  {
    if length <= bufsize - offset then 1 else 1 + Elements(length - (bufsize - offset), 0, bufsize)
  }

  lemma ElementsStep(rem: nat, offset: nat, bufsize: nat, len: nat)
    requires offset < bufsize && len == if rem < bufsize - offset then rem else bufsize - offset
    ensures Elements(rem, offset, bufsize) == 1 + if rem > len then Elements(rem - len, 0, bufsize) else 0
  {
  }

  /** It is the least number that holds the request, and one for an empty request. */
  lemma {:induction false} ElementsLeast(length: nat, offset: nat, bufsize: nat)
    requires offset < bufsize
    ensures var n := Elements(length, offset, bufsize);
            offset + length <= n * bufsize && (n > 1 ==> (n - 1) * bufsize < offset + length)
    decreases length
  {
    if length > bufsize - offset {
      var rest := length - (bufsize - offset);
      ElementsLeast(rest, 0, bufsize);
      var k := Elements(rest, 0, bufsize);
      assert (k + 1) * bufsize == k * bufsize + bufsize;
      if k > 1 { assert k * bufsize == (k - 1) * bufsize + bufsize; }
    }
  }

  /** Freeing a chain that was just built gives the memory before it. */
  lemma {:induction false} FreePool(m0: Mem, m: Mem, first: Id, n: nat, rem: nat, i: nat, r: Mem)
    requires Pool(m0, m, first, n, rem) && i <= n
    requires forall q :: q in r <==> q in m && (q in m0 || first + i <= q)
    requires forall q :: q in r ==> r[q] == m[q]
    ensures FreeFrom(r, if i < n then Some(first + i) else None).mem == m0
    decreases n - i
  {
    if i < n {
      assert PoolAt(m, first, n, rem, i);
      var q := first + i;
      FreePool(m0, m, first, n, rem, i + 1, r - {q});
    } else {
      assert r == m0;
    }
  }

  /** What a failed allocation leaves to undo. */
  lemma PoolUndo(m0: Mem, handles0: multiset<Id>, rank0: map<Id, nat>, m: Mem, first: Id, n: nat, rem: nat)
    requires Refs(m0, handles0, None) && Ranked(m0, rank0) && Sound(m0) && Pool(m0, m, first, n, rem)
    ensures Refs(m, PoolHandles(handles0, first, n), None) && Ranked(m, PoolRank(rank0, m0, first, n)) && Sound(m)
    ensures n > 0 ==> FreeFrom(m, Some(first)).mem == m0 && first in PoolHandles(handles0, first, n)
    ensures n > 0 ==> PoolHandles(handles0, first, n) - multiset{first} == handles0
    ensures n == 0 ==> m == m0 && PoolHandles(handles0, first, n) == handles0
  {
    hide Refs, Ranked, Sound, PoolAt, PoolRank, FreeFrom;
    PoolRefs(m0, handles0, rank0, m, first, n, rem);
    FreePool(m0, m, first, n, rem, 0, m);
    if n == 0 { assert m == m0; }
  }

  /** The whole chain: its pbufs, and tot_len of the first is the number of its bytes. */
  lemma {:induction false} PoolChain(m0: Mem, m: Mem, first: Id, n: nat, i: nat)
    requires Pool(m0, m, first, n, 0) && i < n
    ensures var s := PoolIds(first, n)[i..]; IsChain(m, Some(first + i), s) && Within(m, s) && |Flat(m, s)| == m[first + i].totLen
    decreases n - i
  {
    assert PoolAt(m, first, n, 0, i);
    var s := PoolIds(first, n)[i..];
    assert s[0] == first + i && s[1..] == PoolIds(first, n)[i + 1..];
    if i + 1 < n {
      PoolChain(m0, m, first, n, i + 1);
      assert PoolAt(m, first, n, 0, i + 1);
    } else {
      assert s[1..] == [];
    }
  }

  /** Adding a pbuf for the next part of the request. */
  lemma PoolGrows(m0: Mem, m: Mem, first: Id, n: nat, rem: nat, m': Mem, b: Pbuf)
    requires Pool(m0, m, first, n, rem) && b.WellFormed() && b.ref == 1 && b.next == None
    requires b.totLen == rem && b.len <= rem && (forall q :: q in m0 ==> q < first)
    requires m' == (if n == 0 then m else if first + n - 1 in m then m[first + n - 1 := m[first + n - 1].(next := Some(first + n))] else m)[first + n := b]
    ensures Pool(m0, m', first, n + 1, rem - b.len)
  {
    var k, left := n + 1, rem - b.len;
    forall i | 0 <= i < k ensures PoolAt(m', first, k, left, i) {
      if i < n { assert PoolAt(m, first, n, rem, i); }
      if i + 1 < n { assert PoolAt(m, first, n, rem, i + 1); }
    }
  }

  lemma PoolLast(m0: Mem, m: Mem, first: Id, n: nat, rem: nat)
    requires Pool(m0, m, first, n, rem)
    ensures n > 0 ==> first in m && first + n - 1 in m
    ensures first + n !in m
  {
    if n > 0 { assert PoolAt(m, first, n, rem, 0) && PoolAt(m, first, n, rem, n - 1); }
  }
}
