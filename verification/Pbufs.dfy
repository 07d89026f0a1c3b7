/**
The operations of pbuf.c on the pbuf memory: reference counting and restructuring.
*/
module Pbufs {
  import opened Prelude
  import opened PbufSpec
  import opened PbufShape
  import opened PbufHeader
  import opened PbufPool

  /** m with n added to the tot_len of the pbufs ids. */
  ghost function Bump(m: Mem, ids: seq<Id>, n: int): Mem {
    map q | q in m :: if q in ids then m[q].(totLen := U16(m[q].totLen + n)) else m[q]
  }

  class PbufHeap {
    var mem: Mem
    /** Addresses from here on have not been handed out. */
    var nextId: Id
    /** The references that callers hold. */
    ghost var handles: multiset<Id>
    /** Witness that next pointers form no cycle. */
    ghost var rank: map<Id, nat>

    /** All of the invariant but the count that `extra` is about to give up. */
    ghost predicate Pending(extra: Option<Id>)
      reads this
    {
      && Sound(mem) && Refs(mem, handles, extra) && Ranked(mem, rank)
      && (forall p :: p in mem ==> p < nextId)
    }

    ghost predicate Valid()
      reads this
    {
      Pending(None)
    }

    /** The pbufs from p on. */
    ghost function Ids(p: Option<Id>): (s: seq<Id>)
      requires Valid() && (p.Some? ==> p.value in mem)
      reads this
      ensures IsChain(mem, p, s)
    {
      ChainFrom(mem, rank, p)
    }

    constructor ()
      ensures Valid() && mem == map[] && handles == multiset{}
    {
      mem, nextId, handles, rank := map[], 0, multiset{}, map[];
    }

    /** The loop of pbuf_free, on a reference to p that is already off the books. */
    method Release(p: Option<Id>) returns (count: nat)
      requires Pending(p)
      modifies `mem
      ensures Valid() && mem == FreeFrom(old(mem), p).mem && count == FreeFrom(old(mem), p).count % 256
    {
      hide Refs, Ranked, Sound, FreeFrom;
      NothingToFree(mem);
      var q := p;
      count := 0;
      ghost var n := 0;
      while q.Some?
        invariant Pending(q)
        invariant FreeFrom(mem, q).mem == FreeFrom(old(mem), p).mem
        invariant n + FreeFrom(mem, q).count == FreeFrom(old(mem), p).count && count == n % 256
        decreases |mem|, q.Some?
      {
        ReleaseStep(mem, handles, rank, q.value);
        Mod256(n);
        var ref := mem[q.value].ref - 1;
        if ref == 0 {
          var next := mem[q.value].next;
          mem := mem - {q.value};
          count, n := (count + 1) % 256, n + 1;
          q := next;
        } else {
          mem := mem[q.value := mem[q.value].(ref := ref)];
          q := None;
        }
      }
      NothingToFree(mem);
    }

    /** pbuf_free */
    method Free(p: Option<Id>) returns (count: nat)
      requires Valid() && (p.Some? ==> p.value in handles)
      modifies this
      ensures Valid() && handles == (if p.Some? then old(handles) - multiset{p.value} else old(handles))
      ensures mem == FreeFrom(old(mem), p).mem && count == FreeFrom(old(mem), p).count % 256
      ensures rank == old(rank) && nextId == old(nextId)
      ensures old(AllTot(mem)) ==> AllTot(mem)
    {
      if p.None? {
        return 0;
      }
      GiveUp(mem, handles, p.value);
      if AllTot(mem) { FreeTot(mem, handles - multiset{p.value}, p); }
      handles := handles - multiset{p.value};
      count := Release(p);
    }

    /** pbuf_ref; the count is a u8_t that must not wrap. */
    method Ref(p: Option<Id>)
      requires Valid() && (p.Some? ==> p.value in mem && mem[p.value].ref < 255)
      modifies `mem, `handles
      ensures Valid()
      ensures p.None? ==> mem == old(mem) && handles == old(handles)
      ensures p.Some? ==> handles == old(handles) + multiset{p.value}
      ensures p.Some? ==> mem == old(mem)[p.value := old(mem)[p.value].(ref := old(mem)[p.value].ref + 1)]
    {
      if p.Some? {
        RefRefs(mem, handles, p.value);
        RefRanked(mem, rank, p.value);
        mem := mem[p.value := mem[p.value].(ref := mem[p.value].ref + 1)];
        handles := handles + multiset{p.value};
      }
    }

    /** pbuf_cat: the tail chain is taken over with the caller's reference to it. */
    method Cat(h: Option<Id>, t: Option<Id>)
      requires Valid()
      requires h.Some? && t.Some? ==>
                 h.value in mem && t.value in handles && Ids(h)[|Ids(h)| - 1] !in Ids(t)
      modifies `mem, `handles, `rank
      ensures Valid()
      ensures h.None? || t.None? ==> mem == old(mem) && handles == old(handles)
      ensures h.Some? && t.Some? ==>
                mem == CatMem(old(mem), old(Ids(h)), t.value) && handles == old(handles) - multiset{t.value}
    {
      hide Refs, Ranked, Sound, IsChain, CatMem;
      if h.None? || t.None? {
        return;
      }
      HandleIn(mem, handles, t.value);
      ghost var s, ts, m := Ids(h), Ids(t), mem;
      ChainHead(m, h.value, s);
      CatRefs(m, handles, s, t.value);
      ghost var rank' := CatRanked(m, rank, s, t.value, ts);
      TailDisjoint(m, rank, s, t.value, ts);
      CatSound(m, s, t.value);
      CatKeys(m, s, t.value);
      var p := AddTot(h.value, t.value, s);
      CatIsBump(m, s, t.value);
      mem := mem[p := mem[p].(next := t)];
      handles := handles - multiset{t.value};
      rank := rank';
    }

    /** The loop of pbuf_cat: add t->tot_len to every pbuf of the head chain. */
    method AddTot(h: Id, t: Id, ghost s: seq<Id>) returns (p: Id)
      requires IsChain(mem, Some(h), s) && t in mem && t !in s && Closed(mem) && Ranked(mem, rank)
      modifies `mem
      ensures s != [] && p == s[|s| - 1] && p in old(mem) && mem == Bump(old(mem), s, old(mem)[t].totLen)
    {
      hide Closed, Ranked, IsChain, U16, Bump, Distinct;
      ghost var m, n := mem, mem[t].totLen;
      ChainDistinct(m, rank, Some(h), s);
      ChainHead(m, h, s);
      BumpNone(m, s, n);
      p := h;
      ghost var i := 0;
      BumpNext(m, s, 0, n, t);
      while mem[p].next.Some?
        invariant 0 <= i < |s| && p == s[i] && p in mem && mem[p] == m[p] && mem == Bump(m, s[..i], n)
        decreases |s| - i
      {
        ChainAt(m, Some(h), s, i);
        BumpNext(m, s, i, n, t);
        mem := mem[p := mem[p].(totLen := U16(mem[p].totLen + mem[t].totLen))];
        p := mem[p].next.value;
        i := i + 1;
        BumpNext(m, s, i, n, t);
      }
      ChainAt(m, Some(h), s, i);
      BumpNext(m, s, i, n, t);
      mem := mem[p := mem[p].(totLen := U16(mem[p].totLen + mem[t].totLen))];
      assert s[..i + 1] == s;
    }

    /** pbuf_chain: like pbuf_cat, but the caller keeps its reference to the tail. */
    method Chain(h: Id, t: Id)
      requires Valid() && h in mem && t in handles && Ids(Some(h))[|Ids(Some(h))| - 1] !in Ids(Some(t))
      requires mem[t].ref < 255
      modifies `mem, `handles, `rank
      ensures Valid() && handles == old(handles)
      ensures var m := CatMem(old(mem), old(Ids(Some(h))), t); mem == m[t := m[t].(ref := m[t].ref + 1)]
    {
      hide Ranked, Sound, IsChain, CatMem, Closed;
      ChainHead(mem, h, Ids(Some(h)));
      CatKeepsRef(mem, Ids(Some(h)), t);
      Cat(Some(h), Some(t));
      Ref(Some(t));
    }

    /**
    pbuf_dechain; the caller passes a reference to p and keeps it. The result points to freed
    memory when the pbufs behind p that nobody else refers to are a positive multiple of 256.
    */
    method Dechain(p: Id) returns (r: Option<Id>)
      requires Valid() && p in mem && TotOk(mem, p)
      modifies `mem
      ensures Valid() && NextIn(old(mem), p)
      ensures mem == FreeFrom(Cut(old(mem), p), old(mem)[p].next).mem
      ensures var s := old(Ids(mem[p].next));
              && (forall i :: 0 <= i < |s| ==> s[i] in old(mem))
              && var gone := Lone(old(mem), s);
                 && r == (if gone % 256 > 0 then None else old(mem)[p].next)
                 && (r.Some? ==> (r.value in mem <==> gone == 0))
    {
      hide Ranked, Sound, FreeFrom, Lone, Cut, RefOk, U16, TotOk, IsChain;
      NothingToFree(mem);
      assert NextIn(mem, p);
      var q := mem[p].next;
      DechainCount(mem, handles, rank, p, Ids(q));
      var gone := 1;
      if q.Some? {
        CutTot(mem, p);
        CutValid(mem, handles, rank, p);
        CutIs(mem, p);
        FreeCount(Cut(mem, p), q.value);
        mem := mem[q.value := mem[q.value].(totLen := U16(mem[p].totLen - mem[p].len))];
        assert mem == old(mem);
        mem := mem[p := mem[p].(next := None, totLen := mem[p].len)];
        gone := Release(q);
      } else {
        CutIs(mem, p);
      }
      r := if gone > 0 then None else q;
    }

    /** pbuf_realloc; a heap pbuf's buffer, which mem_trim shortens in place, is left as it is. */
    method Realloc(p: Id, new_len: nat)
      requires Valid() && p in mem && Measured(mem, Ids(Some(p)))
      modifies `mem
      ensures Valid()
      ensures mem == if new_len < |Flat(old(mem), old(Ids(Some(p))))|
                     then ReallocMem(old(mem), old(Ids(Some(p))), new_len) else old(mem)
    {
      hide RefOk, Closed, Ranked, Sound, IsChain, Flat, Keep, FreeFrom, Shrunk, TotAlong;
      ghost var s, m := Ids(Some(p)), mem;
      MeasuredAt(m, s, 0);
      assert s[0..] == s;
      ChainHead(m, p, s);
      if new_len >= mem[p].totLen {
        return;
      }
      var shrink := mem[p].totLen - new_len;
      var q, rem := ShrinkTots(p, new_len, shrink, s);
      var next := mem[q].next;
      ghost var k := Keep(m, s, new_len).0;
      KeepFacts(m, s, new_len);
      ShrunkIsBump(m, s, k, rem, shrink);
      ShrunkValid(m, handles, rank, s, k, rem, shrink);
      mem := mem[q := mem[q].(len := rem, totLen := rem, next := None)];
      var _ := Release(next);
    }

    /** The walk of pbuf_realloc to the new last pbuf. */
    method ShrinkTots(p: Id, new_len: nat, shrink: int, ghost s: seq<Id>) returns (q: Id, rem: nat)
      requires IsChain(mem, Some(p), s) && Closed(mem) && Ranked(mem, rank) && Within(mem, s) && new_len <= |Flat(mem, s)|
      modifies `mem
      ensures s != [] && var (k, r) := Keep(old(mem), s, new_len);
                         q == s[k] && rem == r && q in old(mem) && mem == Bump(old(mem), s[..k], -shrink) && q in mem && mem[q] == old(mem)[q]
    {
      hide Closed, Ranked, IsChain, U16, Bump, Distinct, Keep, Flat;
      ghost var m := mem;
      ChainDistinct(m, rank, Some(p), s);
      ChainHead(m, p, s);
      BumpNone(m, s, -shrink);
      q, rem := p, new_len;
      ghost var i := 0;
      assert s[0..] == s;
      BumpStep(m, s, 0, -shrink);
      while rem > mem[q].len
        invariant 0 <= i < |s| && q == s[i] && q in mem && mem[q] == m[q] && mem == Bump(m, s[..i], -shrink)
        invariant Within(m, s[i..]) && rem <= |Flat(m, s[i..])|
        invariant Keep(m, s, new_len) == (i + Keep(m, s[i..], rem).0, Keep(m, s[i..], rem).1)
        decreases |s| - i
      {
        KeepNext(m, s[i..], rem);
        ChainAt(m, Some(p), s, i);
        BumpStep(m, s, i, -shrink);
        assert s[i..][1..] == s[i + 1..] && s[i..][0] == s[i];
        rem := rem - mem[q].len;
        mem := mem[q := mem[q].(totLen := U16(mem[q].totLen - shrink))];
        q := mem[q].next.value;
        i := i + 1;
        BumpStep(m, s, i, -shrink);
      }
      KeepHere(m, s[i..], rem);
      assert s[i..][0] == s[i];
    }

    /**
    pbuf_alloc from the pool, which has `avail` elements of `bufsize` bytes left; the first
    pbuf keeps `headroom` bytes for headers. A failure leaves no trace.
    */
    method AllocPool(length: nat, headroom: nat, bufsize: nat, avail: nat) returns (p: Option<Id>)
      requires Valid() && length < 0x1_0000 && headroom < bufsize
      modifies this
      ensures Valid()
      ensures p.None? ==> mem == old(mem) && handles == old(handles)
      ensures p.Some? ==> handles == old(handles) + multiset{p.value} && p.value == old(nextId)
      ensures p.Some? <==> Elements(length, headroom, bufsize) <= avail
      ensures p.Some? ==> Pool(old(mem), mem, p.value, Elements(length, headroom, bufsize), 0)
      ensures old(AllTot(mem)) ==> AllTot(mem)
      ensures p.Some? ==> p.value in mem && mem[p.value].totLen == length && mem[p.value].off == headroom
    {
      hide Refs, Ranked, Sound, Pool, PoolRank, FreeFrom, AllTot, Elements;
      var first, last := nextId, nextId;
      var rem: nat, offset: nat, n: nat := length, headroom, 0;
      p := None;
      ghost var m0, h0, r0 := mem, handles, rank;
      RankKeys(m0, r0);
      PoolEmpty(m0, h0, first, length);
      while n == 0 || rem > 0
        invariant m0 == old(mem) && h0 == old(handles) && first == old(nextId) && Refs(m0, h0, None) && Ranked(m0, r0) && Sound(m0)
        invariant Pool(m0, mem, first, n, rem) && nextId == first + n && n <= avail && rem <= length
        invariant forall q :: q in m0 ==> q < first && q in r0
        invariant handles == PoolHandles(h0, first, n) && (n == 0 ==> rem == length && offset == headroom) && (n > 0 ==> offset == 0)
        invariant p == (if n == 0 then None else Some(first)) && (n > 0 ==> last == first + n - 1)
        invariant n > 0 ==> first in mem && mem[first].totLen == length && mem[first].off == headroom
        invariant n + (if n == 0 || rem > 0 then Elements(rem, offset, bufsize) else 0) == Elements(length, headroom, bufsize)
        decreases rem, n == 0
      {
        PoolLast(m0, mem, first, n, rem);
        if n == avail {
          UndoPool(m0, h0, r0, p, first, n, rem);
          return None;
        }
        var qlen: nat := if rem < bufsize - offset then rem else bufsize - offset;
        ElementsStep(rem, offset, bufsize, qlen);
        var q := Append(p, last, Pbuf(None, seq(bufsize, _ => 0), offset, qlen, rem, 1, true), m0, first, n, rem);
        if p.None? {
          p := Some(q);
        }
        handles := PoolHandles(h0, first, n + 1);
        last, rem, offset, n := q, rem - qlen, 0, n + 1;
      }
      PoolRefs(m0, h0, r0, mem, first, n, rem);
      PoolKeys(m0, mem, first, n, rem);
      if AllTot(m0) { ClosedOf(m0, h0); PoolTot(m0, mem, first, n); }
      rank := PoolRank(r0, m0, first, n);
    }

    /** One more pool element b, linked behind `last` unless it is the first. */
    method Append(p: Option<Id>, last: Id, b: Pbuf, ghost m0: Mem, ghost first: Id, ghost n: nat, ghost rem: nat) returns (q: Id)
      requires Pool(m0, mem, first, n, rem) && nextId == first + n && forall x :: x in m0 ==> x < first
      requires p == (if n == 0 then None else Some(first)) && (n > 0 ==> last == first + n - 1)
      requires b.WellFormed() && b.ref == 1 && b.next == None && b.totLen == rem && b.len <= rem
      modifies `mem, `nextId
      ensures q == first + n && nextId == q + 1 && Pool(m0, mem, first, n + 1, rem - b.len)
      ensures first in mem && (n > 0 ==> first in old(mem))
      ensures n == 0 ==> mem[first].totLen == b.totLen && mem[first].off == b.off
      ensures n > 0 ==> mem[first].totLen == old(mem)[first].totLen && mem[first].off == old(mem)[first].off
    {
      hide Pool;
      PoolLast(m0, mem, first, n, rem);
      ghost var m := mem;
      q := nextId;
      mem := mem[q := b];
      nextId := nextId + 1;
      if p.Some? {
        mem := mem[last := mem[last].(next := Some(q))];
      }
      PoolGrows(m0, m, first, n, rem, mem, b);
    }

    /** The pool is empty: what was allocated so far is freed. */
    method UndoPool(ghost m0: Mem, ghost h0: multiset<Id>, ghost r0: map<Id, nat>, p: Option<Id>, first: Id, ghost n: nat, ghost rem: nat)
      requires Refs(m0, h0, None) && Ranked(m0, r0) && Sound(m0) && Pool(m0, mem, first, n, rem)
      requires (forall q :: q in m0 ==> q < first && q in r0) && nextId == first + n && handles == PoolHandles(h0, first, n)
      requires p == if n == 0 then None else Some(first)
      modifies this
      ensures Valid() && mem == m0 && handles == h0 && nextId == old(nextId)
    {
      hide Refs, Ranked, Sound, Pool, PoolHandles, PoolRank, FreeFrom;
      PoolUndo(m0, h0, r0, mem, first, n, rem);
      PoolKeys(m0, mem, first, n, rem);
      rank := PoolRank(r0, m0, first, n);
      if p.Some? {
        var _ := Free(p);
      }
    }

    /** pbuf_alloc and pbuf_alloc_reference of a single pbuf. */
    method AllocOne(buf: seq<byte>, off: nat, len: nat, contiguous: bool) returns (p: Id)
      requires Valid() && off + len <= |buf| && len < 0x1_0000
      modifies this
      ensures Valid() && handles == old(handles) + multiset{p} && p !in old(mem)
      ensures mem == old(mem)[p := Pbuf(None, buf, off, len, len, 1, contiguous)]
      ensures old(AllTot(mem)) ==> AllTot(mem)
    {
      hide Refs, Ranked, Sound, AllTot;
      p := nextId;
      ghost var m := mem;
      ClosedOf(m, handles);
      mem := mem[p := Pbuf(None, buf, off, len, len, 1, contiguous)];
      nextId := nextId + 1;
      RankKeys(m, rank);
      assert PoolAt(mem, p, 1, 0, 0);
      assert Pool(m, mem, p, 1, 0);
      if AllTot(m) { PoolTot(m, mem, p, 1); }
      PoolRefs(m, handles, rank, mem, p, 1, 0);
      handles := handles + multiset{p};
      rank := PoolRank(rank, m, p, 1);
    }

    /** pbuf_add_header and pbuf_add_header_force. */
    method AddHeader(p: Option<Id>, n: nat, force: bool) returns (failed: bool)
      requires Valid() && (p.Some? ==> p.value in mem)
      requires p.Some? && force && !mem[p.value].contiguous ==> n <= mem[p.value].off
      modifies `mem
      ensures Valid()
      ensures failed <==> p.None? || (n > 0 && (0x1_0000 <= n + old(mem)[p.value].totLen
                                                || if old(mem)[p.value].contiguous then old(mem)[p.value].off < n else !force))
      ensures mem == if failed || n == 0 then old(mem) else AddHdr(old(mem), p.value, n)
    {
      if p.None? || n > 0xFFFF {
        return true;
      }
      if n == 0 {
        return false;
      }
      var a := p.value;
      if U16(n + mem[a].totLen) < n {
        return true;
      }
      if mem[a].contiguous {
        if mem[a].off < n {
          return true;
        }
      } else if !force {
        return true;
      }
      SameLinks(mem, AddHdr(mem, a, n), handles, rank, None);
      assert mem[a].WellFormed();
      mem := AddHdr(mem, a, n);
      failed := false;
    }

    /** pbuf_remove_header */
    method RemoveHeader(p: Option<Id>, n: nat) returns (failed: bool)
      requires Valid() && (p.Some? ==> p.value in mem)
      modifies `mem
      ensures Valid() && (failed <==> p.None? || old(mem)[p.value].len < n)
      ensures mem == if failed || n == 0 then old(mem) else RemoveHdr(old(mem), p.value, n)
    {
      if p.None? || n > 0xFFFF {
        assert p.Some? ==> mem[p.value].WellFormed();
        return true;
      }
      if n == 0 {
        return false;
      }
      var a := p.value;
      if n > mem[a].len {
        return true;
      }
      SameLinks(mem, RemoveHdr(mem, a, n), handles, rank, None);
      assert mem[a].WellFormed();
      mem := RemoveHdr(mem, a, n);
      failed := false;
    }

    /** The caller's handle on f moves to the next pbuf, and f is freed. */
    method FreeFirst(f: Id) returns (next: Option<Id>)
      requires Valid() && f in handles
      modifies `mem, `handles
      ensures Valid() && f in old(mem) && next == old(mem)[f].next && mem == DropHead(old(mem), f)
      ensures handles == Passed(old(handles), f, next)
    {
      hide RefOk, Ranked, Sound, DropHead;
      CutPassed(mem, handles, rank, f);
      DropHeadIsFree(mem, f);
      next := mem[f].next;
      mem := mem[f := mem[f].(next := None)];
      handles := Passed(handles, f, next);
      var _ := Release(Some(f));
    }

    /** pbuf_free_header: the caller's handle moves to the first pbuf that is left. */
    method FreeHeader(q: Option<Id>, size: nat) returns (p: Option<Id>)
      requires Valid() && (q.Some? ==> q.value in handles)
      modifies this
      ensures Valid() && (p.Some? ==> p.value in handles)
      ensures var s := old(Ids(q));
              && Distinct(s) && Within(old(mem), s)
              && mem == HeadersOff(old(mem), s, size).0 && Ids(p) == HeadersOff(old(mem), s, size).1
    {
      hide Refs, Ranked, Sound, IsChain, Distinct, HeadersOff, Within;
      p := q;
      var left: nat := size;
      if q.Some? { HandleIn(mem, handles, q.value); }
      IdsSound(mem, handles, rank, q, Ids(q));
      while left > 0 && p.Some?
        invariant Valid() && (p.Some? ==> p.value in handles && p.value in mem)
        invariant Distinct(Ids(p)) && Within(mem, Ids(p))
        invariant HeadersOff(mem, Ids(p), left) == old(HeadersOff(mem, Ids(q), size))
        decreases |Ids(p)|, left
      {
        ghost var s := Ids(p);
        var f := p.value;
        HeadersStep(mem, f, s, left);
        if left >= mem[f].len {
          left := left - mem[f].len;
          p := FreeFirst(f);
          if p.Some? { HandleIn(mem, handles, p.value); }
          IdsSound(mem, handles, rank, p, Ids(p));
          IdsTail(mem, p, Ids(p), s[1..]);
        } else {
          var _ := RemoveHeader(p, left);
          IdsSound(mem, handles, rank, p, Ids(p));
          IdsTail(mem, p, Ids(p), s);
          HeadersEnd(mem, s, 0);
          left := 0;
        }
      }
      HeadersEnd(mem, Ids(p), left);
    }
  }

  lemma IdsSound(m: Mem, handles: multiset<Id>, rank: map<Id, nat>, p: Option<Id>, s: seq<Id>)
    requires Refs(m, handles, None) && Ranked(m, rank) && Sound(m) && IsChain(m, p, s)
    ensures Distinct(s) && Within(m, s) && (p.None? ==> s == [])
  {
    ChainDistinct(m, rank, p, s);
    forall i | 0 <= i < |s| ensures s[i] in m && m[s[i]].off + m[s[i]].len <= |m[s[i]].buf| { assert m[s[i]].WellFormed(); }
  }

  lemma IdsTail(m: Mem, p: Option<Id>, s: seq<Id>, t: seq<Id>)
    requires IsChain(m, p, s) && IsChain(m, p, t)
    ensures s == t
  {
    ChainUnique(m, p, s, t);
  }

  lemma HeadersEnd(m: Mem, s: seq<Id>, left: nat)
    requires Within(m, s) && Distinct(s) && (left == 0 || s == [])
    ensures HeadersOff(m, s, left) == (m, s)
  {
  }

  /** One round of the loop of pbuf_free_header. */
  lemma HeadersStep(m: Mem, f: Id, s: seq<Id>, left: nat)
    requires IsChain(m, Some(f), s) && Distinct(s) && Within(m, s) && left > 0
    ensures s != [] && s[0] == f && f in m
    ensures left >= m[f].len ==> Distinct(s[1..]) && Within(DropHead(m, f), s[1..])
    ensures left >= m[f].len ==> IsChain(DropHead(m, f), m[f].next, s[1..])
    ensures left >= m[f].len ==> HeadersOff(m, s, left) == HeadersOff(DropHead(m, f), s[1..], left - m[f].len)
    ensures left < m[f].len ==> HeadersOff(m, s, left) == (RemoveHdr(m, f, left), s)
    ensures left < m[f].len ==> Within(RemoveHdr(m, f, left), s) && IsChain(RemoveHdr(m, f, left), Some(f), s)
  {
    if left >= m[f].len {
      DistinctTail(s);
      DropHeadFrame(m, s);
      assert forall i :: 0 <= i < |s[1..]| ==> s[1..][i] == s[i + 1];
      ChainFrame(m, DropHead(m, f), m[f].next, s[1..]);
    } else {
      RemoveFlat(m, s, left);
    }
  }

  lemma CutPassed(m: Mem, handles: multiset<Id>, rank: map<Id, nat>, a: Id)
    requires Refs(m, handles, None) && Ranked(m, rank) && Sound(m) && a in handles
    ensures a in m && var m1 := m[a := m[a].(next := None)];
                      Refs(m1, Passed(handles, a, m[a].next), Some(a)) && Ranked(m1, rank) && Sound(m1)
  {
    NotSelf(m, handles, rank, a);
    var m1 := m[a := m[a].(next := None)];
    CutRefs(m, handles, a);
    PassRefs(m1, handles, a, m[a].next);
    forall q | q in m1 ensures Falls(m1, rank, q) && m1[q].WellFormed() { assert Falls(m, rank, q) && m[q].WellFormed(); }
  }

  lemma PoolEmpty(m: Mem, handles: multiset<Id>, first: Id, rem: nat)
    requires forall q :: q in m ==> q < first
    ensures Pool(m, m, first, 0, rem) && PoolHandles(handles, first, 0) == handles
  {
  }

  lemma PoolKeys(m0: Mem, m: Mem, first: Id, n: nat, rem: nat)
    requires Pool(m0, m, first, n, rem)
    ensures forall q :: q in m ==> q < first + n
  {
  }

  lemma RankKeys(m: Mem, rank: map<Id, nat>)
    requires Ranked(m, rank)
    ensures forall q :: q in m ==> q in rank
  {
  }

  lemma KeepNext(m: Mem, s: seq<Id>, n: nat)
    requires s != [] && Within(m, s) && m[s[0]].len < n <= |Flat(m, s)|
    ensures |s| > 1 && Within(m, s[1..]) && n - m[s[0]].len <= |Flat(m, s[1..])|
    ensures Keep(m, s, n) == (1 + Keep(m, s[1..], n - m[s[0]].len).0, Keep(m, s[1..], n - m[s[0]].len).1)
  {
    ShortFlat(m, s);
  }

  lemma ShortFlat(m: Mem, s: seq<Id>)
    requires s != [] && Within(m, s)
    ensures |s| == 1 ==> |Flat(m, s)| == m[s[0]].len
  {
    if |s| == 1 { assert s[1..] == []; }
  }

  lemma KeepHere(m: Mem, s: seq<Id>, n: nat)
    requires s != [] && Within(m, s) && n <= m[s[0]].len
    ensures Keep(m, s, n) == (0, n)
  {
  }

  lemma BumpStep(m: Mem, s: seq<Id>, i: nat, n: int)
    requires i < |s| && s[i] in m && Distinct(s)
    ensures s[i] in Bump(m, s[..i], n) && Bump(m, s[..i], n)[s[i]] == m[s[i]]
    ensures Bump(m, s[..i + 1], n) == Bump(m, s[..i], n)[s[i] := m[s[i]].(totLen := U16(m[s[i]].totLen + n))]
  {
    assert s[..i + 1] == s[..i] + [s[i]];
  }

  lemma ShrunkIsBump(m: Mem, s: seq<Id>, k: nat, rem: nat, shrink: int)
    requires k < |s| && s[k] in m
    ensures var b := Bump(m, s[..k], -shrink);
            b[s[k] := m[s[k]].(len := rem, totLen := rem, next := None)] == Shrunk(m, s, k, rem, shrink)
  {
  }

  /** m after p is separated from what follows it. */
  ghost function Cut(m: Mem, p: Id): Mem
    requires p in m
  {
    if m[p].next.None? then m else m[p := m[p].(next := None, totLen := m[p].len)]
  }

  lemma CutTot(m: Mem, p: Id)
    requires p in m && TotOk(m, p) && Sound(m) && NextIn(m, p) && m[p].next.Some?
    ensures U16(m[p].totLen - m[p].len) == m[m[p].next.value].totLen
  {
    assert m[m[p].next.value].WellFormed();
  }

  /** What follows p does not lead back to it or to what points to it. */
  lemma Behind(m: Mem, rank: map<Id, nat>, p: Id, s: seq<Id>)
    requires Closed(m) && Ranked(m, rank) && p in m && IsChain(m, m[p].next, s)
    ensures p !in s && forall q :: q in Preds(m, p) ==> q !in s
  {
    var t := [p] + s;
    assert t[1..] == s;
    assert IsChain(m, Some(p), t);
    forall i: nat | i < |s| ensures s[i] in rank && s[i] in m && rank[s[i]] < rank[p] {
      ChainAt(m, Some(p), t, i + 1);
      ChainRanks(m, rank, Some(p), t, 0, i + 1);
    }
    forall q | q in Preds(m, p) ensures rank[q] > rank[p] { assert Falls(m, rank, q); }
  }

  /** Cutting the chain behind p spoils tot_len exactly of the pbufs that point to p. */
  lemma CutTotAt(m: Mem, rank: map<Id, nat>, p: Id, q: Id)
    requires Closed(m) && Ranked(m, rank) && Sound(m) && AllTot(m) && p in m && q in m
    ensures TotOk(Cut(m, p), q) <==> m[q].next != Some(p) || TailTot(m, m[p].next) == 0
  {
    hide U16;
    assert TotOk(m, q) && TotOk(m, p) && Falls(m, rank, q) && Falls(m, rank, p) && NextIn(m, p) && NextIn(m, q);
    assert m[p].WellFormed() && m[q].WellFormed();
    if m[p].next.Some? {
      var tail := m[m[p].next.value].totLen;
      assert m[m[p].next.value].WellFormed();
      Cut16(m[p].len, tail, m[q].len);
    } else {
      Cut16(m[p].len, 0, m[q].len);
    }
  }

  lemma Cut16(len: nat, tail: nat, before: nat)
    requires len < 0x1_0000 && tail < 0x1_0000
    ensures U16(len + 0) == len
    ensures U16(before + U16(len + tail)) == U16(before + len) <==> tail == 0
  {
  }

  /** pbuf_dechain keeps tot_len right everywhere exactly when nothing points to p or nothing is behind it. */
  lemma DechainTot(m: Mem, handles: multiset<Id>, rank: map<Id, nat>, p: Id)
    requires Refs(m, handles, None) && Ranked(m, rank) && Sound(m) && AllTot(m) && p in m
    ensures AllTot(FreeFrom(Cut(m, p), m[p].next).mem) <==> Preds(m, p) == {} || TailTot(m, m[p].next) == 0
  {
    hide U16, FreeFrom, Cut, RefOk;
    var m1, next := Cut(m, p), m[p].next;
    CutValid(m, handles, rank, p);
    CutKeys(m, p);
    forall q | q in m ensures TotOk(m1, q) <==> m[q].next != Some(p) || TailTot(m, next) == 0 { CutTotAt(m, rank, p, q); }
    if Preds(m, p) == {} || TailTot(m, next) == 0 {
      assert forall q :: q in m && m[q].next == Some(p) ==> q in Preds(m, p);
      FreeTot(m1, handles, next);
    } else {
      var q :| q in Preds(m, p);
      var s := ChainFrom(m, rank, next);
      Behind(m, rank, p, s);
      ChainInside(m, rank, next, s);
      ChainFrame(m, m1, next, s);
      FreeOnly(m1, next, s, q);
      FreeOnly(m1, next, s, p);
      assert !TotOk(FreeFrom(m1, next).mem, q);
    }
  }

  lemma ChainInside(m: Mem, rank: map<Id, nat>, p: Option<Id>, s: seq<Id>)
    requires IsChain(m, p, s) && Closed(m) && Ranked(m, rank)
    ensures Distinct(s) && forall i :: 0 <= i < |s| ==> s[i] in m
  {
    ChainDistinct(m, rank, p, s);
  }

  lemma CutIs(m: Mem, p: Id)
    requires p in m
    ensures m[p].next.Some? ==> Cut(m, p) == m[p := m[p].(next := None, totLen := m[p].len)] && Cut(m, p).Keys == m.Keys
    ensures m[p].next.None? ==> Cut(m, p) == m
  {
  }

  /** pbuf_dechain frees the pbufs behind p that nobody else refers to. */
  lemma DechainCount(m: Mem, handles: multiset<Id>, rank: map<Id, nat>, p: Id, s: seq<Id>)
    requires Refs(m, handles, None) && Ranked(m, rank) && p in m && IsChain(m, m[p].next, s)
    ensures (forall i :: 0 <= i < |s| ==> s[i] in m) && FreeFrom(Cut(m, p), m[p].next).count == Lone(m, s)
  {
    hide FreeFrom, Lone, Cut, IsChain, RefOk, Closed;
    var m1 := Cut(m, p);
    ChainInside(m, rank, m[p].next, s);
    Behind(m, rank, p, s);
    CutKeys(m, p);
    ChainFrame(m, m1, m[p].next, s);
    FreeCountIs(m1, m[p].next, s);
    LoneFrame(m, m1, s);
  }

  /** A chain of 257 pbufs, the least with a dangling result. */
  method DanglingDechain() returns (heap: PbufHeap, r: Option<Id>)
    ensures fresh(heap) && heap.Valid() && r.Some? && r.value !in heap.mem
  {
    hide Refs, Ranked, Sound, Pool, Elements, Lone, IsChain;
    heap := new PbufHeap();
    NoPbufs();
    var p := heap.AllocPool(257, 0, 1, 257);
    SmallElements(257);
    ghost var m, first := heap.mem, p.value;
    FirstOfPool(m, first, 257);
    LonePool(m, first, 257, 1);
    IdsTail(m, m[first].next, heap.Ids(m[first].next), PoolIds(first, 257)[1..]);
    r := heap.Dechain(p.value);
  }

  lemma NoPbufs()
    ensures AllTot(map[])
  {
  }

  lemma {:induction false} SmallElements(n: nat)
    requires n > 0
    ensures Elements(n, 0, 1) == n
    decreases n
  {
    if n > 1 { SmallElements(n - 1); }
  }

  lemma FirstOfPool(m: Mem, first: Id, n: nat)
    requires Pool(map[], m, first, n, 0) && n > 1 && AllTot(m)
    ensures first in m && TotOk(m, first) && m[first].next == Some(first + 1) && first + 1 in m
    ensures IsChain(m, m[first].next, PoolIds(first, n)[1..])
  {
    assert PoolAt(m, first, n, 0, 0) && PoolAt(m, first, n, 0, 1);
    PoolChain(map[], m, first, n, 1);
  }

  lemma {:induction false} LonePool(m: Mem, first: Id, n: nat, i: nat)
    requires Pool(map[], m, first, n, 0) && i <= n
    ensures var s := PoolIds(first, n)[i..]; (forall j :: 0 <= j < |s| ==> s[j] in m) && Lone(m, s) == n - i
    decreases n - i
  {
    var s := PoolIds(first, n)[i..];
    forall j | 0 <= j < |s| ensures s[j] in m { assert PoolAt(m, first, n, 0, i + j); }
    if i < n {
      assert PoolAt(m, first, n, 0, i);
      LonePool(m, first, n, i + 1);
      assert s[1..] == PoolIds(first, n)[i + 1..] && s[0] == first + i;
    }
  }

  lemma CutKeys(m: Mem, p: Id)
    requires p in m
    ensures Cut(m, p).Keys == m.Keys && forall q :: q in m ==> Cut(m, p)[q].ref == m[q].ref
    ensures forall q :: q in m && q != p ==> Cut(m, p)[q] == m[q]
  {
  }

  lemma CutValid(m: Mem, handles: multiset<Id>, rank: map<Id, nat>, p: Id)
    requires Refs(m, handles, None) && Ranked(m, rank) && Sound(m) && p in m
    ensures Refs(Cut(m, p), handles, m[p].next) && Ranked(Cut(m, p), rank) && Sound(Cut(m, p))
  {
    CutRefs(m, handles, p);
    var m1, m2 := m[p := m[p].(next := None)], Cut(m, p);
    assert m[p].WellFormed();
    forall q | q in m2 ensures RefOk(m2, handles, m[p].next, q) && Falls(m2, rank, q) && NextIn(m2, q) {
      assert RefOk(m1, handles, m[p].next, q) && Falls(m, rank, q) && NextIn(m1, q);
      PredsSame(m1, m2, q);
    }
  }

  lemma ClosedOf(m: Mem, handles: multiset<Id>)
    requires Refs(m, handles, None)
    ensures Closed(m)
  {
  }

  lemma HandleIn(m: Mem, handles: multiset<Id>, t: Id)
    requires Refs(m, handles, None) && t in handles
    ensures Closed(m) && t in m
  {
  }

  lemma CatKeys(m: Mem, s: seq<Id>, t: Id)
    requires t in m && s != []
    ensures CatMem(m, s, t).Keys == m.Keys
  {
  }

  lemma CatIsBump(m: Mem, s: seq<Id>, t: Id)
    requires s != [] && t in m && s[|s| - 1] in m
    ensures var b, last := Bump(m, s, m[t].totLen), s[|s| - 1];
            last in b && CatMem(m, s, t) == b[last := b[last].(next := Some(t))]
  {
  }

  lemma CatKeepsRef(m: Mem, s: seq<Id>, t: Id)
    requires s != [] && t in m
    ensures t in CatMem(m, s, t) && CatMem(m, s, t)[t].ref == m[t].ref
  {
  }

  lemma CatSound(m: Mem, s: seq<Id>, t: Id)
    requires Sound(m) && s != [] && t in m
    ensures Sound(CatMem(m, s, t))
  {
    var m' := CatMem(m, s, t);
    forall q | q in m' ensures m'[q].WellFormed() { assert m[q].WellFormed(); }
  }

  lemma ChainHead(m: Mem, h: Id, s: seq<Id>)
    requires IsChain(m, Some(h), s)
    ensures s != [] && s[0] == h && h in m
  {
  }

  lemma BumpNone(m: Mem, s: seq<Id>, n: int)
    ensures Bump(m, s[..0], n) == m
  {
  }

  lemma BumpNext(m: Mem, s: seq<Id>, i: nat, n: int, t: Id)
    requires i < |s| && s[i] in m && t in m && t !in s && Distinct(s)
    ensures s[i] in Bump(m, s[..i], n) && Bump(m, s[..i], n)[s[i]] == m[s[i]]
    ensures t in Bump(m, s[..i], n) && Bump(m, s[..i], n)[t] == m[t]
    ensures Bump(m, s[..i + 1], n) == Bump(m, s[..i], n)[s[i] := m[s[i]].(totLen := U16(m[s[i]].totLen + n))]
  {
    assert s[..i + 1] == s[..i] + [s[i]];
  }

  lemma NothingToFree(m: Mem)
    ensures FreeFrom(m, None) == Freed(m, 0)
  {
  }

  lemma Mod256(n: nat)
    ensures (n % 256 + 1) % 256 == (n + 1) % 256
  {
  }

  lemma ReleaseStep(m: Mem, handles: multiset<Id>, rank: map<Id, nat>, p: Id)
    requires Refs(m, handles, Some(p)) && Ranked(m, rank) && Sound(m)
    ensures p in m && 1 <= m[p].ref && Ranked(m - {p}, rank) && Sound(m - {p})
    ensures m[p].ref == 1 ==> Refs(m - {p}, handles, m[p].next)
    ensures m[p].ref == 1 ==> FreeFrom(m, Some(p)).mem == FreeFrom(m - {p}, m[p].next).mem
    ensures m[p].ref == 1 ==> FreeFrom(m, Some(p)).count == FreeFrom(m - {p}, m[p].next).count + 1
    ensures m[p].ref > 1 ==>
              var m' := m[p := m[p].(ref := m[p].ref - 1)];
              && Refs(m', handles, None) && Ranked(m', rank) && Sound(m')
              && FreeFrom(m, Some(p)) == Freed(m', 0) == FreeFrom(m', None)
  {
    var d, e := m - {p}, m[p := m[p].(ref := m[p].ref - 1)];
    forall q | q in d ensures Falls(d, rank, q) { assert Falls(m, rank, q); }
    forall q | q in e ensures Falls(e, rank, q) { assert Falls(m, rank, q); }
    if m[p].ref == 1 {
      DropRefs(m, handles, p);
    } else {
      FreeKeepsRefs(m, handles, Some(p));
    }
  }

  /** A handle that is given up becomes the reference to release. */
  lemma GiveUp(m: Mem, handles: multiset<Id>, p: Id)
    requires Refs(m, handles, None) && p in handles
    ensures Refs(m, handles - multiset{p}, Some(p))
  {
    forall q | q in m ensures RefOk(m, handles - multiset{p}, Some(p), q) { assert RefOk(m, handles, None, q); }
  }

  lemma RefRefs(m: Mem, handles: multiset<Id>, p: Id)
    requires Refs(m, handles, None) && p in m
    ensures Refs(m[p := m[p].(ref := m[p].ref + 1)], handles + multiset{p}, None)
  {
    var m' := m[p := m[p].(ref := m[p].ref + 1)];
    forall q | q in m' ensures RefOk(m', handles + multiset{p}, None, q) && NextIn(m', q) {
      SameEdgesRefs(m, p, m'[p], q);
      assert RefOk(m, handles, None, q) && NextIn(m, q);
    }
  }

  lemma RefRanked(m: Mem, rank: map<Id, nat>, p: Id)
    requires Ranked(m, rank) && p in m
    ensures Ranked(m[p := m[p].(ref := m[p].ref + 1)], rank)
  {
    var m' := m[p := m[p].(ref := m[p].ref + 1)];
    forall q | q in m' ensures Falls(m', rank, q) { assert Falls(m, rank, q); }
  }
}
