/**
The operations of pbuf.c on the bytes of a chain. Each behaves as on one flat string, however
the string is cut into pbufs.
*/
module PbufData {
  import opened Prelude
  import opened PbufSpec
  import opened PbufShape
  import opened PbufHeader
  import opened Pbufs
  import opened CopyLengths

  // ---------------------------------------------------------------- positions in a chain

  /** Where the i-th pbuf of a chain starts in the flat string. */
  ghost function Pos(m: Mem, s: seq<Id>, i: nat): nat
    requires Within(m, s) && i <= |s|
  {
    |Flat(m, s[..i])|
  }

  lemma Split(m: Mem, s: seq<Id>, i: nat)
    requires Within(m, s) && i <= |s|
    ensures Within(m, s[..i]) && Within(m, s[i..]) && Flat(m, s) == Flat(m, s[..i]) + Flat(m, s[i..])
  {
    assert s == s[..i] + s[i..];
    FlatJoin(m, s[..i], s[i..]);
  }

  lemma PosStep(m: Mem, s: seq<Id>, i: nat)
    requires Within(m, s) && i < |s|
    ensures Pos(m, s, i + 1) == Pos(m, s, i) + m[s[i]].len <= |Flat(m, s)|
    ensures Flat(m, s)[Pos(m, s, i)..Pos(m, s, i + 1)] == m[s[i]].Payload()
  {
    hide Flat;
    Split(m, s, i + 1);
    assert s[..i + 1] == s[..i] + [s[i]];
    FlatJoin(m, s[..i], [s[i]]);
    FlatOne(m, s[i]);
  }

  lemma PosEnds(m: Mem, s: seq<Id>)
    requires Within(m, s)
    ensures Pos(m, s, 0) == 0 && Pos(m, s, |s|) == |Flat(m, s)|
  {
    assert s[..|s|] == s && s[..0] == [];
  }

  /** A stretch of one pbuf is a stretch of the flat string. */
  lemma Stretch(m: Mem, s: seq<Id>, i: nat, a: nat, b: nat)
    requires Within(m, s) && i < |s| && a <= b <= m[s[i]].len
    ensures Pos(m, s, i) + b <= |Flat(m, s)|
    ensures m[s[i]].Payload()[a..b] == Flat(m, s)[Pos(m, s, i) + a..Pos(m, s, i) + b]
  {
    hide Flat;
    PosStep(m, s, i);
    SliceOfSlice(Flat(m, s), Pos(m, s, i), m[s[i]].len, a, b);
  }

  lemma SliceOfSlice(f: seq<byte>, k: nat, n: nat, a: nat, b: nat)
    requires a <= b <= n && k + n <= |f|
    ensures f[k..k + n][a..b] == f[k + a..k + b]
  {
    var l, r := f[k..k + n][a..b], f[k + a..k + b];
    assert |l| == |r| && forall i :: 0 <= i < |l| ==> l[i] == f[k + a + i] == r[i];
  }

  // ---------------------------------------------------------------- writing

  /** b with d in the place of the bytes from k on. */
  function Over(b: seq<byte>, k: nat, d: seq<byte>): (r: seq<byte>)
    requires k + |d| <= |b|
    ensures |r| == |b|
  {
    b[..k] + d + b[k + |d|..]
  }

  /** MEMCPY of d into the payload of p, at offset k. */
  function Store(m: Mem, p: Id, k: nat, d: seq<byte>): Mem
    requires p in m && m[p].off + m[p].len <= |m[p].buf| && k + |d| <= m[p].len
  {
    m[p := m[p].(buf := Over(m[p].buf, m[p].off + k, d))]
  }

  /** Only bytes of the pbufs t differ. */
  ghost predicate OnlyBytes(m: Mem, m': Mem, t: seq<Id>) {
    && m.Keys == m'.Keys
    && forall q :: q in m ==> |m'[q].buf| == |m[q].buf| && m'[q] == m[q].(buf := m'[q].buf) && (q !in t ==> m'[q] == m[q])
  }

  lemma OnlyBytesKeeps(m: Mem, m': Mem, t: seq<Id>, p: Option<Id>, s: seq<Id>)
    requires OnlyBytes(m, m', t) && IsChain(m, p, s) && Within(m, s)
    ensures IsChain(m', p, s) && Within(m', s)
  {
    ChainFrame(m, m', p, s);
  }

  lemma OnlyBytesValid(m: Mem, m': Mem, t: seq<Id>, handles: multiset<Id>, rank: map<Id, nat>)
    requires OnlyBytes(m, m', t) && Refs(m, handles, None) && Ranked(m, rank) && Sound(m)
    ensures Refs(m', handles, None) && Ranked(m', rank) && Sound(m')
  {
    SameLinks(m, m', handles, rank, None);
    forall q | q in m' ensures m'[q].WellFormed() { assert m[q].WellFormed(); }
  }

  lemma OnlyBytesTot(m: Mem, m': Mem, t: seq<Id>, s: seq<Id>, k: nat)
    requires OnlyBytes(m, m', t) && TotAlong(m, s) && k <= |s|
    ensures TotAlong(m', s[k..])
  {
    forall i | 0 <= i < |s[k..]| ensures s[k..][i] in m' && TotOk(m', s[k..][i]) { assert TotOk(m, s[k + i]); }
  }

  lemma Parts(m: Mem, s: seq<Id>, i: nat)
    requires Within(m, s) && i < |s|
    ensures Within(m, s[..i]) && Within(m, s[i + 1..])
    ensures Flat(m, s) == Flat(m, s[..i]) + (m[s[i]].Payload() + Flat(m, s[i + 1..]))
  {
    hide Flat;
    var a, p, c := s[..i], s[i], s[i + 1..];
    assert s == a + ([p] + c);
    FlatJoin(m, a, [p] + c);
    FlatJoin(m, [p], c);
    FlatOne(m, p);
  }

  lemma StoreFrame(m: Mem, s: seq<Id>, i: nat, k: nat, d: seq<byte>)
    requires Within(m, s) && Distinct(s) && i < |s| && k + |d| <= m[s[i]].len
    ensures var m' := Store(m, s[i], k, d);
            && OnlyBytes(m, m', s) && Within(m', s)
            && Flat(m', s[..i]) == Flat(m, s[..i]) && Flat(m', s[i + 1..]) == Flat(m, s[i + 1..])
  {
    hide Flat, Over;
    var m' := Store(m, s[i], k, d);
    Apart(s, i);
    hide Distinct;
    assert forall q :: q in m && q != s[i] ==> m'[q] == m[q];
    FlatElsewhere(m, m', s[i], s[..i]);
    FlatElsewhere(m, m', s[i], s[i + 1..]);
  }

  lemma Apart(s: seq<Id>, i: nat)
    requires Distinct(s) && i < |s|
    ensures s[i] !in s[..i] && s[i] !in s[i + 1..]
  {
  }

  lemma FlatElsewhere(m: Mem, m': Mem, p: Id, c: seq<Id>)
    requires Within(m, c) && p !in c && m.Keys == m'.Keys && forall q :: q in m && q != p ==> m'[q] == m[q]
    ensures Within(m', c) && Flat(m', c) == Flat(m, c)
  {
    FlatFrame(m, m', c);
  }

  /** Writing into one pbuf writes into the flat string. */
  lemma StoreFlat(m: Mem, s: seq<Id>, i: nat, k: nat, d: seq<byte>)
    requires Within(m, s) && Distinct(s) && i < |s| && k + |d| <= m[s[i]].len
    ensures var m' := Store(m, s[i], k, d);
            && OnlyBytes(m, m', s) && Within(m', s) && Pos(m, s, i) + k + |d| <= |Flat(m, s)|
            && Flat(m', s) == Over(Flat(m, s), Pos(m, s, i) + k, d)
  {
    hide Flat, Over, Distinct, OnlyBytes;
    StoreFrame(m, s, i, k, d);
    Parts(m, s, i);
    Parts(Store(m, s[i], k, d), s, i);
    StorePayload(m[s[i]], k, d);
    OverMiddle(Flat(m, s[..i]), m[s[i]].Payload(), Flat(m, s[i + 1..]), k, d);
  }

  lemma StorePayload(b: Pbuf, k: nat, d: seq<byte>)
    requires b.off + b.len <= |b.buf| && k + |d| <= b.len
    ensures b.(buf := Over(b.buf, b.off + k, d)).Payload() == Over(b.Payload(), k, d)
  {
    var l, r := b.(buf := Over(b.buf, b.off + k, d)).Payload(), Over(b.Payload(), k, d);
    forall i | 0 <= i < b.len ensures l[i] == r[i] {
      OverAt(b.buf, b.off + k, d, b.off + i);
      OverAt(b.Payload(), k, d, i);
    }
  }

  lemma OverAt(b: seq<byte>, k: nat, d: seq<byte>, i: nat)
    requires k + |d| <= |b| && i < |b|
    ensures Over(b, k, d)[i] == if k <= i < k + |d| then d[i - k] else b[i]
  {
  }

  lemma OverMiddle(a: seq<byte>, b: seq<byte>, c: seq<byte>, k: nat, d: seq<byte>)
    requires k + |d| <= |b|
    ensures a + (Over(b, k, d) + c) == Over(a + (b + c), |a| + k, d)
  {
  }

  lemma OverNext(b: seq<byte>, k: nat, d: seq<byte>, e: seq<byte>)
    requires k + |d| + |e| <= |b|
    ensures Over(Over(b, k, d), k + |d|, e) == Over(b, k, d + e)
  {
  }

  lemma {:induction false} PosKept(m: Mem, m': Mem, t: seq<Id>, s: seq<Id>, i: nat)
    requires OnlyBytes(m, m', t) && Within(m, s) && Within(m', s) && i <= |s|
    ensures Pos(m, s, i) == Pos(m', s, i)
    decreases i
  {
    hide Flat, Pos;
    if i == 0 {
      PosEnds(m, s);
      PosEnds(m', s);
    } else {
      PosKept(m, m', t, s, i - 1);
      PosStep(m, s, i - 1);
      PosStep(m', s, i - 1);
    }
  }

  lemma OnlyBytesTrans(m: Mem, m1: Mem, m2: Mem, t: seq<Id>)
    requires OnlyBytes(m, m1, t) && OnlyBytes(m1, m2, t)
    ensures OnlyBytes(m, m2, t)
  {
  }

  lemma FlatOutside(m: Mem, m': Mem, t: seq<Id>, c: seq<Id>)
    requires OnlyBytes(m, m', t) && Within(m, c) && forall q :: q in c ==> q !in t
    ensures Within(m', c) && Flat(m', c) == Flat(m, c)
  {
    FlatFrame(m, m', c);
  }

  // ---------------------------------------------------------------- reading

  /** pbuf_skip: the pbuf that holds the byte at `off`, and the offset in it. */
  method Skip(heap: PbufHeap, p: Option<Id>, off: nat, ghost s: seq<Id>) returns (q: Option<Id>, rest: nat, ghost k: nat)
    requires heap.Valid() && IsChain(heap.mem, p, s)
    ensures Within(heap.mem, s) && k <= |s| && q == (if k < |s| then Some(s[k]) else None)
    ensures off == Pos(heap.mem, s, k) + rest && (k < |s| ==> rest < heap.mem[s[k]].len)
    ensures q.Some? <==> off < |Flat(heap.mem, s)|
    ensures q.Some? ==> q.value in heap.mem && rest < heap.mem[q.value].len && heap.mem[q.value].Payload()[rest] == Flat(heap.mem, s)[off]
  {
    hide Refs, Ranked, Sound, IsChain, Flat, Pos;
    ghost var m := heap.mem;
    IdsSound(m, heap.handles, heap.rank, p, s);
    ChainStart(m, p, s);
    PosEnds(m, s);
    q, rest, k := p, off, 0;
    while q.Some? && heap.mem[q.value].len <= rest
      invariant k <= |s| && q == (if k < |s| then Some(s[k]) else None) && off == Pos(m, s, k) + rest
      decreases |s| - k
    {
      ChainAt(m, p, s, k);
      PosStep(m, s, k);
      rest := rest - heap.mem[q.value].len;
      q := heap.mem[q.value].next;
      k := k + 1;
    }
    Inside(m, s, k, rest);
  }

  lemma ChainStart(m: Mem, p: Option<Id>, s: seq<Id>)
    requires IsChain(m, p, s)
    ensures p == if s == [] then None else Some(s[0])
    ensures s != [] ==> s[0] in m
  {
  }

  lemma Inside(m: Mem, s: seq<Id>, k: nat, rest: nat)
    requires Within(m, s) && k <= |s| && (k < |s| ==> rest < m[s[k]].len)
    ensures k < |s| <==> Pos(m, s, k) + rest < |Flat(m, s)|
    ensures k < |s| ==> Flat(m, s)[Pos(m, s, k) + rest] == m[s[k]].Payload()[rest]
  {
    hide Flat;
    PosEnds(m, s);
    if k < |s| {
      Stretch(m, s, k, rest, rest + 1);
      assert m[s[k]].Payload()[rest..rest + 1][0] == m[s[k]].Payload()[rest];
    }
  }

  /** pbuf_try_get_at: -1 behind the end. */
  method TryGetAt(heap: PbufHeap, p: Option<Id>, off: nat, ghost s: seq<Id>) returns (r: int)
    requires heap.Valid() && IsChain(heap.mem, p, s)
    ensures Within(heap.mem, s)
    ensures r == if off < |Flat(heap.mem, s)| then Flat(heap.mem, s)[off] as int else -1
  {
    hide Refs, Ranked, Sound, IsChain, Flat, Pos;
    ghost var k;
    var q, rest;
    q, rest, k := Skip(heap, p, off, s);
    Inside(heap.mem, s, k, rest);
    if q.Some? && heap.mem[q.value].len > rest {
      return heap.mem[q.value].buf[heap.mem[q.value].off + rest];
    }
    return -1;
  }

  /** pbuf_get_at: 0 behind the end. */
  method GetAt(heap: PbufHeap, p: Option<Id>, off: nat, ghost s: seq<Id>) returns (r: byte)
    requires heap.Valid() && IsChain(heap.mem, p, s)
    ensures Within(heap.mem, s)
    ensures r == if off < |Flat(heap.mem, s)| then Flat(heap.mem, s)[off] else 0
  {
    var ret := TryGetAt(heap, p, off, s);
    if ret >= 0 {
      return ret;
    }
    return 0;
  }

  /** pbuf_copy_partial: the bytes put into the application's buffer. */
  method CopyPartial(heap: PbufHeap, buf: Option<Id>, length: nat, offset: nat, ghost s: seq<Id>) returns (out: seq<byte>)
    requires heap.Valid() && IsChain(heap.mem, buf, s)
    ensures Within(heap.mem, s)
    ensures var f := Flat(heap.mem, s); out == f[Min(offset, |f|)..Min(offset + length, |f|)]
  {
    hide Refs, Ranked, Sound, IsChain, Flat, Pos, Copied;
    ghost var m := heap.mem;
    IdsSound(m, heap.handles, heap.rank, buf, s);
    ChainStart(m, buf, s);
    PosEnds(m, s);
    out := [];
    var p, len: nat, off: nat := buf, length, offset;
    ghost var i, f := 0, Flat(m, s);
    CopiedNone(f, offset, length);
    while len != 0 && p.Some?
      invariant i <= |s| && p == (if i < |s| then Some(s[i]) else None) && |out| + len == length
      invariant Pos(m, s, i) <= |f| && Copied(f, out, offset, Pos(m, s, i), off, len)
      decreases |s| - i
    {
      ChainAt(m, buf, s, i);
      PosStep(m, s, i);
      var b := heap.mem[p.value];
      if off != 0 && off >= b.len {
        CopiedSkip(f, out, offset, Pos(m, s, i), off, len, b.len);
        off := off - b.len;
      } else {
        var n := b.len - off;
        if n > len {
          n := len;
        }
        Stretch(m, s, i, off, off + n);
        CopiedPart(f, out, offset, Pos(m, s, i), off, len, b.len, n);
        out := out + b.Payload()[off..off + n];
        len := len - n;
        off := 0;
      }
      p := b.next;
      i := i + 1;
    }
    CopiedAll(f, out, offset, Pos(m, s, i), off, len);
  }

  /** The bytes put out so far, before the pbuf at `pos`: none is wanted of those yet, or all there were. */
  ghost predicate Copied(f: seq<byte>, out: seq<byte>, offset: nat, pos: nat, off: nat, len: nat) {
    || (out == [] && pos + off == offset)
    || (off == 0 && offset + |out| <= |f| && out == f[offset..offset + |out|] && (len != 0 ==> offset + |out| == pos))
  }

  lemma CopiedNone(f: seq<byte>, offset: nat, len: nat)
    ensures Copied(f, [], offset, 0, offset, len)
  {
  }

  lemma CopiedSkip(f: seq<byte>, out: seq<byte>, offset: nat, pos: nat, off: nat, len: nat, n: nat)
    requires Copied(f, out, offset, pos, off, len) && 0 < off && n <= off
    ensures Copied(f, out, offset, pos + n, off - n, len)
  {
  }

  lemma CopiedPart(f: seq<byte>, out: seq<byte>, offset: nat, pos: nat, off: nat, len: nat, size: nat, n: nat)
    requires Copied(f, out, offset, pos, off, len) && len > 0 && off <= size && pos + size <= |f|
    requires n == if size - off > len then len else size - off
    ensures Copied(f, out + f[pos + off..pos + off + n], offset, pos + size, 0, len - n)
  {
    var d := f[pos + off..pos + off + n];
    assert offset + |out| == pos + off && out == f[offset..offset + |out|];
    assert out + d == f[offset..offset + |out + d|];
  }

  lemma CopiedAll(f: seq<byte>, out: seq<byte>, offset: nat, pos: nat, off: nat, len: nat)
    requires Copied(f, out, offset, pos, off, len) && pos <= |f| && (len == 0 || pos == |f|)
    ensures out == f[Min(offset, |f|)..Min(offset + |out| + len, |f|)]
  {
  }

  // ---------------------------------------------------------------- comparing

  /** What follows position off of the chain. */
  lemma Suffix(m: Mem, p: Option<Id>, s: seq<Id>, k: nat)
    requires IsChain(m, p, s) && Within(m, s) && k <= |s|
    ensures IsChain(m, if k < |s| then Some(s[k]) else None, s[k..])
    ensures Within(m, s[k..]) && Pos(m, s, k) <= |Flat(m, s)| && Flat(m, s[k..]) == Flat(m, s)[Pos(m, s, k)..]
  {
    hide Flat;
    if k < |s| { ChainAt(m, p, s, k); }
    Split(m, s, k);
  }

  /** a and b differ first at d. */
  ghost predicate DiffersAt(a: seq<byte>, b: seq<byte>, d: nat)
    requires |a| == |b|
  {
    d < |a| && a[d] != b[d] && a[..d] == b[..d]
  }

  /** pbuf_memcmp: 0 for equal, 0xFFFF if the chain is too short, else the first difference plus 1. */
  method MemCmp(heap: PbufHeap, p: Id, offset: nat, s2: seq<byte>, ghost s: seq<Id>) returns (r: nat)
    requires heap.Valid() && Measured(heap.mem, s) && s[0] == p && |s2| < 0x1_0000
    ensures offset + |s2| > |Flat(heap.mem, s)| ==> r == 0xFFFF
    ensures offset + |s2| <= |Flat(heap.mem, s)| ==>
              var a := Flat(heap.mem, s)[offset..offset + |s2|];
              (r == 0 && a == s2) || (r > 0 && DiffersAt(a, s2, r - 1))
  {
    hide Refs, Ranked, Sound, IsChain, Flat, Pos, TotAlong, DiffersAt;
    ghost var m, f := heap.mem, Flat(heap.mem, s);
    MeasuredAt(m, s, 0);
    assert s[0..] == s;
    if heap.mem[p].totLen < offset + |s2| {
      return 0xFFFF;
    }
    ghost var k;
    var q, start;
    q, start, k := Skip(heap, Some(p), offset, s);
    Suffix(m, Some(p), s, k);
    ghost var g := Flat(m, s[k..]);
    for i := 0 to |s2|
      invariant f[offset..offset + i] == s2[..i]
    {
      var a := GetAt(heap, q, start + i, s[k..]);
      assert a == f[offset + i];
      CmpStep(f, offset, s2, i);
      if a != s2[i] {
        return i + 1;
      }
    }
    assert s2[..|s2|] == s2;
    return 0;
  }

  lemma CmpStep(f: seq<byte>, offset: nat, b: seq<byte>, i: nat)
    requires offset + |b| <= |f| && i < |b| && f[offset..offset + i] == b[..i]
    ensures f[offset + i] != b[i] ==> DiffersAt(f[offset..offset + |b|], b, i)
    ensures f[offset + i] == b[i] ==> f[offset..offset + i + 1] == b[..i + 1]
  {
    assert f[offset..offset + |b|][..i] == f[offset..offset + i];
    assert f[offset..offset + i + 1] == f[offset..offset + i] + [f[offset + i]];
    assert b[..i + 1] == b[..i] + [b[i]];
  }

  /** The bytes x lie in f at i. */
  ghost predicate Matches(f: seq<byte>, x: seq<byte>, i: nat) {
    i + |x| <= |f| && f[i..i + |x|] == x
  }

  lemma MatchesIs(f: seq<byte>, x: seq<byte>, i: nat, r: nat)
    requires i + |x| > |f| ==> r == 0xFFFF
    requires i + |x| <= |f| ==> (r == 0 && f[i..i + |x|] == x) || (r > 0 && DiffersAt(f[i..i + |x|], x, r - 1))
    ensures r == 0 <==> Matches(f, x, i)
  {
  }

  lemma MatchesFit(f: seq<byte>, x: seq<byte>)
    ensures forall i: nat :: Matches(f, x, i) ==> i + |x| <= |f|
  {
  }

  /** pbuf_memfind: the least match from `start` on, or 0xFFFF. */
  method MemFind(heap: PbufHeap, p: Id, x: seq<byte>, start: nat, ghost s: seq<Id>) returns (r: nat)
    requires heap.Valid() && Measured(heap.mem, s) && s[0] == p && |x| < 0x1_0000
    ensures var f := Flat(heap.mem, s);
            if exists i :: start <= i && Matches(f, x, i)
            then start <= r && Matches(f, x, r) && forall i :: start <= i < r ==> !Matches(f, x, i)
            else r == 0xFFFF
  {
    hide Refs, Ranked, Sound, IsChain, Flat, Pos, TotAlong, Matches, DiffersAt;
    ghost var f := Flat(heap.mem, s);
    MeasuredAt(heap.mem, s, 0);
    assert s[0..] == s;
    MatchesFit(f, x);
    var last := U16(heap.mem[p].totLen - |x|);
    if heap.mem[p].totLen >= |x| + start {
      var i := start;
      while i <= last
        invariant start <= i && forall j :: start <= j < i ==> !Matches(f, x, j)
      {
        var plus := MemCmp(heap, p, i, x, s);
        MatchesIs(f, x, i, plus);
        if plus == 0 {
          return i;
        }
        i := i + 1;
      }
    }
    return 0xFFFF;
  }

  // ---------------------------------------------------------------- writing operations

  /** pbuf_put_at: nothing happens behind the end. */
  method PutAt(heap: PbufHeap, p: Option<Id>, off: nat, data: byte, ghost s: seq<Id>)
    requires heap.Valid() && IsChain(heap.mem, p, s)
    modifies heap`mem
    ensures heap.Valid() && Within(old(heap.mem), s) && Within(heap.mem, s) && OnlyBytes(old(heap.mem), heap.mem, s)
    ensures Flat(heap.mem, s) == var f := old(Flat(heap.mem, s)); if off < |f| then f[off := data] else f
  {
    hide Refs, Ranked, Sound, IsChain, Flat, Pos, OnlyBytes, Distinct;
    ghost var k, m;
    m := heap.mem;
    IdsSound(m, heap.handles, heap.rank, p, s);
    OnlyBytesRefl(m, s);
    var q, rest;
    q, rest, k := Skip(heap, p, off, s);
    Inside(m, s, k, rest);
    if q.Some? && heap.mem[q.value].len > rest {
      StoreFlat(m, s, k, rest, [data]);
      heap.mem := Store(heap.mem, q.value, rest, [data]);
      StoreKeeps(heap, m, s);
    }
  }

  lemma OnlyBytesRefl(m: Mem, s: seq<Id>)
    ensures OnlyBytes(m, m, s)
  {
  }

  /** Writing bytes keeps the pbuf memory as it should be. */
  lemma StoreKeeps(heap: PbufHeap, m: Mem, s: seq<Id>)
    requires OnlyBytes(m, heap.mem, s) && Refs(m, heap.handles, None) && Ranked(m, heap.rank) && Sound(m)
    requires forall q :: q in m ==> q < heap.nextId
    ensures heap.Valid()
  {
    OnlyBytesValid(m, heap.mem, s, heap.handles, heap.rank);
  }

  /** pbuf_take */
  method Take(heap: PbufHeap, buf: Option<Id>, data: seq<byte>, ghost s: seq<Id>) returns (err: Err)
    requires heap.Valid() && IsChain(heap.mem, buf, s) && (buf.Some? ==> Measured(heap.mem, s))
    modifies heap`mem
    ensures heap.Valid() && Within(old(heap.mem), s) && Within(heap.mem, s) && OnlyBytes(old(heap.mem), heap.mem, s)
    ensures var f := old(Flat(heap.mem, s));
            && err == (if buf.None? then ErrArg else if |f| < |data| then ErrMem else Ok)
            && Flat(heap.mem, s) == if err == Ok then Over(f, 0, data) else f
  {
    hide Refs, Ranked, Sound, IsChain, Flat, Pos, OnlyBytes, Distinct, Over, TotAlong;
    ghost var m := heap.mem;
    IdsSound(m, heap.handles, heap.rank, buf, s);
    OnlyBytesRefl(m, s);
    if buf.None? {
      return ErrArg;
    }
    ChainStart(m, buf, s);
    MeasuredAt(m, s, 0);
    assert s[0..] == s;
    if heap.mem[buf.value].totLen < |data| {
      return ErrMem;
    }
    PosEnds(m, s);
    OverNone(Flat(m, s));
    var p, total: nat, copied: nat := buf, |data|, 0;
    ghost var i := 0;
    while total != 0
      invariant copied + total == |data| && i <= |s| && p == (if i < |s| then Some(s[i]) else None)
      invariant OnlyBytes(m, heap.mem, s) && Within(heap.mem, s)
      invariant total != 0 ==> Pos(m, s, i) == copied
      invariant Flat(heap.mem, s) == Over(Flat(m, s), 0, data[..copied])
      decreases |s| - i
    {
      assert i < |s|;
      TakeStep(m, heap.mem, buf, s, i);
      var n := total;
      if n > heap.mem[p.value].len {
        n := heap.mem[p.value].len;
      }
      var d := data[copied..copied + n];
      StoreFlat(heap.mem, s, i, 0, d);
      OverNext(Flat(m, s), 0, data[..copied], d);
      assert data[..copied] + d == data[..copied + n];
      ghost var m1 := heap.mem;
      heap.mem := Store(heap.mem, p.value, 0, d);
      OnlyBytesTrans(m, m1, heap.mem, s);
      TakeStep(m, heap.mem, buf, s, i);
      total, copied := total - n, copied + n;
      p := heap.mem[p.value].next;
      i := i + 1;
    }
    assert data[..copied] == data;
    StoreKeeps(heap, m, s);
    return Ok;
  }

  lemma OverNone(f: seq<byte>)
    ensures Over(f, 0, []) == f
  {
  }

  lemma TakeStep(m: Mem, m1: Mem, p: Option<Id>, s: seq<Id>, i: nat)
    requires IsChain(m, p, s) && Within(m, s) && Within(m1, s) && OnlyBytes(m, m1, s) && i < |s|
    ensures s[i] in m1 && m1[s[i]].next == (if i + 1 < |s| then Some(s[i + 1]) else None)
    ensures m1[s[i]].len == m[s[i]].len && Pos(m, s, i + 1) == Pos(m, s, i) + m[s[i]].len
    ensures Pos(m1, s, i) == Pos(m, s, i) && |Flat(m1, s)| == |Flat(m, s)|
  {
    hide Flat, Pos;
    ChainAt(m, p, s, i);
    PosStep(m, s, i);
    PosKept(m, m1, s, s, i);
    PosKept(m, m1, s, s, |s|);
    PosEnds(m, s);
    PosEnds(m1, s);
  }

  /** pbuf_take_at; an offset at the very end is an error even for no data. */
  method TakeAt(heap: PbufHeap, buf: Option<Id>, data: seq<byte>, offset: nat, ghost s: seq<Id>) returns (err: Err)
    requires heap.Valid() && IsChain(heap.mem, buf, s) && (buf.Some? ==> Measured(heap.mem, s))
    modifies heap`mem
    ensures heap.Valid() && Within(old(heap.mem), s) && Within(heap.mem, s) && OnlyBytes(old(heap.mem), heap.mem, s)
    ensures var f := old(Flat(heap.mem, s));
            && err == (if offset < |f| && offset + |data| <= |f| then Ok else ErrMem)
            && Flat(heap.mem, s) == if err == Ok then Over(f, offset, data) else f
  {
    hide Refs, Ranked, Sound, IsChain, Flat, Pos, OnlyBytes, Distinct, Over, TotAlong;
    ghost var m, k := heap.mem, 0;
    IdsSound(m, heap.handles, heap.rank, buf, s);
    OnlyBytesRefl(m, s);
    ChainStart(m, buf, s);
    var q, rest;
    q, rest, k := Skip(heap, buf, offset, s);
    Inside(m, s, k, rest);
    if q.None? {
      return ErrMem;
    }
    RestTot(m, s, k);
    if heap.mem[q.value].totLen < rest + |data| {
      return ErrMem;
    }
    var first: nat := if heap.mem[q.value].len - rest < |data| then heap.mem[q.value].len - rest else |data|;
    ghost var f := Flat(m, s);
    StoreFlat(m, s, k, rest, data[..first]);
    heap.mem := Store(heap.mem, q.value, rest, data[..first]);
    StoreKeeps(heap, m, s);
    TakeStep(m, heap.mem, buf, s, k);
    assert data[..first] + data[first..] == data;
    if first < |data| {
      ghost var m1 := heap.mem;
      PosEnds(m, s);
      RestMeasured(m, m1, buf, s, k);
      err := Take(heap, heap.mem[q.value].next, data[first..], s[k + 1..]);
      RestTaken(m, m1, heap.mem, s, k, rest, data, first);
      return err;
    }
    assert data[..first] == data;
    return Ok;
  }

  /** tot_len at a position is what is left of the flat string. */
  lemma RestTot(m: Mem, s: seq<Id>, k: nat)
    requires Measured(m, s) && k < |s|
    ensures Pos(m, s, k) + m[s[k]].totLen == |Flat(m, s)|
  {
    MeasuredAt(m, s, k);
  }

  lemma RestMeasured(m: Mem, m1: Mem, p: Option<Id>, s: seq<Id>, k: nat)
    requires Measured(m, s) && IsChain(m, p, s) && OnlyBytes(m, m1, s) && Within(m1, s) && k + 1 < |s|
    ensures IsChain(m1, Some(s[k + 1]), s[k + 1..]) && Measured(m1, s[k + 1..])
    ensures |Flat(m1, s[k + 1..])| == |Flat(m, s)| - Pos(m, s, k + 1)
  {
    hide Flat;
    PosKept(m, m1, s, s, k + 1);
    OnlyBytesKeeps(m, m1, s, p, s);
    OnlyBytesTot(m, m1, s, s, k + 1);
    ChainAt(m1, p, s, k + 1);
    TakeStep(m, m1, p, s, k + 1);
    Split(m1, s, k + 1);
  }

  /** pbuf_take on the rest of the chain completes the write. */
  lemma RestTaken(m: Mem, m1: Mem, m2: Mem, s: seq<Id>, k: nat, rest: nat, data: seq<byte>, first: nat)
    requires Within(m, s) && Within(m1, s) && Distinct(s) && k + 1 < |s| && first <= |data|
    requires Pos(m, s, k) + rest + |data| <= |Flat(m, s)| && rest + first == m[s[k]].len
    requires OnlyBytes(m, m1, s) && Flat(m1, s) == Over(Flat(m, s), Pos(m, s, k) + rest, data[..first])
    requires OnlyBytes(m1, m2, s[k + 1..]) && Within(m1, s[k + 1..]) && Within(m2, s[k + 1..])
    requires |data| - first <= |Flat(m1, s[k + 1..])| && Flat(m2, s[k + 1..]) == Over(Flat(m1, s[k + 1..]), 0, data[first..])
    ensures OnlyBytes(m, m2, s) && Within(m2, s) && Flat(m2, s) == Over(Flat(m, s), Pos(m, s, k) + rest, data)
  {
    hide Flat, OnlyBytes, Over;
    var a, c := s[..k + 1], s[k + 1..];
    TailOnly(m1, m2, s, k + 1);
    OnlyBytesTrans(m, m1, m2, s);
    Split(m1, s, k + 1);
    Split(m2, s, k + 1);
    FlatOutside(m1, m2, c, a);
    PosStep(m, s, k);
    PosKept(m, m1, s, s, k + 1);
    OverRest(Flat(m, s), Flat(m1, a), Flat(m1, c), Pos(m, s, k) + rest, data, first);
  }

  lemma OverRest(f: seq<byte>, a: seq<byte>, c: seq<byte>, at: nat, data: seq<byte>, first: nat)
    requires first <= |data| && at + |data| <= |f| && |a| == at + first && a + c == Over(f, at, data[..first])
    ensures |data| - first <= |c| && a + Over(c, 0, data[first..]) == Over(f, at, data)
  {
    assert data[..first] + data[first..] == data;
    OverMiddle(a, c, [], 0, data[first..]);
    assert a + (c + []) == a + c && Over(c, 0, data[first..]) + [] == Over(c, 0, data[first..]);
    OverNext(f, at, data[..first], data[first..]);
  }

  lemma TailOnly(m1: Mem, m2: Mem, s: seq<Id>, k: nat)
    requires k <= |s| && OnlyBytes(m1, m2, s[k..]) && Distinct(s) && Within(m1, s)
    ensures OnlyBytes(m1, m2, s) && Within(m2, s) && forall q :: q in s[..k] ==> q !in s[k..]
  {
  }

  // ---------------------------------------------------------------- pbuf_copy

  /** The lengths of the pbufs s. */
  ghost function Lens(m: Mem, s: seq<Id>): (r: seq<nat>)
    requires Within(m, s)
    ensures |r| == |s| && forall i :: 0 <= i < |s| ==> r[i] == m[s[i]].len
  {
    seq(|s|, i requires 0 <= i < |s| => m[s[i]].len)
  }

  lemma {:induction false} SumLens(m: Mem, s: seq<Id>, k: nat)
    requires Within(m, s) && k <= |s|
    ensures Sum(Lens(m, s)[k..]) == |Flat(m, s)| - Pos(m, s, k)
    decreases |s| - k
  {
    hide Flat, Pos;
    PosEnds(m, s);
    if k < |s| {
      PosStep(m, s, k);
      SumLens(m, s, k + 1);
      assert Lens(m, s)[k..][1..] == Lens(m, s)[k + 1..];
    }
  }

  /** The test that pbuf_copy takes for a packet queue. */
  lemma TailIs(m: Mem, s: seq<Id>, k: nat)
    requires Measured(m, s) && k <= |s|
    ensures Tail(Lens(m, s)[k..]) <==> k + 1 < |s| && m[s[k]].len == m[s[k]].totLen
  {
    hide Flat, Pos, IsChain, TotAlong;
    if k < |s| {
      RestTot(m, s, k);
      PosStep(m, s, k);
      SumLens(m, s, k + 1);
      assert Lens(m, s)[k..][1..] == Lens(m, s)[k + 1..];
    }
  }

  /** One round on the lengths. */
  lemma WalkNext(ls: seq<nat>, lt: seq<nat>, i: nat, of: nat, j: nat, ot: nat, len: nat)
    requires i < |ls| && j < |lt| && of <= ls[i] && ot <= lt[j]
    requires len == if lt[j] - ot >= ls[i] - of then ls[i] - of else lt[j] - ot
    ensures var i', of' := if of + len >= ls[i] then i + 1 else i, if of + len >= ls[i] then 0 else of + len;
            var j', ot' := if ot + len == lt[j] then j + 1 else j, if ot + len == lt[j] then 0 else ot + len;
            var w, n := Walk(ls[i..], lt[j..], of, ot), Moved(ls[i..], lt[j..], of, ot);
            && (n == len + if i' == |ls| || j' == |lt| || Tail(ls[i'..]) || Tail(lt[j'..]) then 0 else Moved(ls[i'..], lt[j'..], of', ot'))
            && if j' == |lt| && i' < |ls| then w == ErrArg
            else if Tail(ls[i'..]) || Tail(lt[j'..]) then w == ErrVal
            else if i' == |ls| then w == Ok
            else w == Walk(ls[i'..], lt[j'..], of', ot')
  {
    assert ls[i..][1..] == ls[i + 1..] && lt[j..][1..] == lt[j + 1..];
  }

  /** One part of the source: as much as is left in the current pbufs of both chains. */
  method CopyPart(heap: PbufHeap, pt: Id, pf: Id, ot: nat, of: nat, ghost m: Mem, ghost to: Option<Id>, ghost from: Option<Id>,
                  ghost t: seq<Id>, ghost s: seq<Id>, ghost i: nat, ghost j: nat, ghost n: nat) returns (len: nat)
    requires Refs(m, heap.handles, None) && Ranked(m, heap.rank) && Sound(m) && forall q :: q in m ==> q < heap.nextId
    requires IsChain(m, to, t) && Within(m, t) && IsChain(m, from, s) && Within(m, s) && (forall q :: q in s ==> q !in t) && Distinct(t)
    requires OnlyBytes(m, heap.mem, t) && Within(heap.mem, t) && i < |s| && j < |t| && pf == s[i] && pt == t[j]
    requires of <= m[s[i]].len && ot <= m[t[j]].len && n == Pos(m, s, i) + of == Pos(m, t, j) + ot
    requires n <= |Flat(m, s)| <= |Flat(m, t)| && Flat(heap.mem, t) == Over(Flat(m, t), 0, Flat(m, s)[..n])
    modifies heap`mem
    ensures len == if m[t[j]].len - ot >= m[s[i]].len - of then m[s[i]].len - of else m[t[j]].len - ot
    ensures heap.Valid() && OnlyBytes(m, heap.mem, t) && Within(heap.mem, t) && Within(heap.mem, s) && Flat(heap.mem, s) == Flat(m, s)
    ensures n + len <= |Flat(m, s)| && Flat(heap.mem, t) == Over(Flat(m, t), 0, Flat(m, s)[..n + len])
  {
    hide Refs, Ranked, Sound, IsChain, Within, Flat, Pos, OnlyBytes, Distinct, Over, Store;
    CopyShape(m, heap.mem, to, from, t, s, i, j);
    len := if heap.mem[pt].len - ot >= heap.mem[pf].len - of then heap.mem[pf].len - of else heap.mem[pt].len - ot;
    var d := heap.mem[pf].Payload()[of..of + len];
    CopyStep(m, heap.mem, t, s, i, of, j, ot, n, len);
    heap.mem := Store(heap.mem, pt, ot, d);
    StoreKeeps(heap, m, t);
    FlatOutside(m, heap.mem, t, s);
  }

  /** The tests of pbuf_copy at the end of a round. */
  method Refuses(heap: PbufHeap, pt: Option<Id>, pf: Option<Id>, ghost m: Mem, ghost to: Option<Id>, ghost from: Option<Id>,
                 ghost t: seq<Id>, ghost s: seq<Id>, ghost i: nat, ghost j: nat) returns (stop: Option<Err>)
    requires IsChain(m, to, t) && Measured(m, t) && IsChain(m, from, s) && Measured(m, s) && (forall q :: q in s ==> q !in t)
    requires OnlyBytes(m, heap.mem, t) && Within(heap.mem, t) && Within(m, s) && Within(m, t) && i <= |s| && j <= |t| && 0 < |t|
    requires pf == (if i < |s| then Some(s[i]) else None) && pt == if j < |t| then Some(t[j]) else None
    ensures stop == if pt.None? && pf.Some? then Some(ErrArg)
                    else if Tail(Lens(m, s)[i..]) || Tail(Lens(m, t)[j..]) then Some(ErrVal) else None
  {
    hide IsChain, Within, Flat, Pos, OnlyBytes, Measured, Tail, Lens, Sum;
    if pt.None? && pf.Some? {
      return Some(ErrArg);
    }
    TailIs(m, s, i);
    TailIs(m, t, j);
    if pf.Some? {
      CopyShape(m, heap.mem, to, from, t, s, i, if j < |t| then j else 0);
      if heap.mem[pf.value].len == heap.mem[pf.value].totLen && heap.mem[pf.value].next.Some? {
        return Some(ErrVal);
      }
    }
    if pt.Some? {
      ToShape(m, heap.mem, to, t, j);
      if heap.mem[pt.value].len == heap.mem[pt.value].totLen && heap.mem[pt.value].next.Some? {
        return Some(ErrVal);
      }
    }
    return None;
  }

  /** What pbuf_copy works on: m is the memory before, in which the source fits into the target. */
  ghost predicate CopyJob(heap: PbufHeap, m: Mem, to: Option<Id>, from: Option<Id>, t: seq<Id>, s: seq<Id>)
    reads heap
  {
    && Refs(m, heap.handles, None) && Ranked(m, heap.rank) && Sound(m) && (forall q :: q in m ==> q < heap.nextId)
    && IsChain(m, to, t) && Within(m, t) && Measured(m, t) && Distinct(t) && t != []
    && IsChain(m, from, s) && Within(m, s) && Measured(m, s) && s != [] && (forall q :: q in s ==> q !in t)
    && OnlyBytes(m, heap.mem, t) && Within(heap.mem, t) && |Flat(m, s)| <= |Flat(m, t)|
  }

  /** The first n bytes are copied; the next ones are at of in source pbuf i, and go to ot in target pbuf j. */
  ghost predicate CopyAt(m: Mem, m1: Mem, t: seq<Id>, s: seq<Id>, i: nat, of: nat, j: nat, ot: nat, n: nat)
    requires Within(m, t) && Within(m, s) && Within(m1, t) && t != [] && s != [] && |Flat(m, s)| <= |Flat(m, t)|
  {
    var ls, lt := Lens(m, s), Lens(m, t);
    && i <= |s| && of + Pos(m, s, i) == n <= |Flat(m, s)|
    && (if i < |s| then of <= ls[i] && j < |t| && ot <= lt[j] && n == Pos(m, t, j) + ot else n == |Flat(m, s)|)
    && Flat(m1, t) == Over(Flat(m, t), 0, Flat(m, s)[..n])
    && Walk(ls, lt, 0, 0) == (if i < |s| then Walk(ls[i..], lt[j..], of, ot) else Ok)
    && Moved(ls, lt, 0, 0) == n + if i < |s| then Moved(ls[i..], lt[j..], of, ot) else 0
  }

  /** One round of pbuf_copy. */
  method CopyRound(heap: PbufHeap, pt: Id, pf: Id, ot: nat, of: nat, ghost m: Mem, ghost to: Option<Id>, ghost from: Option<Id>,
                   ghost t: seq<Id>, ghost s: seq<Id>, ghost i: nat, ghost j: nat, ghost n: nat)
    returns (pt': Option<Id>, pf': Option<Id>, ot': nat, of': nat, stop: Option<Err>, ghost i': nat, ghost j': nat, ghost n': nat)
    requires CopyJob(heap, m, to, from, t, s) && CopyAt(m, heap.mem, t, s, i, of, j, ot, n)
    requires i < |s| && pf == s[i] && j < |t| && pt == t[j]
    modifies heap`mem
    ensures heap.Valid() && CopyJob(heap, m, to, from, t, s)
    ensures n' <= |Flat(m, s)| && Flat(heap.mem, t) == Over(Flat(m, t), 0, Flat(m, s)[..n'])
    ensures pf' == (if i' < |s| then Some(s[i']) else None) && pt' == (if j' < |t| then Some(t[j']) else None)
    ensures stop.None? ==> CopyAt(m, heap.mem, t, s, i', of', j', ot', n') && (i' < |s| ==> j' < |t|)
    ensures stop.Some? ==> stop.value == Walk(Lens(m, s), Lens(m, t), 0, 0) && n' == Moved(Lens(m, s), Lens(m, t), 0, 0)
    ensures i <= i' <= |s| && j <= j' <= |t| && (i < i' || j < j')
  {
    hide Refs, Ranked, Sound, IsChain, Within, Flat, Pos, OnlyBytes, Distinct, Over, Store, Measured, Tail, Walk, Moved, Lens, Sum;
    ghost var ls, lt := Lens(m, s), Lens(m, t);
    var len := CopyPart(heap, pt, pf, ot, of, m, to, from, t, s, i, j, n);
    WalkNext(ls, lt, i, of, j, ot, len);
    CopyShape(m, heap.mem, to, from, t, s, i, j);
    PosEnds(m, s);
    pt', pf', ot', of', i', j', n' := Some(pt), Some(pf), ot + len, of + len, i, j, n + len;
    if of' >= heap.mem[pf].len {
      pf', of', i' := heap.mem[pf].next, 0, i + 1;
    }
    if ot' == heap.mem[pt].len {
      pt', ot', j' := heap.mem[pt].next, 0, j + 1;
    }
    stop := Refuses(heap, pt', pf', m, to, from, t, s, i', j');
  }

  /**
  pbuf_copy: ERR_OK means that exactly the source bytes replaced the front of the target. It
  is returned exactly when the source fits and the lengths of the pbufs allow it. Otherwise the
  first n bytes were copied.
  */
  method Copy(heap: PbufHeap, to: Option<Id>, from: Option<Id>, ghost t: seq<Id>, ghost s: seq<Id>) returns (err: Err, ghost n: nat)
    requires heap.Valid() && IsChain(heap.mem, to, t) && IsChain(heap.mem, from, s)
    requires (to.Some? ==> Measured(heap.mem, t)) && (from.Some? ==> Measured(heap.mem, s))
    requires forall q :: q in s ==> q !in t
    modifies heap`mem
    ensures heap.Valid() && OnlyBytes(old(heap.mem), heap.mem, t)
    ensures Within(old(heap.mem), s) && Within(old(heap.mem), t) && Within(heap.mem, s) && Within(heap.mem, t)
    ensures to.Some? ==> t != []
    ensures from.Some? ==> s != []
    ensures var f, g := old(Flat(heap.mem, s)), old(Flat(heap.mem, t));
            && Flat(heap.mem, s) == f
            && (err == Ok <==> to.Some? && from.Some? && |f| <= |g| && CopyOk(Lens(old(heap.mem), s), Lens(old(heap.mem), t)))
            && (to.Some? && from.Some? && |f| <= |g| ==> err == Walk(Lens(old(heap.mem), s), Lens(old(heap.mem), t), 0, 0))
            && n <= |f| && n <= |g| && Flat(heap.mem, t) == f[..n] + g[n..] && (err == Ok ==> n == |f|)
            && (to.Some? && from.Some? && |f| <= |g| ==> n == Moved(Lens(old(heap.mem), s), Lens(old(heap.mem), t), 0, 0))
            && (to.None? || from.None? || |g| < |f| ==> err == ErrArg && heap.mem == old(heap.mem))
  {
    hide Refs, Ranked, Sound, IsChain, Within, Flat, Pos, OnlyBytes, Distinct, Over, Store, Measured, Walk, Moved, CopyOk, Lens, CopyAt;
    ghost var m := heap.mem;
    IdsSound(m, heap.handles, heap.rank, from, s);
    IdsSound(m, heap.handles, heap.rank, to, t);
    OnlyBytesRefl(m, t);
    ChainStart(m, from, s);
    ChainStart(m, to, t);
    if to.Some? { RestTot(m, t, 0); }
    if from.Some? { RestTot(m, s, 0); }
    PosEnds(m, s);
    PosEnds(m, t);
    if to.None? || from.None? || heap.mem[to.value].totLen < heap.mem[from.value].totLen {
      return ErrArg, 0;
    }
    n := 0;
    ghost var i, j := 0, 0;
    CopyBegins(m, t, s);
    var pt, pf, ot: nat, of: nat := to, from, 0, 0;
    while pf.Some?
      invariant heap.Valid() && CopyJob(heap, m, to, from, t, s) && CopyAt(m, heap.mem, t, s, i, of, j, ot, n)
      invariant i <= |s| && pf == (if i < |s| then Some(s[i]) else None) && (pf.Some? ==> j < |t| && pt == Some(t[j]))
      decreases |s| - i + |t| - j
    {
      var stop;
      pt, pf, ot, of, stop, i, j, n := CopyRound(heap, pt.value, pf.value, ot, of, m, to, from, t, s, i, j, n);
      if stop.Some? {
        CopyEnds(m, heap.mem, t, s, n);
        return stop.value, n;
      }
    }
    CopyFull(m, heap.mem, t, s, i, of, j, ot, n);
    CopyEnds(m, heap.mem, t, s, n);
    return Ok, n;
  }

  lemma CopyBegins(m: Mem, t: seq<Id>, s: seq<Id>)
    requires Within(m, t) && Within(m, s) && t != [] && s != [] && |Flat(m, s)| <= |Flat(m, t)|
    ensures CopyAt(m, m, t, s, 0, 0, 0, 0, 0)
    ensures Walk(Lens(m, s), Lens(m, t), 0, 0) == Ok <==> CopyOk(Lens(m, s), Lens(m, t))
    ensures Walk(Lens(m, s), Lens(m, t), 0, 0) == Ok ==> Moved(Lens(m, s), Lens(m, t), 0, 0) == |Flat(m, s)|
  {
    hide Within, Flat, Pos, Over, Walk, Moved, CopyOk, Lens, Sum;
    ghost var ls, lt := Lens(m, s), Lens(m, t);
    PosEnds(m, s);
    PosEnds(m, t);
    SumLens(m, s, 0);
    SumLens(m, t, 0);
    assert Flat(m, s)[..0] == [] && ls[0..] == ls && lt[0..] == lt;
    WalkIs(ls, lt);
    OverNone(Flat(m, t));
    if Walk(ls, lt, 0, 0) == Ok { MovedAll(ls, lt, 0, 0); }
  }

  lemma CopyFull(m: Mem, m1: Mem, t: seq<Id>, s: seq<Id>, i: nat, of: nat, j: nat, ot: nat, n: nat)
    requires Within(m, t) && Within(m, s) && Within(m1, t) && t != [] && s != [] && |Flat(m, s)| <= |Flat(m, t)|
    requires CopyAt(m, m1, t, s, i, of, j, ot, n) && i >= |s|
    ensures n == |Flat(m, s)| && Flat(m1, t) == Over(Flat(m, t), 0, Flat(m, s)[..n])
    ensures Walk(Lens(m, s), Lens(m, t), 0, 0) == Ok && n == Moved(Lens(m, s), Lens(m, t), 0, 0)
  {
  }

  lemma CopyEnds(m: Mem, m1: Mem, t: seq<Id>, s: seq<Id>, n: nat)
    requires Within(m, t) && Within(m, s) && Within(m1, t) && OnlyBytes(m, m1, t) && (forall q :: q in s ==> q !in t)
    requires n <= |Flat(m, s)| <= |Flat(m, t)| && Flat(m1, t) == Over(Flat(m, t), 0, Flat(m, s)[..n])
    ensures Within(m1, s) && Flat(m1, s) == Flat(m, s) && Flat(m1, t) == Flat(m, s)[..n] + Flat(m, t)[n..]
  {
    hide Flat, Over;
    FlatOutside(m, m1, t, s);
    OverFront(Flat(m, t), Flat(m, s)[..n]);
  }

  lemma OverFront(g: seq<byte>, f: seq<byte>)
    requires |f| <= |g|
    ensures Over(g, 0, f) == f + g[|f|..]
  {
  }

  lemma ToShape(m: Mem, m1: Mem, to: Option<Id>, t: seq<Id>, j: nat)
    requires IsChain(m, to, t) && Within(m, t) && OnlyBytes(m, m1, t) && Within(m1, t) && j < |t|
    ensures t[j] in m1 && m1[t[j]].next == (if j + 1 < |t| then Some(t[j + 1]) else None)
    ensures m1[t[j]].len == m[t[j]].len && m1[t[j]].totLen == m[t[j]].totLen && Pos(m, t, j + 1) == Pos(m, t, j) + m[t[j]].len
  {
    TakeStep(m, m1, to, t, j);
  }

  /** What the two current pbufs look like while bytes are copied. */
  lemma CopyShape(m: Mem, m1: Mem, to: Option<Id>, from: Option<Id>, t: seq<Id>, s: seq<Id>, i: nat, j: nat)
    requires IsChain(m, to, t) && Within(m, t) && IsChain(m, from, s) && Within(m, s) && (forall q :: q in s ==> q !in t)
    requires OnlyBytes(m, m1, t) && Within(m1, t) && i < |s| && j < |t|
    ensures s[i] in m && m[s[i]].off + m[s[i]].len <= |m[s[i]].buf|
    ensures s[i] in m1 && m1[s[i]] == m[s[i]] && m[s[i]].next == (if i + 1 < |s| then Some(s[i + 1]) else None)
    ensures Pos(m, s, i + 1) == Pos(m, s, i) + m[s[i]].len
    ensures t[j] in m1 && m1[t[j]].next == (if j + 1 < |t| then Some(t[j + 1]) else None)
    ensures m1[t[j]].len == m[t[j]].len && m1[t[j]].totLen == m[t[j]].totLen && Pos(m, t, j + 1) == Pos(m, t, j) + m[t[j]].len
  {
    hide Flat, Pos;
    ChainAt(m, from, s, i);
    PosStep(m, s, i);
    ToShape(m, m1, to, t, j);
  }

  /** One round of the loop copies the next stretch. */
  lemma CopyStep(m: Mem, m1: Mem, t: seq<Id>, s: seq<Id>, i: nat, of: nat, j: nat, ot: nat, n: nat, len: nat)
    requires Within(m, t) && Within(m, s) && Within(m1, t) && Distinct(t) && OnlyBytes(m, m1, t) && i < |s| && j < |t|
    requires of + len <= m[s[i]].len && ot + len <= m[t[j]].len && n == Pos(m, s, i) + of == Pos(m, t, j) + ot
    requires n <= |Flat(m, s)| <= |Flat(m, t)| && Flat(m1, t) == Over(Flat(m, t), 0, Flat(m, s)[..n])
    ensures m1[t[j]].len == m[t[j]].len && m1[t[j]].off + m1[t[j]].len <= |m1[t[j]].buf| && n + len <= |Flat(m, s)|
    ensures var m2 := Store(m1, t[j], ot, m[s[i]].Payload()[of..of + len]);
            OnlyBytes(m, m2, t) && Within(m2, t) && Flat(m2, t) == Over(Flat(m, t), 0, Flat(m, s)[..n + len])
  {
    hide Flat, Over, Pos, Distinct;
    var d := m[s[i]].Payload()[of..of + len];
    Stretch(m, s, i, of, of + len);
    PosKept(m, m1, t, t, j);
    StoreFlat(m1, t, j, ot, d);
    OnlyBytesTrans(m, m1, Store(m1, t[j], ot, d), t);
    OverNext(Flat(m, t), 0, Flat(m, s)[..n], d);
    PrefixGrows(Flat(m, s), n, len);
  }

  lemma PrefixGrows(f: seq<byte>, n: nat, len: nat)
    requires n + len <= |f|
    ensures f[..n] + f[n..n + len] == f[..n + len]
  {
  }
}
