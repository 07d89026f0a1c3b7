/**
The boundary-tag heap of mem.c: struct mem headers in one array, the cached pointer
to the lowest free block, and mem_malloc interleaved with mem_free and mem_trim at
each point where it drops its protection.
*/
module Heap {
  import opened Prelude
  import opened BlockList

  /** struct mem; the block it heads is the offset at which it is stored. */
  datatype Header = Header(next: nat, prev: nat, used: bool)

  ghost function HeaderOf(c: Config, b: seq<Block>, i: nat): Header
    requires i < |b|
  {
    Header(End(c, b, i), if i == 0 then 0 else b[i - 1].addr, b[i].used)
  }

  ghost predicate MirrorsAt(c: Config, b: seq<Block>, h: seq<Header>, i: nat)
    requires i < |b|
  {
    b[i].addr < |h| && h[b[i].addr] == HeaderOf(c, b, i)
  }

  /** The headers of h describe the blocks b: next and prev are mutual inverses by construction. */
  ghost predicate Mirrors(c: Config, b: seq<Block>, h: seq<Header>) {
    forall i :: 0 <= i < |b| ==> MirrorsAt(c, b, h, i)
  }

  lemma Ordered(c: Config, b: seq<Block>)
    requires c.Sized() && Partition(c, b)
    ensures forall i, j :: 0 <= i < j < |b| ==> b[i].addr < b[j].addr
    ensures forall i :: 0 <= i < |b| ==> b[i].addr < c.size
  {
    forall i, j | 0 <= i < j < |b| ensures b[i].addr < b[j].addr { InOrder(c, b, i, j); }
    forall i | 0 <= i < |b| ensures b[i].addr < c.size { InOrderLast(c, b, i); }
  }

  lemma SpliceMirrors(c: Config, b: seq<Block>, lo: nat, hi: nat, x: seq<Block>, h: seq<Header>, h': seq<Header>)
    requires Mirrors(c, b, h) && lo < hi <= |b| && 0 < |x| && x[0].addr == b[lo].addr && |h| == |h'|
    requires forall k :: (0 <= k < lo || hi < k < |b|) && b[k].addr < |h| ==> h'[b[k].addr] == h[b[k].addr]
    requires forall k :: lo <= k < lo + |x| ==> MirrorsAt(c, Splice(b, lo, hi, x), h', k)
    requires hi < |b| && b[hi].addr < |h| ==> h'[b[hi].addr] == h[b[hi].addr].(prev := x[|x| - 1].addr)
    ensures Mirrors(c, Splice(b, lo, hi, x), h')
  {
    var r := Splice(b, lo, hi, x);
    forall k | 0 <= k < |r| ensures MirrorsAt(c, r, h', k) {
      if k < lo {
        SpliceOutside(c, b, lo, hi, x, k);
        assert MirrorsAt(c, b, h, k);
      } else if k >= lo + |x| {
        var k' := k - |x| + (hi - lo);
        SpliceOutside(c, b, lo, hi, x, k');
        assert MirrorsAt(c, b, h, k');
      }
    }
  }

  /** The headers after blocks lo..hi of b are replaced by x, which has one or two blocks. */
  ghost function Relink(c: Config, b: seq<Block>, lo: nat, hi: nat, x: seq<Block>, h: seq<Header>): (r: seq<Header>)
    requires lo < hi <= |b| && 1 <= |x| <= 2
    requires forall p :: 0 <= p < |x| ==> x[p].addr < |h|
    requires hi < |b| ==> b[hi].addr < |h|
  {
    var r := Splice(b, lo, hi, x);
    var h1 := h[x[0].addr := HeaderOf(c, r, lo)];
    var h2 := if |x| > 1 then h1[x[1].addr := HeaderOf(c, r, lo + 1)] else h1;
    if hi < |b| then h2[b[hi].addr := h[b[hi].addr].(prev := x[|x| - 1].addr)] else h2
  }

  lemma RelinkMirrors(c: Config, b: seq<Block>, lo: nat, hi: nat, x: seq<Block>, h: seq<Header>)
    requires c.Sized() && Partition(c, b) && Mirrors(c, b, h) && |h| == c.size + 1
    requires lo < hi <= |b| && 1 <= |x| <= 2 && x[0].addr == b[lo].addr
    requires |x| > 1 ==> x[0].addr < x[1].addr < End(c, b, hi - 1)
    ensures forall p :: 0 <= p < |x| ==> x[p].addr < c.size
    ensures hi < |b| ==> b[hi].addr < c.size
    ensures Mirrors(c, Splice(b, lo, hi, x), Relink(c, b, lo, hi, x, h))
    ensures Relink(c, b, lo, hi, x, h)[c.size] == h[c.size]
  {
    Ordered(c, b);
    var h' := Relink(c, b, lo, hi, x, h);
    var r := Splice(b, lo, hi, x);
    forall k | lo <= k < lo + |x| ensures MirrorsAt(c, r, h', k) {
    }
    SpliceMirrors(c, b, lo, hi, x, h, h');
  }

  /** What another context may do while mem_malloc runs unprotected; addr is a header offset. */
  datatype Op = Free(addr: nat) | Trim(addr: nat, size: nat)

  /** mem_trim accepts the rounded size n for a request of `size` bytes. */
  predicate InRange(c: Config, n: nat, size: nat) {
    n <= c.size && size <= n
  }

  /** Sizes are mem_size_t values. */
  predicate IsRequest(c: Config, op: Op) {
    op.Trim? ==> op.size < c.modulus
  }

  /** One legal operation: clients only pass allocations they hold, never the pending one. */
  ghost function Apply(c: Config, b: seq<Block>, op: Op, pending: int): seq<Block>
    requires c.Valid()
  {
    if !IsLive(b, op.addr) || op.addr == pending || !IsRequest(c, op) then b
    else
      var i := Find(b, op.addr);
      match op
      case Free(_) => FreeAt(b, i)
      case Trim(_, size) =>
        var n := c.Rounded(size);
        if InRange(c, n, size) && n < Room(c, b, i) then TrimAt(c, b, i, n) else b
  }

  ghost function Run(c: Config, b: seq<Block>, ops: seq<Op>, pending: int): seq<Block>
    requires c.Valid()
    decreases |ops|
  {
    if ops == [] then b else Run(c, Apply(c, b, ops[0], pending), ops[1..], pending)
  }

  lemma {:induction false} RunAppend(c: Config, b: seq<Block>, ops: seq<Op>, more: seq<Op>, pending: int)
    requires c.Valid()
    ensures Run(c, b, ops + more, pending) == Run(c, Run(c, b, ops, pending), more, pending)
    decreases |ops|
  {
    if ops == [] {
      assert ops + more == more;
    } else {
      assert (ops + more)[0] == ops[0] && (ops + more)[1..] == ops[1..] + more;
      RunAppend(c, Apply(c, b, ops[0], pending), ops[1..], more, pending);
    }
  }

  /** mem_link_valid on the header at offset m. */
  predicate LinkValid(h: seq<Header>, end: nat, m: nat)
    requires |h| == end + 1 && m < |h|
  {
    && h[m].next <= end && h[m].prev <= end
    && (h[m].prev == m || h[h[m].prev].next == m)
    && (h[m].next == end || h[h[m].next].prev == m)
  }

  /** mem_link_valid accepts every block of the list. */
  lemma LinkValidAccepts(c: Config, b: seq<Block>, h: seq<Header>, i: nat)
    requires Shaped(c, b) && Mirrors(c, b, h) && |h| == c.size + 1 && i < |b|
    ensures MirrorsAt(c, b, h, i) && LinkValid(h, c.size, b[i].addr)
  {
    Ordered(c, b);
    assert MirrorsAt(c, b, h, i);
    if i > 0 { assert MirrorsAt(c, b, h, i - 1); }
    if i + 1 < |b| { assert MirrorsAt(c, b, h, i + 1); }
  }

  ghost predicate IsStart(b: seq<Block>, p: nat) {
    exists i :: 0 <= i < |b| && b[i].addr == p
  }

  /** The list after a trim: a free block from right behind the request to where the free space ended, if there is room for it. */
  lemma TrimmedList(c: Config, b: seq<Block>, i: nat, size: nat)
    requires Shaped(c, b) && i < |b| && b[i].used && c.min <= size && b[i].addr + c.hdr + size < End(c, b, i)
    ensures var r, at := TrimAt(c, b, i, size), b[i].addr + c.hdr + size;
            if i + 1 < |b| && !b[i + 1].used
            then i + 1 < |r| && r == b[..i + 1] + [Block(at, false)] + b[i + 2..]
            else if at + c.hdr + c.min <= End(c, b, i)
            then r == b[..i + 1] + [Block(at, false)] + b[i + 1..]
            else r == b
  {
    TrimEnds(c, b, i, size);
    var r := TrimAt(c, b, i, size);
    if r != b {
      assert r == r[..i + 1] + [r[i + 1]] + r[i + 2..];
    }
  }

  lemma TrimIs(c: Config, b: seq<Block>, a: nat, size: nat, pending: int, done: bool)
    requires WellFormed(c, b) && IsLive(b, a) && a != pending && size < c.modulus
    requires var n := c.Rounded(size); done <==> InRange(c, n, size) && n <= Room(c, b, Find(b, a))
    ensures var i, n, at, r := Find(b, a), c.Rounded(size), a + c.hdr + c.Rounded(size), Apply(c, b, Op.Trim(a, size), pending);
            && (done <==> n <= c.size && size <= n && at <= End(c, b, i))
            && (!done || at == End(c, b, i) ==> r == b)
            && (done && at < End(c, b, i) ==>
                  if i + 1 < |b| && !b[i + 1].used
                  then i + 1 < |r| && r == b[..i + 1] + [Block(at, false)] + b[i + 2..]
                  else if at + c.hdr + c.min <= End(c, b, i)
                  then r == b[..i + 1] + [Block(at, false)] + b[i + 1..]
                  else r == b)
  {
    hide Partition, Coalesced, AllAligned, TrimAt, IsLive, Config.Rounded;
    RoundedIsAligned(c, size);
    ApplyIs(c, b, a, size, pending);
    var i, n := Find(b, a), c.Rounded(size);
    if done && a + c.hdr + n < End(c, b, i) { TrimmedList(c, b, i, n); }
  }

  /** What an operation of another context does: its block goes, or is trimmed if the size is in range and smaller. */
  lemma ApplyIs(c: Config, b: seq<Block>, a: nat, size: nat, pending: int)
    requires WellFormed(c, b) && IsLive(b, a) && a != pending
    ensures Apply(c, b, Op.Free(a), pending) == FreeAt(b, Find(b, a))
    ensures var i, n := Find(b, a), c.Rounded(size);
            Apply(c, b, Op.Trim(a, size), pending) ==
            if size < c.modulus && size <= n <= c.size && a + c.hdr + n < End(c, b, i) then TrimAt(c, b, i, n) else b
  {
  }

  // ---------------------------------------------------------------- the data of live blocks

  /** Block a is live in b and reaches at least to e. */
  ghost predicate Reaches(c: Config, b: seq<Block>, a: nat, e: nat) {
    exists e0 :: e <= e0 && Region(c, b, a, e0)
  }

  /** The live data of block a up to e was live data of the same block before, and has its old contents. */
  ghost predicate DataFrom(c: Config, b: seq<Block>, h: seq<Header>, h': seq<Header>, a: nat, e: nat) {
    && Reaches(c, b, a, e)
    && forall p :: a < p < e && p < |h| && p < |h'| ==> h'[p] == h[p]
  }

  /** No block but `but` is new or larger, and nothing was written to the data of the others. */
  ghost predicate Kept(c: Config, b: seq<Block>, h: seq<Header>, b': seq<Block>, h': seq<Header>, but: int) {
    |h| == |h'| && forall a: nat, e: nat :: Region(c, b', a, e) && a != but ==> DataFrom(c, b, h, h', a, e)
  }

  lemma KeptIs(c: Config, b: seq<Block>, h: seq<Header>, b': seq<Block>, h': seq<Header>, but: int, a: nat, e: nat)
    requires Kept(c, b, h, b', h', but) && Region(c, b', a, e) && a != but
    ensures |h| == |h'| && (exists e0 :: e <= e0 && Region(c, b, a, e0)) && forall p :: a < p < e && p < |h| ==> h'[p] == h[p]
  {
    assert DataFrom(c, b, h, h', a, e);
  }

  lemma KeptSame(c: Config, b: seq<Block>, h: seq<Header>, but: int)
    ensures Kept(c, b, h, b, h, but)
  {
  }

  lemma KeptBut(c: Config, b: seq<Block>, h: seq<Header>, b': seq<Block>, h': seq<Header>, but: int)
    requires Kept(c, b, h, b', h', -1)
    ensures Kept(c, b, h, b', h', but)
  {
  }

  lemma KeptTrans(c: Config, b0: seq<Block>, h0: seq<Header>, b1: seq<Block>, h1: seq<Header>,
                  b2: seq<Block>, h2: seq<Header>, but: int)
    requires Kept(c, b0, h0, b1, h1, but) && Kept(c, b1, h1, b2, h2, but)
    ensures Kept(c, b0, h0, b2, h2, but)
  {
    forall a: nat, e: nat | Region(c, b2, a, e) && a != but ensures DataFrom(c, b0, h0, h2, a, e) {
      assert DataFrom(c, b1, h1, h2, a, e);
      var e1 :| e <= e1 && Region(c, b1, a, e1);
      assert DataFrom(c, b0, h0, h1, a, e1);
      var e0 :| e1 <= e0 && Region(c, b0, a, e0);
      assert e <= e0;
    }
  }

  /** No block starts inside the data of a live one. */
  lemma NoStartInside(c: Config, b: seq<Block>, a: nat, e: nat, p: nat)
    requires Shaped(c, b) && Region(c, b, a, e) && a < p < e
    ensures !IsStart(b, p)
  {
    hide Region, Partition, Coalesced;
    if IsStart(b, p) {
      var i: nat :| i < |b| && b[i].addr == p;
      RegionsDisjoint(c, b, i, a, e);
    }
  }

  /** Writes to headers alone do not touch the data of blocks that were live and did not grow. */
  lemma HeadersKeep(c: Config, b: seq<Block>, h: seq<Header>, b': seq<Block>, h': seq<Header>, but: int)
    requires Shaped(c, b) && Shaped(c, b') && |h| == |h'|
    requires forall p: nat :: p < |h| && !IsStart(b, p) && !IsStart(b', p) ==> h'[p] == h[p]
    requires forall a: nat, e: nat :: Region(c, b', a, e) && a != but ==> Reaches(c, b, a, e)
    ensures Kept(c, b, h, b', h', but)
  {
    hide Region, Shaped, IsStart;
    forall a: nat, e: nat | Region(c, b', a, e) && a != but ensures DataFrom(c, b, h, h', a, e) {
      assert Reaches(c, b, a, e);
      var e0 :| e <= e0 && Region(c, b, a, e0);
      forall p: nat | a < p < e && p < |h| ensures h'[p] == h[p] {
        NoStartInside(c, b, a, e0, p);
        NoStartInside(c, b', a, e, p);
      }
    }
  }

  /** Frees and trims make no live block larger. */
  lemma ApplyShrinks(c: Config, b: seq<Block>, op: Op, pending: int, a: nat, e: nat)
    requires WellFormed(c, b) && Region(c, Apply(c, b, op, pending), a, e)
    ensures Reaches(c, b, a, e)
  {
    hide Region, Partition, Coalesced, AllAligned, FreeAt, TrimAt;
    if IsLive(b, op.addr) && op.addr != pending && IsRequest(c, op) {
      var i := Find(b, op.addr);
      match op
      case Free(_) => FreeRegions(c, b, i, a, e);
      case Trim(_, size) =>
        var n := c.Rounded(size);
        RoundedIsAligned(c, size);
        if InRange(c, n, size) && n < Room(c, b, i) {
          TrimRegions(c, b, i, n, a, e);
          SelfRegion(c, b, i);
        }
    }
  }

  lemma SelfRegion(c: Config, b: seq<Block>, i: nat)
    requires i < |b| && b[i].used
    ensures Region(c, b, b[i].addr, End(c, b, i))
  {
    assert RegionAt(c, b, b[i].addr, End(c, b, i), i);
  }

  lemma ApplyKept(c: Config, b: seq<Block>, h: seq<Header>, op: Op, pending: int, h': seq<Header>)
    requires WellFormed(c, b) && WellFormed(c, Apply(c, b, op, pending)) && |h| == |h'|
    requires var b' := Apply(c, b, op, pending);
             forall p: nat :: p < |h| && !IsStart(b, p) && !IsStart(b', p) ==> h'[p] == h[p]
    ensures Kept(c, b, h, Apply(c, b, op, pending), h', -1)
  {
    hide Region, Shaped, IsStart, Apply, Kept, Reaches, AllAligned;
    var b' := Apply(c, b, op, pending);
    forall a: nat, e: nat | Region(c, b', a, e) ensures Reaches(c, b, a, e) {
      ApplyShrinks(c, b, op, pending, a, e);
    }
    HeadersKeep(c, b, h, b', h', -1);
  }

  lemma TakenKept(c: Config, b0: seq<Block>, h0: seq<Header>, b: seq<Block>, h: seq<Header>, i: nat, size: nat,
                  h1: seq<Header>, b2: seq<Block>, h2: seq<Header>)
    requires Kept(c, b0, h0, b, h, -1) && i < |b|
    requires Kept(c, b, h, AllocAt(c, b, i, size), h1, b[i].addr) && Kept(c, AllocAt(c, b, i, size), h1, b2, h2, -1)
    ensures Kept(c, b0, h0, b2, h2, b[i].addr)
  {
    hide Kept, AllocAt;
    KeptBut(c, b0, h0, b, h, b[i].addr);
    KeptBut(c, AllocAt(c, b, i, size), h1, b2, h2, b[i].addr);
    KeptTrans(c, b0, h0, b, h, AllocAt(c, b, i, size), h1, b[i].addr);
    KeptTrans(c, b0, h0, AllocAt(c, b, i, size), h1, b2, h2, b[i].addr);
  }

  lemma TakeKept(c: Config, b: seq<Block>, h: seq<Header>, i: nat, size: nat, h': seq<Header>)
    requires Shaped(c, b) && i < |b| && Fits(c, b, i, size) && c.min <= size && |h| == |h'|
    requires Shaped(c, AllocAt(c, b, i, size))
    requires var b' := AllocAt(c, b, i, size);
             forall p: nat :: p < |h| && !IsStart(b, p) && !IsStart(b', p) ==> h'[p] == h[p]
    ensures Kept(c, b, h, AllocAt(c, b, i, size), h', b[i].addr)
  {
    hide Region, Shaped, IsStart, AllocAt, Kept, AllocEnd;
    var b' := AllocAt(c, b, i, size);
    forall a: nat, e: nat | Region(c, b', a, e) && a != b[i].addr ensures Reaches(c, b, a, e) {
      AllocRegions(c, b, i, size, a, e);
    }
    HeadersKeep(c, b, h, b', h', b[i].addr);
  }

  class Heap {
    const c: Config
    const ram: array<Header>
    var lfree: nat
    /** mem_free_count */
    var freeCount: bool
    /** The headers of the allocations that clients hold. */
    var live: set<nat>
    ghost var blocks: seq<Block>

    ghost predicate Linked()
      reads this, ram
    {
      && WellFormed(c, blocks)
      && ram.Length == c.size + 1
      && Mirrors(c, blocks, ram[..])
      && ram[c.size] == Header(c.size, c.size, true)
    }

    /** The heap between the steps of an allocation whose block at `pending` is not yet returned. */
    ghost predicate Inv(pending: int)
      reads this, ram
    {
      && Linked()
      && LowBound(c, blocks, lfree, pending)
      && forall a: nat :: a in live <==> IsLive(blocks, a) && a != pending
    }

    ghost predicate Valid()
      reads this, ram
    {
      Inv(-1)
    }

    /** Every header written is at the start of a block, before or after. */
    twostate predicate OnlyHeaders()
      reads this, ram
    {
      forall p: nat :: p < ram.Length && !IsStart(old(blocks), p) && !IsStart(blocks, p) ==> ram[p] == old(ram[p])
    }

    /** mem_init */
    constructor (c: Config)
      requires c.Valid()
      ensures Valid() && this.c == c && blocks == INIT && lfree == 0 && live == {} && fresh(ram)
    {
      this.c := c;
      var r := new Header[c.size + 1](_ => Header(0, 0, false));
      r[0] := Header(c.size, 0, false);
      r[c.size] := Header(c.size, c.size, true);
      ram := r;
      lfree := 0;
      freeCount := false;
      live := {};
      blocks := INIT;
      new;
      assert Spaced(c, blocks, 0);
      assert MirrorsAt(c, blocks, ram[..], 0);
      assert LowAt(blocks, lfree, -1, 0);
      assert c.Aligned(0);
    }

    /** The first half of plug_holes: join block i with a free successor. */
    method PlugForward(mem: nat, ghost b: seq<Block>, ghost i: nat)
      requires c.Sized() && Partition(c, b) && i < |b| && b[i].addr == mem
      requires ram.Length == c.size + 1 && Mirrors(c, b, ram[..])
      requires ram[c.size] == Header(c.size, c.size, true)
      modifies ram, `lfree
      ensures Mirrors(c, Splice(b, i, RunEnd(b, i), [b[i]]), ram[..]) && ram[c.size] == old(ram[c.size])
      ensures lfree == if RunEnd(b, i) == i + 2 && old(lfree) == b[i + 1].addr then mem else old(lfree)
      ensures forall p: nat :: p < ram.Length && !IsStart(b, p) ==> ram[p] == old(ram[p])
    {
      ghost var h := ram[..];
      assert MirrorsAt(c, b, h, i);
      assert Spaced(c, b, i);
      RelinkMirrors(c, b, i, RunEnd(b, i), [b[i]], h);
      var nmem := ram[mem].next;
      if i + 1 < |b| { assert MirrorsAt(c, b, h, i + 1) && Spaced(c, b, i + 1); }
      if i + 2 < |b| { assert MirrorsAt(c, b, h, i + 2); InOrderLast(c, b, i + 2); }
      if mem != nmem && !ram[nmem].used && nmem != c.size {
        if lfree == nmem {
          lfree := mem;
        }
        ram[mem] := ram[mem].(next := ram[nmem].next);
        if ram[nmem].next != c.size {
          ram[ram[nmem].next] := ram[ram[nmem].next].(prev := mem);
        }
      }
      assert ram[..] == Relink(c, b, i, RunEnd(b, i), [b[i]], h);
    }

    /** The second half of plug_holes: join block i with a free predecessor. */
    method PlugBackward(mem: nat, ghost b: seq<Block>, ghost i: nat)
      requires c.Sized() && Partition(c, b) && i < |b| && b[i].addr == mem
      requires ram.Length == c.size + 1 && Mirrors(c, b, ram[..])
      modifies ram, `lfree
      ensures Mirrors(c, Splice(b, RunStart(b, i), i + 1, [b[RunStart(b, i)]]), ram[..]) && ram[c.size] == old(ram[c.size])
      ensures lfree == if RunStart(b, i) < i && old(lfree) == mem then b[i - 1].addr else old(lfree)
      ensures forall p: nat :: p < ram.Length && !IsStart(b, p) ==> ram[p] == old(ram[p])
    {
      ghost var h := ram[..];
      assert MirrorsAt(c, b, h, i);
      assert Spaced(c, b, i);
      RelinkMirrors(c, b, RunStart(b, i), i + 1, [b[RunStart(b, i)]], h);
      var pmem := ram[mem].prev;
      if i > 0 { assert MirrorsAt(c, b, h, i - 1) && Spaced(c, b, i - 1); }
      if i + 1 < |b| { assert MirrorsAt(c, b, h, i + 1); InOrderLast(c, b, i + 1); }
      if pmem != mem && !ram[pmem].used {
        if lfree == mem {
          lfree := pmem;
        }
        ram[pmem] := ram[pmem].(next := ram[mem].next);
        if ram[mem].next != c.size {
          ram[ram[mem].next] := ram[ram[mem].next].(prev := pmem);
        }
      }
      assert ram[..] == Relink(c, b, RunStart(b, i), i + 1, [b[RunStart(b, i)]], h);
    }

    /** plug_holes on block i of b, which was used and whose header now says free. */
    method PlugHoles(mem: nat, ghost b: seq<Block>, ghost i: nat)
      requires Shaped(c, b) && i < |b| && b[i] == Block(mem, true)
      requires ram.Length == c.size + 1 && Mirrors(c, b[i := Block(mem, false)], ram[..])
      requires ram[c.size] == Header(c.size, c.size, true)
      requires lfree <= mem && (RunStart(b, i) < i ==> lfree < mem)
      modifies ram, `lfree
      ensures Mirrors(c, FreeAt(b, i), ram[..]) && ram[c.size] == old(ram[c.size])
      ensures lfree == old(lfree)
      ensures forall p: nat :: p < ram.Length && !IsStart(b, p) ==> ram[p] == old(ram[p])
    {
      hide Mirrors, Partition, Coalesced, IsStart, FreeAt;
      ghost var b1 := b[i := Block(mem, false)];
      ghost var hi := RunEnd(b, i);
      ghost var b2 := Splice(b1, i, hi, [b1[i]]);
      PlugShapes(c, b, i);
      PlugStarts(b, i);
      PlugForward(mem, b1, i);
      PlugBackward(mem, b2, i);
    }

    /** The range and alignment checks of mem_free on a data pointer. */
    predicate InHeap(rmem: int)
      requires 0 < c.align
    {
      c.Aligned(rmem) && c.hdr <= rmem && rmem + c.min <= c.size
    }

    /** The part of mem_free that follows its checks. */
    method Release(mem: nat, ghost i: nat, ghost pending: int)
      requires Inv(pending) && i < |blocks| && blocks[i] == Block(mem, true) && mem != pending
      modifies this, ram
      ensures Inv(pending) && OnlyHeaders()
      ensures blocks == FreeAt(old(blocks), i) && live == old(live) - {mem} && freeCount
    {
      hide Mirrors, LowBound, IsLive, Partition, Coalesced, AllAligned;
      ghost var b := blocks;
      FreeKeepsLow(c, b, i, lfree, pending);
      MarkedMirrors(c, b, i, false, ram[..]);
      InOrderLast(c, b, i);
      ram[mem] := ram[mem].(used := false);
      assert ram[..] == old(ram[..])[mem := old(ram[mem]).(used := false)];
      if mem < lfree {
        lfree := mem;
      }
      PlugHoles(mem, b, i);
      blocks := FreeAt(b, i);
      freeCount := true;
      live := live - {mem};
      FreeKeepsForm(c, b, i);
      FreeLive(c, b, i);
    }

    /** mem_free: NULL, misaligned, foreign and already free pointers change nothing. */
    method Free(rmem: Option<int>, ghost pending: int)
      requires Inv(pending)
      requires rmem.Some? && InHeap(rmem.value) ==> IsStart(blocks, rmem.value - c.hdr) && rmem.value - c.hdr != pending
      modifies this, ram
      ensures Inv(pending) && OnlyHeaders()
      ensures blocks == if rmem.Some? && InHeap(rmem.value)
                        then Apply(c, old(blocks), Op.Free(rmem.value - c.hdr), pending) else old(blocks)
      ensures live == if rmem.Some? then old(live) - {rmem.value - c.hdr} else old(live)
      ensures freeCount || (blocks == old(blocks) && lfree == old(lfree) && live == old(live))
      ensures old(freeCount) ==> freeCount
    {
      hide Mirrors, LowBound, Partition, Coalesced, AllAligned, FreeAt;
      if rmem.None? {
        return;
      }
      if !InHeap(rmem.value) {
        assert forall a: nat :: IsLive(blocks, a) ==> a + c.hdr != rmem.value by { LiveInHeap(c, blocks, rmem.value); }
        return;
      }
      var mem := rmem.value - c.hdr;
      ghost var b, l := blocks, lfree;
      ghost var i: nat :| i < |b| && b[i].addr == mem;
      LinkValidAccepts(c, b, ram[..], i);
      if !ram[mem].used || !LinkValid(ram[..], c.size, mem) {
        assert !IsLive(b, mem) by {
          if IsLive(b, mem) { UniqueAddr(c, b, i, Find(b, mem)); }
        }
        return;
      }
      FindIs(c, b, i);
      Release(mem, i, pending);
    }

    /** Put a free block at ptr2 between used block i, at ptr, and the block at next. */
    method LinkFree(ptr: nat, ptr2: nat, next: nat, ghost b: seq<Block>, ghost i: nat, ghost hi: nat)
      requires c.Sized() && Partition(c, b) && i < hi <= |b| && b[i] == Block(ptr, true)
      requires ram.Length == c.size + 1 && Mirrors(c, b, ram[..])
      requires ptr < ptr2 < next == End(c, b, hi - 1)
      modifies ram
      ensures Mirrors(c, Splice(b, i, hi, [b[i], Block(ptr2, false)]), ram[..])
      ensures ram[c.size] == old(ram[c.size])
      ensures forall p: nat :: p < ram.Length && !IsStart(b, p) && p != ptr2 ==> ram[p] == old(ram[p])
    {
      ghost var h, x := ram[..], [b[i], Block(ptr2, false)];
      assert MirrorsAt(c, b, h, i);
      RelinkMirrors(c, b, i, hi, x, h);
      if hi < |b| { assert MirrorsAt(c, b, h, hi); }
      ram[ptr2] := Header(next, ptr, false);
      ram[ptr] := ram[ptr].(next := ptr2);
      if next != c.size {
        ram[next] := ram[next].(prev := ptr2);
      }
      assert ram[..] == Relink(c, b, i, hi, x, h);
    }

    /**
    The part of mem_trim that runs under protection. Its two assertions say that the block is
    not the last one; the second fails exactly for a last block that is split.
    */
    method Shrink(ptr: nat, newsize: nat, ghost i: nat, ghost pending: int) returns (asserted: bool)
      requires Inv(pending) && i < |blocks| && blocks[i] == Block(ptr, true)
      requires c.min <= newsize < Room(c, blocks, i) && c.Aligned(newsize)
      modifies this, ram
      ensures Inv(pending) && OnlyHeaders()
      ensures blocks == TrimAt(c, old(blocks), i, newsize) && live == old(live) && freeCount
      ensures !asserted <==> i + 1 == |old(blocks)| && newsize + c.hdr + c.min <= Room(c, old(blocks), i)
    {
      hide Mirrors, LowBound, IsLive, Partition, Coalesced, AllAligned;
      ghost var b, t := blocks, TrimAt(c, blocks, i, newsize);
      TrimKeepsLow(c, b, i, newsize, lfree, pending);
      TrimKeepsForm(c, b, i, newsize);
      TrimLive(c, b, i, newsize);
      Neighbours(c, b, ram[..], i);
      blocks := t;
      freeCount := true;
      var size := ram[ptr].next - ptr - c.hdr;
      var mem2 := ram[ptr].next;
      var ptr2 := ptr + c.hdr + newsize;
      asserted := true;
      if !ram[mem2].used {
        asserted := mem2 != c.size;
        var next := ram[mem2].next;
        if lfree == mem2 {
          lfree := ptr2;
        }
        LinkFree(ptr, ptr2, next, b, i, i + 2);
        assert t[i + 1].addr == ptr2;
      } else if newsize + c.hdr + c.min <= size {
        asserted := mem2 != c.size;
        if ptr2 < lfree {
          lfree := ptr2;
        }
        LinkFree(ptr, ptr2, mem2, b, i, i + 1);
        assert t[i + 1].addr == ptr2;
      }
    }

    /** The checks of mem_trim, and what follows them. */
    method TrimChecked(rmem: int, new_size: nat, ghost pending: int) returns (r: Option<int>, asserted: bool)
      requires Inv(pending) && new_size < c.modulus
      requires 0 <= rmem < c.size ==> c.hdr <= rmem && rmem - c.hdr in live
      modifies this, ram
      ensures Inv(pending) && OnlyHeaders() && live == old(live)
      ensures blocks == if 0 <= rmem < c.size
                        then Apply(c, old(blocks), Op.Trim(rmem - c.hdr, new_size), pending) else old(blocks)
      ensures var n := c.Rounded(new_size);
              r == if InRange(c, n, new_size)
                      && (0 <= rmem < c.size ==> n <= Room(c, old(blocks), Find(old(blocks), rmem - c.hdr)))
                   then Some(rmem) else None
      ensures 0 <= rmem < c.size ==>
                var i, n := Find(old(blocks), rmem - c.hdr), c.Rounded(new_size);
                !asserted <==> r.Some? && i + 1 == |old(blocks)| && n + c.hdr + c.min <= Room(c, old(blocks), i)
      ensures freeCount || (blocks == old(blocks) && lfree == old(lfree))
      ensures old(freeCount) ==> freeCount
    {
      hide Mirrors, LowBound, Partition, Coalesced, AllAligned, TrimAt;
      var newsize := c.Rounded(new_size);
      RoundedIsAligned(c, new_size);
      asserted := true;
      if newsize > c.size || newsize < new_size {
        return None, true;
      }
      if rmem < 0 || rmem >= c.size {
        return Some(rmem), true;
      }
      var ptr := rmem - c.hdr;
      ghost var i := Find(blocks, ptr);
      Neighbours(c, blocks, ram[..], i);
      var size := ram[ptr].next - ptr - c.hdr;
      if newsize > size {
        return None, true;
      }
      if newsize == size {
        return Some(rmem), true;
      }
      asserted := Shrink(ptr, newsize, i, pending);
      r := Some(rmem);
    }

    /** mem_trim: a free block from right behind the request to where the free space ended, if there is room for it. */
    method Trim(rmem: int, new_size: nat, ghost pending: int) returns (r: Option<int>, asserted: bool)
      requires Inv(pending) && new_size < c.modulus
      requires 0 <= rmem < c.size ==> c.hdr <= rmem && rmem - c.hdr in live
      modifies this, ram
      ensures Inv(pending) && OnlyHeaders() && live == old(live)
      ensures blocks == if 0 <= rmem < c.size
                        then Apply(c, old(blocks), Op.Trim(rmem - c.hdr, new_size), pending) else old(blocks)
      ensures var n := c.Rounded(new_size);
              r == if InRange(c, n, new_size)
                      && (0 <= rmem < c.size ==> n <= Room(c, old(blocks), Find(old(blocks), rmem - c.hdr)))
                   then Some(rmem) else None
      ensures 0 <= rmem < c.size ==>
                var i, n := Find(old(blocks), rmem - c.hdr), c.Rounded(new_size);
                !asserted <==> r.Some? && i + 1 == |old(blocks)| && n + c.hdr + c.min <= Room(c, old(blocks), i)
      ensures 0 <= rmem < c.size ==>
                var b, i, at := old(blocks), Find(old(blocks), rmem - c.hdr), rmem + c.Rounded(new_size);
                && (r.Some? <==> c.Rounded(new_size) <= c.size && new_size <= c.Rounded(new_size) && at <= End(c, b, i))
                && (r.None? || at == End(c, b, i) ==> blocks == b)
                && (r.Some? && at < End(c, b, i) ==>
                      if i + 1 < |b| && !b[i + 1].used
                      then i + 1 < |blocks| && blocks == b[..i + 1] + [Block(at, false)] + b[i + 2..]
                      else if at + c.hdr + c.min <= End(c, b, i)
                      then blocks == b[..i + 1] + [Block(at, false)] + b[i + 1..]
                      else blocks == b)
      ensures freeCount || (blocks == old(blocks) && lfree == old(lfree))
      ensures old(freeCount) ==> freeCount
    {
      hide Mirrors, LowBound, Partition, Coalesced, AllAligned, TrimAt, Apply, IsLive, Room, End, Config.Rounded;
      ghost var b := blocks;
      r, asserted := TrimChecked(rmem, new_size, pending);
      if 0 <= rmem < c.size { TrimIs(c, b, rmem - c.hdr, new_size, pending, r.Some?); }
    }

    /** An operation of another context takes effect when that context holds the allocation. */
    method RunOne(op: Op, ghost pending: int)
      requires Inv(pending)
      modifies this, ram
      ensures Inv(pending) && blocks == Apply(c, old(blocks), op, pending)
      ensures Kept(c, old(blocks), old(ram[..]), blocks, ram[..], -1)
      ensures freeCount || (blocks == old(blocks) && lfree == old(lfree))
      ensures old(freeCount) ==> freeCount
    {
      hide Mirrors, LowBound, FreeAt, TrimAt, Kept, Partition, Coalesced, AllAligned;
      KeptSame(c, blocks, ram[..], -1);
      if op.addr in live && IsRequest(c, op) {
        LiveBounds(c, blocks, op.addr);
        match op {
          case Free(addr) => Free(Some(addr + c.hdr), pending);
          case Trim(addr, size) => var _, _ := Trim(addr + c.hdr, size, pending);
        }
        ApplyKept(c, old(blocks), old(ram[..]), op, pending, ram[..]);
      }
    }

    /** Another context runs a sequence of operations. */
    method RunBatch(ops: seq<Op>, ghost pending: int)
      requires Inv(pending)
      modifies this, ram
      ensures Inv(pending) && blocks == Run(c, old(blocks), ops, pending)
      ensures Kept(c, old(blocks), old(ram[..]), blocks, ram[..], -1)
      ensures freeCount || (blocks == old(blocks) && lfree == old(lfree))
    {
      hide Mirrors, Partition, Coalesced, AllAligned, LowBound, IsLive, Apply, Kept;
      KeptSame(c, blocks, ram[..], -1);
      for n := 0 to |ops|
        invariant Inv(pending)
        invariant blocks == Run(c, old(blocks), ops[..n], pending)
        invariant Kept(c, old(blocks), old(ram[..]), blocks, ram[..], -1)
        invariant freeCount || (blocks == old(blocks) && lfree == old(lfree))
      {
        var op := ops[n];
        assert ops[..n + 1] == ops[..n] + [op];
        RunAppend(c, old(blocks), ops[..n], [op], pending);
        assert Run(c, blocks, [op], pending) == Run(c, Apply(c, blocks, op, pending), [], pending);
        ghost var b, h := blocks, ram[..];
        RunOne(op, pending);
        KeptTrans(c, old(blocks), old(ram[..]), b, h, blocks, ram[..], -1);
      }
      assert ops[..|ops|] == ops;
    }

    /** LWIP_MEM_ALLOC_UNPROTECT, whatever runs meanwhile, and LWIP_MEM_ALLOC_PROTECT. */
    method Unlock(env: seq<seq<Op>>, ghost pending: int) returns (rest: seq<seq<Op>>, ghost done: seq<Op>)
      requires Inv(pending)
      modifies this, ram
      ensures Inv(pending) && blocks == Run(c, old(blocks), done, pending)
      ensures Kept(c, old(blocks), old(ram[..]), blocks, ram[..], -1)
      ensures freeCount || (blocks == old(blocks) && lfree == old(lfree))
      ensures freeCount ==> |rest| < |env|
      ensures |rest| <= |env| && done + Flat(rest) == Flat(env)
    {
      hide Kept;
      KeptSame(c, blocks, ram[..], -1);
      freeCount := false;
      if env == [] {
        rest, done := [], [];
      } else {
        RunBatch(env[0], pending);
        rest, done := env[1..], env[0];
      }
    }

    /** One pass of the search loop of mem_malloc, up to a fit or an interruption. */
    method Scan(size: nat, env: seq<seq<Op>>)
      returns (found: Option<nat>, again: bool, rest: seq<seq<Op>>, ghost done: seq<Op>, ghost i: nat)
      requires Valid() && size <= c.size
      modifies this, ram
      ensures Valid() && blocks == Run(c, old(blocks), done, -1)
      ensures Kept(c, old(blocks), old(ram[..]), blocks, ram[..], -1)
      ensures |rest| <= |env| && done + Flat(rest) == Flat(env)
      ensures again ==> found.None? && |rest| < |env|
      ensures found.Some? ==> FirstFit(c, blocks, i, size) && blocks[i].addr == found.value
      ensures found.None? && !again ==> NoFit(c, blocks, size)
    {
      hide Mirrors, Partition, Coalesced, AllAligned, Run, IsLive, Room, Kept;
      KeptSame(c, blocks, ram[..], -1);
      found, again, rest, done, i := None, false, env, [], 0;
      RunNothing(c, blocks, -1);
      var ptr := lfree;
      i := LowIndex(c, blocks, lfree, size);
      while ptr < c.size - size
        invariant Valid() && blocks == Run(c, old(blocks), done, -1)
        invariant Kept(c, old(blocks), old(ram[..]), blocks, ram[..], -1)
        invariant |rest| <= |env| && done + Flat(rest) == Flat(env)
        invariant At(c, blocks, i, ptr) && forall j :: 0 <= j < i ==> !Fits(c, blocks, j, size)
        decreases c.size - ptr
      {
        ghost var d, b, h := [], blocks, ram[..];
        rest, d := Unlock(rest, -1);
        KeptTrans(c, old(blocks), old(ram[..]), b, h, blocks, ram[..], -1);
        RunAppend(c, old(blocks), done, d, -1);
        FlatStep(done, d, rest, Flat(env));
        done := done + d;
        if freeCount {
          again := true;
          return;
        }
        Step(c, blocks, ram[..], i, ptr);
        var mem := ram[ptr];
        if !mem.used && mem.next - (ptr + c.hdr) >= size {
          found := Some(ptr);
          return;
        }
        ptr := mem.next;
        i := i + 1;
      }
      TooHigh(c, blocks, i, ptr, size);
    }

    /** Mark free block i used, with a free block behind it when there is room for one. */
    method Take(ptr: nat, size: nat, ghost i: nat)
      requires Valid() && i < |blocks| && blocks[i].addr == ptr && Fits(c, blocks, i, size)
      requires c.min <= size && c.Aligned(size)
      modifies this, ram
      ensures Inv(ptr) && OnlyHeaders() && IsLive(blocks, ptr)
      ensures blocks == AllocAt(c, old(blocks), i, size) && live == old(live)
    {
      hide Mirrors, LowBound, IsLive, Partition, Coalesced, AllAligned, IsStart;
      ghost var b := blocks;
      ghost var b' := b[i := Block(ptr, true)];
      AllocKeepsLow(c, b, i, size, lfree);
      AllocKeepsForm(c, b, i, size);
      AllocLive(c, b, i, size);
      AllocStarts(c, b, i, size);
      Neighbours(c, b, ram[..], i);
      MarkedMirrors(c, b, i, true, ram[..]);
      ram[ptr] := ram[ptr].(used := true);
      assert ram[..] == old(ram[..])[ptr := old(ram[ptr]).(used := true)];
      blocks := AllocAt(c, b, i, size);
      if ram[ptr].next - (ptr + c.hdr) >= size + c.hdr + c.min {
        MarkedPartition(c, b, i);
        LinkFree(ptr, ptr + c.hdr + size, ram[ptr].next, b', i, i + 1);
        assert Splice(b', i, i + 1, [b'[i], Block(ptr + c.hdr + size, false)]) == blocks;
      } else {
        assert b' == blocks;
      }
    }

    /** The walk of mem_malloc to the next free block, up to an interruption. */
    method Walk(mem: nat, env: seq<seq<Op>>)
      returns (cur: nat, again: bool, rest: seq<seq<Op>>, ghost done: seq<Op>)
      requires Inv(mem) && lfree == mem && IsLive(blocks, mem)
      modifies this, ram
      ensures Inv(mem) && blocks == Run(c, old(blocks), done, mem)
      ensures Kept(c, old(blocks), old(ram[..]), blocks, ram[..], -1)
      ensures |rest| <= |env| && done + Flat(rest) == Flat(env)
      ensures again ==> |rest| < |env|
      ensures !again ==> cur != mem && LowestFree(c, blocks, cur)
    {
      hide Mirrors, Partition, Coalesced, AllAligned, Run, LowBound, Kept;
      KeptSame(c, blocks, ram[..], -1);
      again, rest, done := false, env, [];
      RunNothing(c, blocks, mem);
      cur := lfree;
      ghost var i := PendingIndex(c, blocks, mem);
      while ram[cur].used && cur != c.size
        invariant Inv(mem) && lfree == mem && blocks == old(blocks) && blocks == Run(c, old(blocks), done, mem)
        invariant Kept(c, old(blocks), old(ram[..]), blocks, ram[..], -1)
        invariant |rest| <= |env| && done + Flat(rest) == Flat(env)
        invariant At(c, blocks, i, cur) && cur <= c.size && forall j :: 0 <= j < i ==> blocks[j].used
        decreases c.size - cur
      {
        Step(c, blocks, ram[..], i, cur);
        ghost var d, h := [], ram[..];
        rest, d := Unlock(rest, mem);
        KeptTrans(c, old(blocks), old(ram[..]), old(blocks), h, blocks, ram[..], -1);
        RunAppend(c, old(blocks), done, d, mem);
        FlatStep(done, d, rest, Flat(env));
        done := done + d;
        if freeCount {
          again := true;
          return;
        }
        Step(c, blocks, ram[..], i, cur);
        cur := ram[cur].next;
        i := i + 1;
      }
      if cur != c.size { Step(c, blocks, ram[..], i, cur); }
      NextFree(c, blocks, i, cur);
      PendingNotFree(c, blocks, mem, i, cur);
    }

    /** mem_malloc_adjust_lfree: restore lfree to the lowest free block. */
    method AdjustLfree(mem: nat, env: seq<seq<Op>>) returns (rest: seq<seq<Op>>, ghost done: seq<Op>)
      requires Inv(mem) && IsLive(blocks, mem)
      modifies this, ram
      ensures Inv(mem) && LowestFree(c, blocks, lfree) && IsLive(blocks, mem)
      ensures blocks == Run(c, old(blocks), done, mem)
      ensures Kept(c, old(blocks), old(ram[..]), blocks, ram[..], -1)
      ensures |rest| <= |env| && done + Flat(rest) == Flat(env)
    {
      hide Mirrors, Partition, Coalesced, AllAligned, Run, LowBound, IsLive, Flat, Kept;
      KeptSame(c, blocks, ram[..], -1);
      rest, done := env, [];
      RunNothing(c, blocks, mem);
      while mem == lfree
        invariant Inv(mem) && IsLive(blocks, mem) && blocks == Run(c, old(blocks), done, mem)
        invariant Kept(c, old(blocks), old(ram[..]), blocks, ram[..], -1)
        invariant |rest| <= |env| && done + Flat(rest) == Flat(env)
        decreases |rest|, mem == lfree
      {
        ghost var d;
        var cur, again;
        ghost var b, h := blocks, ram[..];
        cur, again, rest, d := Walk(mem, rest);
        KeptTrans(c, old(blocks), old(ram[..]), b, h, blocks, ram[..], -1);
        RunAppend(c, old(blocks), done, d, mem);
        RunKeepsLive(c, b, d, mem);
        FlatStep(done, d, rest, Flat(env));
        done := done + d;
        if !again {
          lfree := cur;
          LowWeaken(c, blocks, cur, mem);
        }
      }
      LowExact(c, blocks, lfree, mem);
    }

    /**
    mem_malloc. `env` is what other contexts run at the successive unlock points; the
    block is chosen after `before` has run, and `after` runs before the call returns.
    */
    method Malloc(size_in: nat, env: seq<seq<Op>>)
      returns (r: Option<nat>, ghost before: seq<Op>, ghost after: seq<Op>, ghost i: nat)
      requires Valid() && size_in < c.modulus
      modifies this, ram
      ensures Valid() && before + after <= Flat(env)
      ensures var pre := Run(c, old(blocks), before, -1);
              match r
              case None => blocks == pre && (size_in == 0 || NoFit(c, pre, size_in))
              case Some(p) =>
                && 0 < size_in && FirstFit(c, pre, i, size_in)
                && p == pre[i].addr + c.hdr && c.Aligned(p) && p - c.hdr in live
                && blocks == Run(c, AllocAt(c, pre, i, c.Rounded(size_in)), after, pre[i].addr)
                && Region(c, blocks, pre[i].addr, AllocEnd(c, pre, i, c.Rounded(size_in)))
      ensures Kept(c, old(blocks), old(ram[..]), blocks, ram[..], if r.Some? then r.value - c.hdr else -1)
    {
      hide Mirrors, Partition, Coalesced, AllAligned, Run, LowBound, Flat, AllocAt, AllocEnd, Region, Room, Kept;
      KeptSame(c, blocks, ram[..], -1);
      r, before, after, i := None, [], [], 0;
      RunNothing(c, blocks, -1);
      if size_in == 0 {
        return;
      }
      var size := c.Rounded(size_in);
      RoundFits(c, blocks, size_in);
      RoundedIsAligned(c, size_in);
      if size > c.size || size < size_in {
        return;
      }
      var rest, found, again := env, None, true;
      while again
        invariant Valid() && blocks == Run(c, old(blocks), before, -1)
        invariant before + Flat(rest) == Flat(env) && Kept(c, old(blocks), old(ram[..]), blocks, ram[..], -1)
        invariant again ==> found == None
        invariant found.Some? ==> FirstFit(c, blocks, i, size) && blocks[i].addr == found.value
        invariant !again && found.None? ==> NoFit(c, blocks, size)
        decreases |rest|, again
      {
        ghost var d, b, h := [], blocks, ram[..];
        found, again, rest, d, i := Scan(size, rest);
        KeptTrans(c, old(blocks), old(ram[..]), b, h, blocks, ram[..], -1);
        RunAppend(c, old(blocks), before, d, -1);
        FlatStep(before, d, rest, Flat(env));
        before := before + d;
      }
      RoundFits(c, blocks, size_in);
      if found.None? {
        return;
      }
      var mem := found.value;
      ghost var pre, h := blocks, ram[..];
      Take(mem, size, i);
      ghost var taken, h1 := blocks, ram[..];
      TakeKept(c, pre, h, i, size, h1);
      rest, after := AdjustLfree(mem, rest);
      TakenKept(c, old(blocks), old(ram[..]), pre, h, i, size, h1, blocks, ram[..]);
      live := live + {mem};
      r := Some(mem + c.hdr);
      AllocRegions(c, pre, i, size, mem, AllocEnd(c, pre, i, size));
      AllocKeepsForm(c, pre, i, size);
      RunKeepsRegion(c, taken, after, mem, AllocEnd(c, pre, i, size));
      LiveBounds(c, blocks, mem);
      assert Flat(env) == before + after + Flat(rest);
    }

    /** mem_sanity: none of its checks fails. */
    method Sanity() returns (ok: bool)
      requires Valid()
      ensures ok
    {
      hide LowBound, AllAligned, IsLive;
      Neighbours(c, blocks, ram[..], 0);
      var lastUsed, mem := ram[0].used, ram[0].next;
      ok := ram[0].prev == 0 && mem <= c.size && c.Aligned(mem);
      AllLinksAligned(c, blocks);
      if 1 < |blocks| { InOrderLast(c, blocks, 1); }
      ghost var i := 1;
      while mem > 0 && mem < c.size
        invariant ok && 1 <= i && At(c, blocks, i, mem) && 0 < mem <= c.size && lastUsed == blocks[i - 1].used
        decreases c.size - mem
      {
        Step(c, blocks, ram[..], i, mem);
        LinkValidAccepts(c, blocks, ram[..], i);
        Neighbours(c, blocks, ram[..], i);
        assert !TwoFree(blocks, i - 1);
        ok := ok && ram[mem].prev <= c.size && ram[mem].next <= c.size
          && c.Aligned(mem) && c.Aligned(ram[mem].prev) && c.Aligned(ram[mem].next)
          && (lastUsed || ram[mem].used) && LinkValid(ram[..], c.size, mem);
        lastUsed := ram[mem].used;
        mem := ram[mem].next;
        i := i + 1;
      }
      ok := ok && mem == c.size && ram[mem] == Header(c.size, c.size, true);
    }
  }

  lemma AllLinksAligned(c: Config, b: seq<Block>)
    requires WellFormed(c, b)
    ensures forall i :: 0 <= i < |b| ==> c.Aligned(b[i].addr) && c.Aligned(End(c, b, i))
  {
  }

  /**
  mem_malloc followed by mem_free, without interference: the block list, every header and
  lfree are as before, and no other data was touched.
  */
  method MallocFree(heap: Heap, size: nat) returns (ghost ok: bool)
    requires heap.Valid() && size < heap.c.modulus
    modifies heap, heap.ram
    ensures heap.Valid() && heap.blocks == old(heap.blocks) && heap.lfree == old(heap.lfree) && heap.live == old(heap.live)
    ensures forall p: nat :: p < heap.ram.Length && IsStart(heap.blocks, p) ==> heap.ram[p] == old(heap.ram[p])
    ensures Kept(heap.c, old(heap.blocks), old(heap.ram[..]), heap.blocks, heap.ram[..], -1)
    ensures ok <==> 0 < size && !NoFit(heap.c, old(heap.blocks), size)
  {
    hide Run, LowBound, Mirrors, Region, Flat, AllAligned, Coalesced, Partition, Kept, AllocAt, FreeAt, IsStart, NoFit, AllocEnd;
    ghost var c, b, h := heap.c, heap.blocks, heap.ram[..];
    var p;
    ghost var before, after, i;
    p, before, after, i := heap.Malloc(size, []);
    NoBatches();
    assert before == [] && after == [];
    RunNothing(c, b, -1);
    ok := p.Some?;
    if p.Some? {
      ghost var n := c.Rounded(size);
      RunNothing(c, AllocAt(c, b, i, n), b[i].addr);
      ghost var b1, h1 := heap.blocks, heap.ram[..];
      Undone(c, b, i, size);
      LiveBounds(c, b1, b[i].addr);
      heap.Free(Some(p.value), -1);
      ApplyKept(c, b1, h1, Op.Free(b[i].addr), -1, heap.ram[..]);
      KeptAround(c, b, h, b1, h1, heap.ram[..], b[i].addr);
    }
    SomeFit(c, b, i, size);
    SameHeaders(c, b, h, heap.ram[..]);
    LowestFreeUnique(c, b, heap.lfree, old(heap.lfree));
  }

  lemma Undone(c: Config, b: seq<Block>, i: nat, size: nat)
    requires WellFormed(c, b) && 0 < size < c.modulus && FirstFit(c, b, i, size)
    ensures var r := AllocAt(c, b, i, c.Rounded(size));
            IsLive(r, b[i].addr) && Apply(c, r, Op.Free(b[i].addr), -1) == b
    ensures !IsLive(b, b[i].addr)
  {
    hide Partition, Coalesced, AllAligned, FreeAt;
    var n := c.Rounded(size);
    RoundFits(c, b, size);
    RoundedIsAligned(c, size);
    MallocThenFree(c, b, i, n);
    AllocKeepsForm(c, b, i, n);
    FindIs(c, AllocAt(c, b, i, n), i);
    if IsLive(b, b[i].addr) { UniqueAddr(c, b, i, Find(b, b[i].addr)); }
  }

  lemma KeptAround(c: Config, b: seq<Block>, h: seq<Header>, b1: seq<Block>, h1: seq<Header>, h2: seq<Header>, a: nat)
    requires Kept(c, b, h, b1, h1, a) && Kept(c, b1, h1, b, h2, -1) && !IsLive(b, a)
    ensures Kept(c, b, h, b, h2, -1)
  {
    hide Region;
    KeptBut(c, b1, h1, b, h2, a);
    KeptTrans(c, b, h, b1, h1, b, h2, a);
    forall e: nat ensures !Region(c, b, a, e) {
      LiveIsRegion(c, b, a);
    }
  }

  lemma SomeFit(c: Config, b: seq<Block>, i: nat, size: nat)
    ensures FirstFit(c, b, i, size) ==> !NoFit(c, b, size)
  {
  }

  lemma SameHeaders(c: Config, b: seq<Block>, h: seq<Header>, h': seq<Header>)
    requires Mirrors(c, b, h) && Mirrors(c, b, h') && |h| == |h'|
    ensures forall p: nat :: p < |h| && IsStart(b, p) ==> h'[p] == h[p]
  {
    forall p: nat | p < |h| && IsStart(b, p) ensures h'[p] == h[p] {
      var i: nat :| i < |b| && b[i].addr == p;
      assert MirrorsAt(c, b, h, i) && MirrorsAt(c, b, h', i);
    }
  }

  /** The assertion of mem_trim fails: the whole heap is one block in use, and it is cut. */
  method TrimLastBlock(c: Config) returns (heap: Heap, asserted: bool)
    requires c.Valid() && 2 * c.hdr + 2 * c.min <= c.size
    ensures fresh(heap) && heap.Valid() && !asserted
  {
    hide Run, LowBound, Mirrors, Region, Flat, AllAligned, Coalesced, Partition, Kept, AllocAt, AllocEnd, Apply, TrimAt, NoFit, Fits, Room;
    heap := new Heap(c);
    var n := c.size - c.hdr;
    WholeFits(c);
    SomeFit(c, INIT, 0, n);
    var p;
    ghost var before, after, i;
    p, before, after, i := heap.Malloc(n, []);
    assert Flat([]) == [] by { NoBatches(); }
    RunNothing(c, INIT, -1);
    assert before == [] && after == [];
    RunNothing(c, AllocAt(c, INIT, i, n), 0);
    WholeTaken(c, i, p, heap.blocks);
    var r;
    r, asserted := heap.Trim(p.value, c.min, -1);
  }

  lemma NoBatches()
    ensures Flat([]) == []
  {
  }

  lemma WholeFits(c: Config)
    requires c.Valid() && 2 * c.hdr + 2 * c.min <= c.size
    ensures c.Rounded(c.size - c.hdr) == c.size - c.hdr && c.Rounded(c.min) == c.min
    ensures FirstFit(c, INIT, 0, c.size - c.hdr)
  {
    MultipleDiff(c.align, c.size, c.hdr);
    RoundSame(c.align, c.size - c.hdr);
    RoundSame(c.align, c.min);
  }

  lemma RoundSame(a: nat, n: nat)
    requires 0 < a && IsMultiple(a, n)
    ensures RoundUp(a, n) == n
  {
    RoundUpIs(a, n);
    if n < RoundUp(a, n) { MultipleGap(a, n, RoundUp(a, n)); }
  }

  lemma WholeTaken(c: Config, i: nat, p: Option<nat>, b: seq<Block>)
    requires c.Valid() && 2 * c.hdr + 2 * c.min <= c.size && c.Rounded(c.size - c.hdr) == c.size - c.hdr && c.Rounded(c.min) == c.min
    requires FirstFit(c, INIT, i, c.size - c.hdr) && p == Some(c.hdr) && b == AllocAt(c, INIT, i, c.size - c.hdr)
    ensures b == [Block(0, true)] && Find(b, 0) == 0 && Room(c, b, 0) == c.size - c.hdr && InRange(c, c.min, c.min)
  {
    assert i == 0;
  }

  // ---------------------------------------------------------------- whole runs

  /** A call on the heap by a client. */
  datatype Call = CMalloc(size: nat) | COp(op: Op)

  ghost function Exec(c: Config, b: seq<Block>, call: Call): seq<Block>
    requires c.Valid()
  {
    match call
    case COp(op) => Apply(c, b, op, -1)
    case CMalloc(n) =>
      if 0 < n < c.modulus && exists i: nat :: FirstFit(c, b, i, n) then
        var i: nat :| FirstFit(c, b, i, n);
        AllocAt(c, b, i, c.Rounded(n))
      else b
  }

  ghost function ExecAll(c: Config, b: seq<Block>, calls: seq<Call>): seq<Block>
    requires c.Valid()
    decreases |calls|
  {
    if calls == [] then b else ExecAll(c, Exec(c, b, calls[0]), calls[1..])
  }

  /** Every run of mem_malloc, mem_free and mem_trim keeps the heap well formed. */
  lemma {:induction false} RunsKeepForm(c: Config, b: seq<Block>, calls: seq<Call>)
    requires WellFormed(c, b)
    ensures WellFormed(c, ExecAll(c, b, calls))
    decreases |calls|
  {
    if calls != [] {
      match calls[0] {
        case COp(op) => ApplyKeeps(c, b, op, -1, 0);
        case CMalloc(n) =>
          if 0 < n < c.modulus && exists i: nat :: FirstFit(c, b, i, n) {
            var i: nat :| FirstFit(c, b, i, n) && Exec(c, b, calls[0]) == AllocAt(c, b, i, c.Rounded(n));
            RoundFits(c, b, n);
            RoundedIsAligned(c, n);
            AllocKeepsForm(c, b, i, c.Rounded(n));
          }
      }
      RunsKeepForm(c, Exec(c, b, calls[0]), calls[1..]);
    }
  }

  lemma InitWellFormed(c: Config)
    requires c.Valid()
    ensures WellFormed(c, INIT)
  {
    assert Spaced(c, INIT, 0);
    assert c.Aligned(0);
  }

  /** After any run from mem_init, freeing what is still live, in any order, undoes the run. */
  lemma RunsReturnToInit(c: Config, calls: seq<Call>, order: seq<nat>)
    requires c.Valid()
    requires forall a :: IsLive(ExecAll(c, INIT, calls), a) ==> a in order
    ensures FreeAll(ExecAll(c, INIT, calls), order) == INIT
  {
    InitWellFormed(c);
    RunsKeepForm(c, INIT, calls);
    FreeAllGivesInit(c, ExecAll(c, INIT, calls), order);
  }

  lemma LowWeaken(c: Config, b: seq<Block>, l: nat, pending: int)
    requires LowestFree(c, b, l)
    ensures LowBound(c, b, l, pending)
  {
    if l != c.size { var k: nat :| LowAt(b, l, -1, k); assert LowAt(b, l, pending, k); }
  }

  /** Away from the pending block, the bound is the lowest free block itself. */
  lemma LowExact(c: Config, b: seq<Block>, l: nat, pending: int)
    requires LowBound(c, b, l, pending) && l != pending
    ensures LowestFree(c, b, l)
  {
    if l != c.size { var k: nat :| LowAt(b, l, pending, k); assert LowAt(b, l, -1, k); }
  }

  lemma ApplyKeeps(c: Config, b: seq<Block>, op: Op, pending: int, e: nat)
    requires WellFormed(c, b)
    ensures WellFormed(c, Apply(c, b, op, pending))
    ensures 0 <= pending && Region(c, b, pending, e) ==> Region(c, Apply(c, b, op, pending), pending, e)
  {
    if IsLive(b, op.addr) && op.addr != pending && IsRequest(c, op) {
      var i := Find(b, op.addr);
      match op
      case Free(_) =>
        FreeKeepsForm(c, b, i);
        if 0 <= pending { FreeRegions(c, b, i, pending, e); }
      case Trim(_, size) =>
        var n := c.Rounded(size);
        RoundedIsAligned(c, size);
        if InRange(c, n, size) && n < Room(c, b, i) {
          TrimKeepsForm(c, b, i, n);
          if 0 <= pending { TrimRegions(c, b, i, n, pending, e); }
        }
    }
  }

  /** Whatever runs in other contexts keeps the form of the heap and the region being allocated. */
  lemma {:induction false} RunKeepsRegion(c: Config, b: seq<Block>, ops: seq<Op>, a: nat, e: nat)
    requires WellFormed(c, b) && Region(c, b, a, e)
    ensures WellFormed(c, Run(c, b, ops, a)) && Region(c, Run(c, b, ops, a), a, e)
    decreases |ops|
  {
    if ops != [] {
      ApplyKeeps(c, b, ops[0], a, e);
      RunKeepsRegion(c, Apply(c, b, ops[0], a), ops[1..], a, e);
    }
  }

  lemma RunKeepsLive(c: Config, b: seq<Block>, ops: seq<Op>, a: nat)
    requires WellFormed(c, b) && IsLive(b, a)
    ensures IsLive(Run(c, b, ops, a), a)
  {
    LiveIsRegion(c, b, a);
    var e: nat :| Region(c, b, a, e);
    RunKeepsRegion(c, b, ops, a, e);
    LiveIsRegion(c, Run(c, b, ops, a), a);
  }

  /** Rounding a request up does not change which blocks hold it. */
  lemma RoundFits(c: Config, b: seq<Block>, n: nat)
    requires WellFormed(c, b) && 0 < n < c.modulus
    ensures forall j :: 0 <= j < |b| ==>
              (Fits(c, b, j, n) <==> InRange(c, c.Rounded(n), n) && Fits(c, b, j, c.Rounded(n)))
  {
    forall j | 0 <= j < |b|
      ensures Fits(c, b, j, n) <==> InRange(c, c.Rounded(n), n) && Fits(c, b, j, c.Rounded(n))
    {
      var room := Room(c, b, j);
      assert Spaced(c, b, j);
      InOrderLast(c, b, j);
      if j + 1 < |b| { InOrderLast(c, b, j + 1); }
      RoundUpIs(c.align, n);
      MultipleDiff(c.align, End(c, b, j), b[j].addr);
      MultipleDiff(c.align, End(c, b, j) - b[j].addr, c.hdr);
      if room < RoundUp(c.align, n) { MultipleGap(c.align, room, RoundUp(c.align, n)); }
      if c.modulus <= RoundUp(c.align, n) < c.modulus + n {
        if c.modulus < RoundUp(c.align, n) { MultipleGap(c.align, c.modulus, RoundUp(c.align, n)); }
      }
    }
  }

  lemma AllocStarts(c: Config, b: seq<Block>, i: nat, size: nat)
    requires i < |b|
    ensures Room(c, b, i) >= size + c.hdr + c.min ==> IsStart(AllocAt(c, b, i, size), b[i].addr + c.hdr + size)
    ensures IsStart(b, b[i].addr) && forall p: nat :: IsStart(b[i := Block(b[i].addr, true)], p) <==> IsStart(b, p)
  {
    var b' := b[i := Block(b[i].addr, true)];
    assert forall k :: 0 <= k < |b| ==> b'[k].addr == b[k].addr;
    var r := AllocAt(c, b, i, size);
    assert |r| == |b| + 1 ==> r[i + 1].addr == b[i].addr + c.hdr + size;
  }

  lemma AllocLive(c: Config, b: seq<Block>, i: nat, size: nat)
    requires Shaped(c, b) && i < |b| && Fits(c, b, i, size) && c.min <= size
    ensures forall a: nat :: IsLive(AllocAt(c, b, i, size), a) <==> IsLive(b, a) || a == b[i].addr
    ensures !IsLive(b, b[i].addr)
  {
    var r := AllocAt(c, b, i, size);
    forall a: nat ensures IsLive(r, a) <==> IsLive(b, a) || a == b[i].addr {
      LiveIsRegion(c, b, a);
      LiveIsRegion(c, r, a);
      forall e: nat ensures Region(c, r, a, e) <==> Region(c, b, a, e) || (a == b[i].addr && e == AllocEnd(c, b, i, size)) {
        AllocRegions(c, b, i, size, a, e);
      }
      assert a == b[i].addr ==> Region(c, r, a, AllocEnd(c, b, i, size));
    }
    if IsLive(b, b[i].addr) { UniqueAddr(c, b, i, Find(b, b[i].addr)); }
  }

  lemma MarkedPartition(c: Config, b: seq<Block>, i: nat)
    requires Partition(c, b) && i < |b|
    ensures Partition(c, b[i := Block(b[i].addr, true)])
  {
    var b' := b[i := Block(b[i].addr, true)];
    forall k | 0 <= k < |b'| ensures Spaced(c, b', k) { assert Spaced(c, b, k); }
  }

  /** The walk starts at the block being allocated; every block below it is used. */
  ghost function PendingIndex(c: Config, b: seq<Block>, mem: nat): (i: nat)
    requires Shaped(c, b) && LowBound(c, b, mem, mem) && IsLive(b, mem)
    ensures At(c, b, i, mem) && mem < c.size && forall j :: 0 <= j < i ==> b[j].used
  {
    var i := Find(b, mem);
    Ordered(c, b);
    i
  }

  lemma NextFree(c: Config, b: seq<Block>, i: nat, cur: nat)
    requires Shaped(c, b) && At(c, b, i, cur) && (forall j :: 0 <= j < i ==> b[j].used)
    requires i < |b| && cur < c.size ==> !b[i].used
    ensures LowestFree(c, b, cur) && (i < |b| ==> !b[i].used)
  {
    Ordered(c, b);
    if i < |b| { assert LowAt(b, cur, -1, i); }
  }

  lemma PendingNotFree(c: Config, b: seq<Block>, mem: nat, i: nat, cur: nat)
    requires Shaped(c, b) && IsLive(b, mem) && At(c, b, i, cur) && (i < |b| ==> !b[i].used)
    ensures cur != mem
  {
    var k := Find(b, mem);
    InOrderLast(c, b, k);
    if cur == mem { UniqueAddr(c, b, k, i); }
  }

  /** The scan stands on block i, or at the end of the heap. */
  ghost predicate At(c: Config, b: seq<Block>, i: nat, ptr: nat) {
    if i < |b| then b[i].addr == ptr else i == |b| && ptr == c.size
  }

  lemma RunNothing(c: Config, b: seq<Block>, pending: int)
    requires c.Valid()
    ensures Run(c, b, [], pending) == b
  {
  }

  lemma FlatStep(done: seq<Op>, d: seq<Op>, rest: seq<seq<Op>>, all: seq<Op>)
    requires done + (d + Flat(rest)) == all
    ensures done + d + Flat(rest) == all
  {
    assert done + d + Flat(rest) == done + (d + Flat(rest));
  }

  /** The scan may start at lfree: no block below it is free. */
  ghost function LowIndex(c: Config, b: seq<Block>, l: nat, size: nat): (i: nat)
    requires Shaped(c, b) && LowestFree(c, b, l)
    ensures At(c, b, i, l) && forall j :: 0 <= j < i ==> b[j].used && !Fits(c, b, j, size)
  {
    if l == c.size then
      AboveAll(c, b);
      |b|
    else
      var k: nat :| LowAt(b, l, -1, k);
      BelowUsed(c, b, k);
      k
  }

  lemma AboveAll(c: Config, b: seq<Block>)
    requires Shaped(c, b) && LowestFree(c, b, c.size)
    ensures forall j :: 0 <= j < |b| ==> b[j].used
  {
    Ordered(c, b);
  }

  lemma BelowUsed(c: Config, b: seq<Block>, k: nat)
    requires Shaped(c, b) && k < |b| && LowestFree(c, b, b[k].addr)
    ensures forall j :: 0 <= j < k ==> b[j].used
  {
    Ordered(c, b);
  }

  /** The header under the scan, and where its next link leads. */
  lemma Step(c: Config, b: seq<Block>, h: seq<Header>, i: nat, ptr: nat)
    requires Shaped(c, b) && Mirrors(c, b, h) && At(c, b, i, ptr) && ptr < c.size
    ensures i < |b| && ptr < |h| && h[ptr].used == b[i].used
    ensures h[ptr].next - (ptr + c.hdr) == Room(c, b, i)
    ensures At(c, b, i + 1, h[ptr].next) && ptr < h[ptr].next <= c.size
  {
    assert MirrorsAt(c, b, h, i);
    assert Spaced(c, b, i);
    InOrderLast(c, b, i);
    if i + 1 < |b| { InOrderLast(c, b, i + 1); }
  }

  /** The scan may stop at MEM_SIZE_ALIGNED - size: no block above holds the request. */
  lemma TooHigh(c: Config, b: seq<Block>, i: nat, ptr: nat, size: nat)
    requires Shaped(c, b) && At(c, b, i, ptr) && c.size <= ptr + size
    requires forall j :: 0 <= j < i ==> !Fits(c, b, j, size)
    ensures NoFit(c, b, size)
  {
    forall j | 0 <= j < |b| ensures !Fits(c, b, j, size) {
      if j >= i {
        if i < j { InOrder(c, b, i, j); }
        if j + 1 < |b| { InOrderLast(c, b, j + 1); }
      }
    }
  }

  /** All operations of a script, in order. */
  ghost function Flat(env: seq<seq<Op>>): seq<Op>
    decreases |env|
  {
    if env == [] then [] else env[0] + Flat(env[1..])
  }

  lemma LiveBounds(c: Config, b: seq<Block>, a: nat)
    requires WellFormed(c, b) && IsLive(b, a)
    ensures c.Aligned(a + c.hdr) && a + c.hdr + c.min <= c.size && IsStart(b, a)
  {
    var i := Find(b, a);
    InOrderLast(c, b, i);
    AlignedSum(c, a, c.hdr);
  }

  /** The headers next to block i. */
  lemma Neighbours(c: Config, b: seq<Block>, h: seq<Header>, i: nat)
    requires Shaped(c, b) && Mirrors(c, b, h) && i < |b|
    ensures MirrorsAt(c, b, h, i) && b[i].addr < c.size
    ensures i + 1 < |b| ==> MirrorsAt(c, b, h, i + 1) && b[i].addr < b[i + 1].addr < c.size
    ensures i + 2 < |b| ==> MirrorsAt(c, b, h, i + 2) && b[i + 1].addr < b[i + 2].addr < c.size
    ensures 0 < i ==> MirrorsAt(c, b, h, i - 1) && b[i - 1].addr < b[i].addr
  {
    InOrderLast(c, b, i);
    assert MirrorsAt(c, b, h, i);
    if i + 1 < |b| { assert MirrorsAt(c, b, h, i + 1); InOrder(c, b, i, i + 1); InOrderLast(c, b, i + 1); }
    if i + 2 < |b| { assert MirrorsAt(c, b, h, i + 2); InOrder(c, b, i + 1, i + 2); InOrderLast(c, b, i + 2); }
    if 0 < i { assert MirrorsAt(c, b, h, i - 1); InOrder(c, b, i - 1, i); }
  }

  lemma TrimLive(c: Config, b: seq<Block>, i: nat, size: nat)
    requires Shaped(c, b) && i < |b| && b[i].used && c.min <= size < Room(c, b, i)
    ensures forall a: nat :: IsLive(TrimAt(c, b, i, size), a) <==> IsLive(b, a)
  {
    var r := TrimAt(c, b, i, size);
    forall a: nat ensures IsLive(r, a) <==> IsLive(b, a) {
      LiveIsRegion(c, b, a);
      LiveIsRegion(c, r, a);
      forall e: nat ensures Region(c, r, a, e) <==> if a == b[i].addr then e == End(c, r, i) else Region(c, b, a, e) {
        TrimRegions(c, b, i, size, a, e);
      }
      assert a == b[i].addr ==> Region(c, r, a, End(c, r, i)) && b[i].used;
    }
  }

  lemma LiveInHeap(c: Config, b: seq<Block>, rmem: int)
    requires WellFormed(c, b) && !(c.Aligned(rmem) && c.hdr <= rmem && rmem + c.min <= c.size)
    ensures forall a: nat :: IsLive(b, a) ==> a + c.hdr != rmem
  {
    forall a: nat | IsLive(b, a) ensures a + c.hdr != rmem {
      var i := Find(b, a);
      InOrderLast(c, b, i);
      AlignedSum(c, b[i].addr, c.hdr);
    }
  }

  /** Flipping the used flag of one header. */
  lemma MarkedMirrors(c: Config, b: seq<Block>, i: nat, u: bool, h: seq<Header>)
    requires Shaped(c, b) && Mirrors(c, b, h) && i < |b|
    ensures MirrorsAt(c, b, h, i)
    ensures Mirrors(c, b[i := Block(b[i].addr, u)], h[b[i].addr := h[b[i].addr].(used := u)])
  {
    assert MirrorsAt(c, b, h, i);
    var b', h' := b[i := Block(b[i].addr, u)], h[b[i].addr := h[b[i].addr].(used := u)];
    forall k | 0 <= k < |b'| ensures MirrorsAt(c, b', h', k) {
      assert MirrorsAt(c, b, h, k);
      if k != i && b[k].addr == b[i].addr { UniqueAddr(c, b, i, k); }
    }
  }

  lemma LiveIsRegion(c: Config, b: seq<Block>, a: nat)
    ensures IsLive(b, a) <==> exists e :: Region(c, b, a, e)
  {
    if IsLive(b, a) {
      var i := Find(b, a);
      assert RegionAt(c, b, a, End(c, b, i), i);
      assert Region(c, b, a, End(c, b, i));
    }
  }

  lemma FreeLive(c: Config, b: seq<Block>, i: nat)
    requires Shaped(c, b) && i < |b| && b[i].used
    ensures forall a: nat :: IsLive(FreeAt(b, i), a) <==> IsLive(b, a) && a != b[i].addr
  {
    forall a: nat ensures IsLive(FreeAt(b, i), a) <==> IsLive(b, a) && a != b[i].addr {
      LiveIsRegion(c, b, a);
      LiveIsRegion(c, FreeAt(b, i), a);
      forall e: nat ensures Region(c, FreeAt(b, i), a, e) <==> Region(c, b, a, e) && a != b[i].addr { FreeRegions(c, b, i, a, e); }
    }
  }

  lemma PlugStarts(b: seq<Block>, i: nat)
    requires i < |b|
    ensures var b1 := b[i := Block(b[i].addr, false)];
            forall p: nat :: IsStart(b1, p) || IsStart(Splice(b1, i, RunEnd(b, i), [b1[i]]), p) ==> IsStart(b, p)
  {
    var b1, hi := b[i := Block(b[i].addr, false)], RunEnd(b, i);
    var b2 := Splice(b1, i, hi, [b1[i]]);
    assert forall k :: 0 <= k < |b1| ==> b1[k].addr == b[k].addr;
    assert forall k :: 0 <= k < |b2| ==> b2[k].addr == b[if k <= i then k else k + hi - i - 1].addr;
  }

  lemma PlugShapes(c: Config, b: seq<Block>, i: nat)
    requires Shaped(c, b) && i < |b| && b[i].used
    ensures var b1 := b[i := Block(b[i].addr, false)];
            Partition(c, b1) && Partition(c, Splice(b1, i, RunEnd(b, i), [b1[i]]))
    ensures i + 1 < |b| ==> b[i].addr < b[i + 1].addr
    ensures var b2 := Splice(b[i := Block(b[i].addr, false)], i, RunEnd(b, i), [Block(b[i].addr, false)]);
            Splice(b2, RunStart(b, i), i + 1, [b2[RunStart(b, i)]]) == FreeAt(b, i)
  {
    if i + 1 < |b| { InOrder(c, b, i, i + 1); }
    var b1, hi := b[i := Block(b[i].addr, false)], RunEnd(b, i);
    forall k | 0 <= k < |b1| ensures Spaced(c, b1, k) { assert Spaced(c, b, k); }
    var b2 := Splice(b1, i, hi, [b1[i]]);
    forall k | 0 <= k < |b2| ensures Spaced(c, b2, k) {
      if k != i {
        var k' := if k < i then k else k + hi - i - 1;
        SpliceOutside(c, b1, i, hi, [b1[i]], k');
        assert Spaced(c, b1, k');
      } else {
        assert Spaced(c, b1, i) && Spaced(c, b1, hi - 1);
      }
    }
  }
}
