/**
The abstract state of the lwIP heap: the sequence of blocks that partitions
[0, MEM_SIZE_ALIGNED), and the effect of mem_malloc, mem_free and mem_trim on it.
*/
module BlockList {
  import opened Prelude

  /** The build-time constants of the heap. `modulus` is the range of mem_size_t. */
  datatype Config = Config(size: nat, hdr: nat, min: nat, align: nat, modulus: nat) {
    ghost predicate Valid() {
      && Sized() && 0 < align
      && Aligned(size) && Aligned(hdr) && Aligned(min) && Aligned(modulus)
    }

    ghost predicate Sized() {
      0 < hdr && 0 < min && hdr + min <= size < modulus
    }

    predicate Aligned(x: int)
      requires 0 < align
    {
      IsMultiple(align, if x < 0 then -x else x)
    }

    /** LWIP_MEM_ALIGN_SIZE of a mem_size_t, cut to the width of mem_size_t. */
    function AlignSize(n: nat): (r: nat)
      requires 0 < align
    {
      var r := RoundUp(align, n);
      if modulus <= r then r - modulus else r
    }

    /** The data size that a request is rounded to, before its range is checked. */
    function Rounded(n: nat): nat
      requires 0 < align
    {
      if AlignSize(n) < min then min else AlignSize(n)
    }
  }

  /** x % a == 0, by repeated subtraction. */
  predicate IsMultiple(a: nat, x: nat)
    requires 0 < a
    decreases x
  {
    x == 0 || (a <= x && IsMultiple(a, x - a))
  }

  /** The least multiple of a that is not below n. */
  function RoundUp(a: nat, n: nat): nat
    requires 0 < a
    decreases n
  {
    if n == 0 then 0 else if n <= a then a else a + RoundUp(a, n - a)
  }

  datatype Block = Block(addr: nat, used: bool)

  function End(c: Config, b: seq<Block>, i: nat): nat
    requires i < |b|
  {
    if i + 1 < |b| then b[i + 1].addr else c.size
  }

  /** The number of data bytes of block i. */
  function Room(c: Config, b: seq<Block>, i: nat): int
    requires i < |b|
  {
    End(c, b, i) - b[i].addr - c.hdr
  }

  /** The blocks start at 0, are in order, and hold a header and MIN_SIZE bytes each. */
  ghost predicate Partition(c: Config, b: seq<Block>) {
    && |b| > 0 && b[0].addr == 0
    && forall i :: 0 <= i < |b| ==> Spaced(c, b, i)
  }

  ghost predicate Spaced(c: Config, b: seq<Block>, i: nat)
    requires i < |b|
  {
    b[i].addr + c.hdr + c.min <= End(c, b, i)
  }

  ghost predicate AllAligned(c: Config, b: seq<Block>)
    requires 0 < c.align
  {
    forall i :: 0 <= i < |b| ==> c.Aligned(b[i].addr)
  }

  ghost predicate Coalesced(b: seq<Block>) {
    forall i :: 0 <= i < |b| - 1 ==> !TwoFree(b, i)
  }

  ghost predicate TwoFree(b: seq<Block>, i: nat)
    requires i + 1 < |b|
  {
    !b[i].used && !b[i + 1].used
  }

  ghost predicate Shaped(c: Config, b: seq<Block>) {
    c.Sized() && Partition(c, b) && Coalesced(b)
  }

  ghost predicate WellFormed(c: Config, b: seq<Block>) {
    c.Valid() && Shaped(c, b) && AllAligned(c, b)
  }

  const INIT := [Block(0, false)]

  /** b with its blocks lo..hi replaced by x. */
  function Splice(b: seq<Block>, lo: nat, hi: nat, x: seq<Block>): (r: seq<Block>)
    requires lo <= hi <= |b|
  {
    b[..lo] + x + b[hi..]
  }

  /** The first block, and one past the last block, of the free run that contains freed block i. */
  function RunStart(b: seq<Block>, i: nat): nat
    requires i < |b|
  {
    if i > 0 && !b[i - 1].used then i - 1 else i
  }

  function RunEnd(b: seq<Block>, i: nat): nat
    requires i < |b|
  {
    if i + 1 < |b| && !b[i + 1].used then i + 2 else i + 1
  }

  /** mem_free of block i: its run of free neighbours becomes one free block. */
  function FreeAt(b: seq<Block>, i: nat): (r: seq<Block>)
    requires i < |b|
  {
    var lo := RunStart(b, i);
    Splice(b, lo, RunEnd(b, i), [Block(b[lo].addr, false)])
  }

  function AllocBlocks(c: Config, b: seq<Block>, i: nat, size: nat): (r: seq<Block>)
    requires i < |b|
  {
    var taken := Block(b[i].addr, true);
    if Room(c, b, i) >= size + c.hdr + c.min then [taken, Block(b[i].addr + c.hdr + size, false)] else [taken]
  }

  /** mem_malloc of `size` bytes in free block i: split when a further block fits behind it. */
  function AllocAt(c: Config, b: seq<Block>, i: nat, size: nat): (r: seq<Block>)
    requires i < |b|
  {
    Splice(b, i, i + 1, AllocBlocks(c, b, i, size))
  }

  /** mem_trim of block i to `size` data bytes, when that is smaller than its room. */
  function TrimAt(c: Config, b: seq<Block>, i: nat, size: nat): (r: seq<Block>)
    requires i < |b|
  {
    var rest := Block(b[i].addr + c.hdr + size, false);
    if i + 1 < |b| && !b[i + 1].used then Splice(b, i, i + 2, [b[i], rest])
    else if size + c.hdr + c.min <= Room(c, b, i) then Splice(b, i, i + 1, [b[i], rest])
    else b
  }

  ghost predicate Fits(c: Config, b: seq<Block>, i: nat, size: nat)
    requires i < |b|
  {
    !b[i].used && Room(c, b, i) >= size
  }

  /** i is the lowest free block that holds `size` bytes. */
  ghost predicate FirstFit(c: Config, b: seq<Block>, i: nat, size: nat) {
    && i < |b| && Fits(c, b, i, size)
    && forall j :: 0 <= j < i ==> !Fits(c, b, j, size)
  }

  ghost predicate NoFit(c: Config, b: seq<Block>, size: nat) {
    forall j :: 0 <= j < |b| ==> !Fits(c, b, j, size)
  }

  /** No free block lies below l, and l is the end, a free block, or the block being allocated. */
  ghost predicate LowBound(c: Config, b: seq<Block>, l: nat, pending: int) {
    && (forall i :: 0 <= i < |b| && !b[i].used ==> l <= b[i].addr)
    && (l == c.size || exists k :: LowAt(b, l, pending, k))
  }

  /** l is the lowest free block, or the end of the heap when every block is used. */
  ghost predicate LowestFree(c: Config, b: seq<Block>, l: nat) {
    LowBound(c, b, l, -1)
  }

  ghost predicate IsLive(b: seq<Block>, a: int) {
    exists i :: 0 <= i < |b| && b[i].addr == a && b[i].used
  }

  // ---------------------------------------------------------------- each step keeps the form

  lemma {:induction false} MultipleSum(a: nat, x: nat, y: nat)
    requires 0 < a && IsMultiple(a, x) && IsMultiple(a, y)
    ensures IsMultiple(a, x + y)
    decreases x
  {
    if x != 0 { MultipleSum(a, x - a, y); }
  }

  lemma {:induction false} MultipleDiff(a: nat, x: nat, y: nat)
    requires 0 < a && IsMultiple(a, x) && IsMultiple(a, y) && y <= x
    ensures IsMultiple(a, x - y)
    decreases y
  {
    if y != 0 { MultipleDiff(a, x - a, y - a); }
  }

  lemma AlignedSum(c: Config, x: nat, y: nat)
    requires 0 < c.align && c.Aligned(x) && c.Aligned(y)
    ensures c.Aligned(x + y)
  {
    MultipleSum(c.align, x, y);
  }

  /** RoundUp is the rounding that LWIP_MEM_ALIGN_SIZE does with bit masks. */
  lemma {:induction false} RoundUpIs(a: nat, n: nat)
    requires 0 < a
    ensures IsMultiple(a, RoundUp(a, n)) && n <= RoundUp(a, n) < n + a
    decreases n
  {
    if n > a { RoundUpIs(a, n - a); } else { assert IsMultiple(a, 0); }
  }

  lemma {:induction false} MultipleGap(a: nat, x: nat, y: nat)
    requires 0 < a && IsMultiple(a, x) && IsMultiple(a, y) && x < y
    ensures x + a <= y
    decreases x
  {
    if x != 0 { MultipleGap(a, x - a, y - a); }
  }

  lemma RoundedIsAligned(c: Config, n: nat)
    requires c.Valid() && n < c.modulus
    ensures c.Aligned(c.Rounded(n)) && c.min <= c.Rounded(n)
  {
    RoundUpIs(c.align, n);
    if c.modulus <= RoundUp(c.align, n) { MultipleDiff(c.align, RoundUp(c.align, n), c.modulus); }
  }

  /** x can stand in for the blocks lo..hi of b. */
  ghost predicate Replaces(c: Config, b: seq<Block>, lo: nat, hi: nat, x: seq<Block>) {
    && lo < hi <= |b|
    && 0 < |x| && x[0].addr == b[lo].addr
    && (forall p, q :: 0 <= p < q < |x| ==> x[p].addr + c.hdr + c.min <= x[q].addr)
    && x[|x| - 1].addr + c.hdr + c.min <= End(c, b, hi - 1)
    && Coalesced(x)
    && (lo > 0 ==> b[lo - 1].used || x[0].used)
    && (hi < |b| ==> x[|x| - 1].used || b[hi].used)
  }

  /** Replacing a stretch of blocks by blocks that fit in the same space keeps the shape. */
  lemma SpliceKeepsShape(c: Config, b: seq<Block>, lo: nat, hi: nat, x: seq<Block>)
    requires Shaped(c, b) && Replaces(c, b, lo, hi, x)
    ensures Shaped(c, Splice(b, lo, hi, x))
  {
    SpliceKeepsPartition(c, b, lo, hi, x);
    var r, d := Splice(b, lo, hi, x), hi - lo - |x|;
    forall k | 0 <= k < |r| - 1
      ensures !TwoFree(r, k)
    {
      if k < lo - 1 {
        assert !TwoFree(b, k);
      } else if lo <= k < lo + |x| - 1 {
        assert !TwoFree(x, k - lo);
      } else if k >= lo + |x| {
        assert !TwoFree(b, k + d);
      }
    }
  }

  lemma SpliceKeepsPartition(c: Config, b: seq<Block>, lo: nat, hi: nat, x: seq<Block>)
    requires c.Sized() && Partition(c, b) && Replaces(c, b, lo, hi, x)
    ensures Partition(c, Splice(b, lo, hi, x))
  {
    var r, n, d := Splice(b, lo, hi, x), lo + |x|, hi - lo - |x|;
    forall k | 0 <= k < |r|
      ensures Spaced(c, r, k)
    {
      if k < lo {
        assert Spaced(c, b, k);
      } else if k >= n {
        assert Spaced(c, b, k + d);
      }
    }
  }

  /** Block addresses increase. */
  lemma {:induction false} InOrder(c: Config, b: seq<Block>, i: nat, j: nat)
    requires c.Sized() && Partition(c, b) && i < j < |b|
    ensures b[i].addr < b[j].addr && End(c, b, i) <= b[j].addr
    decreases j
  {
    assert Spaced(c, b, j - 1);
    if i < j - 1 {
      InOrder(c, b, i, j - 1);
      assert Spaced(c, b, i);
    }
  }

  lemma FreeKeepsForm(c: Config, b: seq<Block>, i: nat)
    requires WellFormed(c, b) && i < |b| && b[i].used
    ensures WellFormed(c, FreeAt(b, i))
  {
    FreeKeepsShape(c, b, i);
  }

  lemma FreeKeepsShape(c: Config, b: seq<Block>, i: nat)
    requires Shaped(c, b) && i < |b| && b[i].used
    ensures Shaped(c, FreeAt(b, i))
  {
    FreeReplaces(c, b, i);
    var lo := RunStart(b, i);
    SpliceKeepsShape(c, b, lo, RunEnd(b, i), [Block(b[lo].addr, false)]);
  }

  lemma FreeReplaces(c: Config, b: seq<Block>, i: nat)
    requires Shaped(c, b) && i < |b| && b[i].used
    ensures var lo := RunStart(b, i); Replaces(c, b, lo, RunEnd(b, i), [Block(b[lo].addr, false)])
  {
    var lo, hi := RunStart(b, i), RunEnd(b, i);
    assert lo > 0 && lo < i ==> !TwoFree(b, lo - 1);
    assert hi < |b| && hi == i + 2 ==> !TwoFree(b, i + 1);
    assert Spaced(c, b, lo) && Spaced(c, b, i) && Spaced(c, b, hi - 1);
  }

  lemma AllocKeepsForm(c: Config, b: seq<Block>, i: nat, size: nat)
    requires WellFormed(c, b) && i < |b| && Fits(c, b, i, size)
    requires c.min <= size && c.Aligned(size)
    ensures WellFormed(c, AllocAt(c, b, i, size))
  {
    AllocKeepsShape(c, b, i, size);
    AlignedSum(c, b[i].addr, c.hdr);
    AlignedSum(c, b[i].addr + c.hdr, size);
  }

  lemma AllocKeepsShape(c: Config, b: seq<Block>, i: nat, size: nat)
    requires Shaped(c, b) && i < |b| && Fits(c, b, i, size) && c.min <= size
    ensures Shaped(c, AllocAt(c, b, i, size))
  {
    AllocReplaces(c, b, i, size);
    SpliceKeepsShape(c, b, i, i + 1, AllocBlocks(c, b, i, size));
  }

  lemma AllocReplaces(c: Config, b: seq<Block>, i: nat, size: nat)
    requires Shaped(c, b) && i < |b| && Fits(c, b, i, size) && c.min <= size
    ensures Replaces(c, b, i, i + 1, AllocBlocks(c, b, i, size))
  {
    assert i + 1 < |b| ==> !TwoFree(b, i);
  }

  lemma TrimKeepsForm(c: Config, b: seq<Block>, i: nat, size: nat)
    requires WellFormed(c, b) && i < |b| && b[i].used
    requires c.min <= size < Room(c, b, i) && c.Aligned(size)
    ensures WellFormed(c, TrimAt(c, b, i, size))
  {
    TrimKeepsShape(c, b, i, size);
    AlignedSum(c, b[i].addr, c.hdr);
    AlignedSum(c, b[i].addr + c.hdr, size);
  }

  lemma TrimKeepsShape(c: Config, b: seq<Block>, i: nat, size: nat)
    requires Shaped(c, b) && i < |b| && b[i].used && c.min <= size < Room(c, b, i)
    ensures Shaped(c, TrimAt(c, b, i, size))
  {
    if RunEnd(b, i) == i + 2 || size + c.hdr + c.min <= Room(c, b, i) {
      TrimReplaces(c, b, i, size);
      SpliceKeepsShape(c, b, i, RunEnd(b, i), [b[i], Block(b[i].addr + c.hdr + size, false)]);
    }
  }

  lemma TrimReplaces(c: Config, b: seq<Block>, i: nat, size: nat)
    requires Shaped(c, b) && i < |b| && b[i].used && c.min <= size < Room(c, b, i)
    requires RunEnd(b, i) == i + 2 || size + c.hdr + c.min <= Room(c, b, i)
    ensures Replaces(c, b, i, RunEnd(b, i), [b[i], Block(b[i].addr + c.hdr + size, false)])
  {
    if RunEnd(b, i) == i + 2 {
      assert i + 2 < |b| ==> !TwoFree(b, i + 1);
      assert Spaced(c, b, i + 1);
    }
  }

  lemma UniqueAddr(c: Config, b: seq<Block>, i: nat, j: nat)
    requires c.Sized() && Partition(c, b) && i < |b| && j < |b| && b[i].addr == b[j].addr
    ensures i == j
  {
    if i < j { InOrder(c, b, i, j); } else if j < i { InOrder(c, b, j, i); }
  }

  // ---------------------------------------------------------------- lfree

  /** lfree after mem_trim of block i. */
  function TrimLow(c: Config, b: seq<Block>, i: nat, size: nat, l: nat): nat
    requires i < |b|
  {
    var p2 := b[i].addr + c.hdr + size;
    if i + 1 < |b| && !b[i + 1].used then (if l == b[i + 1].addr then p2 else l)
    else if size + c.hdr + c.min <= Room(c, b, i) then Min(l, p2)
    else l
  }

  /** Block k is where lfree may point. */
  ghost predicate LowAt(b: seq<Block>, l: nat, pending: int, k: nat) {
    k < |b| && b[k].addr == l && (!b[k].used || l == pending)
  }

  lemma FreeKeepsLow(c: Config, b: seq<Block>, i: nat, l: nat, pending: int)
    requires Shaped(c, b) && i < |b| && b[i].used && b[i].addr != pending
    requires LowBound(c, b, l, pending)
    ensures LowBound(c, FreeAt(b, i), Min(l, b[i].addr), pending)
    ensures RunStart(b, i) < i ==> l < b[i].addr
  {
    var r, lo, l' := FreeAt(b, i), RunStart(b, i), Min(l, b[i].addr);
    if lo < i { InOrder(c, b, lo, i); }
    if b[i].addr < l {
      assert LowAt(r, l', pending, lo);
    } else {
      InOrderLast(c, b, i);
      var k: nat :| LowAt(b, l, pending, k);
      if i < k { InOrder(c, b, i, k); }
      assert k <= lo && LowAt(r, l', pending, k);
    }
    assert forall k :: 0 <= k < |r| ==> r[k] == if k < lo then b[k] else if k == lo then Block(b[lo].addr, false) else b[k + RunEnd(b, i) - lo - 1];
  }

  lemma TrimKeepsLow(c: Config, b: seq<Block>, i: nat, size: nat, l: nat, pending: int)
    requires Shaped(c, b) && i < |b| && b[i].used && c.min <= size < Room(c, b, i)
    requires LowBound(c, b, l, pending)
    ensures LowBound(c, TrimAt(c, b, i, size), TrimLow(c, b, i, size, l), pending)
  {
    var r, l' := TrimAt(c, b, i, size), TrimLow(c, b, i, size, l);
    assert forall k :: 0 <= k <= i ==> r[k] == b[k];
    if i + 1 < |b| && !b[i + 1].used {
      assert forall k :: i + 1 < k < |r| ==> r[k] == b[k];
      InOrderLast(c, b, i + 1);
      var k: nat :| LowAt(b, l, pending, k);
      if k != i + 1 && l == b[i + 1].addr { UniqueAddr(c, b, k, i + 1); }
      assert LowAt(r, l', pending, k);
      if k < i { InOrder(c, b, k, i); } else if k > i + 1 { InOrder(c, b, i + 1, k); }
      forall j | 0 <= j < |r| && !r[j].used ensures l' <= r[j].addr {
        if k == i + 1 < j { InOrder(c, b, i + 1, j); assert Spaced(c, b, i + 1); }
      }
    } else if size + c.hdr + c.min <= Room(c, b, i) {
      assert forall k :: i + 1 < k < |r| ==> r[k] == b[k - 1];
      if l' == l && l != c.size {
        var k: nat :| LowAt(b, l, pending, k);
        assert LowAt(r, l', pending, if k <= i then k else k + 1);
      } else if l' != l {
        assert LowAt(r, l', pending, i + 1);
      }
    }
  }

  lemma AllocKeepsLow(c: Config, b: seq<Block>, i: nat, size: nat, l: nat)
    requires Shaped(c, b) && i < |b| && Fits(c, b, i, size) && LowestFree(c, b, l)
    ensures LowBound(c, AllocAt(c, b, i, size), l, b[i].addr)
  {
    var r := AllocAt(c, b, i, size);
    var d := |r| - |b|;
    assert forall k :: 0 <= k < |r| && k != i && !(d == 1 && k == i + 1) ==> r[k] == b[if k < i then k else k - d];
    InOrderLast(c, b, i);
    var k: nat :| LowAt(b, l, -1, k);
    assert LowAt(r, l, b[i].addr, if k <= i then k else k + d);
  }

  // ---------------------------------------------------------------- live regions

  /** A live allocation whose header is at a and whose data ends at e. */
  ghost predicate Region(c: Config, b: seq<Block>, a: nat, e: nat) {
    exists k :: RegionAt(c, b, a, e, k)
  }

  ghost predicate RegionAt(c: Config, b: seq<Block>, a: nat, e: nat, k: nat) {
    k < |b| && b[k] == Block(a, true) && End(c, b, k) == e
  }

  /** A block outside the replaced stretch keeps its address, state and end. */
  lemma SpliceOutside(c: Config, b: seq<Block>, lo: nat, hi: nat, x: seq<Block>, k: nat)
    requires lo < hi <= |b| && 0 < |x| && x[0].addr == b[lo].addr && (k < lo || hi <= k < |b|)
    ensures var r, k' := Splice(b, lo, hi, x), if k < lo then k else k - (hi - lo) + |x|;
            k' < |r| && r[k'] == b[k] && End(c, r, k') == End(c, b, k)
  {
  }

  /** The regions after a splice: those of the untouched blocks, and those of x. */
  lemma SpliceRegions(c: Config, b: seq<Block>, lo: nat, hi: nat, x: seq<Block>, a: nat, e: nat)
    requires Shaped(c, b) && Replaces(c, b, lo, hi, x)
    ensures var r := Splice(b, lo, hi, x);
            Region(c, r, a, e) <==>
            || (Region(c, b, a, e) && forall k :: lo <= k < hi ==> b[k].addr != a)
            || exists k :: lo <= k < lo + |x| && RegionAt(c, r, a, e, k)
  {
    var r := Splice(b, lo, hi, x);
    if Region(c, r, a, e) {
      var k: nat :| RegionAt(c, r, a, e, k);
      if k < lo || lo + |x| <= k {
        var k' := if k < lo then k else k + (hi - lo) - |x|;
        SpliceOutside(c, b, lo, hi, x, k');
        assert RegionAt(c, b, a, e, k');
        forall m | lo <= m < hi ensures b[m].addr != a {
          if b[m].addr == a { UniqueAddr(c, b, m, k'); }
        }
      }
    }
    if Region(c, b, a, e) && forall k :: lo <= k < hi ==> b[k].addr != a {
      var k: nat :| RegionAt(c, b, a, e, k);
      SpliceOutside(c, b, lo, hi, x, k);
      assert RegionAt(c, r, a, e, if k < lo then k else k - (hi - lo) + |x|);
    }
  }

  lemma OneRegion(c: Config, b: seq<Block>, i: nat, a: nat, e: nat)
    requires Shaped(c, b) && i < |b| && b[i].addr == a
    ensures Region(c, b, a, e) <==> b[i].used && End(c, b, i) == e
  {
    assert b[i].used && End(c, b, i) == e ==> RegionAt(c, b, a, e, i);
    if Region(c, b, a, e) {
      var k: nat :| RegionAt(c, b, a, e, k);
      UniqueAddr(c, b, i, k);
    }
  }

  /** Freeing a block removes its region and no other, and adds none. */
  lemma FreeRegions(c: Config, b: seq<Block>, i: nat, a: nat, e: nat)
    requires Shaped(c, b) && i < |b| && b[i].used
    ensures Region(c, FreeAt(b, i), a, e) <==> Region(c, b, a, e) && a != b[i].addr
  {
    var lo, hi := RunStart(b, i), RunEnd(b, i);
    FreeReplaces(c, b, i);
    SpliceRegions(c, b, lo, hi, [Block(b[lo].addr, false)], a, e);
    forall k | lo <= k < hi && k != i && b[k].addr == a ensures !Region(c, b, a, e) {
      OneRegion(c, b, k, a, e);
    }
  }

  /** Where the data of the block allocated in block i ends. */
  function AllocEnd(c: Config, b: seq<Block>, i: nat, size: nat): nat
    requires i < |b|
  {
    if Room(c, b, i) >= size + c.hdr + c.min then b[i].addr + c.hdr + size else End(c, b, i)
  }

  /** Allocation adds one region, with room for the request, and keeps every other one. */
  lemma AllocRegions(c: Config, b: seq<Block>, i: nat, size: nat, a: nat, e: nat)
    requires Shaped(c, b) && i < |b| && Fits(c, b, i, size) && c.min <= size
    ensures b[i].addr + c.hdr + size <= AllocEnd(c, b, i, size) <= End(c, b, i)
    ensures Region(c, AllocAt(c, b, i, size), a, e) <==>
            Region(c, b, a, e) || (a == b[i].addr && e == AllocEnd(c, b, i, size))
  {
    var r := AllocAt(c, b, i, size);
    AllocReplaces(c, b, i, size);
    SpliceRegions(c, b, i, i + 1, AllocBlocks(c, b, i, size), a, e);
    if a == b[i].addr { OneRegion(c, b, i, a, e); }
    assert RegionAt(c, r, b[i].addr, AllocEnd(c, b, i, size), i);
  }

  /** Trimming a block shortens its own region, to no less than the request, and keeps every other one. */
  lemma TrimRegions(c: Config, b: seq<Block>, i: nat, size: nat, a: nat, e: nat)
    requires Shaped(c, b) && i < |b| && b[i].used && c.min <= size < Room(c, b, i)
    ensures TrimAt(c, b, i, size)[i] == b[i]
    ensures b[i].addr + c.hdr + size <= End(c, TrimAt(c, b, i, size), i) <= End(c, b, i)
    ensures Region(c, TrimAt(c, b, i, size), a, e) <==>
            if a == b[i].addr then e == End(c, TrimAt(c, b, i, size), i) else Region(c, b, a, e)
  {
    var r := TrimAt(c, b, i, size);
    TrimKeepsShape(c, b, i, size);
    assert r[i] == b[i];
    if a == b[i].addr {
      OneRegion(c, r, i, a, e);
    } else if RunEnd(b, i) == i + 2 || size + c.hdr + c.min <= Room(c, b, i) {
      var hi := RunEnd(b, i);
      TrimReplaces(c, b, i, size);
      SpliceRegions(c, b, i, hi, [b[i], Block(b[i].addr + c.hdr + size, false)], a, e);
      if hi == i + 2 && a == b[i + 1].addr { OneRegion(c, b, i + 1, a, e); }
    }
  }

  /** What first fit means in addresses. */
  lemma FitsAre(c: Config, b: seq<Block>, i: nat, size: nat)
    ensures FirstFit(c, b, i, size) <==>
            && i < |b| && !b[i].used && b[i].addr + c.hdr + size <= End(c, b, i)
            && forall j :: 0 <= j < i ==> b[j].used || End(c, b, j) < b[j].addr + c.hdr + size
    ensures NoFit(c, b, size) <==> forall j :: 0 <= j < |b| ==> b[j].used || End(c, b, j) < b[j].addr + c.hdr + size
  {
    assert forall j :: 0 <= j < |b| ==> (Fits(c, b, j, size) <==> !b[j].used && b[j].addr + c.hdr + size <= End(c, b, j));
  }

  /** Where an allocated block ends: right behind the request if a block fits behind it, which is then free. */
  lemma AllocEnds(c: Config, b: seq<Block>, i: nat, size: nat)
    requires Shaped(c, b) && i < |b| && !b[i].used && c.min <= size && b[i].addr + c.hdr + size <= End(c, b, i)
    ensures var r, at := AllocAt(c, b, i, size), b[i].addr + c.hdr + size;
            && i < |r| && r[i] == Block(b[i].addr, true) && r[..i] == b[..i]
            && (if End(c, b, i) >= at + c.hdr + c.min
                then End(c, r, i) == at && i + 1 < |r| && r[i + 1] == Block(at, false) && End(c, r, i + 1) == End(c, b, i) && r[i + 2..] == b[i + 1..]
                else End(c, r, i) == End(c, b, i) && r[i + 1..] == b[i + 1..])
  {
    var r := AllocAt(c, b, i, size);
    assert |r| == |b| + |AllocBlocks(c, b, i, size)| - 1;
  }

  /**
  Where a trimmed block ends: right behind the request if the block behind is free or a further
  one fits, and a free block reaches from there to where the free space ended. Otherwise nothing
  changes.
  */
  lemma TrimEnds(c: Config, b: seq<Block>, i: nat, size: nat)
    requires Shaped(c, b) && i < |b| && b[i].used && c.min <= size && b[i].addr + c.hdr + size < End(c, b, i)
    ensures var r, at := TrimAt(c, b, i, size), b[i].addr + c.hdr + size;
            && i < |r| && r[..i + 1] == b[..i + 1]
            && (if i + 1 < |b| && !b[i + 1].used
                then End(c, r, i) == at && i + 1 < |r| && r[i + 1] == Block(at, false) && End(c, r, i + 1) == End(c, b, i + 1) && r[i + 2..] == b[i + 2..]
                else if End(c, b, i) >= at + c.hdr + c.min
                then End(c, r, i) == at && i + 1 < |r| && r[i + 1] == Block(at, false) && End(c, r, i + 1) == End(c, b, i) && r[i + 2..] == b[i + 1..]
                else r == b)
  {
  }

  /** No header overlaps the data of a live block, and no two live regions overlap. */
  lemma RegionsDisjoint(c: Config, b: seq<Block>, i: nat, a: nat, e: nat)
    requires Shaped(c, b) && i < |b| && Region(c, b, a, e)
    ensures b[i].addr + c.hdr <= a + c.hdr || e <= b[i].addr
    ensures a != b[i].addr ==> End(c, b, i) <= a || e <= b[i].addr
    ensures a + c.hdr + c.min <= e <= c.size
  {
    var k: nat :| RegionAt(c, b, a, e, k);
    assert Spaced(c, b, k);
    if i < k { InOrder(c, b, i, k); } else if k < i { InOrder(c, b, k, i); }
    if k + 1 < |b| { EndBelow(c, b, k + 1); }
  }

  lemma {:induction false} EndBelow(c: Config, b: seq<Block>, i: nat)
    requires c.Sized() && Partition(c, b) && i < |b|
    ensures b[i].addr < c.size
  {
    InOrderLast(c, b, i);
  }

  lemma InOrderLast(c: Config, b: seq<Block>, i: nat)
    requires c.Sized() && Partition(c, b) && i < |b|
    ensures b[i].addr + c.hdr + c.min <= c.size
  {
    assert Spaced(c, b, |b| - 1);
    if i < |b| - 1 { InOrder(c, b, i, |b| - 1); }
  }

  // ---------------------------------------------------------------- undoing allocations

  /** Allocating a block and freeing it again restores the block list. */
  lemma MallocThenFree(c: Config, b: seq<Block>, i: nat, size: nat)
    requires Shaped(c, b) && i < |b| && Fits(c, b, i, size)
    ensures FreeAt(AllocAt(c, b, i, size), i) == b
  {
    assert i > 0 ==> !TwoFree(b, i - 1);
    assert i + 1 < |b| ==> !TwoFree(b, i);
    var r := AllocAt(c, b, i, size);
    var n := RunEnd(r, i) - i;
    assert r[i + n..] == b[i + 1..];
    assert r[..i] == b[..i];
  }

  /** lfree is a function of the block list. */
  lemma LowestFreeUnique(c: Config, b: seq<Block>, l: nat, m: nat)
    requires LowestFree(c, b, l) && LowestFree(c, b, m) && Shaped(c, b)
    ensures l == m
  {
    if l != c.size { var k: nat :| LowAt(b, l, -1, k); InOrderLast(c, b, k); }
    if m != c.size { var k: nat :| LowAt(b, m, -1, k); InOrderLast(c, b, k); }
  }

  ghost function Find(b: seq<Block>, a: nat): (i: nat)
    requires IsLive(b, a)
    ensures i < |b| && b[i] == Block(a, true)
  {
    var i :| 0 <= i < |b| && b[i].addr == a && b[i].used;
    i
  }

  lemma FindIs(c: Config, b: seq<Block>, i: nat)
    requires Shaped(c, b) && i < |b| && b[i].used
    ensures IsLive(b, b[i].addr) && Find(b, b[i].addr) == i
  {
    UniqueAddr(c, b, i, Find(b, b[i].addr));
  }

  ghost function FreeAll(b: seq<Block>, order: seq<nat>): seq<Block>
    decreases |order|
  {
    if order == [] then b
    else if IsLive(b, order[0]) then FreeAll(FreeAt(b, Find(b, order[0])), order[1..])
    else FreeAll(b, order[1..])
  }

  lemma FirstTwo(b: seq<Block>)
    ensures Coalesced(b) && |b| > 1 ==> b[0].used || b[1].used
  {
    assert |b| > 1 ==> (TwoFree(b, 0) <==> !b[0].used && !b[1].used);
  }

  /** Freeing every live block, in any order, gives the state that mem_init sets up. */
  lemma {:induction false} FreeAllGivesInit(c: Config, b: seq<Block>, order: seq<nat>)
    requires Shaped(c, b)
    requires forall a :: IsLive(b, a) ==> a in order
    ensures FreeAll(b, order) == INIT
    decreases |order|
  {
    if order == [] {
      assert forall k :: 0 <= k < |b| && b[k].used ==> IsLive(b, b[k].addr);
      FirstTwo(b);
      assert b[0] == Block(0, false);
    } else if IsLive(b, order[0]) {
      var i := Find(b, order[0]);
      var r := FreeAt(b, i);
      FreeKeepsShape(c, b, i);
      forall a | IsLive(r, a) ensures a in order[1..] {
        var k :| 0 <= k < |r| && r[k].addr == a && r[k].used;
        assert RegionAt(c, r, a, End(c, r, k), k);
        FreeRegions(c, b, i, a, End(c, r, k));
        var k': nat :| RegionAt(c, b, a, End(c, r, k), k');
        assert IsLive(b, a);
      }
      FreeAllGivesInit(c, r, order[1..]);
    } else {
      assert forall a :: IsLive(b, a) ==> a in order[1..];
      FreeAllGivesInit(c, b, order[1..]);
    }
  }
}
