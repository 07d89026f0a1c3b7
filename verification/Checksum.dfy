/**
The Internet checksum of inet_chksum.c (RFC 1071): three ways to sum a byte string, and
the sums over pbuf chains with and without a pseudo header. Bytes are read as 16-bit
little-endian words; u32_t arithmetic wraps explicitly.
*/
module Checksum {
  import opened Prelude

  /** A 16-bit word from its bytes. */
  function Word(lo: byte, hi: byte): u16 {
    lo as nat + 256 * (hi as nat)
  }

  /** The sum of the little-endian words of s; a dangling last byte is a low byte. */
  function WordSum(s: seq<byte>): (n: nat)
    decreases |s|
  {
    if |s| == 0 then 0
    else if |s| == 1 then s[0]
    else Word(s[0], s[1]) + WordSum(s[2..])
  }

  /** The one's-complement value of n: 0 only for 0, else the representative in 1..0xffff. */
  function Canon(n: nat): (r: u16) {
    if n == 0 then 0 else (n - 1) % 0xffff + 1
  }

  /** x stands for n: equal modulo 0xffff, and zero only when n is. */
  ghost predicate Rep(x: int, n: int) {
    (x - n) % 0xffff == 0 && (x == 0 <==> n == 0)
  }

  function Add32(x: nat, y: nat): nat { (x + y) % 0x1_0000_0000 }

  /** FOLD_U32T */
  function Fold(u: nat): nat { u / 0x1_0000 + u % 0x1_0000 }

  /** SWAP_BYTES_IN_WORD and lwip_htons */
  function Swap(w: nat): u16 { w % 256 * 256 + w % 0x1_0000 / 256 }

  // ---------------------------------------------------------------- representatives

  lemma RepCanon(x: u16, n: nat)
    requires Rep(x, n)
    ensures x == Canon(n)
  {
  }

  lemma CanonRep(n: nat)
    ensures Rep(Canon(n), n)
  {
  }

  lemma RepAdd(x: nat, n: nat, y: nat, m: nat)
    requires Rep(x, n) && Rep(y, m)
    ensures Rep(x + y, n + m)
  {
  }

  lemma RepTrans(x: nat, n: nat, m: nat)
    requires Rep(x, n) && Rep(n, m)
    ensures Rep(x, m)
  {
  }

  lemma RepFold(u: nat)
    ensures Rep(Fold(u), u)
  {
    assert u - Fold(u) == 0xffff * (u / 0x1_0000);
  }

  lemma RepSwap(w: u16, n: nat)
    requires Rep(w, n)
    ensures Rep(Swap(w), 256 * n)
  {
    hide Swap, Rep;
    SwapValue(w);
    var k := RepWitness(w, n);
    RepFrom(Swap(w), 256 * n, 256 * k - w / 256);
  }

  lemma RepWitness(x: int, n: int) returns (k: int)
    requires Rep(x, n)
    ensures x == n + 0xffff * k && (x == 0 <==> n == 0)
  {
    k := (x - n) / 0xffff;
  }

  lemma RepFrom(x: int, n: int, k: int)
    requires x == n + 0xffff * k && (x == 0 <==> n == 0)
    ensures Rep(x, n)
  {
    assert x - n == 0xffff * k;
  }

  lemma SwapValue(w: u16)
    ensures Swap(w) == 256 * w - 0xffff * (w / 256) && (Swap(w) == 0 <==> w == 0)
  {
  }

  /** Swapping twice is multiplying by 0x10000, which changes nothing modulo 0xffff. */
  lemma RepTwice(x: nat, n: nat)
    requires Rep(x, 256 * (256 * n))
    ensures Rep(x, n)
  {
    assert 256 * (256 * n) - n == 0xffff * n;
  }

  /** Two folds bring a 32-bit sum to its canonical value. */
  lemma FoldTwice(u: nat, n: nat)
    requires u < 0x1_0000_0000 && Rep(u, n)
    ensures Fold(Fold(u)) < 0x1_0000 && Fold(Fold(u)) == Canon(n)
  {
    RepFold(u);
    RepFold(Fold(u));
    RepTrans(Fold(u), u, n);
    RepTrans(Fold(Fold(u)), Fold(u), n);
    RepCanon(Fold(Fold(u)), n);
  }

  // ---------------------------------------------------------------- sums of concatenations

  lemma {:induction false} SumEven(s: seq<byte>, t: seq<byte>)
    requires |s| % 2 == 0
    ensures WordSum(s + t) == WordSum(s) + WordSum(t)
    decreases |s|
  {
    if |s| == 0 {
      assert s + t == t;
    } else {
      assert (s + t)[2..] == s[2..] + t;
      SumEven(s[2..], t);
    }
  }

  lemma {:induction false} SumShift(b: byte, t: seq<byte>)
    ensures (WordSum([b] + t) - (b + 256 * WordSum(t))) % 0xffff == 0
    decreases |t|
  {
    if |t| >= 1 {
      assert ([b] + t)[2..] == t[1..];
      if |t| >= 2 {
        assert t[1..] == [t[1]] + t[2..];
        SumShift(t[1], t[2..]);
        var w: int, v: int, b': int, t1: int := WordSum(t[2..]), WordSum(t[1..]), b, t[1];
        var all: int, whole: int := WordSum([b] + t), WordSum(t);
        assert all - (b' + 256 * whole) == (v - (t1 + 256 * w)) - 0xffff * t1;
      }
    }
  }

  lemma {:induction false} SumZero(s: seq<byte>)
    ensures WordSum(s) == 0 <==> forall i :: 0 <= i < |s| ==> s[i] == 0
    decreases |s|
  {
    if |s| >= 2 {
      SumZero(s[2..]);
      assert forall i :: 2 <= i < |s| ==> s[i] == s[2..][i - 2];
    }
  }

  lemma SumOne(b: byte)
    ensures WordSum([b]) == b
  {
  }

  lemma SumZeroBoth(s: seq<byte>, t: seq<byte>)
    ensures WordSum(s + t) == 0 <==> WordSum(s) == 0 && WordSum(t) == 0
  {
    SumZero(s + t);
    SumZero(s);
    SumZero(t);
    assert forall i :: 0 <= i < |t| ==> t[i] == (s + t)[|s| + i];
    assert forall i :: 0 <= i < |s| ==> s[i] == (s + t)[i];
  }

  /** After an odd number of bytes, the words of t are read with their bytes exchanged. */
  lemma SumOdd(s: seq<byte>, t: seq<byte>)
    requires |s| % 2 == 1
    ensures Rep(WordSum(s + t), WordSum(s) + 256 * WordSum(t))
  {
    hide WordSum, Rep;
    var e, b := s[..|s| - 1], s[|s| - 1];
    SumOne(b);
    assert s == e + [b] && s + t == e + ([b] + t);
    SumEven(e, [b]);
    SumEven(e, [b] + t);
    SumShift(b, t);
    SumZeroBoth(s, t);
    RepFromCong(WordSum(e), WordSum([b] + t), b, WordSum(t));
  }

  lemma RepFromCong(x: nat, y: nat, b: nat, z: nat)
    requires (y - (b + 256 * z)) % 0xffff == 0 && (x + y == 0 <==> x + b == 0 && z == 0)
    ensures Rep(x + y, x + b + 256 * z)
  {
    assert x + y - (x + b + 256 * z) == y - (b + 256 * z);
  }

  // ---------------------------------------------------------------- the three algorithms

  /** One more word of a prefix of even length. */
  lemma SumNext(s: seq<byte>, i: nat)
    requires i % 2 == 0 && i + 2 <= |s|
    ensures WordSum(s[..i + 2]) == WordSum(s[..i]) + Word(s[i], s[i + 1])
  {
    assert s[..i + 2] == s[..i] + [s[i], s[i + 1]];
    SumEven(s[..i], [s[i], s[i + 1]]);
    assert [s[i], s[i + 1]][2..] == [];
  }

  /** The end of a walk over words: nothing or one byte is left. */
  lemma SumEnd(s: seq<byte>, i: nat)
    requires i % 2 == 0 && i <= |s| <= i + 1
    ensures WordSum(s) == WordSum(s[..i]) + if i < |s| then s[i] else 0
  {
    if i < |s| {
      assert s == s[..i] + [s[i]];
      SumEven(s[..i], [s[i]]);
    } else {
      assert s == s[..i];
    }
  }

  /** Version 1: sums big-endian words and swaps the result. */
  method Chksum1(data: seq<byte>) returns (r: u16)
    requires |data| <= 0x2_0000
    ensures r == Canon(WordSum(data))
  {
    hide WordSum, Rep, Word, Swap, Canon, Add32;
    var acc: nat, i: nat := 0, 0;
    EmptySum(data);
    RepRefl(0);
    ghost var k := 0;
    while |data| - i > 1
      invariant i == 2 * k <= |data| && acc <= k * 0xffff
      invariant Rep(acc, 256 * WordSum(data[..i]))
    {
      var src := Word(data[i + 1], data[i]);
      BigWord(data, i, acc);
      NoWrap(acc, src);
      acc := Add32(acc, src);
      i := i + 2;
      k := k + 1;
    }
    SumEnd(data, i);
    if |data| - i > 0 {
      var src := Word(0, data[i]);
      BigEnd(data[i]);
      RepAdd(acc, 256 * WordSum(data[..i]), src, 256 * data[i] as nat);
      NoWrap(acc, src);
      acc := Add32(acc, src);
    }
    FoldTwice(acc, 256 * WordSum(data));
    r := FoldSwap(acc, WordSum(data));
  }

  /** Version 1 at its end: one fold, another if it carried, and the swap to host order. */
  method FoldSwap(acc0: nat, ghost n: nat) returns (r: u16)
    requires acc0 < 0x1_0000_0000 && Rep(acc0, 256 * n)
    ensures r == Canon(n)
  {
    hide Rep, Swap, Canon;
    FoldTwice(acc0, 256 * n);
    RepFold(acc0);
    RepTrans(Fold(acc0), acc0, 256 * n);
    var acc := Fold(acc0);
    if acc / 0x1_0000 != 0 {
      acc := Fold(acc);
      CanonRep(256 * n);
    }
    RepSwap(acc, 256 * n);
    RepTwice(Swap(acc), n);
    RepCanon(Swap(acc), n);
    r := Swap(acc);
  }

  lemma RepRefl(n: nat)
    ensures Rep(n, n)
  {
  }

  lemma NoWrap(x: nat, y: nat)
    requires x + y < 0x1_0000_0000
    ensures Add32(x, y) == x + y
  {
  }

  lemma BigEnd(b: byte)
    ensures Word(0, b) == 256 * b as nat && Rep(Word(0, b), 256 * b as nat)
  {
  }

  lemma EmptySum(s: seq<byte>)
    ensures WordSum(s[..0]) == 0
  {
  }

  lemma BigWord(s: seq<byte>, i: nat, acc: nat)
    requires i % 2 == 0 && i + 2 <= |s| && Rep(acc, 256 * WordSum(s[..i]))
    ensures Rep(acc + Word(s[i + 1], s[i]), 256 * WordSum(s[..i + 2]))
  {
    SumNext(s, i);
    var be: int, le: int, b1: int := Word(s[i + 1], s[i]), Word(s[i], s[i + 1]), s[i + 1];
    assert be - 256 * le == 0xffff * -b1;
    RepAdd(acc, 256 * WordSum(s[..i]), be, 256 * le);
  }

  lemma RepShuffle(y: nat, b: nat, w: nat, all: nat)
    requires Rep(y, 256 * (256 * b + w)) && Rep(all, b + 256 * w)
    ensures Rep(y, all)
  {
    var k, j := (y - 256 * (256 * b + w)) / 0xffff, (all - (b + 256 * w)) / 0xffff;
    assert y == 256 * (256 * b + w) + 0xffff * k && all == b + 256 * w + 0xffff * j;
    assert y - all == 0xffff * (b + k - j);
  }

  /** Undo the byte exchange of a sum that was taken from an odd address. */
  lemma OddStart(data: seq<byte>, x: u16)
    requires |data| > 0 && Rep(x, Word(0, data[0]) + WordSum(data[1..]))
    ensures Swap(x) == Canon(WordSum(data))
  {
    hide WordSum, Swap, Canon;
    var b: nat, w: nat, all: nat := data[0], WordSum(data[1..]), WordSum(data);
    assert data == [data[0]] + data[1..];
    SumOdd([data[0]], data[1..]);
    SumOne(data[0]);
    RepSwap(x, 256 * b + w);
    hide Rep;
    RepShuffle(Swap(x), b, w, all);
    RepCanon(Swap(x), all);
  }

  /** Version 2: sums host words from the first even address and swaps if the start was odd. */
  method Chksum2(data: seq<byte>, addr: nat) returns (r: u16)
    requires |data| <= 0x2_0000
    ensures r == Canon(WordSum(data))
  {
    hide WordSum, Rep, Word, Swap, Canon, Add32, Fold;
    var odd := addr % 2 == 1;
    var t: nat, sum: nat, pb: nat := 0, 0, 0;
    if odd && |data| > 0 {
      t := Word(0, data[0]);
      pb := 1;
    }
    ghost var s := data[pb..];
    var i := 0;
    EmptySum(s);
    ghost var k := 0;
    while |data| - pb - i > 1
      invariant i == 2 * k <= |s| && sum <= k * 0xffff
      invariant sum == WordSum(s[..i])
    {
      SumNext(s, i);
      NoWrap(sum, Word(data[pb + i], data[pb + i + 1]));
      sum := Add32(sum, Word(data[pb + i], data[pb + i + 1]));
      i := i + 2;
      k := k + 1;
    }
    SumEnd(s, i);
    if |data| - pb - i > 0 {
      t := t + data[pb + i] as nat;
    }
    NoWrap(sum, t);
    sum := Add32(sum, t);
    RepRefl(sum);
    r := FoldEnd(data, odd, sum);
  }

  /** Versions 2 and 3 at their end: two folds, and a swap if the start was odd. */
  method FoldEnd(data: seq<byte>, odd: bool, sum: nat) returns (r: u16)
    requires sum < 0x1_0000_0000
    requires Rep(sum, if odd && |data| > 0 then Word(0, data[0]) + WordSum(data[1..]) else WordSum(data))
    ensures r == Canon(WordSum(data))
  {
    hide WordSum, Rep, Word, Swap, Fold;
    ghost var n := if odd && |data| > 0 then Word(0, data[0]) + WordSum(data[1..]) else WordSum(data);
    FoldTwice(sum, n);
    CanonRep(n);
    r := Fold(Fold(sum));
    if odd {
      if |data| > 0 { OddStart(data, r); } else { EmptySwap(data); }
      r := Swap(r);
    }
  }

  lemma EmptySwap(s: seq<byte>)
    requires |s| == 0
    ensures Swap(Canon(WordSum(s))) == Canon(WordSum(s))
  {
  }

  /** A 32-bit addition with its carry added back. */
  function AddCarry(x: nat, y: nat): nat {
    if Add32(x, y) < x then Add32(x, y) + 1 else Add32(x, y)
  }

  function Word32(s: seq<byte>, i: nat): nat
    requires i + 4 <= |s|
  {
    Word(s[i], s[i + 1]) as nat + 0x1_0000 * Word(s[i + 2], s[i + 3]) as nat
  }

  lemma CarryRep(x: nat, y: nat)
    requires x < 0x1_0000_0000 && y < 0x1_0000_0000
    ensures AddCarry(x, y) < 0x1_0000_0000 && Rep(AddCarry(x, y), x + y)
  {
    if x + y < 0x1_0000_0000 {
      assert AddCarry(x, y) == x + y;
    } else {
      assert AddCarry(x, y) == x + y - 0xffff * 0x1_0001;
    }
  }

  lemma HalvesRep(lo: nat, hi: nat)
    ensures Rep(lo + 0x1_0000 * hi, lo + hi)
  {
    assert lo + 0x1_0000 * hi - (lo + hi) == 0xffff * hi;
  }

  lemma CarryStep(s: seq<byte>, i: nat, x: nat)
    requires i % 2 == 0 && i + 4 <= |s| && x < 0x1_0000_0000 && Rep(x, WordSum(s[..i]))
    ensures AddCarry(x, Word32(s, i)) < 0x1_0000_0000
    ensures Rep(AddCarry(x, Word32(s, i)), WordSum(s[..i + 4]))
  {
    hide WordSum, Rep, Word, AddCarry;
    SumNext(s, i);
    SumNext(s, i + 2);
    var lo: nat, hi: nat := Word(s[i], s[i + 1]), Word(s[i + 2], s[i + 3]);
    var w: nat := Word32(s, i);
    HalvesRep(lo, hi);
    RepAdd(x, WordSum(s[..i]), w, lo + hi);
    CarryRep(x, w);
    RepTrans(AddCarry(x, w), x + w, WordSum(s[..i + 4]));
  }

  /** Version 3: sums eight bytes at a time with end-around carries; no bound on the length. */
  method Chksum3(data: seq<byte>, addr: nat) returns (r: u16)
    ensures r == Canon(WordSum(data))
  {
    hide WordSum, AddCarry, Fold, Rep, Word, Swap, Canon, Add32, Word32;
    var odd := addr % 2 == 1;
    var t: nat, sum: nat, pb: nat := 0, 0, 0;
    if odd && |data| > 0 {
      t := Word(0, data[0]);
      pb := 1;
    }
    var s := data[pb..];
    var i: nat := 0;
    EmptySum(s);
    RepRefl(0);
    if (addr + pb) % 4 != 0 && |s| > 1 {
      SumNext(s, 0);
      NoWrap(sum, Word(s[0], s[1]));
      sum := Add32(sum, Word(s[0], s[1]));
      RepRefl(sum);
      i := 2;
    }
    while |s| - i > 7
      invariant 0 <= i <= |s| && i % 2 == 0 && sum < 0x1_0000_0000
      invariant Rep(sum, WordSum(s[..i]))
    {
      CarryStep(s, i, sum);
      var tmp := AddCarry(sum, Word32(s, i));
      CarryStep(s, i + 4, tmp);
      sum := AddCarry(tmp, Word32(s, i + 4));
      i := i + 8;
    }
    sum, i := FoldTail(s, i, sum);
    if |s| - i > 0 {
      t := t + s[i] as nat;
    }
    RepRefl(t);
    RepAdd(sum, WordSum(s[..i]), t, t);
    NoWrap(sum, t);
    sum := Add32(sum, t);
    r := FoldEnd(data, odd, sum);
  }

  /** Version 3 after its unrolled loop: fold, then add the words that are left. */
  method FoldTail(s: seq<byte>, i: nat, sum: nat) returns (sum': nat, j: nat)
    requires i % 2 == 0 && i <= |s| <= i + 7 && sum < 0x1_0000_0000 && Rep(sum, WordSum(s[..i]))
    ensures j % 2 == 0 && j <= |s| <= j + 1 && sum' < 0x10_0000 && Rep(sum', WordSum(s[..j]))
    ensures WordSum(s) == WordSum(s[..j]) + if j < |s| then s[j] else 0
  {
    hide WordSum, Rep, Word, Add32;
    RepFold(sum);
    RepTrans(Fold(sum), sum, WordSum(s[..i]));
    sum' := Fold(sum);
    j := i;
    ghost var k := 0;
    while |s| - j > 1
      invariant j == i + 2 * k <= |s| && sum' <= 0x1_fffe + k * 0xffff
      invariant Rep(sum', WordSum(s[..j]))
    {
      SumNext(s, j);
      var w := Word(s[j], s[j + 1]);
      RepRefl(w);
      RepAdd(sum', WordSum(s[..j]), w, w);
      NoWrap(sum', w);
      sum' := Add32(sum', w);
      j := j + 2;
      k := k + 1;
    }
    SumEnd(s, j);
  }

  // ---------------------------------------------------------------- chains

  /** One pbuf of a chain: its payload and the address the payload is stored at. */
  datatype Piece = Piece(data: seq<byte>, addr: nat)

  /** p->len is a u16_t. */
  predicate IsChain(chain: seq<Piece>) {
    forall i :: 0 <= i < |chain| ==> |chain[i].data| <= 0xffff
  }

  /** The bytes of a chain, however it is fragmented. */
  function Bytes(chain: seq<Piece>): seq<byte>
    decreases |chain|
  {
    if chain == [] then [] else Bytes(chain[..|chain| - 1]) + chain[|chain| - 1].data
  }

  lemma BytesNext(chain: seq<Piece>, k: nat)
    requires k < |chain|
    ensures Bytes(chain[..k + 1]) == Bytes(chain[..k]) + chain[k].data
  {
    assert chain[..k + 1][..k] == chain[..k];
  }

  /** What an accumulator holds: the sum, with its bytes exchanged after an odd number of bytes. */
  ghost function Scale(swapped: bool, n: nat): nat {
    if swapped then 256 * n else n
  }

  lemma RepToggle(acc: u16, swapped: bool, n: nat)
    requires Rep(acc, Scale(swapped, n))
    ensures Rep(Swap(acc), Scale(!swapped, n))
  {
    hide Rep, Swap;
    RepSwap(acc, Scale(swapped, n));
    if swapped { RepTwice(Swap(acc), n); }
  }

  /** Adding the sum of the next piece. */
  lemma PieceStep(acc: u16, h: nat, p: seq<byte>, q: seq<byte>, swapped: bool)
    requires swapped == (|p| % 2 == 1) && Rep(acc, Scale(swapped, h + WordSum(p)))
    ensures Fold(acc + Canon(WordSum(q))) < 0x1_0000
    ensures Rep(Fold(acc + Canon(WordSum(q))), Scale(swapped, h + WordSum(p + q)))
  {
    hide WordSum, Rep, Canon;
    var c: nat, w: nat := Canon(WordSum(q)), WordSum(q);
    CanonRep(w);
    RepAdd(acc, Scale(swapped, h + WordSum(p)), c, w);
    RepFold(acc + c);
    RepTrans(Fold(acc + c), acc + c, Scale(swapped, h + WordSum(p)) + w);
    if swapped {
      SumOdd(p, q);
      OddJoin(Fold(acc + c), h, WordSum(p), w, WordSum(p + q));
    } else {
      SumEven(p, q);
    }
  }

  lemma OddJoin(x: nat, h: nat, p: nat, w: nat, all: nat)
    requires Rep(x, 256 * (h + p) + w) && Rep(all, p + 256 * w)
    ensures Rep(x, 256 * (h + all))
  {
    var k, j := (x - (256 * (h + p) + w)) / 0xffff, (all - (p + 256 * w)) / 0xffff;
    assert x == 256 * (h + p) + w + 0xffff * k && all == p + 256 * w + 0xffff * j;
    assert x - 256 * (h + all) == 0xffff * (k - 256 * j - w);
  }

  function Invert(x: u16): u16 { 0xffff - x }

  /** inet_chksum_pbuf equals the flat checksum of the chain's bytes. */
  method InetChksumPbuf(chain: seq<Piece>) returns (r: u16)
    requires IsChain(chain)
    ensures r == Invert(Canon(WordSum(Bytes(chain))))
  {
    hide WordSum, Rep, Canon, Swap, Fold;
    var acc: u16, swapped := 0, false;
    EmptySum([]);
    RepRefl(0);
    for k := 0 to |chain|
      invariant swapped == (|Bytes(chain[..k])| % 2 == 1)
      invariant Rep(acc, Scale(swapped, 0 + WordSum(Bytes(chain[..k]))))
    {
      acc, swapped := AddPiece(chain, k, acc, swapped, 0);
    }
    assert chain[..|chain|] == chain;
    if swapped {
      RepToggle(acc, swapped, WordSum(Bytes(chain)));
      acc := Swap(acc);
    }
    RepCanon(acc, WordSum(Bytes(chain)));
    r := Invert(acc);
  }

  /** The loop body that inet_chksum_pbuf and inet_cksum_pseudo_base share. */
  method AddPiece(chain: seq<Piece>, k: nat, acc0: u16, swapped0: bool, ghost h: nat)
    returns (acc: u16, swapped: bool)
    requires IsChain(chain) && k < |chain| && swapped0 == (|Bytes(chain[..k])| % 2 == 1)
    requires Rep(acc0, Scale(swapped0, h + WordSum(Bytes(chain[..k]))))
    ensures swapped == (|Bytes(chain[..k + 1])| % 2 == 1)
    ensures Rep(acc, Scale(swapped, h + WordSum(Bytes(chain[..k + 1]))))
  {
    hide WordSum, Rep, Canon, Swap, Fold;
    var q := chain[k];
    BytesNext(chain, k);
    PieceStep(acc0, h, Bytes(chain[..k]), q.data, swapped0);
    var c := Chksum2(q.data, q.addr);
    acc, swapped := Fold(acc0 + c), swapped0;
    if |q.data| % 2 != 0 {
      RepToggle(acc, swapped, h + WordSum(Bytes(chain[..k + 1])));
      swapped := !swapped;
      acc := Swap(acc);
    }
  }

  /** The bytes of the IPv4 pseudo header. */
  function PseudoHeader(src: seq<byte>, dest: seq<byte>, proto: byte, len: u16): seq<byte> {
    src + dest + [0, proto, (len / 256) as byte, (len % 256) as byte]
  }

  /** The tail of both pseudo-header sums: add protocol and length, fold and invert. */
  method PseudoEnd(acc0: u16, proto: byte, len: u16, ghost n: nat) returns (r: u16)
    requires Rep(acc0, n)
    ensures r == Invert(Canon(n + Swap(proto) + Swap(len)))
  {
    hide Rep, Canon, Swap, Fold;
    var acc: nat := acc0;
    ghost var p: nat, l: nat := Swap(proto), Swap(len);
    RepRefl(p + l);
    RepAdd(acc0, n, p + l, p + l);
    NoWrap(acc0, p);
    NoWrap(acc0 + p, l);
    acc := Add32(Add32(acc0, Swap(proto)), Swap(len));
    FoldTwice(acc, n + p + l);
    r := Invert(Fold(Fold(acc)));
  }

  /** inet_cksum_pseudo_base */
  method PseudoBase(chain: seq<Piece>, proto: byte, len: u16, acc0: u16, ghost h: nat) returns (r: u16)
    requires IsChain(chain) && Rep(acc0, h)
    ensures r == Invert(Canon(h + WordSum(Bytes(chain)) + Swap(proto) + Swap(len)))
  {
    hide WordSum, Rep, Canon, Swap, Fold;
    var acc, swapped := acc0, false;
    EmptySum([]);
    for k := 0 to |chain|
      invariant swapped == (|Bytes(chain[..k])| % 2 == 1)
      invariant Rep(acc, Scale(swapped, h + WordSum(Bytes(chain[..k]))))
    {
      acc, swapped := AddPiece(chain, k, acc, swapped, h);
    }
    assert chain[..|chain|] == chain;
    if swapped {
      RepToggle(acc, swapped, h + WordSum(Bytes(chain)));
      acc := Swap(acc);
    }
    r := PseudoEnd(acc, proto, len, h + WordSum(Bytes(chain)));
  }

  /**
  inet_cksum_pseudo_partial_base: only the first chksum_len bytes are summed. The swap
  after the last piece goes by the length of the pbuf, not of the part that was summed. It
  asserts after each piece that less than 0x7FFF bytes are left.
  */
  method PseudoPartialBase(chain: seq<Piece>, proto: byte, len: u16, chksum_len: u16, acc0: u16, ghost h: nat)
    returns (r: u16, asserted: bool)
    requires IsChain(chain) && Rep(acc0, h)
    ensures r == Invert(Canon(h + WordSum(Prefix(Bytes(chain), chksum_len)) + Swap(proto) + Swap(len)))
    ensures asserted <==> chain == [] || chksum_len - |chain[0].data| < 0x7FFF
  {
    hide WordSum, Rep, Canon, Swap, Fold;
    var acc: u16, swapped, left, k := acc0, false, chksum_len as nat, 0;
    asserted := true;
    EmptySum([]);
    ghost var p: seq<byte> := [];
    while k < |chain| && left > 0
      invariant k == 0 ==> asserted && left == chksum_len
      invariant k > 0 && |chain| > 0 ==> (left == 0 || left <= chksum_len - |chain[0].data|) && (asserted <==> chksum_len - |chain[0].data| < 0x7FFF)
      invariant k <= |chain| && |p| + left == chksum_len && p == Prefix(Bytes(chain[..k]), chksum_len)
      invariant left > 0 ==> p == Bytes(chain[..k]) && swapped == (|p| % 2 == 1)
      invariant Rep(acc, Scale(swapped, h + WordSum(p)))
    {
      var q := chain[k];
      var chklen := if |q.data| > left then left else |q.data|;
      ghost var part := q.data[..chklen];
      BytesNext(chain, k);
      PieceStep(acc, h, p, part, swapped);
      var c := Chksum2(q.data[..chklen], q.addr);
      acc := Fold(acc + c);
      p := p + part;
      left := left - chklen;
      asserted := asserted && left < 0x7FFF;
      if |q.data| % 2 != 0 {
        RepToggle(acc, swapped, h + WordSum(p));
        swapped := !swapped;
        acc := Swap(acc);
      }
      k := k + 1;
    }
    PrefixDone(chain, k, chksum_len);
    if swapped {
      RepToggle(acc, swapped, h + WordSum(p));
      acc := Swap(acc);
    }
    r := PseudoEnd(acc, proto, len, h + WordSum(p));
  }

  /** A first pbuf of one byte with 0xFFFE more behind it: the assertion fails. */
  method LongRest() returns (chain: seq<Piece>, r: u16, asserted: bool)
    ensures |chain| == 2 && |chain[0].data| == 1 && |chain[1].data| == 0xFFFE && !asserted
  {
    hide Rep, Canon, WordSum;
    chain := [Piece([0], 0), Piece(seq(0xFFFE, _ => 0), 1)];
    RepRefl(0);
    r, asserted := PseudoPartialBase(chain, 17, 0xFFFF, 0xFFFF, 0, 0);
  }

  function Prefix(s: seq<byte>, n: nat): seq<byte> {
    if n <= |s| then s[..n] else s
  }

  lemma {:induction false} PrefixDone(chain: seq<Piece>, k: nat, n: nat)
    requires k <= |chain| && (k == |chain| || n <= |Bytes(chain[..k])|)
    ensures Prefix(Bytes(chain), n) == Prefix(Bytes(chain[..k]), n)
    decreases |chain| - k
  {
    if k == |chain| {
      assert chain[..k] == chain;
    } else {
      BytesNext(chain, k);
      PrefixDone(chain, k + 1, n);
    }
  }

  /** The address words of inet_chksum_pseudo, folded. */
  method AddrSum(src: seq<byte>, dest: seq<byte>) returns (acc: u16)
    requires |src| == 4 && |dest| == 4
    ensures Rep(acc, WordSum(src + dest))
  {
    hide Rep, Canon, Fold, Word;
    var sum: nat := Word(src[0], src[1]);
    NoWrap(sum, Word(src[2], src[3]));
    sum := Add32(sum, Word(src[2], src[3]));
    NoWrap(sum, Word(dest[0], dest[1]));
    sum := Add32(sum, Word(dest[0], dest[1]));
    NoWrap(sum, Word(dest[2], dest[3]));
    sum := Add32(sum, Word(dest[2], dest[3]));
    FourWords(src, dest);
    RepRefl(sum);
    FoldTwice(sum, WordSum(src + dest));
    CanonRep(WordSum(src + dest));
    acc := Fold(Fold(sum));
  }

  lemma FourWords(src: seq<byte>, dest: seq<byte>)
    requires |src| == 4 && |dest| == 4
    ensures WordSum(src + dest) == Word(src[0], src[1]) as nat + Word(src[2], src[3]) as nat
                                 + Word(dest[0], dest[1]) as nat + Word(dest[2], dest[3]) as nat
  {
    hide Word;
    SumEven(src, dest);
    SumFour(src);
    SumFour(dest);
  }

  lemma SumFour(s: seq<byte>)
    requires |s| == 4
    ensures WordSum(s) == Word(s[0], s[1]) as nat + Word(s[2], s[3]) as nat
  {
    assert s[2..][2..] == [] && s[2..][0] == s[2] && s[2..][1] == s[3];
    assert WordSum(s[2..]) == Word(s[2], s[3]) + WordSum([]);
  }

  lemma SwapWords(proto: byte, len: u16)
    ensures Word(0, proto) == Swap(proto) && Word((len / 256) as byte, (len % 256) as byte) == Swap(len)
  {
    hide Swap;
    var hi: nat, lo: nat := len as nat / 256, len as nat % 256;
    assert len == 256 * hi + lo && 256 * 0 + proto == proto;
    SwapParts(0, proto);
    SwapParts(hi, lo);
  }

  lemma SwapParts(hi: nat, lo: nat)
    requires hi < 256 && lo < 256
    ensures Swap(256 * hi + lo) == 256 * lo + hi
  {
    assert (256 * hi + lo) % 256 == lo && (256 * hi + lo) / 256 == hi;
    assert (256 * hi + lo) % 0x1_0000 == 256 * hi + lo;
  }

  lemma PseudoSum(src: seq<byte>, dest: seq<byte>, proto: byte, len: u16, data: seq<byte>)
    requires |src| == 4 && |dest| == 4
    ensures WordSum(PseudoHeader(src, dest, proto, len) + data)
         == WordSum(src + dest) + WordSum(data) + Swap(proto) + Swap(len)
  {
    hide WordSum, Swap, Word;
    SwapWords(proto, len);
    var ph := PseudoHeader(src, dest, proto, len);
    var tail := [0, proto, (len / 256) as byte, (len % 256) as byte];
    SumEven(ph, data);
    SumEven(src + dest, tail);
    SumFour(tail);
  }

  /** inet_chksum_pseudo equals the flat checksum of the pseudo header and the chain's bytes. */
  method InetChksumPseudo(chain: seq<Piece>, proto: byte, len: u16, src: seq<byte>, dest: seq<byte>) returns (r: u16)
    requires IsChain(chain) && |src| == 4 && |dest| == 4
    ensures r == Invert(Canon(WordSum(PseudoHeader(src, dest, proto, len) + Bytes(chain))))
  {
    hide WordSum, Rep, Canon, Swap, PseudoHeader;
    var acc := AddrSum(src, dest);
    r := PseudoBase(chain, proto, len, acc, WordSum(src + dest));
    PseudoSum(src, dest, proto, len, Bytes(chain));
  }

  /** inet_chksum_pseudo_partial, on the first chksum_len bytes of the chain. */
  method InetChksumPseudoPartial(chain: seq<Piece>, proto: byte, len: u16, chksum_len: u16, src: seq<byte>, dest: seq<byte>)
    returns (r: u16, asserted: bool)
    requires IsChain(chain) && |src| == 4 && |dest| == 4
    ensures r == Invert(Canon(WordSum(PseudoHeader(src, dest, proto, len) + Prefix(Bytes(chain), chksum_len))))
    ensures asserted <==> chain == [] || chksum_len - |chain[0].data| < 0x7FFF
  {
    hide WordSum, Rep, Canon, Swap, PseudoHeader, Prefix;
    var acc := AddrSum(src, dest);
    r, asserted := PseudoPartialBase(chain, proto, len, chksum_len, acc, WordSum(src + dest));
    PseudoSum(src, dest, proto, len, Prefix(Bytes(chain), chksum_len));
  }

  // ---------------------------------------------------------------- verification at the receiver

  /** Storing word c at even offset k of s, where the bytes were zero. */
  function Store(s: seq<byte>, k: nat, c: u16): seq<byte>
    requires k + 2 <= |s|
  {
    s[k := (c % 256) as byte][k + 1 := (c / 256) as byte]
  }

  lemma StoreSum(s: seq<byte>, k: nat, c: u16)
    requires k % 2 == 0 && k + 2 <= |s| && s[k] == 0 && s[k + 1] == 0
    ensures WordSum(Store(s, k, c)) == WordSum(s) + c
  {
    var x, y := s[..k], s[k + 2..];
    var f := [(c % 256) as byte, (c / 256) as byte];
    assert s == x + ([0, 0] + y);
    assert Store(s, k, c) == x + (f + y);
    SumEven(x, [0, 0] + y);
    SumEven([0, 0], y);
    SumEven(x, f + y);
    SumEven(f, y);
    SumPair(f);
    SumPair([0, 0]);
  }

  lemma SumPair(s: seq<byte>)
    requires |s| == 2
    ensures WordSum(s) == Word(s[0], s[1])
  {
    assert s[2..] == [];
  }

  /**
  Storing a checksum in a zeroed field at an even offset makes the checksum of the result
  0: for any data d before the field's string (a pseudo header, or nothing).
  */
  lemma StoredChecksumVerifies(d: seq<byte>, s: seq<byte>, k: nat)
    requires |d| % 2 == 0 && k % 2 == 0 && k + 2 <= |s| && s[k] == 0 && s[k + 1] == 0
    ensures Invert(Canon(WordSum(d + Store(s, k, Invert(Canon(WordSum(d + s))))))) == 0
  {
    hide WordSum, Store;
    var n: nat := WordSum(d + s);
    var c := Invert(Canon(n));
    SumEven(d, s);
    SumEven(d, Store(s, k, c));
    StoreSum(s, k, c);
    Complement(n);
  }

  lemma Complement(n: nat)
    ensures Canon(n + Invert(Canon(n))) == 0xffff
  {
    CanonRep(n);
    assert (n + Invert(Canon(n)) - 0xffff) % 0xffff == 0;
  }

  /** The canonical value is 0 only for all-zero data. */
  lemma ZeroOnlyForZeros(s: seq<byte>)
    ensures Canon(WordSum(s)) == 0 <==> forall i :: 0 <= i < |s| ==> s[i] == 0
  {
    SumZero(s);
    assert Canon(WordSum(s)) == 0 <==> WordSum(s) == 0;
  }
}
