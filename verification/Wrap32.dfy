/** Unbounded numbers and their u32_t casts. */
module Wrap32 {
  const WRAP: nat := 0x1_0000_0000

  /** A cast to u32_t. */
  function U32(x: int): nat { x % 0x1_0000_0000 }

  /** Within half the range of each other. */
  predicate Near(a: int, b: int) {
    -0x8000_0000 <= a - b < 0x8000_0000
  }

  lemma U32Of(x: int)
    ensures exists k: int :: x == U32(x) + k * WRAP
  {
    assert x == U32(x) + (x / 0x1_0000_0000) * WRAP;
  }

  lemma U32Is(x: int, k: int, r: int)
    requires x == r + k * WRAP && 0 <= r < WRAP
    ensures U32(x) == r
  {
  }

  /** u32_t arithmetic may be done before or after the casts. */
  lemma U32Sub(a: int, b: int)
    ensures U32(U32(a) - U32(b)) == U32(a - b)
  {
    U32Of(a);
    U32Of(b);
    var k: int :| a == U32(a) + k * WRAP;
    var l: int :| b == U32(b) + l * WRAP;
    SameU32(U32(a) - U32(b), a - b, k - l);
  }

  lemma U32Add(a: int, b: int)
    ensures U32(U32(a) + U32(b)) == U32(a + b)
  {
    U32Of(a);
    U32Of(b);
    var k: int :| a == U32(a) + k * WRAP;
    var l: int :| b == U32(b) + l * WRAP;
    SameU32(U32(a) + U32(b), a + b, k + l);
  }

  lemma SameU32(x: int, y: int, k: int)
    requires y == x + k * WRAP
    ensures U32(x) == U32(y)
  {
    U32Of(x);
    var l: int :| x == U32(x) + l * WRAP;
    U32Is(y, l + k, U32(x));
  }

  /** Within half the range, the sign of a difference is the sign of its s32_t cast. */
  lemma SignOfDifference(a: int, b: int)
    requires Near(a, b)
    ensures U32(U32(a) - U32(b)) == if a < b then a - b + WRAP else a - b
  {
    U32Sub(a, b);
    if a < b { U32Is(a - b, -1, a - b + WRAP); } else { U32Is(a - b, 0, a - b); }
  }
}
