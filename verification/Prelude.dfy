/** Types and functions that several modules share. */
module Prelude {
  datatype Option<+T> = None | Some(value: T)

  type byte = x: nat | x < 256
  type u16 = x: nat | x < 0x1_0000

  /** Casts to u8_t and u16_t. */
  function U8(x: int): nat { x % 0x100 }
  function U16(x: int): nat { x % 0x1_0000 }

  function Min(a: nat, b: nat): nat { if a < b then a else b }

  /** lwip_tolower */
  function Lower(b: byte): byte { if 65 <= b <= 90 then b + 32 else b }

  ghost predicate Distinct(s: seq<nat>) {
    forall i, j :: 0 <= i < j < |s| ==> s[i] != s[j]
  }
}
