/** Searching a range of numbers for one that is not taken. */
module Circular {
  /** If fewer numbers are taken than there are, one is free. */
  lemma {:induction false} Pigeon(used: set<int>, lo: int, hi: int) returns (v: int)
    requires |used| < hi - lo
    ensures lo <= v < hi && v !in used
    decreases hi - lo
  {
    if lo in used {
      v := Pigeon(used - {lo}, lo + 1, hi);
    } else {
      v := lo;
    }
  }

  /** The numbers in s. */
  ghost function Members(s: seq<int>): (r: set<int>)
    ensures |r| <= |s|
    ensures forall x :: x in r <==> x in s
  {
    if s == [] then {} else {s[0]} + Members(s[1..])
  }

  /** How far v is ahead of c, going up and round from the top of lo..hi-1 to lo. */
  function Ahead(lo: int, hi: int, c: int, v: int): (d: int)
    requires lo <= v < hi && lo <= c < hi
    ensures 0 <= d < hi - lo && (d == 0 <==> c == v)
  {
    if c <= v then v - c else v - c + (hi - lo)
  }
}
