/**
What pbuf_realloc and pbuf_free_header do to the pbuf memory, and the effect on
contents and on tot_len.
*/
module PbufShape {
  import opened Prelude
  import opened PbufSpec

  /** pbuf_free touches only the chain it is given. */
  lemma {:induction false} FreeOnly(m: Mem, p: Option<Id>, s: seq<Id>, q: Id)
    requires IsChain(m, p, s) && Distinct(s) && q in m && q !in s
    ensures q in FreeFrom(m, p).mem && FreeFrom(m, p).mem[q] == m[q]
    decreases |s|
  {
    if p.Some? && m[p.value].ref <= 1 {
      var m' := m - {p.value};
      assert p.value == s[0];
      assert forall i :: 0 <= i < |s[1..]| ==> s[1..][i] == s[i + 1];
      StillChain(m, m[s[0]].next, s[1..], s[0]);
      FreeOnly(m', m[s[0]].next, s[1..], q);
    }
  }

  lemma {:induction false} StillChain(m: Mem, p: Option<Id>, s: seq<Id>, gone: Id)
    requires IsChain(m, p, s) && gone !in s
    ensures IsChain(m - {gone}, p, s)
    decreases |s|
  {
    if s != [] {
      StillChain(m, m[s[0]].next, s[1..], gone);
    }
  }

  // ---------------------------------------------------------------- pbuf_realloc

  /** Where the walk of pbuf_realloc to the new last pbuf ends, and how much of that pbuf is kept. */
  ghost function Keep(m: Mem, s: seq<Id>, n: nat): (r: (nat, nat))
    requires s != [] && Within(m, s)
    ensures r.0 < |s|
    decreases |s|
  {
    if n <= m[s[0]].len || |s| == 1 then (0, n)
    else
      var (k, rem) := Keep(m, s[1..], n - m[s[0]].len);
      (k + 1, rem)
  }

  lemma {:induction false} KeepFacts(m: Mem, s: seq<Id>, n: nat)
    requires s != [] && Within(m, s) && n <= |Flat(m, s)|
    ensures var (k, rem) := Keep(m, s, n);
            && k < |s| && rem <= m[s[k]].len
            && Flat(m, s)[..n] == Flat(m, s[..k]) + m[s[k]].Payload()[..rem]
    decreases |s|
  {
    hide Flat;
    FlatHead(m, s);
    if n <= m[s[0]].len {
      assert s[..0] == [];
      FlatHead(m, s[..0]);
    } else if |s| > 1 {
      var l := m[s[0]].len;
      KeepFacts(m, s[1..], n - l);
      var (k, rem) := Keep(m, s[1..], n - l);
      PrefixJoin(m[s[0]].Payload(), Flat(m, s[1..]), n, Flat(m, s[1..][..k]), m[s[1..][k]].Payload()[..rem]);
      FlatHead(m, s[..k + 1]);
      assert s[..k + 1][1..] == s[1..][..k] && s[..k + 1][0] == s[0] && s[1..][k] == s[k + 1];
    } else {
      assert s[1..] == [];
      FlatHead(m, s[1..]);
    }
  }

  lemma PrefixJoin<T>(a: seq<T>, b: seq<T>, n: nat, x: seq<T>, y: seq<T>)
    requires |a| <= n <= |a + b| && b[..n - |a|] == x + y
    ensures (a + b)[..n] == a + x + y
  {
    assert (a + b)[..n] == a + b[..n - |a|];
  }

  /** The memory when pbuf_realloc has cut the chain s behind its k-th pbuf. */
  ghost function Shrunk(m: Mem, s: seq<Id>, k: nat, rem: nat, shrink: int): Mem
    requires k < |s|
  {
    map q | q in m :: if q == s[k] then m[q].(len := rem, totLen := rem, next := None)
                      else if q in s[..k] then m[q].(totLen := U16(m[q].totLen - shrink))
                      else m[q]
  }

  lemma ShrunkFields(m: Mem, s: seq<Id>, k: nat, rem: nat, shrink: int)
    requires Sound(m) && k < |s| && s[k] in m && rem <= m[s[k]].len
    ensures var m1, m2 := m[s[k] := m[s[k]].(next := None)], Shrunk(m, s, k, rem, shrink);
            m1.Keys == m2.Keys && Sound(m2) && forall q :: q in m ==> m2[q].next == m1[q].next && m2[q].ref == m1[q].ref
  {
    var m2 := Shrunk(m, s, k, rem, shrink);
    forall q | q in m2 ensures m2[q].WellFormed() { assert m[q].WellFormed(); }
  }

  lemma ShrunkValid(m: Mem, handles: multiset<Id>, rank: map<Id, nat>, s: seq<Id>, k: nat, rem: nat, shrink: int)
    requires Refs(m, handles, None) && Ranked(m, rank) && Sound(m) && k < |s| && s[k] in m && rem <= m[s[k]].len
    ensures var m' := Shrunk(m, s, k, rem, shrink);
            Refs(m', handles, m[s[k]].next) && Ranked(m', rank) && Sound(m')
  {
    hide Shrunk;
    var p := s[k];
    CutRefs(m, handles, p);
    var m1, m2 := m[p := m[p].(next := None)], Shrunk(m, s, k, rem, shrink);
    ShrunkFields(m, s, k, rem, shrink);
    forall q | q in m2 ensures RefOk(m2, handles, m[p].next, q) && NextIn(m2, q) {
      PredsSame(m1, m2, q);
      assert RefOk(m1, handles, m[p].next, q) && NextIn(m1, q);
    }
    forall q | q in m2 ensures Falls(m2, rank, q) { assert Falls(m, rank, q); }
  }

  ghost function ReallocMem(m: Mem, s: seq<Id>, n: nat): Mem
    requires s != [] && Within(m, s) && n <= |Flat(m, s)|
  {
    KeepFacts(m, s, n);
    var (k, rem) := Keep(m, s, n);
    FreeFrom(Shrunk(m, s, k, rem, m[s[0]].totLen - n), m[s[k]].next).mem
  }

  /** The pbufs that pbuf_realloc keeps survive it as it left them. */
  lemma KeptAt(m: Mem, rank: map<Id, nat>, s: seq<Id>, n: nat, q: Id)
    requires Closed(m) && Ranked(m, rank) && s != [] && IsChain(m, Some(s[0]), s) && Within(m, s) && n <= |Flat(m, s)|
    requires q in m && q !in s[Keep(m, s, n).0 + 1..]
    ensures Keep(m, s, n).0 < |s|
    ensures q in ReallocMem(m, s, n)
    ensures ReallocMem(m, s, n)[q] == Shrunk(m, s, Keep(m, s, n).0, Keep(m, s, n).1, m[s[0]].totLen - n)[q]
  {
    KeepFacts(m, s, n);
    var (k, rem) := Keep(m, s, n);
    var m1 := Shrunk(m, s, k, rem, m[s[0]].totLen - n);
    ChainDistinct(m, rank, Some(s[0]), s);
    ChainAt(m, Some(s[0]), s, k);
    TailOfShrunk(m, s, k, rem, m[s[0]].totLen - n);
    FreeOnly(m1, m[s[k]].next, s[k + 1..], q);
  }

  lemma TailOfShrunk(m: Mem, s: seq<Id>, k: nat, rem: nat, shrink: int)
    requires s != [] && k < |s| && IsChain(m, Some(s[0]), s) && Distinct(s)
    ensures Distinct(s[k + 1..]) && s[k] in m
    ensures IsChain(Shrunk(m, s, k, rem, shrink), m[s[k]].next, s[k + 1..])
  {
    ChainAt(m, Some(s[0]), s, k);
    var t := s[k + 1..];
    assert s[k..][1..] == t;
    var m' := Shrunk(m, s, k, rem, shrink);
    forall i | 0 <= i < |t| ensures t[i] in m' && (t[i] in m ==> m'[t[i]].next == m[t[i]].next) {
      assert t[i] == s[k + 1 + i];
      ChainAt(m, Some(s[0]), s, k + 1 + i);
    }
    ChainFrame(m, m', m[s[k]].next, t);
  }

  /** The i-th of the pbufs kept: in place, unchanged but for the last one, which is cut to rem bytes. */
  ghost predicate KeptAs(m: Mem, m': Mem, s: seq<Id>, k: nat, rem: nat, i: nat)
    requires i <= k < |s|
  {
    && s[i] in m && s[i] in m'
    && m'[s[i]].next == (if i < k then Some(s[i + 1]) else None)
    && m'[s[i]].buf == m[s[i]].buf && m'[s[i]].off == m[s[i]].off
    && m'[s[i]].len == if i < k then m[s[i]].len else rem
  }

  lemma {:induction false} KeptChain(m: Mem, m': Mem, s: seq<Id>, k: nat, rem: nat, i: nat)
    requires i <= k < |s| && forall j :: 0 <= j <= k ==> KeptAs(m, m', s, k, rem, j)
    ensures IsChain(m', Some(s[i]), s[i..k + 1])
    decreases k - i
  {
    assert KeptAs(m, m', s, k, rem, i);
    var t := s[i..k + 1];
    assert t[0] == s[i] && t[1..] == s[i + 1..k + 1];
    if i < k {
      KeptChain(m, m', s, k, rem, i + 1);
    } else {
      assert t[1..] == [];
    }
  }

  lemma FlatOne(m: Mem, p: Id)
    requires p in m && m[p].off + m[p].len <= |m[p].buf|
    ensures Flat(m, [p]) == m[p].Payload()
  {
    assert [p][0] == p && [p][1..] == [];
  }

  lemma KeptFlat(m: Mem, m': Mem, s: seq<Id>, k: nat, rem: nat)
    requires Within(m, s) && k < |s| && rem <= m[s[k]].len && forall j :: 0 <= j <= k ==> KeptAs(m, m', s, k, rem, j)
    ensures IsChain(m', Some(s[0]), s[..k + 1]) && Within(m', s[..k + 1])
    ensures Flat(m', s[..k + 1]) == Flat(m, s[..k]) + m[s[k]].Payload()[..rem]
  {
    KeptChain(m, m', s, k, rem, 0);
    var a, b := s[..k], [s[k]];
    assert s[0..k + 1] == s[..k + 1] == a + b;
    forall i | 0 <= i < |a + b| ensures (a + b)[i] in m' && m'[(a + b)[i]].off + m'[(a + b)[i]].len <= |m'[(a + b)[i]].buf| {
      assert KeptAs(m, m', s, k, rem, i) && (a + b)[i] == s[i];
    }
    forall i | 0 <= i < |a| ensures a[i] in m' && m[a[i]].Payload() == m'[a[i]].Payload() {
      assert KeptAs(m, m', s, k, rem, i);
    }
    assert KeptAs(m, m', s, k, rem, k);
    hide IsChain;
    FlatFrame(m, m', a);
    FlatJoin(m', a, b);
    FlatOne(m', s[k]);
  }

  lemma NotBehind(s: seq<Id>, k: nat, i: nat)
    requires Distinct(s) && i <= k < |s|
    ensures s[i] !in s[k + 1..]
  {
  }

  lemma ShrunkKeeps(m: Mem, rank: map<Id, nat>, s: seq<Id>, n: nat, i: nat)
    requires Closed(m) && Ranked(m, rank) && s != [] && IsChain(m, Some(s[0]), s) && Within(m, s) && n <= |Flat(m, s)|
    requires i <= Keep(m, s, n).0
    ensures KeptAs(m, ReallocMem(m, s, n), s, Keep(m, s, n).0, Keep(m, s, n).1, i)
  {
    var (k, rem) := Keep(m, s, n);
    ChainDistinct(m, rank, Some(s[0]), s);
    ChainAt(m, Some(s[0]), s, i);
    NotBehind(s, k, i);
    KeptAt(m, rank, s, n, s[i]);
    assert i < k ==> s[..k][i] == s[i];
  }

  /** pbuf_realloc takes a prefix of the contents. */
  lemma ReallocFlat(m: Mem, rank: map<Id, nat>, s: seq<Id>, n: nat)
    requires Closed(m) && Ranked(m, rank) && Sound(m) && s != [] && IsChain(m, Some(s[0]), s)
    requires Within(m, s) && n <= |Flat(m, s)|
    ensures var m', t := ReallocMem(m, s, n), s[..Keep(m, s, n).0 + 1];
            IsChain(m', Some(s[0]), t) && Within(m', t) && Flat(m', t) == Flat(m, s)[..n]
  {
    hide ReallocMem, Shrunk, Keep, IsChain, Flat;
    KeepFacts(m, s, n);
    var (k, rem) := Keep(m, s, n);
    forall i | 0 <= i <= k ensures KeptAs(m, ReallocMem(m, s, n), s, k, rem, i) { ShrunkKeeps(m, rank, s, n, i); }
    KeptFlat(m, ReallocMem(m, s, n), s, k, rem);
  }

  // ---------------------------------------------------------------- tot_len after pbuf_realloc

  /** A chain whose tot_len fields are right and whose bytes number less than 64k. */
  ghost predicate Measured(m: Mem, s: seq<Id>) {
    s != [] && IsChain(m, Some(s[0]), s) && Within(m, s) && TotAlong(m, s) && |Flat(m, s)| < 0x1_0000
  }

  ghost predicate TotAlong(m: Mem, s: seq<Id>) {
    forall i :: 0 <= i < |s| ==> s[i] in m && TotOk(m, s[i])
  }

  lemma {:induction false} MeasuredAt(m: Mem, s: seq<Id>, i: nat)
    requires Measured(m, s) && i < |s|
    ensures s[i] in m && m[s[i]].totLen == |Flat(m, s[i..])|
    ensures Flat(m, s) == Flat(m, s[..i]) + Flat(m, s[i..])
  {
    hide IsChain, Flat;
    ChainAt(m, Some(s[0]), s, i);
    assert s == s[..i] + s[i..];
    FlatJoin(m, s[..i], s[i..]);
    forall j | 0 <= j < |s[i..]| ensures s[i..][j] in m && TotOk(m, s[i..][j]) {
      assert s[i..][j] == s[i + j];
      ChainAt(m, Some(s[0]), s, i + j);
    }
    TotIsLength(m, Some(s[i]), s[i..]);
    assert U16(|Flat(m, s[i..])|) == |Flat(m, s[i..])|;
  }

  /** Every pbuf that is kept loses the same amount from its tot_len. */
  lemma KeptTot(m: Mem, rank: map<Id, nat>, s: seq<Id>, n: nat, i: nat)
    requires Closed(m) && Ranked(m, rank) && Measured(m, s) && n <= |Flat(m, s)| && i <= Keep(m, s, n).0
    ensures s[i] in m && s[i] in ReallocMem(m, s, n)
    ensures ReallocMem(m, s, n)[s[i]].totLen == U16(m[s[i]].totLen - (m[s[0]].totLen - n))
  {
    KeepFacts(m, s, n);
    var (k, rem) := Keep(m, s, n);
    ChainDistinct(m, rank, Some(s[0]), s);
    NotBehind(s, k, i);
    KeptAt(m, rank, s, n, s[i]);
    if i < k {
      assert s[..k][i] == s[i];
    } else {
      MeasuredAt(m, s, k);
      MeasuredAt(m, s, 0);
      assert s[0..] == s;
      assert |Flat(m, s)[..n]| == n;
    }
  }

  /** A pbuf that is kept has the right tot_len. */
  lemma KeptTotOk(m: Mem, rank: map<Id, nat>, s: seq<Id>, n: nat, i: nat)
    requires Closed(m) && Ranked(m, rank) && Sound(m) && Measured(m, s) && n <= |Flat(m, s)| && i <= Keep(m, s, n).0
    ensures s[i] in ReallocMem(m, s, n) && TotOk(ReallocMem(m, s, n), s[i])
  {
    hide U16, Keep, IsChain, Flat, ReallocMem;
    var (k, rem) := Keep(m, s, n);
    if i < k {
      KeptTot(m, rank, s, n, i);
      ShrunkKeeps(m, rank, s, n, i);
      KeptTot(m, rank, s, n, i + 1);
      ChainAt(m, Some(s[0]), s, i);
      assert TotOk(m, s[i]);
      Mod16(m[s[i]].len, TailTot(m, m[s[i]].next), m[s[0]].totLen - n);
    } else {
      LastTot(m, rank, s, n);
    }
  }

  /** A pbuf outside that points into what is kept has the wrong tot_len. */
  lemma OutsideTot(m: Mem, handles: multiset<Id>, rank: map<Id, nat>, s: seq<Id>, n: nat, q: Id)
    requires Refs(m, handles, None) && Ranked(m, rank) && Sound(m) && AllTot(m) && Measured(m, s) && n < |Flat(m, s)|
    requires q in m && q !in s[..Keep(m, s, n).0 + 1] && PointsInto(m, s[..Keep(m, s, n).0 + 1], q)
    requires q in ReallocMem(m, s, n)
    ensures !TotOk(ReallocMem(m, s, n), q)
  {
    hide U16, Keep, IsChain, Flat, ReallocMem;
    var k := Keep(m, s, n).0;
    ReallocRest(m, handles, rank, s, n, q);
    var i: nat :| i <= k && s[i] == m[q].next.value;
    KeptTot(m, rank, s, n, i);
    assert TotOk(m, q);
    MeasuredAt(m, s, 0);
    assert s[0..] == s;
    Mod16(m[q].len, m[s[i]].totLen, m[s[0]].totLen - n);
    ModDiffers(m[q].len + m[s[i]].totLen, m[s[0]].totLen - n);
  }

  /** Any other surviving pbuf keeps the right tot_len. */
  lemma OtherTot(m: Mem, handles: multiset<Id>, rank: map<Id, nat>, s: seq<Id>, n: nat, q: Id)
    requires Refs(m, handles, None) && Ranked(m, rank) && Sound(m) && AllTot(m) && Measured(m, s) && n <= |Flat(m, s)|
    requires q in m && q !in s[..Keep(m, s, n).0 + 1] && !PointsInto(m, s[..Keep(m, s, n).0 + 1], q)
    requires q in ReallocMem(m, s, n)
    ensures TotOk(ReallocMem(m, s, n), q)
  {
    hide U16, Keep, IsChain, Flat, ReallocMem;
    ReallocRest(m, handles, rank, s, n, q);
    assert TotOk(m, q);
    if m[q].next.Some? {
      ReallocRest(m, handles, rank, s, n, m[q].next.value);
    }
  }

  lemma ReallocTotAt(m: Mem, handles: multiset<Id>, rank: map<Id, nat>, s: seq<Id>, n: nat, q: Id)
    requires Refs(m, handles, None) && Ranked(m, rank) && Sound(m) && AllTot(m) && Measured(m, s) && n < |Flat(m, s)|
    requires q in ReallocMem(m, s, n)
    ensures q in m
    ensures TotOk(ReallocMem(m, s, n), q) <==> q in s[..Keep(m, s, n).0 + 1] || !PointsInto(m, s[..Keep(m, s, n).0 + 1], q)
  {
    hide U16, Keep, IsChain, Flat, ReallocMem, TotOk;
    ReallocRest(m, handles, rank, s, n, q);
    var t := s[..Keep(m, s, n).0 + 1];
    if q in t {
      var i: nat :| i < |t| && s[i] == q;
      KeptTotOk(m, rank, s, n, i);
    } else if PointsInto(m, t, q) {
      OutsideTot(m, handles, rank, s, n, q);
    } else {
      OtherTot(m, handles, rank, s, n, q);
    }
  }

  lemma LastTot(m: Mem, rank: map<Id, nat>, s: seq<Id>, n: nat)
    requires Closed(m) && Ranked(m, rank) && Measured(m, s) && n <= |Flat(m, s)| && Sound(m)
    ensures s[Keep(m, s, n).0] in ReallocMem(m, s, n) && TotOk(ReallocMem(m, s, n), s[Keep(m, s, n).0])
  {
    KeepFacts(m, s, n);
    var (k, rem) := Keep(m, s, n);
    ChainDistinct(m, rank, Some(s[0]), s);
    NotBehind(s, k, k);
    KeptAt(m, rank, s, n, s[k]);
    assert m[s[k]].WellFormed();
  }

  /** A surviving pbuf that is not kept in the chain is as it was, but for its count; so is what it points to. */
  lemma ReallocRest(m: Mem, handles: multiset<Id>, rank: map<Id, nat>, s: seq<Id>, n: nat, q: Id)
    requires Refs(m, handles, None) && Ranked(m, rank) && Sound(m) && Measured(m, s) && n <= |Flat(m, s)|
    requires q in ReallocMem(m, s, n)
    ensures q in m
    ensures q !in s[..Keep(m, s, n).0 + 1] ==> ReallocMem(m, s, n)[q] == m[q].(ref := ReallocMem(m, s, n)[q].ref)
    ensures NextIn(ReallocMem(m, s, n), q)
  {
    hide IsChain, Keep, FreeFrom, Flat, RefOk, U16, AllTot;
    KeepFacts(m, s, n);
    var (k, rem) := Keep(m, s, n);
    var m1 := Shrunk(m, s, k, rem, m[s[0]].totLen - n);
    ChainAt(m, Some(s[0]), s, k);
    ShrunkValid(m, handles, rank, s, k, rem, m[s[0]].totLen - n);
    FreeKeepsRefs(m1, handles, m[s[k]].next);
    FreeFrame(m1, m[s[k]].next);
    assert s[..k + 1] == s[..k] + [s[k]];
  }

  lemma Mod16(len: nat, a: nat, d: int)
    ensures U16(U16(len + a) - d) == U16(len + U16(a - d)) == U16(len + a - d)
  {
  }

  lemma ModDiffers(x: nat, d: int)
    requires 0 < d < 0x1_0000
    ensures U16(x - d) != U16(x)
  {
  }

  /** pbuf_realloc keeps tot_len right everywhere exactly when nothing else points into what it keeps. */
  lemma ReallocTot(m: Mem, handles: multiset<Id>, rank: map<Id, nat>, s: seq<Id>, n: nat)
    requires Refs(m, handles, None) && Ranked(m, rank) && Sound(m) && AllTot(m) && Measured(m, s) && n < |Flat(m, s)|
    ensures AllTot(ReallocMem(m, s, n)) <==> !Shared(m, s[..Keep(m, s, n).0 + 1])
  {
    hide ReallocMem, Keep, Flat, IsChain;
    var m', k := ReallocMem(m, s, n), Keep(m, s, n).0;
    var t := s[..k + 1];
    forall q | q in m' ensures q in m && (TotOk(m', q) <==> q in t || !PointsInto(m, t, q)) {
      ReallocTotAt(m, handles, rank, s, n, q);
    }
    forall q | q in m && q !in t && PointsInto(m, t, q) ensures q in m' {
      OutsideSurvives(m, rank, s, n, q);
    }
  }

  /** A pbuf that points into what is kept is not in the part that is freed. */
  lemma OutsideSurvives(m: Mem, rank: map<Id, nat>, s: seq<Id>, n: nat, q: Id)
    requires Closed(m) && Ranked(m, rank) && Measured(m, s) && n <= |Flat(m, s)|
    requires q in m && PointsInto(m, s[..Keep(m, s, n).0 + 1], q)
    ensures q in ReallocMem(m, s, n)
  {
    hide Keep, Flat, ReallocMem;
    var k := Keep(m, s, n).0;
    var i: nat :| i <= k && s[i] == m[q].next.value;
    assert Falls(m, rank, q);
    if q in s[k + 1..] {
      var j: nat :| j < |s[k + 1..]| && s[k + 1..][j] == q;
      ChainRanks(m, rank, Some(s[0]), s, i, k + 1 + j);
      assert false;
    }
    KeptAt(m, rank, s, n, q);
  }
}
