/**
Reachable states in which an operation of pbuf.c leaves a wrong tot_len behind: a pbuf outside
the chain that is changed points into it.
*/
module PbufExamples {
  import opened Prelude
  import opened PbufSpec
  import opened PbufShape
  import opened PbufHeader
  import opened PbufPool
  import opened Pbufs
  import opened PbufData
  import opened CopyLengths

  /** The chain a, b, c of pbufs of two bytes each, with a handle on every one of them. */
  ghost predicate Three(m: Mem, handles: multiset<Id>, a: Id, b: Id, c: Id) {
    && a in m && b in m && c in m && a != b && b != c && a != c
    && m[a].next == Some(b) && m[b].next == Some(c) && m[c].next == None
    && m[a].len == 2 && m[b].len == 2 && m[c].len == 2 && m[b].off == 4 && m[b].contiguous
    && m[c].totLen == 2 && m[b].totLen == 4 && m[a].ref == 1
    && handles == multiset{a, b, c}
  }

  ghost function Linked(m: Mem, x: Id, y: Id): Mem
    requires x in m && y in m
  {
    m[x := m[x].(totLen := U16(m[x].totLen + m[y].totLen), next := Some(y))][y := m[y].(ref := m[y].ref + 1)]
  }

  /** pbuf_chain of a single pbuf that nothing points to. */
  method Link(heap: PbufHeap, x: Id, y: Id)
    requires heap.Valid() && AllTot(heap.mem) && x in heap.mem && y in heap.handles && y in heap.mem && x != y
    requires heap.mem[x].next == None && Preds(heap.mem, x) == {} && heap.mem[y].ref < 255
    modifies heap
    ensures heap.Valid() && AllTot(heap.mem) && heap.handles == old(heap.handles)
    ensures heap.mem == Linked(old(heap.mem), x, y)
  {
    hide Refs, Ranked, Sound, AllTot, U16;
    ghost var m, s, t := heap.mem, heap.Ids(Some(x)), heap.Ids(Some(y));
    OneChain(m, x);
    IdsTail(m, Some(x), s, [x]);
    NotReached(m, x, y, t);
    ClosedOf(m, heap.handles);
    LinkTot(m, heap.rank, x, y, t);
    heap.Chain(x, y);
  }

  lemma OneChain(m: Mem, x: Id)
    requires x in m && m[x].next == None
    ensures IsChain(m, Some(x), [x])
  {
    assert [x][1..] == [];
  }

  lemma NotReached(m: Mem, x: Id, y: Id, t: seq<Id>)
    requires IsChain(m, Some(y), t) && x != y && x in m && Preds(m, x) == {}
    ensures x !in t
  {
    forall i | 0 <= i < |t| ensures t[i] != x {
      ChainAt(m, Some(y), t, i);
      if i > 0 {
        ChainAt(m, Some(y), t, i - 1);
        assert t[i - 1] in Preds(m, t[i]);
      }
    }
  }

  lemma LinkTot(m: Mem, rank: map<Id, nat>, x: Id, y: Id, t: seq<Id>)
    requires Closed(m) && Ranked(m, rank) && Sound(m) && AllTot(m) && x in m && y in m && IsChain(m, Some(x), [x])
    requires IsChain(m, Some(y), t) && x !in t && Preds(m, x) == {}
    ensures var m1 := CatMem(m, [x], y);
            && y in m1 && AllTot(m1[y := m1[y].(ref := m1[y].ref + 1)])
            && (x != y ==> m1[y := m1[y].(ref := m1[y].ref + 1)] == Linked(m, x, y))
  {
    hide U16;
    CatTot(m, rank, [x], y, t);
    forall q | q in m && PointsInto(m, [x], q) ensures q in Preds(m, x) { }
    var m1 := CatMem(m, [x], y);
    var m2 := m1[y := m1[y].(ref := m1[y].ref + 1)];
    forall q | q in m2 ensures TotOk(m2, q) { assert TotOk(m1, q); }
  }

  ghost function Single(): Pbuf {
    Pbuf(None, seq(8, _ => 0), 4, 2, 2, 1, true)
  }

  method Build() returns (heap: PbufHeap, a: Id, b: Id, c: Id)
    ensures fresh(heap) && heap.Valid() && AllTot(heap.mem) && Three(heap.mem, heap.handles, a, b, c)
  {
    hide AllTot, Refs, Ranked, Sound, Three, Linked, Preds;
    heap := new PbufHeap();
    NoPbufs();
    var buf := seq(8, _ => 0);
    a := heap.AllocOne(buf, 4, 2, true);
    b := heap.AllocOne(buf, 4, 2, true);
    c := heap.AllocOne(buf, 4, 2, true);
    ghost var m := heap.mem;
    assert m == map[a := Single(), b := Single(), c := Single()] && heap.handles == multiset{a, b, c};
    Steps(m, a, b, c);
    Link(heap, b, c);
    Link(heap, a, b);
  }

  lemma Steps(m: Mem, a: Id, b: Id, c: Id)
    requires a != b && b != c && a != c && m == map[a := Single(), b := Single(), c := Single()]
    ensures Preds(m, b) == {} && m[b].next == None && m[c].ref < 255
    ensures var m1 := Linked(m, b, c);
            && a in m1 && b in m1 && m1[a].next == None && Preds(m1, a) == {} && m1[b].ref < 255
            && Three(Linked(m1, a, b), multiset{a, b, c}, a, b, c)
  {
  }

  /** The chain from b on, which a points into. */
  lemma FromB(m: Mem, handles: multiset<Id>, a: Id, b: Id, c: Id)
    requires Three(m, handles, a, b, c) && Sound(m) && AllTot(m)
    ensures IsChain(m, Some(b), [b, c]) && Measured(m, [b, c]) && |Flat(m, [b, c])| == 4
    ensures a in Preds(m, b) && TotOk(m, b) && PointsInto(m, [b], a) && PointsInto(m, [b, c], a)
  {
    assert [b, c][1..] == [c] && [c][1..] == [];
    assert m[b].WellFormed() && m[c].WellFormed() && TotOk(m, b) && TotOk(m, c);
    FlatHead(m, [b, c]);
    FlatHead(m, [c]);
    FlatHead(m, []);
  }

  method RemoveHeaderSpoils() returns (heap: PbufHeap, b: Id, ghost before: Mem)
    ensures fresh(heap) && heap.Valid() && AllTot(before) && !AllTot(heap.mem)
    ensures b in before && before[b].len >= 1 && heap.mem == RemoveHdr(before, b, 1)
  {
    hide AllTot, Refs, Ranked, Sound, RemoveHdr;
    var a, c;
    heap, a, b, c := Build();
    before := heap.mem;
    FromB(before, heap.handles, a, b, c);
    ClosedOf(before, heap.handles);
    RemoveTot(before, heap.rank, b, 1);
    var failed := heap.RemoveHeader(Some(b), 1);
  }

  method AddHeaderSpoils() returns (heap: PbufHeap, b: Id, ghost before: Mem)
    ensures fresh(heap) && heap.Valid() && AllTot(before) && !AllTot(heap.mem)
    ensures b in before && before[b].off >= 1 && heap.mem == AddHdr(before, b, 1)
  {
    hide AllTot, Refs, Ranked, Sound, AddHdr;
    var a, c;
    heap, a, b, c := Build();
    before := heap.mem;
    FromB(before, heap.handles, a, b, c);
    ClosedOf(before, heap.handles);
    AddTot(before, heap.rank, b, 1);
    var failed := heap.AddHeader(Some(b), 1, false);
  }

  method ReallocSpoils() returns (heap: PbufHeap, b: Id, c: Id, ghost before: Mem)
    ensures fresh(heap) && heap.Valid() && AllTot(before) && !AllTot(heap.mem)
    ensures Measured(before, [b, c]) && |Flat(before, [b, c])| == 4 && heap.mem == ReallocMem(before, [b, c], 1)
  {
    hide AllTot, Refs, Ranked, Sound, ReallocMem, Flat, IsChain, TotAlong;
    var a;
    heap, a, b, c := Build();
    before := heap.mem;
    FromB(before, heap.handles, a, b, c);
    IdsTail(before, Some(b), heap.Ids(Some(b)), [b, c]);
    ReallocTot(before, heap.handles, heap.rank, [b, c], 1);
    KeepHere(before, [b, c], 1);
    assert [b, c][..1] == [b];
    heap.Realloc(b, 1);
  }

  method DechainSpoils() returns (heap: PbufHeap, b: Id, ghost before: Mem)
    ensures fresh(heap) && heap.Valid() && AllTot(before) && !AllTot(heap.mem)
    ensures b in before && heap.mem == FreeFrom(Cut(before, b), before[b].next).mem
  {
    hide AllTot, Refs, Ranked, Sound, Cut, FreeFrom, Lone, IsChain;
    var a, c;
    heap, a, b, c := Build();
    before := heap.mem;
    FromB(before, heap.handles, a, b, c);
    DechainTot(before, heap.handles, heap.rank, b);
    var r := heap.Dechain(b);
  }

  method CatSpoils() returns (heap: PbufHeap, b: Id, c: Id, d: Id, ghost before: Mem)
    ensures fresh(heap) && heap.Valid() && AllTot(before) && !AllTot(heap.mem)
    ensures d in before && heap.mem == CatMem(before, [b, c], d)
  {
    hide AllTot, Refs, Ranked, Sound, CatMem, IsChain, Flat, TotAlong;
    var a;
    heap, a, b, c := Build();
    d := heap.AllocOne([0], 0, 1, true);
    before := heap.mem;
    FromB(before, heap.handles - multiset{d}, a, b, c);
    OneChain(before, d);
    ClosedOf(before, heap.handles);
    IdsTail(before, Some(b), heap.Ids(Some(b)), [b, c]);
    IdsTail(before, Some(d), heap.Ids(Some(d)), [d]);
    CatTot(before, heap.rank, [b, c], d, [d]);
    heap.Cat(Some(b), Some(d));
  }

  method FreeHeaderSpoils() returns (heap: PbufHeap, a: Id, ghost before: Mem, ghost s: seq<Id>)
    ensures fresh(heap) && heap.Valid() && AllTot(before) && !AllTot(heap.mem)
    ensures Within(before, s) && Distinct(s) && s != [] && s[0] == a && heap.mem == HeadersOff(before, s, 2).0
  {
    hide AllTot, Refs, Ranked, Sound, HeadersOff, IsChain, Distinct;
    var b, c;
    heap, a, b, c := Build();
    RefTot(heap.mem, a);
    heap.Ref(Some(a));
    before := heap.mem;
    s := heap.Ids(Some(a));
    IdsSound(before, heap.handles, heap.rank, Some(a), s);
    HeadsChain(before, a, s);
    HeadersTot(before, heap.handles, heap.rank, s, 2);
    NotClean(before, s, b);
    var r := heap.FreeHeader(Some(a), 2);
  }

  lemma RefTot(m: Mem, a: Id)
    requires AllTot(m) && a in m
    ensures AllTot(m[a := m[a].(ref := m[a].ref + 1)])
  {
    var m' := m[a := m[a].(ref := m[a].ref + 1)];
    forall q | q in m' ensures TotOk(m', q) { assert TotOk(m, q); }
  }

  lemma HeadsChain(m: Mem, a: Id, s: seq<Id>)
    requires IsChain(m, Some(a), s)
    ensures s != [] && s[0] == a
  {
  }

  lemma NotClean(m: Mem, s: seq<Id>, b: Id)
    requires Within(m, s) && s != [] && m[s[0]].len == 2 && m[s[0]].ref == 2 && m[s[0]].next == Some(b) && b in m && m[b].totLen > 0
    ensures !HeadersClean(m, s, 2)
  {
    assert Drops(m, s, 2).0 > 0;
    assert !DropOk(m, s, 0);
  }

  /** pbuf_copy refuses a target of ten bytes with an empty pbuf behind them, for a source of five. */
  method CopyRefuses() returns (heap: PbufHeap, from: Id, to: Id, ghost t: seq<Id>, ghost before: Mem, err: Err)
    ensures fresh(heap) && heap.Valid() && err == ErrVal
    ensures IsChain(before, Some(to), t) && Within(before, t) && Lens(before, t) == [10, 0]
    ensures IsChain(before, Some(from), [from]) && Within(before, [from]) && Lens(before, [from]) == [5]
    ensures Within(heap.mem, t) && |Flat(before, [from])| == 5 <= |Flat(heap.mem, t)| && Flat(heap.mem, t)[..5] == Flat(before, [from])
  {
    hide AllTot, Refs, Ranked, Sound, IsChain, Flat, TotAlong, Linked, Walk, Moved, CopyOk, Preds, Measured;
    heap := new PbufHeap();
    NoPbufs();
    from := heap.AllocOne(seq(5, _ => 0), 0, 5, true);
    to := heap.AllocOne(seq(10, _ => 0), 0, 10, true);
    var last := heap.AllocOne([], 0, 0, true);
    ghost var m := heap.mem;
    TwoSteps(m, from, to, last);
    Link(heap, to, last);
    before := heap.mem;
    t := [to, last];
    TwoChains(before, from, to, last);
    RefusedExample();
    ghost var n;
    err, n := Copy(heap, Some(to), Some(from), t, [from]);
    ghost var f := Flat(before, [from]);
    assert f[..5] == f;
  }

  lemma TwoSteps(m: Mem, from: Id, to: Id, last: Id)
    requires from != to && to != last && from != last && m.Keys == {from, to, last}
    requires m[from].next == None && m[to].next == None && m[last].next == None && m[last].ref == 1
    ensures Preds(m, to) == {} && m[to].next == None
    ensures var m' := Linked(m, to, last);
            && m'.Keys == m.Keys && m'[from] == m[from] && m'[to] == m[to].(totLen := U16(m[to].totLen + m[last].totLen), next := Some(last))
            && m'[last] == m[last].(ref := 2)
  {
  }

  lemma TwoChains(m: Mem, from: Id, to: Id, last: Id)
    requires from != to && to != last && from != last && m.Keys == {from, to, last} && Sound(m) && AllTot(m)
    requires m[from].next == None && m[to].next == Some(last) && m[last].next == None
    requires m[from].len == 5 && m[to].len == 10 && m[last].len == 0
    ensures IsChain(m, Some(to), [to, last]) && Measured(m, [to, last]) && |Flat(m, [to, last])| == 10
    ensures IsChain(m, Some(from), [from]) && Measured(m, [from]) && |Flat(m, [from])| == 5
    ensures Lens(m, [to, last]) == [10, 0] && Lens(m, [from]) == [5]
  {
    assert [to, last][1..] == [last] && [last][1..] == [] && [from][1..] == [];
    assert m[from].WellFormed() && m[to].WellFormed() && m[last].WellFormed() && TotOk(m, from) && TotOk(m, to) && TotOk(m, last);
    FlatHead(m, [to, last]);
    FlatHead(m, [last]);
    FlatHead(m, [from]);
    FlatHead(m, []);
  }
}
