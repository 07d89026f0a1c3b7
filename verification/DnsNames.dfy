/**
Host names in DNS packets (dns.c; RFC 1035 sections 3.1 and 4.1.4): the encoder, the matcher
and the skipper. A packet is its flat string of bytes, which is what pbuf_try_get_at,
pbuf_put_at and pbuf_take_at work on.
*/
module DnsNames {
  import opened Prelude
  import opened PbufSpec
  import opened PbufData

  const DOT: byte := 46
  const HDR: nat := 12
  const QUERY: nat := 4
  const FAIL: nat := 0xFFFF

  // ---------------------------------------------------------------- labels

  /** The labels, each behind its length. */
  function Raw(ls: seq<seq<byte>>): (r: seq<byte>)
    requires forall i :: 0 <= i < |ls| ==> |ls[i]| < 256
  {
    if ls == [] then [] else [|ls[0]| as byte] + ls[0] + Raw(ls[1..])
  }

  /** A name as it stands in a packet. */
  function Enc(ls: seq<seq<byte>>): seq<byte>
    requires forall i :: 0 <= i < |ls| ==> |ls[i]| < 256
  {
    Raw(ls) + [0]
  }

  /** The length up to the first dot or the end. */
  function LabelEnd(name: seq<byte>): (k: nat)
    ensures k <= |name| && (k < |name| ==> name[k] == DOT) && forall i :: 0 <= i < k ==> name[i] != DOT
  {
    if name == [] || name[0] == DOT then 0 else 1 + LabelEnd(name[1..])
  }

  /** The parts of a name between its dots. */
  function Labels(name: seq<byte>): (ls: seq<seq<byte>>)
    ensures ls != [] && forall i :: 0 <= i < |ls| ==> |ls[i]| <= |name|
    decreases |name|
  {
    var k := LabelEnd(name);
    if k == |name| then [name] else [name[..k]] + Labels(name[k + 1..])
  }

  function Join(ls: seq<seq<byte>>): seq<byte>
    requires ls != []
  {
    if |ls| == 1 then ls[0] else ls[0] + [DOT] + Join(ls[1..])
  }

  /** Nothing is lost by taking a name apart. */
  lemma {:induction false} JoinLabels(name: seq<byte>)
    ensures Join(Labels(name)) == name
    decreases |name|
  {
    var k := LabelEnd(name);
    if k < |name| {
      JoinLabels(name[k + 1..]);
      assert Labels(name)[1..] == Labels(name[k + 1..]);
      assert name == name[..k] + [DOT] + name[k + 1..];
    }
  }

  lemma EncHead(ls: seq<seq<byte>>)
    requires ls != [] && forall i :: 0 <= i < |ls| ==> |ls[i]| < 256
    ensures |Enc(ls)| == 1 + |ls[0]| + |Enc(ls[1..])| && |Enc(ls[1..])| >= 1
    ensures Enc(ls) == ([|ls[0]| as byte] + ls[0]) + Enc(ls[1..])
  {
    Assoc([|ls[0]| as byte] + ls[0], Raw(ls[1..]), [0]);
  }

  /** The name field takes exactly the length of the name and 2. */
  lemma {:induction false} EncLength(name: seq<byte>)
    requires |name| < 256
    ensures |Enc(Labels(name))| == |name| + 2
    decreases |name|
  {
    hide Enc;
    var k := LabelEnd(name);
    EncHead(Labels(name));
    if k < |name| {
      EncLength(name[k + 1..]);
      assert Labels(name)[1..] == Labels(name[k + 1..]);
    } else {
      assert Labels(name)[1..] == [];
      NoLabels();
    }
  }

  /** Labels that the matcher takes for lengths, and that do not end the name early. */
  ghost predicate Proper(ls: seq<seq<byte>>) {
    && (forall i :: 0 <= i < |ls| ==> |ls[i]| < 192)
    && (forall i :: 0 < i < |ls| ==> |ls[i]| > 0)
  }

  /** The bytes x stand in p at off. */
  ghost predicate Carries(p: seq<byte>, off: nat, x: seq<byte>) {
    off + |x| <= |p| && p[off..off + |x|] == x
  }

  lemma CarriesSplit(p: seq<byte>, off: nat, x: seq<byte>, y: seq<byte>)
    ensures Carries(p, off, x + y) <==> Carries(p, off, x) && Carries(p, off + |x|, y)
  {
    if off + |x + y| <= |p| {
      var w := p[off..off + |x + y|];
      assert w == p[off..off + |x|] + p[off + |x|..off + |x| + |y|];
      assert (x + y)[..|x|] == x && (x + y)[|x|..] == y;
      assert w[..|x|] == p[off..off + |x|] && w[|x|..] == p[off + |x|..off + |x| + |y|];
    }
  }

  lemma CarriesByte(p: seq<byte>, off: nat, b: byte)
    ensures Carries(p, off, [b]) <==> off < |p| && p[off] == b
  {
  }

  lemma RawHead(ls: seq<seq<byte>>, x: seq<byte>)
    requires ls != [] && forall i :: 0 <= i < |ls| ==> |ls[i]| < 256
    ensures Raw(ls) + x == [|ls[0]| as byte] + (ls[0] + (Raw(ls[1..]) + x))
  {
    Regroup([|ls[0]| as byte], ls[0], Raw(ls[1..]), x);
  }

  lemma Regroup(a: seq<byte>, b: seq<byte>, c: seq<byte>, d: seq<byte>)
    ensures (a + b + c) + d == a + (b + (c + d))
  {
  }

  /** A packet carries a list of labels when it carries the first and, behind it, the others. */
  lemma CarriesLabel(p: seq<byte>, off: nat, ls: seq<seq<byte>>, x: seq<byte>)
    requires ls != [] && forall i :: 0 <= i < |ls| ==> |ls[i]| < 256
    ensures Carries(p, off, Raw(ls) + x) <==>
              off < |p| && p[off] == |ls[0]| && Carries(p, off + 1, ls[0]) && Carries(p, off + 1 + |ls[0]|, Raw(ls[1..]) + x)
  {
    hide Carries;
    var n: byte := |ls[0]|;
    var tail := Raw(ls[1..]) + x;
    RawHead(ls, x);
    hide Raw;
    CarriesSplit(p, off, [n], ls[0] + tail);
    CarriesSplit(p, off + 1, ls[0], tail);
    CarriesByte(p, off, n);
  }

  lemma CarriesEnc(p: seq<byte>, off: nat, ls: seq<seq<byte>>)
    requires ls != [] && forall i :: 0 <= i < |ls| ==> |ls[i]| < 256
    ensures |Enc(ls)| == 1 + |ls[0]| + |Enc(ls[1..])|
    ensures Carries(p, off, Enc(ls)) <==>
              off < |p| && p[off] == |ls[0]| && Carries(p, off + 1, ls[0]) && Carries(p, off + 1 + |ls[0]|, Enc(ls[1..]))
    ensures |ls| == 1 ==> Enc(ls[1..]) == [0]
  {
    CarriesLabel(p, off, ls, [0]);
    if |ls| == 1 { assert ls[1..] == []; }
  }

  // ---------------------------------------------------------------- dns_compare_name

  predicate SameAt(query: nat -> byte, qi: nat, p: seq<byte>, off: nat, i: nat) {
    off + i < |p| && Lower(query(qi + i)) == Lower(p[off + i])
  }

  /** n bytes from off on are the query's from qi on, but for the case of letters. */
  predicate SameLabel(query: nat -> byte, qi: nat, p: seq<byte>, off: nat, n: nat) {
    off + n <= |p| && forall i :: 0 <= i < n ==> SameAt(query, qi, p, off, i)
  }

  /** What dns_compare_name returns from the label at off on, with its query pointer at qi. */
  function Compare(query: nat -> byte, qi: nat, p: seq<byte>, off: nat): (r: nat)
    decreases |p| - off
  {
    if off >= |p| || p[off] >= 192 then FAIL else
    var n := p[off];
    var next := off + 1 + n;
    if !SameLabel(query, qi, p, off + 1, n) || next >= |p| then FAIL
    else if p[next] == 0 then next + 1
    else Compare(query, qi + n + 1, p, next)
  }

  /** The labels are those of the query, if the byte between two labels is not looked at. */
  ghost predicate Agrees(query: nat -> byte, qi: nat, ls: seq<seq<byte>>)
    decreases |ls|
  {
    ls == [] || (SameLabel(query, qi, ls[0], 0, |ls[0]|) && Agrees(query, qi + |ls[0]| + 1, ls[1..]))
  }

  lemma SameLabelIs(query: nat -> byte, qi: nat, p: seq<byte>, off: nat, l: seq<byte>)
    requires Carries(p, off, l)
    ensures SameLabel(query, qi, p, off, |l|) <==> SameLabel(query, qi, l, 0, |l|)
  {
    forall i: nat | i < |l| ensures SameAt(query, qi, p, off, i) <==> SameAt(query, qi, l, 0, i) {
      assert l[i] == p[off..off + |l|][i] == p[off + i];
    }
  }

  lemma NoLabels()
    ensures Proper([]) && Raw([]) == [] && Enc([]) == [0]
  {
    assert Raw([]) + [0] == [0];
  }

  lemma ProperSizes(ls: seq<seq<byte>>)
    requires Proper(ls)
    ensures forall i :: 0 <= i < |ls| ==> |ls[i]| < 192
  {
  }

  lemma ProperTail(ls: seq<seq<byte>>)
    requires ls != []
    ensures Proper(ls) <==> |ls[0]| < 192 && Proper(ls[1..]) && (|ls| > 1 ==> |ls[1]| > 0)
  {
    var rest := ls[1..];
    assert forall i :: 0 <= i < |rest| ==> rest[i] == ls[i + 1];
    if |ls[0]| < 192 && Proper(rest) && (|ls| > 1 ==> |ls[1]| > 0) {
      forall i | 0 <= i < |ls| ensures |ls[i]| < 192 && (0 < i ==> |ls[i]| > 0) {
        if i > 0 { assert ls[i] == rest[i - 1]; }
      }
    }
  }

  ghost predicate Accepts(query: nat -> byte, qi: nat, p: seq<byte>, off: nat, ls: seq<seq<byte>>) {
    ls != [] && Proper(ls) && Carries(p, off, Enc(ls)) && Agrees(query, qi, ls)
  }

  /** A name that agrees with the query is accepted, up to the byte behind it. */
  lemma {:induction false} CompareAccepts(query: nat -> byte, qi: nat, p: seq<byte>, off: nat, ls: seq<seq<byte>>)
    requires Accepts(query, qi, p, off, ls)
    ensures Compare(query, qi, p, off) == off + |Enc(ls)|
    decreases |ls|
  {
    hide Carries, SameLabel, Proper, Enc;
    ProperTail(ls);
    ProperSizes(ls);
    CarriesEnc(p, off, ls);
    SameLabelIs(query, qi, p, off + 1, ls[0]);
    var n, rest := |ls[0]|, ls[1..];
    var next := off + 1 + n;
    if rest == [] {
      CarriesByte(p, next, 0);
    } else {
      ProperSizes(rest);
      CarriesEnc(p, next, rest);
      CompareAccepts(query, qi + n + 1, p, next, rest);
    }
  }

  /** What is accepted is a name that agrees with the query. */
  lemma {:induction false} CompareSound(query: nat -> byte, qi: nat, p: seq<byte>, off: nat) returns (ls: seq<seq<byte>>)
    requires Compare(query, qi, p, off) != FAIL
    ensures Accepts(query, qi, p, off, ls) && Compare(query, qi, p, off) == off + |Enc(ls)|
    ensures p[off] > 0 ==> |ls[0]| > 0
    decreases |p| - off
  {
    var n := p[off];
    var next := off + 1 + n;
    var l := p[off + 1..next];
    assert Carries(p, off + 1, l);
    hide Carries, SameLabel, Proper, Enc;
    SameLabelIs(query, qi, p, off + 1, l);
    if p[next] == 0 {
      ls := [l];
      NoLabels();
      assert ls[1..] == [];
      CarriesByte(p, next, 0);
    } else {
      var rest := CompareSound(query, qi + n + 1, p, next);
      ls := [l] + rest;
      assert ls[1..] == rest;
    }
    ProperTail(ls);
    assert Proper(ls);
    ProperSizes(ls);
    CarriesEnc(p, off, ls);
    assert Carries(p, off, Enc(ls));
    assert SameLabel(query, qi, ls[0], 0, |ls[0]|);
    assert Agrees(query, qi, ls);
  }

  /** dns_compare_name */
  method CompareName(query: nat -> byte, p: seq<byte>, start: nat) returns (r: nat)
    requires |p| < 0x1_0000
    ensures r == Compare(query, 0, p, start)
  {
    var off, qi := start, 0;
    while true
      invariant Compare(query, qi, p, off) == Compare(query, 0, p, start)
      decreases |p| - off
    {
      if off >= |p| || off == 0xFFFF {
        return FAIL;
      }
      ghost var off0, qi0 := off, qi;
      var n: nat := p[off];
      off := off + 1;
      if n >= 192 {
        return FAIL;
      }
      while n > 0
        invariant n <= p[off0] && off == off0 + 1 + p[off0] - n && qi == qi0 + p[off0] - n
        invariant SameLabel(query, qi0, p, off0 + 1, p[off0] - n)
        invariant Compare(query, qi0, p, off0) == Compare(query, 0, p, start)
      {
        if off >= |p| || Lower(query(qi)) != Lower(p[off]) || off == 0xFFFF {
          assert !SameLabel(query, qi0, p, off0 + 1, p[off0]) by {
            assert !SameAt(query, qi0, p, off0 + 1, p[off0] - n);
          }
          return FAIL;
        }
        assert SameAt(query, qi0, p, off0 + 1, p[off0] - n);
        off, qi, n := off + 1, qi + 1, n - 1;
      }
      qi := qi + 1;
      if off >= |p| {
        return FAIL;
      }
      if p[off] == 0 {
        return off + 1;
      }
    }
  }

  // ---------------------------------------------------------------- names that come back

  /** resp is name but for the case of letters. */
  ghost predicate Variant(resp: seq<byte>, name: seq<byte>) {
    |resp| == |name| && forall i :: 0 <= i < |name| ==> Lower(resp[i]) == Lower(name[i])
  }

  /** The letters A to Z and a to z pair up, and nothing else does. */
  lemma VariantIs(resp: seq<byte>, name: seq<byte>)
    ensures Variant(resp, name) <==>
            && |resp| == |name|
            && forall i :: 0 <= i < |name| ==>
                 || resp[i] == name[i]
                 || (65 <= resp[i] <= 90 && name[i] == resp[i] + 32)
                 || (65 <= name[i] <= 90 && resp[i] == name[i] + 32)
  {
  }

  lemma {:induction false} VariantProper(resp: seq<byte>, name: seq<byte>)
    requires Variant(resp, name)
    ensures Proper(Labels(resp)) <==> Proper(Labels(name))
    ensures |Labels(resp)[0]| == |Labels(name)[0]|
    decreases |name|
  {
    var k := LabelEnd(name);
    assert forall i :: 0 <= i < |name| ==> (resp[i] == DOT <==> name[i] == DOT);
    var j := LabelEnd(resp);
    assert j == k;
    if k < |name| {
      VariantProper(resp[k + 1..], name[k + 1..]);
      assert Labels(name)[1..] == Labels(name[k + 1..]) && Labels(resp)[1..] == Labels(resp[k + 1..]);
    } else {
      assert Labels(name)[1..] == [] && Labels(resp)[1..] == [];
    }
    ProperTail(Labels(name));
    ProperTail(Labels(resp));
  }

  lemma {:induction false} VariantAgrees(query: nat -> byte, qi: nat, resp: seq<byte>)
    requires SameLabel(query, qi, resp, 0, |resp|)
    ensures Agrees(query, qi, Labels(resp))
    decreases |resp|
  {
    hide SameLabel;
    var k := LabelEnd(resp);
    SameParts(query, qi, resp, k);
    if k < |resp| {
      VariantAgrees(query, qi + k + 1, resp[k + 1..]);
      assert Labels(resp)[1..] == Labels(resp[k + 1..]);
    } else {
      assert resp[..k] == resp && Labels(resp)[1..] == [];
    }
  }

  lemma SameParts(query: nat -> byte, qi: nat, resp: seq<byte>, k: nat)
    requires SameLabel(query, qi, resp, 0, |resp|) && k <= |resp|
    ensures SameLabel(query, qi, resp[..k], 0, k)
    ensures k < |resp| ==> SameLabel(query, qi + k + 1, resp[k + 1..], 0, |resp| - k - 1)
  {
    var l := resp[..k];
    forall i: nat | i < k ensures SameAt(query, qi, l, 0, i) { assert SameAt(query, qi, resp, 0, i); }
    if k < |resp| {
      var tail, qj := resp[k + 1..], qi + k + 1;
      forall i: nat | i < |tail| ensures SameAt(query, qj, tail, 0, i) { assert SameAt(query, qi, resp, 0, k + 1 + i); }
    }
  }

  /** A packet tells the labels apart. */
  lemma {:induction false} EncInjective(a: seq<seq<byte>>, b: seq<seq<byte>>)
    requires (forall i :: 0 <= i < |a| ==> |a[i]| < 256) && (forall i :: 0 <= i < |b| ==> |b[i]| < 256)
    requires Enc(a) == Enc(b)
    ensures a == b
    decreases |a|
  {
    hide Enc;
    NoLabels();
    if a != [] { EncHead(a); }
    if b != [] { EncHead(b); }
    if a != [] && b != [] {
      SelfCarries(Enc(a));
      CarriesEnc(Enc(a), 0, a);
      CarriesEnc(Enc(a), 0, b);
      var n := 1 + |a[0]|;
      assert a[0] == b[0];
      assert Enc(a[1..]) == Enc(b[1..]);
      EncInjective(a[1..], b[1..]);
      assert a == [a[0]] + a[1..] && b == [b[0]] + b[1..];
    }
  }

  lemma SelfCarries(x: seq<byte>)
    ensures Carries(x, 0, x)
  {
  }

  lemma SameCarried(p: seq<byte>, off: nat, x: seq<byte>, y: seq<byte>)
    requires Carries(p, off, x) && Carries(p, off, y) && |x| == |y|
    ensures x == y
  {
  }

  /**
  The reply to a query, in any case of letters, is recognised and its name is passed over
  exactly when no label is longer than 191 bytes and none but the first is empty.
  */
  lemma ReplyRecognised(query: nat -> byte, name: seq<byte>, resp: seq<byte>, p: seq<byte>, start: nat)
    requires |name| < 256 && (forall i: nat :: i < |name| ==> query(i) == name[i]) && Variant(resp, name)
    requires Carries(p, start, Enc(Labels(resp))) && start + |name| + 2 < 0xFFFF
    ensures Compare(query, 0, p, start) == start + |name| + 2 <==> Proper(Labels(name))
  {
    hide Enc, Compare, Carries, Labels, Proper;
    var ls := Labels(resp);
    EncLength(resp);
    VariantProper(resp, name);
    forall i: nat | i < |resp| ensures SameAt(query, 0, resp, 0, i) { assert query(0 + i) == name[i]; }
    VariantAgrees(query, 0, resp);
    if Proper(ls) {
      CompareAccepts(query, 0, p, start, ls);
    }
    if Compare(query, 0, p, start) == start + |name| + 2 {
      var found := CompareSound(query, 0, p, start);
      ProperSizes(found);
      SameCarried(p, start, Enc(found), Enc(ls));
      EncInjective(found, ls);
    }
  }

  // ---------------------------------------------------------------- what is accepted and is not the query

  ghost predicate NoDots(l: seq<byte>) {
    forall i :: 0 <= i < |l| ==> l[i] != DOT
  }

  /** The same labels but for the case of letters. */
  ghost predicate SameLabels(a: seq<seq<byte>>, b: seq<seq<byte>>) {
    |a| == |b| && forall i :: 0 <= i < |a| ==> Variant(a[i], b[i])
  }

  /** No label holds a dot, the name has one where a label ends, and it ends with the last label. */
  ghost predicate Separated(name: seq<byte>, qi: nat, ls: seq<seq<byte>>)
    requires ls != []
    decreases |ls|
  {
    var next := qi + |ls[0]|;
    && NoDots(ls[0]) && next <= |name|
    && if |ls| == 1 then next == |name| else next < |name| && name[next] == DOT && Separated(name, next + 1, ls[1..])
  }

  lemma SameLabelsHead(a: seq<seq<byte>>, b: seq<seq<byte>>)
    requires a != [] && b != []
    ensures SameLabels(a, b) <==> Variant(a[0], b[0]) && SameLabels(a[1..], b[1..])
  {
    if Variant(a[0], b[0]) && SameLabels(a[1..], b[1..]) {
      forall i | 0 <= i < |a| ensures Variant(a[i], b[i]) {
        if i > 0 { assert Variant(a[1..][i - 1], b[1..][i - 1]); }
      }
    }
    if SameLabels(a, b) {
      forall i | 0 <= i < |a[1..]| ensures Variant(a[1..][i], b[1..][i]) { assert Variant(a[i + 1], b[i + 1]); }
    }
  }

  /** A label that agrees with the query is a variant of that part of the name. */
  lemma LabelVariant(query: nat -> byte, name: seq<byte>, qi: nat, l: seq<byte>)
    requires (forall i: nat :: i < |name| ==> query(i) == name[i]) && qi + |l| <= |name| && SameLabel(query, qi, l, 0, |l|)
    ensures Variant(l, name[qi..][..|l|]) && (NoDots(l) <==> NoDots(name[qi..][..|l|]))
  {
    var w := name[qi..][..|l|];
    forall i | 0 <= i < |l| ensures Lower(l[i]) == Lower(w[i]) && (l[i] == DOT <==> w[i] == DOT) {
      assert SameAt(query, qi, l, 0, i);
      assert query(qi + i) == name[qi + i] == w[i];
    }
  }

  /** A name that dns_compare_name accepts is the query exactly when it is separated like it. */
  lemma {:induction false} AcceptedIsQuery(query: nat -> byte, name: seq<byte>, qi: nat, ls: seq<seq<byte>>)
    requires ls != [] && qi <= |name| && (forall i: nat :: i < |name| ==> query(i) == name[i]) && Agrees(query, qi, ls)
    ensures SameLabels(ls, Labels(name[qi..])) <==> Separated(name, qi, ls)
    decreases |ls|
  {
    hide SameLabels, Variant, SameLabel, Labels, LabelEnd, Agrees, Separated;
    AgreesHead(query, qi, ls);
    SeparatedHead(name, qi, ls);
    var rest, l, n := name[qi..], ls[0], |ls[0]|;
    var names := Labels(rest);
    SameLabelsHead(ls, names);
    VariantLength(l, names[0]);
    FirstLabel(rest);
    var k := LabelEnd(rest);
    if n == k {
      LabelVariant(query, name, qi, l);
      if k < |rest| && |ls| > 1 {
        AcceptedIsQuery(query, name, qi + k + 1, ls[1..]);
        assert name[qi + k + 1..] == rest[k + 1..];
      }
    } else if n < k {
      assert rest[n] == name[qi + n];
    } else if qi + n <= |name| {
      LabelVariant(query, name, qi, l);
      assert rest[..n][k] == rest[k];
    }
    NoSuchLabels(ls[1..], names[1..]);
  }

  lemma AgreesHead(query: nat -> byte, qi: nat, ls: seq<seq<byte>>)
    requires ls != [] && Agrees(query, qi, ls)
    ensures SameLabel(query, qi, ls[0], 0, |ls[0]|) && Agrees(query, qi + |ls[0]| + 1, ls[1..])
  {
  }

  lemma SeparatedHead(name: seq<byte>, qi: nat, ls: seq<seq<byte>>)
    requires ls != []
    ensures var next := qi + |ls[0]|;
            Separated(name, qi, ls) <==>
            && NoDots(ls[0]) && next <= |name|
            && if |ls| == 1 then next == |name| else next < |name| && name[next] == DOT && Separated(name, next + 1, ls[1..])
  {
  }

  lemma VariantLength(a: seq<byte>, b: seq<byte>)
    ensures Variant(a, b) ==> |a| == |b|
  {
  }

  lemma FirstLabel(name: seq<byte>)
    ensures var k, ls := LabelEnd(name), Labels(name);
            && ls[0] == name[..k] && NoDots(name[..k])
            && ls[1..] == (if k == |name| then [] else Labels(name[k + 1..]))
  {
  }

  lemma NoSuchLabels(a: seq<seq<byte>>, b: seq<seq<byte>>)
    ensures SameLabels([], [])
    ensures SameLabels(a, b) ==> (a == [] <==> b == [])
  {
  }

  /** The reply may end early: the name "a" is accepted for the query "a.b". */
  lemma PrefixAccepted(query: nat -> byte)
    requires query(0) == 97 && query(1) == DOT && query(2) == 98 && query(3) == 0
    ensures Compare(query, 0, [1, 97, 0], 0) == 3 && !Separated([97, DOT, 98], 0, [[97]])
  {
    var p: seq<byte> := [1, 97, 0];
    assert SameAt(query, 0, p, 1, 0);
    assert SameLabel(query, 0, p, 1, 1);
  }

  /** The name "a..b", whose second label is empty, and its encoding. */
  const TWO_DOTS: seq<byte> := [97, DOT, DOT, 98]
  const TWO_DOTS_ENC: seq<byte> := [1, 97, 0, 1, 98, 0]

  lemma TwoDotsEnc()
    ensures Enc(Labels(TWO_DOTS)) == TWO_DOTS_ENC && !Proper(Labels(TWO_DOTS))
  {
    var l: seq<byte>, e: seq<byte>, r: seq<byte> := [97], [], [98];
    var name := TWO_DOTS;
    assert LabelEnd(r) == 1 by { assert r[1..] == []; }
    assert Labels(r) == [r];
    assert name[2..] == [DOT] + r && LabelEnd(name[2..]) == 0 && name[2..][1..] == r && name[2..][..0] == e;
    assert Labels(name[2..]) == [e, r];
    assert LabelEnd(name) == 1 by { assert name[1..][0] == DOT; }
    assert name[..1] == l && Labels(name) == [l] + Labels(name[2..]);
    assert Labels(name) == [l, e, r];
    assert [l, e, r][1..] == [e, r] && [e, r][1..] == [r] && [r][1..] == [];
    assert Raw([r]) == [1, 98];
    assert Raw([e, r]) == [0, 1, 98];
    assert Raw([l, e, r]) == [1, 97, 0, 1, 98];
  }

  /** The empty label is taken for the end: the reply to a query for "a..b" is not passed over. */
  lemma EmptyLabelEnds(query: nat -> byte, p: seq<byte>, start: nat)
    requires query(0) == 97 && Carries(p, start, TWO_DOTS_ENC)
    ensures Compare(query, 0, p, start) == start + 3 != start + |TWO_DOTS| + 2
  {
    var e := TWO_DOTS_ENC;
    assert forall i :: 0 <= i < 6 ==> p[start + i] == p[start..start + 6][i] == e[i];
    assert p[start + 0] == 1 && p[start + 1] == 97 && p[start + 2] == 0;
    assert SameAt(query, 0, p, start + 1, 0);
    assert SameLabel(query, 0, p, start + 1, 1);
  }

  // ---------------------------------------------------------------- dns_skip_name

  /** What dns_skip_name returns from the label at off on. */
  function Skipped(p: seq<byte>, off: nat): nat
    decreases |p| - off
  {
    if off >= |p| then FAIL
    else if p[off] >= 192 then (if off + 1 == 0xFFFF then FAIL else off + 2)
    else
      var next := off + 1 + p[off];
      if next >= |p| then FAIL
      else if p[next] == 0 then next + 1
      else Skipped(p, next)
  }

  /** The labels ls stand at off, and then a zero byte or the first byte of a pointer. */
  ghost predicate Ends(p: seq<byte>, off: nat, ls: seq<seq<byte>>, t: byte) {
    Proper(ls) && Carries(p, off, Raw(ls) + [t]) && ((t == 0 && ls != []) || t >= 192)
  }

  ghost function EndOf(off: nat, ls: seq<seq<byte>>, t: byte): nat
    requires Proper(ls)
  {
    off + |Raw(ls)| + if t == 0 then 1 else 2
  }

  lemma {:induction false} SkipAccepts(p: seq<byte>, off: nat, ls: seq<seq<byte>>, t: byte)
    requires Ends(p, off, ls, t) && |p| <= 0xFFFF
    ensures Skipped(p, off) == if EndOf(off, ls, t) <= 0xFFFF then EndOf(off, ls, t) else FAIL
    decreases |ls|
  {
    hide Raw, Carries, Proper;
    NoLabels();
    assert Raw([]) + [t] == [t];
    if ls == [] {
      CarriesByte(p, off, t);
    } else {
      ProperSizes(ls);
      ProperTail(ls);
      CarriesLabel(p, off, ls, [t]);
      RawHead(ls, []);
      var rest, next := ls[1..], off + 1 + |ls[0]|;
      if rest == [] {
        CarriesByte(p, next, t);
        if t != 0 { SkipAccepts(p, next, rest, t); }
      } else {
        ProperSizes(rest);
        CarriesLabel(p, next, rest, [t]);
        SkipAccepts(p, next, rest, t);
      }
    }
  }

  lemma {:induction false} SkipSound(p: seq<byte>, off: nat) returns (ls: seq<seq<byte>>, t: byte)
    requires Skipped(p, off) != FAIL
    ensures Ends(p, off, ls, t) && Skipped(p, off) == EndOf(off, ls, t)
    ensures ls != [] && p[off] > 0 ==> |ls[0]| > 0
    decreases |p| - off
  {
    if p[off] >= 192 {
      ls, t := [], p[off];
      assert Raw(ls) + [t] == [t];
      CarriesByte(p, off, t);
    } else {
      var n := p[off];
      var next := off + 1 + n;
      var l := p[off + 1..next];
      assert Carries(p, off + 1, l);
      hide Carries, Proper;
      var rest;
      if p[next] == 0 {
        rest, t := [], 0;
        NoLabels();
        assert Raw(rest) + [t] == [t];
        CarriesByte(p, next, 0);
      } else {
        rest, t := SkipSound(p, next);
      }
      ls := [l] + rest;
      assert ls[1..] == rest;
      ProperTail(ls);
      ProperSizes(ls);
      CarriesLabel(p, off, ls, [t]);
    }
  }

  /** dns_skip_name */
  method SkipName(p: seq<byte>, start: nat) returns (r: nat)
    requires |p| <= 0xFFFF && start <= 0xFFFF
    ensures r == Skipped(p, start)
  {
    var off := start;
    while true
      invariant Skipped(p, off) == Skipped(p, start) && off <= 0xFFFF
      decreases |p| - off
    {
      if off >= |p| {
        return FAIL;
      }
      var n: nat := p[off];
      off := (off + 1) % 0x1_0000;
      if off == 0 {
        return FAIL;
      }
      if n >= 192 {
        break;
      }
      if off + n >= |p| {
        return FAIL;
      }
      off := off + n;
      if p[off] == 0 {
        break;
      }
    }
    if off == 0xFFFF {
      return FAIL;
    }
    return off + 1;
  }

  /** A pointer does not end where a name does that begins with the same labels. */
  lemma {:induction false} NoPointer(p: seq<byte>, off: nat, ls: seq<seq<byte>>, t: byte, b: seq<seq<byte>>)
    requires Proper(ls) && Carries(p, off, Raw(ls) + [t]) && t >= 192
    requires (forall i :: 0 <= i < |b| ==> |b[i]| < 256) && Carries(p, off, Enc(b))
    ensures |Raw(ls)| + 2 != |Enc(b)|
    decreases |ls|
  {
    hide Carries, Enc;
    NoLabels();
    if b != [] {
      EncHead(b);
      CarriesEnc(p, off, b);
      if ls == [] {
        assert Raw(ls) + [t] == [t];
        CarriesByte(p, off, t);
      } else {
        ProperTail(ls);
        CarriesLabel(p, off, ls, [t]);
        if |ls[0]| == |b[0]| { NoPointer(p, off + 1 + |ls[0]|, ls[1..], t, b[1..]); }
      }
    }
  }

  /** A name is skipped under the same condition as it is recognised. */
  lemma ReplySkipped(name: seq<byte>, p: seq<byte>, start: nat)
    requires |name| < 256 && Carries(p, start, Enc(Labels(name))) && start + |name| + 2 < 0xFFFF && |p| <= 0xFFFF
    ensures Skipped(p, start) == start + |name| + 2 <==> Proper(Labels(name))
  {
    hide Carries, Proper, Skipped, Labels, Raw;
    var b := Labels(name);
    EncLength(name);
    if Proper(b) { SkipAccepts(p, start, b, 0); }
    if Skipped(p, start) == start + |name| + 2 {
      var ls, t := SkipSound(p, start);
      ProperSizes(ls);
      if t >= 192 {
        NoPointer(p, start, ls, t, b);
      } else {
        SameCarried(p, start, Enc(ls), Enc(b));
        EncInjective(ls, b);
      }
    }
  }

  // ---------------------------------------------------------------- the encoder in dns_send

  /** pbuf_put_at and pbuf_take_at on the flat string. */
  function PutAt(b: seq<byte>, off: nat, x: byte): seq<byte> { if off < |b| then b[off := x] else b }

  function TakeAt(b: seq<byte>, off: nat, x: seq<byte>): seq<byte> {
    if off < |b| && off + |x| <= |b| then Over(b, off, x) else b
  }

  /**
  The query that dns_send builds in a buffer of the size it allocates: header, name, type and
  class fill it to the last byte.
  */
  method EncodeQuery(name: seq<byte>, hdr: seq<byte>, qry: seq<byte>, buf: seq<byte>) returns (p: seq<byte>)
    requires |name| < 256 && |hdr| == HDR && |qry| == QUERY && |buf| == HDR + |name| + 2 + QUERY
    ensures p == hdr + Enc(Labels(name)) + qry
  {
    hide Enc, Raw, Labels, TakeAt, PutAt;
    HeaderPut(buf, hdr);
    p := TakeAt(buf, 0, hdr);
    EncLength(name);
    var h: nat, idx: nat := 0, HDR;
    ghost var done: seq<byte> := [];
    assert name[0..] == name;
    while true
      invariant h <= |name| && idx == HDR + h && |done| == h && |p| == |buf|
      invariant p[..idx] == hdr + done && Enc(Labels(name)) == done + Enc(Labels(name[h..]))
      decreases |name| - h
    {
      var part, n := h, 0;
      while h < |name| && name[h] != DOT
        invariant part <= h <= |name| && n == h - part && forall i :: part <= i < h ==> name[i] != DOT
      {
        h, n := h + 1, n + 1;
      }
      var l := name[part..h];
      LabelFound(name, part, h);
      LabelPut(p, idx, l);
      p := PutAt(p, idx, n);
      p := TakeAt(p, idx + 1, l);
      idx := idx + n + 1;
      Assoc(hdr, done, [n as byte] + l);
      Assoc(done, [n as byte] + l, if h == |name| then [0] else Enc(Labels(name[h + 1..])));
      done := done + ([n as byte] + l);
      if h == |name| {
        break;
      }
      h := h + 1;
    }
    Finish(p, idx, hdr, done, qry);
    p := PutAt(p, idx, 0);
    idx := idx + 1;
    p := TakeAt(p, idx, qry);
  }

  lemma Assoc(a: seq<byte>, b: seq<byte>, c: seq<byte>)
    ensures (a + b) + c == a + (b + c)
  {
  }

  lemma HeaderPut(b: seq<byte>, hdr: seq<byte>)
    requires |hdr| < |b|
    ensures |TakeAt(b, 0, hdr)| == |b| && TakeAt(b, 0, hdr)[..|hdr|] == hdr + []
  {
  }

  /** The next label of the name, and what is left to encode. */
  lemma LabelFound(name: seq<byte>, part: nat, h: nat)
    requires part <= h <= |name| < 256 && (h < |name| ==> name[h] == DOT) && forall i :: part <= i < h ==> name[i] != DOT
    ensures Enc(Labels(name[part..])) ==
              ([(h - part) as byte] + name[part..h]) + if h == |name| then [0] else Enc(Labels(name[h + 1..]))
  {
    hide Enc;
    var rest := name[part..];
    var k := LabelEnd(rest);
    assert forall i :: 0 <= i < |rest| ==> rest[i] == name[part + i];
    assert k == h - part;
    assert rest[..k] == name[part..h];
    var ls := Labels(rest);
    NoLabels();
    EncHead(ls);
    if h == |name| {
      assert rest == name[part..h] && ls[1..] == [];
    } else {
      assert rest[k + 1..] == name[h + 1..];
      assert ls[1..] == Labels(name[h + 1..]);
    }
  }

  lemma LabelPut(b: seq<byte>, idx: nat, l: seq<byte>)
    requires idx + 1 + |l| < |b| && |l| < 256
    ensures var r := TakeAt(PutAt(b, idx, |l| as byte), idx + 1, l);
            |r| == |b| && r[..idx + 1 + |l|] == b[..idx] + ([|l| as byte] + l)
  {
  }

  lemma Finish(b: seq<byte>, idx: nat, hdr: seq<byte>, done: seq<byte>, qry: seq<byte>)
    requires idx + 1 + |qry| == |b| && qry != [] && b[..idx] == hdr + done
    ensures TakeAt(PutAt(b, idx, 0), idx + 1, qry) == hdr + (done + [0]) + qry
  {
    var r := TakeAt(PutAt(b, idx, 0), idx + 1, qry);
    assert r == b[..idx] + [0] + qry;
  }
}
