/**
When pbuf_copy succeeds, as a condition on the lengths of the pbufs of the two chains.
pbuf_copy refuses what it takes for a packet queue: a pbuf that holds all that is left of the
packet and is not the last of its chain.
*/
module CopyLengths {
  datatype Err = Ok | ErrMem | ErrVal | ErrArg

  function Sum(l: seq<nat>): nat {
    if l == [] then 0 else l[0] + Sum(l[1..])
  }

  /** The first pbuf holds all bytes, but the chain goes on. */
  predicate Tail(l: seq<nat>) {
    |l| > 1 && Sum(l[1..]) == 0
  }

  /** The rounds of pbuf_copy from offsets of and ot in the first pbufs of ls and lt on. */
  function Walk(ls: seq<nat>, lt: seq<nat>, of: nat, ot: nat): Err
    requires ls != [] && lt != [] && of <= ls[0] && ot <= lt[0]
    decreases |ls| + |lt|
  {
    var len := if lt[0] - ot >= ls[0] - of then ls[0] - of else lt[0] - ot;
    var ls', of' := if of + len >= ls[0] then ls[1..] else ls, if of + len >= ls[0] then 0 else of + len;
    var lt', ot' := if ot + len == lt[0] then lt[1..] else lt, if ot + len == lt[0] then 0 else ot + len;
    if lt' == [] && ls' != [] then ErrArg
    else if Tail(ls') || Tail(lt') then ErrVal
    else if ls' == [] then Ok
    else Walk(ls', lt', of', ot')
  }

  /** How many bytes these rounds copy, whether they end well or not. */
  function Moved(ls: seq<nat>, lt: seq<nat>, of: nat, ot: nat): nat
    requires ls != [] && lt != [] && of <= ls[0] && ot <= lt[0]
    decreases |ls| + |lt|
  {
    var len := if lt[0] - ot >= ls[0] - of then ls[0] - of else lt[0] - ot;
    var ls', of' := if of + len >= ls[0] then ls[1..] else ls, if of + len >= ls[0] then 0 else of + len;
    var lt', ot' := if ot + len == lt[0] then lt[1..] else lt, if ot + len == lt[0] then 0 else ot + len;
    if ls' == [] || lt' == [] || Tail(ls') || Tail(lt') then len else len + Moved(ls', lt', of', ot')
  }

  // ---------------------------------------------------------------- the condition

  /** The chain does not go on behind its bytes. */
  predicate Clean(l: seq<nat>) {
    |l| == 1 || (|l| > 1 && l[|l| - 1] > 0)
  }

  /** The pbuf with the last byte. */
  function LastByte(l: seq<nat>): (e: nat)
    requires l != []
    ensures e < |l|
  {
    if Sum(l[1..]) == 0 then 0 else 1 + LastByte(l[1..])
  }

  /** A clean source is not stopped by the target: the copy ends before the target's last bytes. */
  predicate TargetOk(ls: seq<nat>, lt: seq<nat>)
    requires ls != [] && lt != []
  {
    var e, n := LastByte(lt), Sum(ls);
    || Clean(lt)
    || (e == 0 && |lt| == 2 && |ls| == 1 && ls[0] == lt[0])
    || (e > 0 && n < Sum(lt[..e]))
    || (e > 0 && n == Sum(lt[..e]) && lt[e - 1] == 0 && (n > 0 || e > 1))
  }

  /** The only source that is not clean and can be copied is one pbuf with an empty one behind it. */
  predicate CopyOk(ls: seq<nat>, lt: seq<nat>)
    requires ls != [] && lt != []
  {
    if Clean(ls) then TargetOk(ls, lt)
    else
      && |ls| == 2 && ls[0] <= lt[0]
      && (ls[0] < lt[0] ==> !Tail(lt))
      && (ls[0] == lt[0] ==> |lt| > 1 && !Tail(lt[1..]) && (lt[1] == 0 ==> !Tail(lt[2..])))
  }

  // ---------------------------------------------------------------- facts on lengths

  lemma {:induction false} SumZero(l: seq<nat>, i: nat)
    requires Sum(l) == 0 && i < |l|
    ensures l[i] == 0
    decreases i
  {
    if i > 0 { SumZero(l[1..], i - 1); }
  }

  lemma {:induction false} SumPositive(l: seq<nat>)
    requires l != [] && l[|l| - 1] > 0
    ensures Sum(l) > 0
    decreases |l|
  {
    if |l| > 1 { SumPositive(l[1..]); }
  }

  lemma {:induction false} SumAtLeast(l: seq<nat>, e: nat)
    requires 0 < e <= |l|
    ensures l[0] <= Sum(l[..e]) <= Sum(l) && Sum(l[..e]) == l[0] + Sum(l[1..][..e - 1])
    decreases e
  {
    assert l[..e][1..] == l[1..][..e - 1];
    if e > 1 { SumAtLeast(l[1..], e - 1); }
  }

  lemma CleanTail(l: seq<nat>)
    requires Clean(l)
    ensures !Tail(l) && (|l| > 1 ==> Clean(l[1..]))
  {
    if |l| > 1 { SumPositive(l[1..]); }
  }

  lemma UncleanTail(l: seq<nat>)
    requires l != [] && !Clean(l)
    ensures |l| > 1 && (LastByte(l) == 0 <==> Tail(l))
    ensures LastByte(l) > 0 ==> !Clean(l[1..]) && LastByte(l[1..]) == LastByte(l) - 1
  {
    if |l| == 2 { assert l[1..] == [l[1]] && [l[1]][1..] == []; }
  }

  // ---------------------------------------------------------------- when the walk succeeds

  /** A pbuf behind the first that ends the bytes, but not the chain, is always noticed. */
  lemma {:induction false} QueueRefused(ls: seq<nat>, lt: seq<nat>, of: nat, ot: nat, k: nat)
    requires ls != [] && lt != [] && of <= ls[0] && ot <= lt[0] && 0 < k < |ls| && Tail(ls[k..])
    ensures Walk(ls, lt, of, ot) != Ok
    decreases |ls| + |lt|
  {
    var len := if lt[0] - ot >= ls[0] - of then ls[0] - of else lt[0] - ot;
    var ls', of' := if of + len >= ls[0] then ls[1..] else ls, if of + len >= ls[0] then 0 else of + len;
    var lt', ot' := if ot + len == lt[0] then lt[1..] else lt, if ot + len == lt[0] then 0 else ot + len;
    assert ls[1..][k - 1..] == ls[k..] && ls[1..] == ls[1..][0..];
    if lt' != [] {
      if ls' == ls && of + len < ls[0] {
        QueueRefused(ls', lt', of', ot', k);
      } else if k > 1 {
        QueueRefused(ls', lt', of', ot', k - 1);
      }
    }
  }

  /** A clean source into a clean target: nothing can go wrong. */
  lemma {:induction false} CleanWalk(ls: seq<nat>, lt: seq<nat>, of: nat, ot: nat)
    requires ls != [] && lt != [] && of <= ls[0] && ot <= lt[0] && Clean(ls) && Clean(lt)
    requires Sum(ls) - of <= Sum(lt) - ot && (of < Sum(ls) || |ls| == 1)
    ensures Walk(ls, lt, of, ot) == Ok
    decreases |ls| + |lt|
  {
    var len := if lt[0] - ot >= ls[0] - of then ls[0] - of else lt[0] - ot;
    var ls', of' := if of + len >= ls[0] then ls[1..] else ls, if of + len >= ls[0] then 0 else of + len;
    var lt', ot' := if ot + len == lt[0] then lt[1..] else lt, if ot + len == lt[0] then 0 else ot + len;
    CleanTail(ls);
    CleanTail(lt);
    if ls' != [] {
      if |ls| > 1 { SumPositive(ls[1..]); }
      assert of' < Sum(ls');
      assert lt' != [];
      CleanTail(ls');
      CleanTail(lt');
      CleanWalk(ls', lt', of', ot');
    } else if lt' != [] {
      CleanTail(lt');
    }
  }

  lemma WalkStep(ls: seq<nat>, lt: seq<nat>, of: nat, ot: nat)
    requires ls != [] && lt != [] && of <= ls[0] && ot <= lt[0]
    ensures var len := if lt[0] - ot >= ls[0] - of then ls[0] - of else lt[0] - ot;
            var ls', of' := if of + len >= ls[0] then ls[1..] else ls, if of + len >= ls[0] then 0 else of + len;
            var lt', ot' := if ot + len == lt[0] then lt[1..] else lt, if ot + len == lt[0] then 0 else ot + len;
            Walk(ls, lt, of, ot) ==
            if lt' == [] && ls' != [] then ErrArg
            else if Tail(ls') || Tail(lt') then ErrVal
            else if ls' == [] then Ok
            else Walk(ls', lt', of', ot')
  {
  }

  /** A clean source with bytes left, into a target whose last byte is not in its current pbuf. */
  lemma {:induction false} TargetWalk(ls: seq<nat>, lt: seq<nat>, of: nat, ot: nat)
    requires ls != [] && lt != [] && of <= ls[0] && ot <= lt[0] && Clean(ls) && !Clean(lt) && LastByte(lt) > 0
    requires of < Sum(ls) && Sum(ls) - of <= Sum(lt) - ot
    ensures var e, n := LastByte(lt), Sum(ls) - of + ot;
            Walk(ls, lt, of, ot) == Ok <==> n < Sum(lt[..e]) || (n == Sum(lt[..e]) && lt[e - 1] == 0)
    decreases |ls| + |lt|
  {
    hide Walk;
    WalkStep(ls, lt, of, ot);
    var len := if lt[0] - ot >= ls[0] - of then ls[0] - of else lt[0] - ot;
    var ls', of' := if of + len >= ls[0] then ls[1..] else ls, if of + len >= ls[0] then 0 else of + len;
    var e := LastByte(lt);
    CleanTail(ls);
    UncleanTail(lt);
    SumAtLeast(lt, e);
    if |ls| > 1 { SumPositive(ls[1..]); }
    assert ls' != [] ==> of' < Sum(ls');
    if ls' != [] { CleanTail(ls'); }
    if ot + len == lt[0] {
      var lt' := lt[1..];
      UncleanTail(lt');
      if e > 1 {
        SumAtLeast(lt', e - 1);
        if ls' != [] {
          TargetWalk(ls', lt', of', 0);
        } else if Sum(lt'[..e - 1]) == 0 {
          SumZero(lt'[..e - 1], e - 2);
        }
      } else {
        assert lt[..1] == [lt[0]] && [lt[0]][1..] == [];
      }
    } else {
      if ls' != [] { TargetWalk(ls', lt, of', ot + len); }
    }
  }

  /** A clean source into a target that goes on behind its bytes. */
  lemma CleanSource(ls: seq<nat>, lt: seq<nat>)
    requires ls != [] && lt != [] && Sum(ls) <= Sum(lt) && Clean(ls) && !Clean(lt)
    ensures Walk(ls, lt, 0, 0) == Ok <==> TargetOk(ls, lt)
  {
    UncleanTail(lt);
    CleanTail(ls);
    var e := LastByte(lt);
    if |ls| > 1 { SumPositive(ls[1..]); } else { assert ls[1..] == []; }
    if e == 0 {
      assert Sum(lt) == lt[0];
      assert Tail(lt[1..]) <==> |lt| > 2 by { if |lt| > 2 { TailOfZeros(lt[1..]); } }
    } else if Sum(ls) > 0 {
      TargetWalk(ls, lt, 0, 0);
    } else {
      SumAtLeast(lt, e);
      UncleanTail(lt[1..]);
      if lt[0] == 0 && e > 1 && Sum(lt[..e]) == 0 { SumZero(lt[..e], e - 1); }
      if e == 1 { assert lt[..1] == [lt[0]] && [lt[0]][1..] == []; }
    }
  }

  lemma TailOfZeros(l: seq<nat>)
    requires |l| > 1 && Sum(l) == 0
    ensures Tail(l)
  {
  }

  /** One pbuf with an empty one behind it. */
  lemma EmptyBehind(ls: seq<nat>, lt: seq<nat>)
    requires |ls| == 2 && ls[1] == 0 && lt != [] && Sum(ls) <= Sum(lt)
    ensures Walk(ls, lt, 0, 0) == Ok <==> CopyOk(ls, lt)
  {
    var rest := ls[1..];
    assert rest == [0] && rest[1..] == [];
    assert Tail(ls) && !Tail(rest) && !Tail([]);
    if ls[0] < lt[0] {
      assert Walk(ls, lt, 0, 0) == if Tail(lt) then ErrVal else Walk(rest, lt, 0, ls[0]);
    } else if ls[0] == lt[0] && |lt| > 1 {
      assert lt[1..][1..] == lt[2..];
      assert Walk(ls, lt, 0, 0) == if Tail(lt[1..]) then ErrVal else Walk(rest, lt[1..], 0, 0);
    }
  }

  /** pbuf_copy of a source that fits succeeds exactly under the condition. */
  lemma WalkIs(ls: seq<nat>, lt: seq<nat>)
    requires ls != [] && lt != [] && Sum(ls) <= Sum(lt)
    ensures Walk(ls, lt, 0, 0) == Ok <==> CopyOk(ls, lt)
  {
    if Clean(ls) {
      if Clean(lt) {
        if |ls| > 1 { SumPositive(ls); }
        CleanWalk(ls, lt, 0, 0);
      } else {
        CleanSource(ls, lt);
      }
    } else if |ls| == 2 {
      EmptyBehind(ls, lt);
    } else {
      var k := |ls| - 2;
      assert ls[k..][1..] == [0] && [0][1..] == [];
      QueueRefused(ls, lt, 0, 0, k);
    }
  }

  /** A target with room to spare is refused once the whole source is in it. */
  lemma RefusedExample()
    ensures !CopyOk([5], [10, 0]) && Walk([5], [10, 0], 0, 0) == ErrVal && CopyOk([5], [10])
    ensures Moved([5], [10, 0], 0, 0) == 5
  {
    assert [10, 0][1..] == [0] && [0][1..] == [] && [5][1..] == [];
  }

  /** Rounds that end well copy everything. */
  lemma {:induction false} MovedAll(ls: seq<nat>, lt: seq<nat>, of: nat, ot: nat)
    requires ls != [] && lt != [] && of <= ls[0] && ot <= lt[0] && Walk(ls, lt, of, ot) == Ok
    ensures Moved(ls, lt, of, ot) == Sum(ls) - of
    decreases |ls| + |lt|
  {
    var len := if lt[0] - ot >= ls[0] - of then ls[0] - of else lt[0] - ot;
    var ls', of' := if of + len >= ls[0] then ls[1..] else ls, if of + len >= ls[0] then 0 else of + len;
    var lt', ot' := if ot + len == lt[0] then lt[1..] else lt, if ot + len == lt[0] then 0 else ot + len;
    if ls' != [] { MovedAll(ls', lt', of', ot'); }
  }
}
