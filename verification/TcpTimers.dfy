/**
The periodic walks of tcp.c over the active PCB list. Application callbacks run in the
middle of a walk and may add or remove PCBs, which restarts it.
*/
module TcpTimers {
  import opened Prelude

  const MAX_RTX := 12
  const SYN_MAX_RTX := 6
  const SLOW_INTERVAL := 500
  const FIN_WAIT_TIMEOUT := 20000
  const SYN_RCVD_TIMEOUT := 20000
  const MSL := 60000
  const MAX_IDLE := 9 * 75000

  datatype State = SynSent | SynRcvd | Established | FinWait1 | FinWait2 | CloseWait | Closing | LastAck | TimeWait | Closed

  /** The fields of struct tcp_pcb that decide how a walk treats it. */
  datatype Pcb = Pcb(
    state: State, nrtx: nat, persistBackoff: nat, persistProbe: nat, rxClosed: bool,
    keepalive: bool, keepIdle: nat, tmr: nat, lastTimer: nat, polltmr: nat, pollInterval: nat, refusedData: bool)
  {
    function Age(ticks: nat): nat {
      (ticks - tmr) % 0x1_0000_0000
    }

    predicate Outlived(ticks: nat) {
      Age(ticks) > 2 * MSL / SLOW_INTERVAL
    }

    /** Kept and marked by tcp_slowtmr. */
    function Polled(ctr: nat): Pcb {
      var t := (polltmr + 1) % 256;
      this.(lastTimer := ctr, polltmr := if t >= pollInterval then 0 else t)
    }

    /** The decision of tcp_slowtmr to drop an active PCB. */
    predicate Expired(ticks: nat) {
      || (state == SynSent && nrtx >= SYN_MAX_RTX)
      || nrtx >= MAX_RTX
      || (persistBackoff > 0 && persistProbe >= MAX_RTX)
      || (state == FinWait2 && rxClosed && Age(ticks) > FIN_WAIT_TIMEOUT / SLOW_INTERVAL)
      || (keepalive && (state == Established || state == CloseWait)
          && Age(ticks) > (keepIdle + MAX_IDLE) / SLOW_INTERVAL)
      || (state == SynRcvd && Age(ticks) > SYN_RCVD_TIMEOUT / SLOW_INTERVAL)
      || (state == LastAck && Age(ticks) > 2 * MSL / SLOW_INTERVAL)
    }
  }

  /** tcp_alloc: a new PCB is born with the mark of the current tick. */
  function Born(ticks: nat, ctr: nat): Pcb {
    Pcb(Closed, 0, 0, 0, false, false, 7200000, ticks, ctr, 0, 0, false)
  }

  /** What an application does from inside a callback; PCBs are named by their address. */
  datatype Action =
    | New              // tcp_new
    | Connect(id: nat) // tcp_connect of a PCB on no list
    | Remove(k: nat)   // tcp_abort of the k-th active PCB, by the application or by tcp_alloc
    | KillTw(k: nat)   // tcp_alloc takes the k-th PCB in TIME-WAIT
    | Close(id: nat)   // tcp_close of a PCB on no list, which frees it
    | Alter(id: nat, pcb: Pcb) // tcp_close, tcp_poll and others change any field but last_timer

  predicate AltersNothing(script: seq<seq<Action>>) {
    forall i, j :: 0 <= i < |script| && 0 <= j < |script[i]| ==> !script[i][j].Alter?
  }

  /** No callback takes a PCB from the active or the TIME-WAIT list. */
  predicate RemovesNothing(script: seq<seq<Action>>) {
    forall i, j :: 0 <= i < |script| && 0 <= j < |script[i]| ==> !script[i][j].Remove? && !script[i][j].KillTw?
  }

  /** What is left of the script after n callbacks. */
  function Unused(script: seq<seq<Action>>, n: nat): seq<seq<Action>> {
    if n <= |script| then script[n..] else []
  }

  lemma UnusedNext(script: seq<seq<Action>>, n: nat)
    ensures Unused(Unused(script, n), 1) == Unused(script, n + 1) && Unused(script, 0) == script
  {
  }

  function Drop(s: seq<nat>, k: nat): (r: seq<nat>)
    requires k < |s|
  {
    s[..k] + s[k + 1..]
  }

  lemma DropDistinct(s: seq<nat>, k: nat)
    requires Distinct(s) && k < |s|
    ensures Distinct(Drop(s, k)) && forall y :: y in Drop(s, k) <==> y in s && y != s[k]
  {
    var r := Drop(s, k);
    assert forall i :: 0 <= i < |r| ==> r[i] == s[if i < k then i else i + 1];
    forall y | y in s && y != s[k] ensures y in r {
      var i :| 0 <= i < |s| && s[i] == y;
      assert r[if i < k then i else i - 1] == y;
    }
  }

  /** m without key k. */
  function Freed(m: map<nat, Pcb>, k: nat): map<nat, Pcb> {
    map p | p in m && p != k :: m[p]
  }

  /**
  What callbacks leave of the PCBs in memory: existing ones keep their mark or are gone, new
  ones are marked. If `same`, existing ones are not changed at all.
  */
  ghost predicate Untouched(pcbs0: map<nat, Pcb>, next0: nat, pcbs: map<nat, Pcb>, next: nat, ctr: nat, same: bool) {
    && next0 <= next
    && (forall p :: p in pcbs && p < next0 ==> p in pcbs0 && pcbs[p].lastTimer == pcbs0[p].lastTimer && (same ==> pcbs[p] == pcbs0[p]))
    && (forall p :: p in pcbs && next0 <= p ==> pcbs[p].lastTimer == ctr)
  }

  /** How far a walk got: each PCB is unmarked as it was, processed, or new. */
  ghost predicate Swept(pcbs: map<nat, Pcb>, next: nat, ctr: nat, done: seq<nat>, pcbs0: map<nat, Pcb>, next0: nat) {
    && Distinct(done) && next0 <= next
    && (forall p :: p in done ==> p < next0 && p in pcbs0 && pcbs0[p].lastTimer != ctr)
    && (forall p :: p in pcbs && next0 <= p ==> pcbs[p].lastTimer == ctr)
    && (forall p :: p in pcbs && p in done ==> pcbs[p].lastTimer == ctr)
    && (forall p :: p in pcbs && p < next0 && p !in done ==> p in pcbs0 && pcbs[p].lastTimer == pcbs0[p].lastTimer)
  }

  /**
  What tcp_slowtmr decided: `seen` is how each processed PCB looked when its turn came. Those
  that had expired are gone, and if `same`, the others are as tcp_slowtmr left them.
  */
  ghost predicate Decided(pcbs: map<nat, Pcb>, ctr: nat, ticks: nat, done: seq<nat>, seen: map<nat, Pcb>, pcbs0: map<nat, Pcb>, next0: nat, same: bool) {
    && (forall p :: p in done <==> p in seen)
    && (forall p :: p in seen && seen[p].Expired(ticks) ==> p !in pcbs)
    && (same ==> forall p :: p in seen ==> p in pcbs0 && seen[p] == pcbs0[p])
    && (same ==> forall p :: p in seen && p in pcbs ==> pcbs[p] == seen[p].Polled(ctr))
    && (same ==> forall p :: p in pcbs && p < next0 && p !in done ==> p in pcbs0 && pcbs[p] == pcbs0[p])
  }

  lemma SweepStep(m: map<nat, Pcb>, next: nat, ctr: nat, done: seq<nat>, m0: map<nat, Pcb>, next0: nat,
                  p: nat, m1: map<nat, Pcb>, m2: map<nat, Pcb>, next2: nat, same: bool)
    requires Swept(m, next, ctr, done, m0, next0)
    requires p in m && m[p].lastTimer != ctr && (forall q :: q in m ==> q < next)
    requires Handled(m, m1, p, ctr) && Untouched(m1, next, m2, next2, ctr, same)
    ensures Swept(m2, next2, ctr, done + [p], m0, next0) && p !in done && p < next0 <= next
    ensures UnmarkedIn(m2, ctr) < UnmarkedIn(m, ctr)
  {
    assert p !in done && p < next0;
    assert p in UnmarkedIn(m, ctr) && p !in UnmarkedIn(m2, ctr);
  }

  /** The PCB p is marked or gone, the others are as before. */
  ghost predicate Handled(m: map<nat, Pcb>, m1: map<nat, Pcb>, p: nat, ctr: nat) {
    && (forall q :: q in m1 ==> q in m && (q != p ==> m1[q] == m[q]))
    && (p in m1 ==> m1[p].lastTimer == ctr)
  }

  lemma PolledIs(p: Pcb, ctr: nat)
    ensures var t := (p.polltmr + 1) % 256;
            p.Polled(ctr) == p.(lastTimer := ctr, polltmr := if t >= p.pollInterval then 0 else t)
  {
  }

  lemma MarkHandles(m: map<nat, Pcb>, p: nat, pcb: Pcb, ctr: nat)
    requires p in m && pcb.lastTimer == ctr
    ensures Handled(m, m[p := pcb], p, ctr)
  {
  }

  /** The PCBs of the TIME-WAIT list that have not outlived it, in order. */
  function Young(s: seq<nat>, m: map<nat, Pcb>, ticks: nat): seq<nat>
    requires forall p :: p in s ==> p in m
  {
    if s == [] then []
    else (if m[s[0]].Outlived(ticks) then [] else [s[0]]) + Young(s[1..], m, ticks)
  }

  lemma YoungStep(s: seq<nat>, i: nat, m: map<nat, Pcb>, ticks: nat)
    requires i < |s| && forall p :: p in s ==> p in m
    ensures forall p :: p in Drop(s, i) ==> p in m
    ensures s[..i] + Young(s[i..], m, ticks) ==
            if m[s[i]].Outlived(ticks) then Drop(s, i)[..i] + Young(Drop(s, i)[i..], m, ticks)
            else s[..i + 1] + Young(s[i + 1..], m, ticks)
  {
    assert s[i..][1..] == s[i + 1..];
    assert Drop(s, i)[..i] == s[..i] && Drop(s, i)[i..] == s[i + 1..];
    assert s[..i + 1] == s[..i] + [s[i]];
  }

  lemma YoungEnd(s: seq<nat>, i: nat, m: map<nat, Pcb>, ticks: nat)
    requires i == |s|
    ensures s[..i] + Young(s[i..], m, ticks) == s
  {
  }

  lemma {:induction false} YoungIn(s: seq<nat>, m: map<nat, Pcb>, ticks: nat)
    requires forall p :: p in s ==> p in m
    ensures forall p :: p in Young(s, m, ticks) <==> p in s && !m[p].Outlived(ticks)
  {
    if s != [] { YoungIn(s[1..], m, ticks); }
  }

  lemma {:induction false} YoungSame(s: seq<nat>, m: map<nat, Pcb>, m': map<nat, Pcb>, ticks: nat)
    requires forall p :: p in s ==> p in m && p in m' && m'[p] == m[p]
    ensures Young(s, m', ticks) == Young(s, m, ticks)
  {
    if s != [] { YoungSame(s[1..], m, m', ticks); }
  }

  /** The PCBs whose owner was called: those that expired or were due to be polled. */
  ghost predicate Called(called: set<nat>, seen: map<nat, Pcb>, ticks: nat) {
    forall p :: p in called <==> p in seen && (seen[p].Expired(ticks) || (seen[p].polltmr + 1) % 256 >= seen[p].pollInterval)
  }

  lemma WalkBegins(m: map<nat, Pcb>, next: nat, ctr: nat, ticks: nat, active: seq<nat>, same: bool)
    ensures Called({}, map[], ticks) && Survivors(active, active, map[], ticks)
    ensures Swept(m, next, ctr, [], m, next) <==> forall p :: p in m && next <= p ==> m[p].lastTimer == ctr
    ensures Decided(m, ctr, ticks, [], map[], m, next, same)
  {
  }

  lemma WalkEnds(m: map<nat, Pcb>, next: nat, ctr: nat, ticks: nat, done: seq<nat>, seen: map<nat, Pcb>, m0: map<nat, Pcb>, next0: nat, same: bool)
    requires Swept(m, next, ctr, done, m0, next0) && Decided(m, ctr, ticks, done, seen, m0, next0, same)
    requires forall p :: p in m0 ==> p < next0
    ensures Distinct(done) && forall p :: p in done ==> p in UnmarkedIn(m0, ctr)
    ensures forall p :: p in m && m[p].lastTimer == ctr && p in UnmarkedIn(m0, ctr) ==> p in done
    ensures (forall p :: p in done <==> p in seen) && forall p :: p in seen && seen[p].Expired(ticks) ==> p !in m
    ensures same ==> forall p :: p in seen ==> p in m0 && seen[p] == m0[p]
    ensures same ==> forall p :: p in seen && p in m ==> m[p] == seen[p].Polled(ctr)
    ensures same ==> forall p :: p in m && p < next0 && p !in done ==> p in m0 && m[p] == m0[p]
    ensures next0 <= next && forall p :: p in m && p < next0 ==> p in m0
  {
    hide Pcb.Expired;
  }

  lemma NotSeen(m: map<nat, Pcb>, next: nat, ctr: nat, ticks: nat, done: seq<nat>, seen: map<nat, Pcb>, m0: map<nat, Pcb>, next0: nat, same: bool, p: nat)
    requires Swept(m, next, ctr, done, m0, next0) && Decided(m, ctr, ticks, done, seen, m0, next0, same)
    requires p in m && m[p].lastTimer != ctr
    ensures p !in done && p !in seen
  {
    hide Pcb.Expired;
  }

  lemma SurvivorsStep(a0: seq<nat>, a: seq<nat>, a1: seq<nat>, seen: map<nat, Pcb>, ticks: nat, id: nat, pcb: Pcb)
    requires Survivors(a0, a, seen, ticks) && id !in seen
    requires forall p :: p in a && (p != id || !pcb.Expired(ticks)) ==> p in a1
    ensures Survivors(a0, a1, seen[id := pcb], ticks)
  {
    hide Pcb.Expired;
  }

  lemma CalledIs(called: set<nat>, seen: map<nat, Pcb>, ticks: nat)
    requires Called(called, seen, ticks)
    ensures forall p :: p in called <==> p in seen && (seen[p].Expired(ticks) || (seen[p].polltmr + 1) % 256 >= seen[p].pollInterval)
  {
  }

  lemma CalledNext(called: set<nat>, seen: map<nat, Pcb>, ticks: nat, id: nat, pcb: Pcb)
    requires Called(called, seen, ticks)
    ensures id !in seen ==>
              var calls := pcb.Expired(ticks) || (pcb.polltmr + 1) % 256 >= pcb.pollInterval;
              && id !in called
              && Called(if calls then called + {id} else called, seen[id := pcb], ticks)
  {
    hide Pcb.Expired;
  }

  /** Each PCB that was active is so still, or had expired when its turn came. */
  ghost predicate Survivors(active0: seq<nat>, active: seq<nat>, seen: map<nat, Pcb>, ticks: nat) {
    forall p :: p in active0 ==> p in active || (p in seen && seen[p].Expired(ticks))
  }

  ghost function UnmarkedIn(pcbs: map<nat, Pcb>, ctr: nat): set<nat> {
    set p | p in pcbs && pcbs[p].lastTimer != ctr
  }

  /** Processing one PCB and then running callbacks makes progress. */
  lemma ProgressStep(m: map<nat, Pcb>, next: nat, ctr: nat, ticks: nat, done: seq<nat>, seen: map<nat, Pcb>, m0: map<nat, Pcb>, next0: nat,
                     p: nat, m1: map<nat, Pcb>, m2: map<nat, Pcb>, next2: nat, same: bool)
    requires Swept(m, next, ctr, done, m0, next0) && Decided(m, ctr, ticks, done, seen, m0, next0, same)
    requires p in m && m[p].lastTimer != ctr && (forall q :: q in m ==> q < next)
    requires Handled(m, m1, p, ctr) && (if m[p].Expired(ticks) then p !in m1 else p in m1 && m1[p] == m[p].Polled(ctr)) && Untouched(m1, next, m2, next2, ctr, same)
    ensures Swept(m2, next2, ctr, done + [p], m0, next0) && UnmarkedIn(m2, ctr) < UnmarkedIn(m, ctr)
    ensures Decided(m2, ctr, ticks, done + [p], seen[p := m[p]], m0, next0, same)
  {
    SweepStep(m, next, ctr, done, m0, next0, p, m1, m2, next2, same);
  }

  class Tcp {
    /** The PCBs in memory. */
    var pcbs: map<nat, Pcb>
    var active: seq<nat>
    var tw: seq<nat>
    var ticks: nat
    var timerCtr: nat
    /** tcp_active_pcbs_changed */
    var changed: bool
    /** Addresses from here on have not been handed out. */
    var nextId: nat

    ghost predicate Valid()
      reads this
    {
      && Distinct(active) && Distinct(tw)
      && (forall p :: p in active ==> p in pcbs && p !in tw)
      && (forall p :: p in tw ==> p in pcbs)
      && (forall p :: p in pcbs ==> p < nextId)
      && timerCtr < 256
    }

    /** Before the first PCB. */
    constructor ()
      ensures Valid() && active == tw == [] && pcbs == map[] && ticks == timerCtr == nextId == 0
    {
      pcbs, active, tw, ticks, timerCtr, changed, nextId := map[], [], [], 0, 0, false, 0;
    }

    /** The PCBs that a walk of this tick may still process. */
    ghost function Unmarked(): set<nat>
      reads this
    {
      UnmarkedIn(pcbs, timerCtr)
    }

    /**
    What no callback does: touch the clock, add to TIME-WAIT, or touch the mark of an existing
    PCB. If `kept`, the PCBs on the lists stay there.
    */
    twostate predicate CallbackFrame(same: bool, kept: bool)
      reads this
    {
      && (kept ==> tw == old(tw) && forall p :: p in old(active) ==> p in active)
      && timerCtr == old(timerCtr) && ticks == old(ticks) && (forall p :: p in tw ==> p in old(tw))
      && Untouched(old(pcbs), old(nextId), pcbs, nextId, timerCtr, same)
    }

    /** One action of a callback; TCP_REG_ACTIVE and TCP_RMV_ACTIVE flag the change. */
    method Act(a: Action)
      requires Valid()
      modifies this
      ensures Valid() && CallbackFrame(!a.Alter?, !a.Remove? && !a.KillTw?)
      ensures changed == (old(changed) || active != old(active))
    {
      match a
      case New =>
        pcbs := pcbs[nextId := Born(ticks, timerCtr)];
        nextId := nextId + 1;
      case Connect(id) =>
        if id in pcbs && id !in active && id !in tw {
          active := [id] + active;
          changed := true;
        }
      case Remove(k) =>
        if k < |active| {
          DropDistinct(active, k);
          pcbs := Freed(pcbs, active[k]);
          active := Drop(active, k);
          changed := true;
        }
      case KillTw(k) =>
        if k < |tw| {
          DropDistinct(tw, k);
          pcbs := Freed(pcbs, tw[k]);
          tw := Drop(tw, k);
        }
      case Close(id) =>
        if id in pcbs && id !in active && id !in tw {
          pcbs := Freed(pcbs, id);
        }
      case Alter(id, pcb) =>
        if id in pcbs {
          pcbs := pcbs[id := pcb.(lastTimer := pcbs[id].lastTimer)];
        }
    }

    /** An application callback: any sequence of actions. */
    method Callback(script: seq<seq<Action>>) returns (rest: seq<seq<Action>>)
      requires Valid()
      modifies this
      ensures Valid() && CallbackFrame(AltersNothing(script), RemovesNothing(script))
      ensures (AltersNothing(script) ==> AltersNothing(rest)) && (RemovesNothing(script) ==> RemovesNothing(rest))
      ensures rest == Unused(script, 1)
      ensures changed || active == old(active)
    {
      changed := false;
      if script == [] {
        return [];
      }
      for n := 0 to |script[0]|
        invariant Valid() && CallbackFrame(AltersNothing(script), RemovesNothing(script))
        invariant changed || active == old(active)
      {
        Act(script[0][n]);
      }
      rest := script[1..];
    }

    /** A callback if it is due; says whether the walk starts again. */
    method CallbackIf(due: bool, script: seq<seq<Action>>) returns (restart: bool, rest: seq<seq<Action>>)
      requires Valid()
      modifies this
      ensures Valid() && CallbackFrame(AltersNothing(script), RemovesNothing(script)) && (restart || active == old(active))
      ensures (AltersNothing(script) ==> AltersNothing(rest)) && (RemovesNothing(script) ==> RemovesNothing(rest))
      ensures rest == Unused(script, if due then 1 else 0)
    {
      restart, rest := false, script;
      if due {
        rest := Callback(script);
        restart := changed;
      }
    }

    /** tcp_slowtmr drops the PCB at position i and tells its owner. */
    method Expire(i: nat, script: seq<seq<Action>>, ghost done: seq<nat>, ghost seen: map<nat, Pcb>, ghost m0: map<nat, Pcb>, ghost next0: nat, ghost same: bool, ghost kept: bool)
      returns (next: nat, rest: seq<seq<Action>>)
      requires Valid() && i < |active| && pcbs[active[i]].lastTimer != timerCtr && pcbs[active[i]].Expired(ticks)
      requires Marked(i) && Swept(pcbs, nextId, timerCtr, done, m0, next0) && Decided(pcbs, timerCtr, ticks, done, seen, m0, next0, same)
      requires (same ==> AltersNothing(script)) && (kept ==> RemovesNothing(script))
      modifies this
      ensures Valid() && timerCtr == old(timerCtr) && ticks == old(ticks) && (same ==> AltersNothing(rest))
      ensures (forall p :: p in tw ==> p in old(tw)) && (kept ==> RemovesNothing(rest) && tw == old(tw))
      ensures kept ==> forall p :: p in old(active) && p != old(active[i]) ==> p in active
      ensures next <= |active| && Marked(next) && Swept(pcbs, nextId, timerCtr, done + [old(active[i])], m0, next0)
      ensures Decided(pcbs, timerCtr, ticks, done + [old(active[i])], seen[old(active[i]) := old(pcbs[active[i]])], m0, next0, same)
      ensures Unmarked() < old(Unmarked()) && rest == Unused(script, 1)
    {
      hide Swept, Decided, Distinct, UnmarkedIn, AltersNothing, RemovesNothing;
      var pcb := active[i];
      DropDistinct(active, i);
      pcbs := Freed(pcbs, pcb);
      active := Drop(active, i);
      assert forall k :: 0 <= k < i ==> active[k] == old(active)[k];
      label called:
      rest := Callback(script);
      ProgressStep(old(pcbs), old(nextId), timerCtr, ticks, done, seen, m0, next0, pcb, old@called(pcbs), pcbs, nextId, same);
      next := if changed then 0 else i;
    }

    /** tcp_slowtmr keeps the PCB at position i and polls its owner when that is due. */
    method Poll(i: nat, script: seq<seq<Action>>, ghost done: seq<nat>, ghost seen: map<nat, Pcb>, ghost m0: map<nat, Pcb>, ghost next0: nat, ghost same: bool, ghost kept: bool)
      returns (next: nat, rest: seq<seq<Action>>)
      requires Valid() && i < |active| && pcbs[active[i]].lastTimer != timerCtr && !pcbs[active[i]].Expired(ticks)
      requires Marked(i) && Swept(pcbs, nextId, timerCtr, done, m0, next0) && Decided(pcbs, timerCtr, ticks, done, seen, m0, next0, same)
      requires (same ==> AltersNothing(script)) && (kept ==> RemovesNothing(script))
      modifies this
      ensures Valid() && timerCtr == old(timerCtr) && ticks == old(ticks) && (same ==> AltersNothing(rest))
      ensures (forall p :: p in tw ==> p in old(tw)) && (kept ==> RemovesNothing(rest) && tw == old(tw))
      ensures kept ==> forall p :: p in old(active) ==> p in active
      ensures next <= |active| && Marked(next) && Swept(pcbs, nextId, timerCtr, done + [old(active[i])], m0, next0)
      ensures Decided(pcbs, timerCtr, ticks, done + [old(active[i])], seen[old(active[i]) := old(pcbs[active[i]])], m0, next0, same)
      ensures Unmarked() < old(Unmarked())
      ensures rest == Unused(script, if (old(pcbs[active[i]]).polltmr + 1) % 256 >= old(pcbs[active[i]]).pollInterval then 1 else 0)
    {
      hide Swept, Decided, Distinct, UnmarkedIn, AltersNothing, RemovesNothing, Handled, Pcb.Expired, Unused, Pcb.Polled;
      var pcb := active[i];
      var t := (pcbs[pcb].polltmr + 1) % 256;
      var due := t >= pcbs[pcb].pollInterval;
      pcbs := pcbs[pcb := pcbs[pcb].(lastTimer := timerCtr, polltmr := if due then 0 else t)];
      PolledIs(old(pcbs[pcb]), timerCtr);
      MarkHandles(old(pcbs), pcb, pcbs[pcb], timerCtr);
      label called:
      var restart;
      restart, rest := CallbackIf(due, script);
      next := if restart then 0 else i + 1;
      ProgressStep(old(pcbs), old(nextId), timerCtr, ticks, done, seen, m0, next0, pcb, old@called(pcbs), pcbs, nextId, same);
    }

    /** Every active PCB before position i carries the mark of this tick. */
    ghost predicate Marked(i: nat)
      requires Valid()
      reads this
    {
      forall k :: 0 <= k < i && k < |active| ==> pcbs[active[k]].lastTimer == timerCtr
    }

    /**
    The active walk of tcp_slowtmr; `done` lists the PCBs it processed, in order, and `seen` is
    how each looked when its turn came.
    */
    method SlowWalk(script: seq<seq<Action>>) returns (ghost done: seq<nat>, ghost seen: map<nat, Pcb>, ghost called: set<nat>, rest: seq<seq<Action>>)
      requires Valid()
      modifies this
      ensures Valid() && timerCtr == old(timerCtr) && ticks == old(ticks) && forall p :: p in tw ==> p in old(tw)
      ensures forall p :: p in active ==> pcbs[p].lastTimer == timerCtr
      ensures Distinct(done) && forall p :: p in done ==> p in old(Unmarked())
      ensures forall p :: p in active && p in old(Unmarked()) ==> p in done
      ensures forall p :: p in done <==> p in seen
      ensures forall p :: p in seen && seen[p].Expired(ticks) ==> p !in pcbs
      ensures AltersNothing(script) ==> forall p :: p in seen ==> p in old(pcbs) && seen[p] == old(pcbs)[p]
      ensures AltersNothing(script) ==> forall p :: p in seen && p in pcbs ==> pcbs[p] == seen[p].Polled(timerCtr)
      ensures RemovesNothing(script) ==> tw == old(tw) && Survivors(old(active), active, seen, ticks)
      ensures RemovesNothing(script) && AltersNothing(script) ==> forall p :: p in tw ==> pcbs[p] == old(pcbs)[p]
      ensures old(nextId) <= nextId && forall p :: p in pcbs && p < old(nextId) ==> p in old(pcbs)
      ensures rest == Unused(script, |called|)
      ensures forall p :: p in called <==> p in seen && (seen[p].Expired(ticks) || (seen[p].polltmr + 1) % 256 >= seen[p].pollInterval)
    {
      hide AltersNothing, RemovesNothing, Unused, Called, Swept, Decided, Survivors, Distinct, UnmarkedIn, Pcb.Expired;
      done, seen, called := [], map[], {};
      var i: nat, env := 0, script;
      UnusedNext(script, 0);
      WalkBegins(pcbs, nextId, timerCtr, ticks, active, AltersNothing(script));
      while i < |active|
        invariant Valid() && timerCtr == old(timerCtr) && ticks == old(ticks) && (AltersNothing(script) ==> AltersNothing(env))
        invariant (forall p :: p in tw ==> p in old(tw)) && (RemovesNothing(script) ==> RemovesNothing(env))
        invariant env == Unused(script, |called|) && Called(called, seen, ticks)
        invariant RemovesNothing(script) ==> tw == old(tw) && Survivors(old(active), active, seen, ticks) && forall p :: p in done ==> p !in tw
        invariant i <= |active| && Marked(i) && Swept(pcbs, nextId, timerCtr, done, old(pcbs), old(nextId))
        invariant Decided(pcbs, timerCtr, ticks, done, seen, old(pcbs), old(nextId), AltersNothing(script))
        decreases Unmarked(), |active| - i
      {
        if pcbs[active[i]].lastTimer == timerCtr {
          i := i + 1;
        } else {
          ghost var id, pcb, before := active[i], pcbs[active[i]], active;
          UnusedNext(script, |called|);
          UnusedNext(env, 0);
          NotSeen(pcbs, nextId, timerCtr, ticks, done, seen, old(pcbs), old(nextId), AltersNothing(script), id);
          CalledNext(called, seen, ticks, id, pcb);
          ghost var calls := pcb.Expired(ticks) || (pcb.polltmr + 1) % 256 >= pcb.pollInterval;
          if pcbs[active[i]].Expired(ticks) {
            i, env := Expire(i, env, done, seen, old(pcbs), old(nextId), AltersNothing(script), RemovesNothing(script));
          } else {
            i, env := Poll(i, env, done, seen, old(pcbs), old(nextId), AltersNothing(script), RemovesNothing(script));
          }
          if RemovesNothing(script) { SurvivorsStep(old(active), before, active, seen, ticks, id, pcb); }
          done, seen, called := done + [id], seen[id := pcb], if calls then called + {id} else called;
        }
      }
      rest := env;
      CalledIs(called, seen, ticks);
      WalkEnds(pcbs, nextId, timerCtr, ticks, done, seen, old(pcbs), old(nextId), AltersNothing(script));
    }

    /** The second walk of tcp_slowtmr: drop the PCBs that outlived TIME-WAIT. */
    method TimeWaitWalk()
      requires Valid()
      modifies this
      ensures Valid() && active == old(active) && ticks == old(ticks) && timerCtr == old(timerCtr)
      ensures tw == Young(old(tw), old(pcbs), ticks)
      ensures nextId == old(nextId) && forall p :: p in pcbs ==> p in old(pcbs) && pcbs[p] == old(pcbs[p])
    {
      hide Distinct, Young;
      var i: nat := 0;
      assert tw[0..] == tw && tw[..0] == [];
      while i < |tw|
        invariant Valid() && active == old(active) && ticks == old(ticks) && timerCtr == old(timerCtr)
        invariant nextId == old(nextId) && i <= |tw| && forall p :: p in pcbs ==> p in old(pcbs) && pcbs[p] == old(pcbs[p])
        invariant tw[..i] + Young(tw[i..], old(pcbs), ticks) == Young(old(tw), old(pcbs), ticks)
        decreases |tw| - i
      {
        var pcb := tw[i];
        YoungStep(tw, i, old(pcbs), ticks);
        if pcbs[pcb].Outlived(ticks) {
          DropDistinct(tw, i);
          pcbs := Freed(pcbs, pcb);
          tw := Drop(tw, i);
        } else {
          i := i + 1;
        }
      }
      YoungEnd(tw, i, old(pcbs), ticks);
    }

    /** tcp_slowtmr */
    method SlowTmr(script: seq<seq<Action>>) returns (ghost done: seq<nat>, ghost seen: map<nat, Pcb>, ghost called: set<nat>, rest: seq<seq<Action>>)
      requires Valid()
      modifies this
      ensures Valid() && ticks == (old(ticks) + 1) % 0x1_0000_0000 && timerCtr == (old(timerCtr) + 1) % 256
      ensures forall p :: p in active ==> pcbs[p].lastTimer == timerCtr
      ensures Distinct(done) && forall p :: p in done ==> p in UnmarkedIn(old(pcbs), timerCtr)
      ensures forall p :: p in active && p in UnmarkedIn(old(pcbs), timerCtr) ==> p in done
      ensures forall p :: p in active && p in old(pcbs) && old(pcbs)[p].lastTimer == old(timerCtr) ==> p in done
      ensures (forall p :: p in done <==> p in seen) && forall p :: p in active && p in seen ==> !seen[p].Expired(ticks)
      ensures forall p :: p in seen && seen[p].Expired(ticks) ==> p !in pcbs
      ensures AltersNothing(script) ==> forall p :: p in seen ==> p in old(pcbs) && seen[p] == old(pcbs)[p]
      ensures AltersNothing(script) ==> forall p :: p in active && p in seen ==> pcbs[p] == seen[p].Polled(timerCtr)
      ensures RemovesNothing(script) ==> Survivors(old(active), active, seen, ticks)
      ensures RemovesNothing(script) && AltersNothing(script) ==> tw == Young(old(tw), old(pcbs), ticks)
      ensures RemovesNothing(script) && AltersNothing(script) ==> forall p :: p in tw ==> p in old(pcbs) && pcbs[p] == old(pcbs)[p]
      ensures old(nextId) <= nextId && forall p :: p in pcbs && p < old(nextId) ==> p in old(pcbs)
      ensures rest == Unused(script, |called|)
      ensures forall p :: p in called <==> p in seen && (seen[p].Expired(ticks) || (seen[p].polltmr + 1) % 256 >= seen[p].pollInterval)
    {
      hide AltersNothing, RemovesNothing, Survivors, Unused, Pcb.Expired;
      ticks := (ticks + 1) % 0x1_0000_0000;
      timerCtr := (timerCtr + 1) % 256;
      done, seen, called, rest := SlowWalk(script);
      if RemovesNothing(script) && AltersNothing(script) {
        YoungSame(tw, old(pcbs), pcbs, ticks);
        YoungIn(tw, pcbs, ticks);
      }
      TimeWaitWalk();
    }

    /** tcp_fasttmr on the PCB at position i; a callback runs only for refused data. */
    method FastVisit(i: nat, script: seq<seq<Action>>, ghost done: seq<nat>, ghost m0: map<nat, Pcb>, ghost next0: nat, ghost same: bool)
      returns (next: nat, rest: seq<seq<Action>>)
      requires Valid() && i < |active| && pcbs[active[i]].lastTimer != timerCtr
      requires Marked(i) && Swept(pcbs, nextId, timerCtr, done, m0, next0) && (same ==> AltersNothing(script) && Alike(pcbs, m0, next0))
      modifies this
      ensures Valid() && timerCtr == old(timerCtr) && ticks == old(ticks) && forall p :: p in tw ==> p in old(tw)
      ensures RemovesNothing(script) ==> RemovesNothing(rest) && tw == old(tw) && forall p :: p in old(active) ==> p in active
      ensures next <= |active| && Marked(next)
      ensures Swept(pcbs, nextId, timerCtr, done + [old(active[i])], m0, next0) && (same ==> AltersNothing(rest) && Alike(pcbs, m0, next0))
      ensures Unmarked() < old(Unmarked()) && rest == Unused(script, if old(pcbs[active[i]]).refusedData then 1 else 0)
    {
      hide Swept, Distinct, UnmarkedIn, AltersNothing, RemovesNothing, Handled, Alike, Unused;
      var pcb := active[i];
      pcbs := pcbs[pcb := pcbs[pcb].(lastTimer := timerCtr)];
      MarkHandles(old(pcbs), pcb, pcbs[pcb], timerCtr);
      label called:
      var restart;
      restart, rest := CallbackIf(pcbs[pcb].refusedData, script);
      next := if restart then 0 else i + 1;
      SweepStep(old(pcbs), old(nextId), timerCtr, done, m0, next0, pcb, old@called(pcbs), pcbs, nextId, AltersNothing(script));
      if same { StillAlike(old(pcbs), pcb, timerCtr, old@called(pcbs), pcbs, nextId, m0, next0, old(nextId)); }
    }

    /**
    tcp_fasttmr: the same walk without removal; `called` are the PCBs for which a callback ran,
    which are those with refused data when their turn came.
    */
    method FastTmr(script: seq<seq<Action>>) returns (ghost done: seq<nat>, ghost seen: map<nat, Pcb>, ghost called: set<nat>, rest: seq<seq<Action>>)
      requires Valid()
      modifies this
      ensures Valid() && timerCtr == (old(timerCtr) + 1) % 256 && ticks == old(ticks) && forall p :: p in tw ==> p in old(tw)
      ensures forall p :: p in active ==> pcbs[p].lastTimer == timerCtr
      ensures Distinct(done) && forall p :: p in done ==> p in UnmarkedIn(old(pcbs), timerCtr)
      ensures forall p :: p in active && p in UnmarkedIn(old(pcbs), timerCtr) ==> p in done
      ensures forall p :: p in active && p in old(pcbs) && old(pcbs)[p].lastTimer == old(timerCtr) ==> p in done
      ensures RemovesNothing(script) ==> tw == old(tw) && forall p :: p in old(active) ==> p in active
      ensures (forall p :: p in done <==> p in seen) && rest == Unused(script, |called|)
      ensures forall p :: p in called <==> p in seen && seen[p].refusedData
      ensures AltersNothing(script) ==> forall p :: p in seen ==> p in old(pcbs) && seen[p] == old(pcbs)[p]
      ensures AltersNothing(script) ==> forall p :: p in pcbs && p in old(pcbs) ==> pcbs[p] == old(pcbs)[p].(lastTimer := pcbs[p].lastTimer)
    {
      hide RemovesNothing, AltersNothing, Unused, Alike, Swept, Distinct, UnmarkedIn, Refused;
      timerCtr := (timerCtr + 1) % 256;
      done, seen, called := [], map[], {};
      var i: nat, env := 0, script;
      UnusedNext(script, 0);
      FastBegins(pcbs, nextId, timerCtr);
      while i < |active|
        invariant Valid() && timerCtr == (old(timerCtr) + 1) % 256 && ticks == old(ticks) && forall p :: p in tw ==> p in old(tw)
        invariant i <= |active| && Marked(i)
        invariant RemovesNothing(script) ==> RemovesNothing(env) && tw == old(tw) && forall p :: p in old(active) ==> p in active
        invariant Swept(pcbs, nextId, timerCtr, done, old(pcbs), old(nextId))
        invariant AltersNothing(script) ==> AltersNothing(env) && Alike(pcbs, old(pcbs), old(nextId))
        invariant env == Unused(script, |called|) && Refused(done, seen, called, old(pcbs), AltersNothing(script))
        decreases Unmarked(), |active| - i
      {
        if pcbs[active[i]].lastTimer == timerCtr {
          i := i + 1;
        } else {
          ghost var id, pcb := active[i], pcbs[active[i]];
          UnusedNext(script, |called|);
          UnusedNext(env, 0);
          FastStep(pcbs, old(pcbs), old(nextId), nextId, timerCtr, done, seen, called, AltersNothing(script), id);
          i, env := FastVisit(i, env, done, old(pcbs), old(nextId), AltersNothing(script));
          done, seen, called := done + [id], seen[id := pcb], if pcb.refusedData then called + {id} else called;
        }
      }
      rest := env;
      FastEnds(pcbs, nextId, timerCtr, done, seen, called, old(pcbs), old(nextId), AltersNothing(script));
    }
  }

  /** The processed PCBs as they were, and those of them with refused data. */
  ghost predicate Refused(done: seq<nat>, seen: map<nat, Pcb>, called: set<nat>, m0: map<nat, Pcb>, same: bool) {
    && (forall p :: p in done <==> p in seen)
    && (forall p :: p in called <==> p in seen && seen[p].refusedData)
    && (same ==> forall p :: p in seen ==> p in m0 && seen[p] == m0[p])
  }

  lemma FastBegins(m: map<nat, Pcb>, next: nat, ctr: nat)
    requires forall p :: p in m ==> p < next
    ensures Alike(m, m, next) && Swept(m, next, ctr, [], m, next) && Refused([], map[], {}, m, true) && Refused([], map[], {}, m, false)
  {
  }

  lemma FastStep(m: map<nat, Pcb>, m0: map<nat, Pcb>, next0: nat, next: nat, ctr: nat, done: seq<nat>, seen: map<nat, Pcb>, called: set<nat>, same: bool, p: nat)
    requires Swept(m, next, ctr, done, m0, next0) && Refused(done, seen, called, m0, same) && (same ==> Alike(m, m0, next0))
    requires p in m && m[p].lastTimer != ctr
    ensures p !in called && Refused(done + [p], seen[p := m[p]], if m[p].refusedData then called + {p} else called, m0, same)
  {
    assert p !in done && p < next0;
  }

  lemma FastEnds(m: map<nat, Pcb>, next: nat, ctr: nat, done: seq<nat>, seen: map<nat, Pcb>, called: set<nat>, m0: map<nat, Pcb>, next0: nat, same: bool)
    requires Swept(m, next, ctr, done, m0, next0) && Refused(done, seen, called, m0, same) && (same ==> Alike(m, m0, next0))
    requires forall p :: p in m0 ==> p < next0
    ensures Distinct(done) && forall p :: p in done ==> p in UnmarkedIn(m0, ctr)
    ensures forall p :: p in m && m[p].lastTimer == ctr && p in UnmarkedIn(m0, ctr) ==> p in done
    ensures forall p :: p in m && m[p].lastTimer == ctr && p in m0 && m0[p].lastTimer != ctr ==> p in done
    ensures (forall p :: p in done <==> p in seen) && forall p :: p in called <==> p in seen && seen[p].refusedData
    ensures same ==> forall p :: p in seen ==> p in m0 && seen[p] == m0[p]
    ensures same ==> forall p :: p in m && p in m0 ==> m[p] == m0[p].(lastTimer := m[p].lastTimer)
  {
  }

  /** The PCBs that were there before differ from then in their mark at most. */
  ghost predicate Alike(pcbs: map<nat, Pcb>, pcbs0: map<nat, Pcb>, next0: nat) {
    && (forall p :: p in pcbs0 ==> p < next0)
    && forall p :: p in pcbs && p < next0 ==> p in pcbs0 && pcbs[p] == pcbs0[p].(lastTimer := pcbs[p].lastTimer)
  }

  lemma StillAlike(m: map<nat, Pcb>, p: nat, ctr: nat, m1: map<nat, Pcb>, m2: map<nat, Pcb>, next2: nat, m0: map<nat, Pcb>, next0: nat, next: nat)
    requires Alike(m, m0, next0) && p in m && next0 <= next && m1 == m[p := m[p].(lastTimer := ctr)]
    requires Untouched(m1, next, m2, next2, ctr, true)
    ensures Alike(m2, m0, next0)
  {
  }
}
