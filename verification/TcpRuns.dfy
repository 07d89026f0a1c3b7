/**
How long a PCB lives: runs of tcp_slowtmr while callbacks neither alter nor remove PCBs, with
every limit as a number of ticks of 500 ms.
*/
module TcpRuns {
  import opened Prelude
  import opened TcpTimers

  ghost predicate Harmless(scripts: seq<seq<seq<Action>>>) {
    forall k :: 0 <= k < |scripts| ==> AltersNothing(scripts[k]) && RemovesNothing(scripts[k])
  }

  lemma HarmlessIs(scripts: seq<seq<seq<Action>>>)
    ensures Harmless(scripts) <==>
            forall k, i, j :: 0 <= k < |scripts| && 0 <= i < |scripts[k]| && 0 <= j < |scripts[k][i]| ==>
              !scripts[k][i][j].Alter? && !scripts[k][i][j].Remove? && !scripts[k][i][j].KillTw?
  {
  }

  /**
  An active PCB that was last touched `age` ticks ago, after n further ticks: it is active still
  exactly if its retries, its probes and, in the states with a time limit, its age allow it.
  */
  ghost predicate Allowed(p: Pcb, age: nat) {
    && p.nrtx < 12 && (p.state == SynSent ==> p.nrtx < 6) && (p.persistBackoff > 0 ==> p.persistProbe < 12)
    && (p.state == LastAck ==> age <= 240)
    && (p.state == SynRcvd ==> age <= 40)
    && (p.state == FinWait2 && p.rxClosed ==> age <= 40)
    && (p.keepalive && (p.state == Established || p.state == CloseWait) ==> age <= (p.keepIdle + 675000) / 500)
  }

  lemma AgeIs(p: Pcb, ticks0: nat, n: nat)
    requires (ticks0 - p.tmr) % 0x1_0000_0000 + n < 0x1_0000_0000
    ensures p.Age((ticks0 + n) % 0x1_0000_0000) == (ticks0 - p.tmr) % 0x1_0000_0000 + n
  {
    var w, d := 0x1_0000_0000, ticks0 - p.tmr;
    var age := d % w;
    var k, j := d / w, (ticks0 + n) / w;
    assert d == k * w + age && ticks0 + n == j * w + (ticks0 + n) % w;
    SameRest((ticks0 + n) % w - p.tmr, age + n, k - j);
  }

  lemma SameRest(x: int, r: nat, k: int)
    requires x == k * 0x1_0000_0000 + r && r < 0x1_0000_0000
    ensures x % 0x1_0000_0000 == r
  {
  }

  lemma ExpiredIs(p: Pcb, ticks: nat)
    ensures p.Expired(ticks) <==> !Allowed(p, p.Age(ticks))
  {
  }

  /** One tick, for a PCB that is active and marked. */
  method OneTick(tcp: Tcp, id: nat, script: seq<seq<Action>>, ghost p: Pcb, ghost ticks0: nat, ghost k: nat)
    requires tcp.Valid() && AltersNothing(script) && RemovesNothing(script) && id < tcp.nextId
    requires tcp.ticks == (ticks0 + k) % 0x1_0000_0000 && (ticks0 - p.tmr) % 0x1_0000_0000 + k + 1 < 0x1_0000_0000
    requires id in tcp.active ==> tcp.pcbs[id] == p.(lastTimer := tcp.timerCtr, polltmr := tcp.pcbs[id].polltmr)
    requires id !in tcp.active ==> id !in tcp.pcbs
    modifies tcp
    ensures tcp.Valid() && id < tcp.nextId && tcp.ticks == (ticks0 + k + 1) % 0x1_0000_0000
    ensures id in tcp.active <==> id in old(tcp.active) && Allowed(p, (ticks0 - p.tmr) % 0x1_0000_0000 + k + 1)
    ensures id in tcp.active ==> tcp.pcbs[id] == p.(lastTimer := tcp.timerCtr, polltmr := tcp.pcbs[id].polltmr)
    ensures id !in tcp.active ==> id !in tcp.pcbs
  {
    hide AltersNothing, RemovesNothing, Allowed, Unused, Young, Distinct, UnmarkedIn, Pcb.Expired, Pcb.Age;
    ghost var q := if id in tcp.active then tcp.pcbs[id] else p;
    NextTick(ticks0, k);
    AgeIs(q, ticks0, k + 1);
    ExpiredIs(q, (ticks0 + k + 1) % 0x1_0000_0000);
    SameLimits(p, q, (ticks0 - p.tmr) % 0x1_0000_0000 + k + 1);
    ghost var done, seen, called;
    var rest;
    done, seen, called, rest := tcp.SlowTmr(script);
  }

  lemma NextTick(ticks0: nat, k: nat)
    ensures ((ticks0 + k) % 0x1_0000_0000 + 1) % 0x1_0000_0000 == (ticks0 + k + 1) % 0x1_0000_0000
  {
  }

  lemma SameLimits(p: Pcb, q: Pcb, age: nat)
    requires q == p.(lastTimer := q.lastTimer, polltmr := q.polltmr)
    ensures Allowed(q, age) <==> Allowed(p, age)
  {
  }

  lemma OlderAllowed(p: Pcb, a: nat, b: nat)
    requires a <= b && Allowed(p, b)
    ensures Allowed(p, a)
  {
  }

  method Ticks(tcp: Tcp, id: nat, scripts: seq<seq<seq<Action>>>)
    requires tcp.Valid() && id in tcp.active && tcp.pcbs[id].lastTimer == tcp.timerCtr && tcp.ticks < 0x1_0000_0000
    requires Harmless(scripts) && scripts != [] && (tcp.ticks - tcp.pcbs[id].tmr) % 0x1_0000_0000 + |scripts| < 0x1_0000_0000
    modifies tcp
    ensures tcp.Valid() && (id !in tcp.active ==> id !in tcp.pcbs)
    ensures var p := old(tcp.pcbs[id]);
            var age := (old(tcp.ticks) - p.tmr) % 0x1_0000_0000 + |scripts|;
            id in tcp.active <==>
            && p.nrtx < 12 && (p.state == SynSent ==> p.nrtx < 6) && (p.persistBackoff > 0 ==> p.persistProbe < 12)
            && (p.state == LastAck ==> age <= 240)
            && (p.state == SynRcvd ==> age <= 40)
            && (p.state == FinWait2 && p.rxClosed ==> age <= 40)
            && (p.keepalive && (p.state == Established || p.state == CloseWait) ==> age <= (p.keepIdle + 675000) / 500)
  {
    hide Allowed, Harmless, AltersNothing, RemovesNothing, Distinct;
    ghost var p, ticks0 := tcp.pcbs[id], tcp.ticks;
    ghost var age0 := (ticks0 - p.tmr) % 0x1_0000_0000;
    for k := 0 to |scripts|
      invariant tcp.Valid() && id < tcp.nextId && tcp.ticks == (ticks0 + k) % 0x1_0000_0000
      invariant id in tcp.active <==> k == 0 || Allowed(p, age0 + k)
      invariant id in tcp.active ==> tcp.pcbs[id] == p.(lastTimer := tcp.timerCtr, polltmr := tcp.pcbs[id].polltmr)
      invariant id !in tcp.active ==> id !in tcp.pcbs
    {
      HarmlessAt(scripts, k);
      OneTick(tcp, id, scripts[k], p, ticks0, k);
      if Allowed(p, age0 + k + 1) { OlderAllowed(p, age0 + k, age0 + k + 1); }
    }
    AllowedIs(p, age0 + |scripts|);
  }

  lemma HarmlessAt(scripts: seq<seq<seq<Action>>>, k: nat)
    requires Harmless(scripts) && k < |scripts|
    ensures AltersNothing(scripts[k]) && RemovesNothing(scripts[k])
  {
  }

  lemma AllowedIs(p: Pcb, age: nat)
    ensures Allowed(p, age) <==>
            && p.nrtx < 12 && (p.state == SynSent ==> p.nrtx < 6) && (p.persistBackoff > 0 ==> p.persistProbe < 12)
            && (p.state == LastAck ==> age <= 240)
            && (p.state == SynRcvd ==> age <= 40)
            && (p.state == FinWait2 && p.rxClosed ==> age <= 40)
            && (p.keepalive && (p.state == Established || p.state == CloseWait) ==> age <= (p.keepIdle + 675000) / 500)
  {
  }

  // ---------------------------------------------------------------- TIME-WAIT

  /** A PCB in TIME-WAIT goes when it was last touched more than 240 ticks ago. */
  method TimeWaitTicks(tcp: Tcp, id: nat, scripts: seq<seq<seq<Action>>>)
    requires tcp.Valid() && id in tcp.tw && tcp.ticks < 0x1_0000_0000
    requires Harmless(scripts) && scripts != [] && (tcp.ticks - tcp.pcbs[id].tmr) % 0x1_0000_0000 + |scripts| < 0x1_0000_0000
    modifies tcp
    ensures tcp.Valid() && (id in tcp.tw <==> (old(tcp.ticks) - old(tcp.pcbs[id]).tmr) % 0x1_0000_0000 + |scripts| <= 240)
  {
    hide Harmless, AltersNothing, RemovesNothing, Distinct, Young, Unused, UnmarkedIn, Survivors, Pcb.Expired, Pcb.Polled, Pcb.Age;
    ghost var p, ticks0 := tcp.pcbs[id], tcp.ticks;
    ghost var age0 := (ticks0 - p.tmr) % 0x1_0000_0000;
    for k := 0 to |scripts|
      invariant tcp.Valid() && tcp.ticks == (ticks0 + k) % 0x1_0000_0000
      invariant id in tcp.tw <==> k == 0 || age0 + k <= 240
      invariant id in tcp.tw ==> tcp.pcbs[id] == p
    {
      HarmlessAt(scripts, k);
      NextTick(ticks0, k);
      AgeIs(p, ticks0, k + 1);
      YoungIn(tcp.tw, tcp.pcbs, (ticks0 + k + 1) % 0x1_0000_0000);
      ghost var done, seen, called;
      var rest;
      done, seen, called, rest := tcp.SlowTmr(scripts[k]);
    }
  }

  /** A PCB in LAST-ACK that was last touched 240 ticks ago is gone with the next tick, and no tick earlier. */
  method LastAckGoes(ticks: nat) returns (tcp: Tcp)
    requires ticks <= 240
    ensures fresh(tcp) && tcp.Valid() && (0 in tcp.active <==> ticks < 240)
  {
    tcp := new Tcp();
    tcp.pcbs := map[0 := Pcb(LastAck, 0, 0, 0, false, false, 7200000, 0, 0, 0, 0, false)];
    tcp.active, tcp.tw, tcp.ticks, tcp.timerCtr, tcp.changed, tcp.nextId := [0], [], ticks, 0, false, 1;
    assert Harmless([[]]);
    Ticks(tcp, 0, [[]]);
  }
}
