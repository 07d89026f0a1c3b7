/**
The resolver of dns.c: the table of queries, the requests that wait for them, the UDP ports in
use and the retry machine. One address family; NO_MULTIPLE_OUTSTANDING and RAND_SRC_PORT are
on, and ids come from the sequential counter. Callbacks do not call the resolver.
*/
module Dns {
  import opened Prelude
  import opened Circular

  /** An address; 0 is IP_ADDR_ANY. */
  type Addr = nat

  /**
  DNS_TABLE_SIZE, which is also the number of requests and of source ports, DNS_MAX_SERVERS
  and DNS_MAX_RETRIES.
  */
  datatype Config = Config(table: nat, servers: nat, retries: nat) {
    ghost predicate Valid() {
      0 < table <= 255 && 0 < servers <= 255 && 0 < retries <= 255
    }

    /** Ticks that a request waits at most. */
    function Bound(): nat {
      servers * (1 + retries * (if retries == 0 then 0 else retries - 1) / 2)
    }
  }

  const MAX_NAME_LENGTH: nat := 256
  const MAX_TTL: nat := 604800

  datatype State = Unused | New | Asking | Done

  /** struct dns_table_entry */
  datatype Entry = Entry(state: State, name: seq<byte>, txid: nat, serverIdx: nat, tmr: nat, retries: nat,
                         seqno: nat, pcbIdx: nat, ttl: nat, addr: Addr)

  /** A request's callback and argument: its number, and the tick at which it was accepted. */
  datatype Ticket = Ticket(id: nat, tick: nat)

  /** struct dns_req_entry */
  datatype Req = Req(found: Option<Ticket>, tableIdx: nat)

  /** A callback that was made, and when. */
  datatype Call = Call(ticket: Ticket, addr: Option<Addr>, tick: nat)

  datatype Err = InProgress | ErrMem

  /** What the answer records of a packet hold: the first address, none, or they cannot be read. */
  datatype Section = Broken | Address(addr: Addr, ttl: nat) | NoAddress

  // ---------------------------------------------------------------- the retry machine

  function Tri(n: nat): nat { if n == 0 then 0 else n + Tri(n - 1) }

  /** Ticks that a query spends with one server. */
  function Round(c: Config): nat { 1 + Tri(if c.retries == 0 then 0 else c.retries - 1) }

  /** Ticks until an entry that is asking gives up. */
  function Remaining(c: Config, e: Entry): int {
    e.tmr + Round(c) - 1 - Tri(e.retries) + (c.servers - 1 - e.serverIdx) * Round(c)
  }

  ghost predicate WellFormed(c: Config, e: Entry) {
    && e.txid < 0x1_0000 && e.retries < c.retries && e.serverIdx < c.servers && e.pcbIdx < c.table
    && 1 <= e.tmr <= if e.retries == 0 then 1 else e.retries
  }

  lemma {:induction false} TriIs(n: nat)
    ensures 2 * Tri(n) == n * (n + 1) && Tri(n) >= n
    decreases n
  {
    if n > 0 {
      TriIs(n - 1);
      assert n * (n + 1) == (n - 1) * n + 2 * n;
    }
  }

  lemma {:induction false} TriGrows(m: nat, n: nat)
    requires m <= n
    ensures Tri(m) <= Tri(n)
    decreases n
  {
    if m < n { TriGrows(m, n - 1); }
  }

  lemma BoundIs(c: Config)
    requires c.Valid()
    ensures c.Bound() == c.servers * Round(c)
  {
    TriIs(c.retries - 1);
    assert c.retries * (c.retries - 1) == (c.retries - 1) * c.retries;
  }

  lemma Product(a: int, b: int)
    ensures (a + 1) * b == a * b + b
    ensures 0 <= a && 0 <= b ==> 0 <= a * b
  {
  }

  // ---------------------------------------------------------------- tables

  /** The entry is asking, and is not entry idx. */
  ghost predicate AsksBut(t: seq<Entry>, idx: int, i: int) {
    0 <= i < |t| && i != idx && t[i].state == Asking
  }

  /** An entry other than idx that asks uses source port k. */
  ghost predicate UsedBut(t: seq<Entry>, idx: int, k: int) {
    exists i :: AsksBut(t, idx, i) && t[i].pcbIdx == k
  }

  ghost predicate TableBut(c: Config, t: seq<Entry>, idx: int) {
    && c.Valid() && |t| == c.table
    && (forall i :: 0 <= i < |t| && i != idx ==> t[i].state != New)
    && (forall i :: AsksBut(t, idx, i) ==> WellFormed(c, t[i]))
    && (forall i, j :: AsksBut(t, idx, i) && AsksBut(t, idx, j) && i != j ==> t[i].txid != t[j].txid)
  }

  /** The ports that are open, if entry idx holds `own`. */
  ghost predicate PortsBut(c: Config, t: seq<Entry>, pcbs: seq<bool>, idx: int, own: int) {
    |pcbs| == c.table && forall k :: 0 <= k < c.table ==> (pcbs[k] <==> UsedBut(t, idx, k) || k == own)
  }

  /** A request waits for an entry other than idx that asks, and is not late. */
  ghost predicate ReqBut(c: Config, t: seq<Entry>, r: Req, idx: int, ticks: nat, swept: nat) {
    && AsksBut(t, idx, r.tableIdx)
    && (r.found.Some? ==> ticks + Remaining(c, t[r.tableIdx]) <= r.found.value.tick + c.Bound() + if r.tableIdx < swept then 0 else 1)
  }

  ghost predicate ReqsBut(c: Config, t: seq<Entry>, rs: seq<Req>, idx: int, ticks: nat, swept: nat) {
    |rs| == c.table && forall r :: 0 <= r < c.table && rs[r].found.Some? ==> ReqBut(c, t, rs[r], idx, ticks, swept)
  }

  /** Every request waits for another entry, or for idx and is not late yet. */
  ghost predicate ReqsFor(c: Config, t: seq<Entry>, rs: seq<Req>, idx: int, ticks: nat, swept: nat) {
    && |rs| == c.table
    && forall r :: 0 <= r < c.table && rs[r].found.Some? ==>
         ReqBut(c, t, rs[r], idx, ticks, swept) || (rs[r].tableIdx == idx && ticks <= rs[r].found.value.tick + c.Bound())
  }

  /** The requests rs' are those of rs that are left. */
  ghost predicate OnlyCleared(rs: seq<Req>, rs': seq<Req>) {
    |rs'| == |rs| && forall r :: 0 <= r < |rs| ==> rs'[r] == rs[r] || rs'[r] == rs[r].(found := None)
  }

  // ---------------------------------------------------------------- exactly once

  ghost function Own(r: Req, id: nat): nat {
    if r.found.Some? && r.found.value.id == id then 1 else 0
  }

  /** How often request id is waiting, and how often its callback was made. */
  ghost function Waiting(rs: seq<Req>, id: nat): nat {
    if rs == [] then 0 else Own(rs[0], id) + Waiting(rs[1..], id)
  }

  ghost function Called(calls: seq<Call>, id: nat): nat {
    if calls == [] then 0 else (if calls[0].ticket.id == id then 1 else 0) + Called(calls[1..], id)
  }

  ghost predicate OnceAt(rs: seq<Req>, calls: seq<Call>, next: nat, id: nat) {
    Waiting(rs, id) + Called(calls, id) == if id < next then 1 else 0
  }

  /** Each of the first `next` requests is waiting or has been called, once. */
  ghost predicate Once(rs: seq<Req>, calls: seq<Call>, next: nat) {
    forall id :: OnceAt(rs, calls, next, id)
  }

  ghost predicate InTime(c: Config, calls: seq<Call>) {
    forall i :: 0 <= i < |calls| ==> calls[i].tick <= calls[i].ticket.tick + c.Bound()
  }

  /** The requests rs after those of entry idx were called back. */
  ghost function Cleared(rs: seq<Req>, idx: nat): (rs': seq<Req>)
    ensures |rs'| == |rs|
    ensures forall r :: 0 <= r < |rs| ==> rs'[r] == if rs[r].tableIdx == idx then rs[r].(found := None) else rs[r]
  {
    seq(|rs|, r requires 0 <= r < |rs| => if rs[r].tableIdx == idx then rs[r].(found := None) else rs[r])
  }

  /** A request of rs waits for entry idx with this ticket. */
  ghost predicate IsFor(rs: seq<Req>, idx: nat, ticket: Ticket) {
    exists r :: 0 <= r < |rs| && rs[r] == Req(Some(ticket), idx)
  }

  /** The callbacks of the requests of entry idx. */
  ghost function Told(rs: seq<Req>, idx: nat, addr: Option<Addr>, tick: nat): seq<Call> {
    if rs == [] then []
    else
      var r := rs[|rs| - 1];
      Told(rs[..|rs| - 1], idx, addr, tick)
      + if r.found.Some? && r.tableIdx == idx then [Call(r.found.value, addr, tick)] else []
  }

  /** They are the callbacks of exactly the requests that wait for idx. */
  lemma {:induction false} ToldAre(rs: seq<Req>, idx: nat, addr: Option<Addr>, tick: nat, c: Call)
    ensures c in Told(rs, idx, addr, tick) <==> IsFor(rs, idx, c.ticket) && c.addr == addr && c.tick == tick
    ensures IsFor(rs, idx, c.ticket) <==> exists r :: 0 <= r < |rs| && rs[r] == Req(Some(c.ticket), idx)
    decreases |rs|
  {
    if rs != [] {
      var k := |rs| - 1;
      ToldAre(rs[..k], idx, addr, tick, c);
      if IsFor(rs, idx, c.ticket) && rs[k] != Req(Some(c.ticket), idx) {
        var r :| 0 <= r < |rs| && rs[r] == Req(Some(c.ticket), idx);
        assert rs[..k][r] == rs[r];
      }
    }
  }

  lemma {:induction false} ToldNone(rs: seq<Req>, idx: nat, addr: Option<Addr>, tick: nat)
    requires forall r :: 0 <= r < |rs| && rs[r].found.Some? ==> rs[r].tableIdx != idx
    ensures Told(rs, idx, addr, tick) == []
    decreases |rs|
  {
    if rs != [] { ToldNone(rs[..|rs| - 1], idx, addr, tick); }
  }

  lemma {:induction false} ToldOne(rs: seq<Req>, idx: nat, addr: Option<Addr>, tick: nat, k: nat)
    requires k < |rs| && rs[k].found.Some? && rs[k].tableIdx == idx
    requires forall r :: 0 <= r < |rs| && rs[r].found.Some? && rs[r].tableIdx == idx ==> r == k
    ensures Told(rs, idx, addr, tick) == [Call(rs[k].found.value, addr, tick)]
    decreases |rs|
  {
    var n := |rs| - 1;
    if k == n {
      ToldNone(rs[..n], idx, addr, tick);
    } else {
      ToldOne(rs[..n], idx, addr, tick, k);
    }
  }

  /** Exactly the requests of entry idx were called back, with addr, and are gone. */
  ghost predicate Settled(rs: seq<Req>, calls: seq<Call>, rs': seq<Req>, calls': seq<Call>, idx: nat, addr: Option<Addr>, tick: nat) {
    rs' == Cleared(rs, idx) && calls' == calls + Told(rs, idx, addr, tick)
  }

  lemma SettledIs(rs: seq<Req>, calls: seq<Call>, rs': seq<Req>, calls': seq<Call>, idx: nat, addr: Option<Addr>, tick: nat)
    requires Settled(rs, calls, rs', calls', idx, addr, tick)
    ensures OnlyCleared(rs, rs') && NewCalls(calls, calls', addr, tick)
    ensures forall r :: 0 <= r < |rs'| && rs'[r].found.Some? ==> rs'[r].tableIdx != idx
    ensures forall k :: |calls| <= k < |calls'| ==> IsFor(rs, idx, calls'[k].ticket)
    ensures forall r :: 0 <= r < |rs| && rs[r].found.Some? && rs[r].tableIdx == idx ==>
              Call(rs[r].found.value, addr, tick) in calls'[|calls|..]
  {
    hide Told, IsFor;
    var told := Told(rs, idx, addr, tick);
    forall k | |calls| <= k < |calls'| ensures IsFor(rs, idx, calls'[k].ticket) && calls'[k].addr == addr && calls'[k].tick == tick {
      assert calls'[k] == told[k - |calls|];
      ToldAre(rs, idx, addr, tick, calls'[k]);
    }
    assert calls'[|calls|..] == told;
    forall r | 0 <= r < |rs| && rs[r].found.Some? && rs[r].tableIdx == idx
      ensures Call(rs[r].found.value, addr, tick) in told
    {
      Waits(rs, idx, r);
      ToldAre(rs, idx, addr, tick, Call(rs[r].found.value, addr, tick));
    }
  }

  /** Entry idx asked before, and does no more. */
  ghost predicate Gone(t: seq<Entry>, t': seq<Entry>, idx: nat) {
    idx < |t| && idx < |t'| && t[idx].state == Asking && t'[idx].state != Asking
  }

  /** The requests of idx were called back if the entry is gone, and nothing happened to them otherwise. */
  ghost predicate SettledIfGone(t: seq<Entry>, rs: seq<Req>, calls: seq<Call>, t': seq<Entry>, rs': seq<Req>, calls': seq<Call>,
                                idx: nat, addr: Option<Addr>, tick: nat) {
    if Gone(t, t', idx) then Settled(rs, calls, rs', calls', idx, addr, tick) else rs' == rs && calls' == calls
  }

  lemma SettledIfGoneIs(t: seq<Entry>, rs: seq<Req>, calls: seq<Call>, t': seq<Entry>, rs': seq<Req>, calls': seq<Call>,
                        idx: nat, addr: Option<Addr>, tick: nat)
    requires SettledIfGone(t, rs, calls, t', rs', calls', idx, addr, tick)
    ensures OnlyCleared(rs, rs') && NewCalls(calls, calls', addr, tick)
    ensures if idx < |t| && idx < |t'| && t[idx].state == Asking && t'[idx].state != Asking
            then Settled(rs, calls, rs', calls', idx, addr, tick) else rs' == rs && calls' == calls
  {
    hide Settled;
    if Gone(t, t', idx) { SettledIs(rs, calls, rs', calls', idx, addr, tick); }
  }

  /** Exactly the requests of the entries that are gone were called back. */
  ghost predicate Served(t: seq<Entry>, rs: seq<Req>, calls: seq<Call>, t': seq<Entry>, rs': seq<Req>, calls': seq<Call>) {
    && |rs'| == |rs| && calls <= calls'
    && (forall r :: 0 <= r < |rs| ==> rs'[r] == if Gone(t, t', rs[r].tableIdx) then rs[r].(found := None) else rs[r])
    && (forall k :: |calls| <= k < |calls'| ==> ForGone(t, t', rs, calls'[k].ticket))
  }

  /** A request with this ticket waited for an entry that is gone. */
  ghost predicate ForGone(t: seq<Entry>, t': seq<Entry>, rs: seq<Req>, ticket: Ticket) {
    exists idx: nat :: Gone(t, t', idx) && IsFor(rs, idx, ticket)
  }

  lemma ServedIs(t: seq<Entry>, rs: seq<Req>, calls: seq<Call>, t': seq<Entry>, rs': seq<Req>, calls': seq<Call>, k: nat)
    requires Served(t, rs, calls, t', rs', calls') && |t'| == |t|
    ensures |rs'| == |rs| && calls <= calls'
    ensures forall r :: 0 <= r < |rs| && rs[r].tableIdx < |t| ==>
              rs'[r] == if t[rs[r].tableIdx].state == Asking && t'[rs[r].tableIdx].state != Asking then rs[r].(found := None) else rs[r]
    ensures |calls| <= k < |calls'| ==> exists idx: nat :: idx < |t| && t[idx].state == Asking && t'[idx].state != Asking && IsFor(rs, idx, calls'[k].ticket)
  {
    hide IsFor;
    if |calls| <= k < |calls'| {
      assert ForGone(t, t', rs, calls'[k].ticket);
    }
  }

  lemma ServedStep(t0: seq<Entry>, rs0: seq<Req>, calls0: seq<Call>, t: seq<Entry>, rs: seq<Req>, calls: seq<Call>,
                   i: nat, t': seq<Entry>, rs': seq<Req>, calls': seq<Call>, addr: Option<Addr>, tick: nat)
    requires Served(t0, rs0, calls0, t, rs, calls) && SettledIfGone(t, rs, calls, t', rs', calls', i, addr, tick)
    requires i < |t0| == |t| == |t'| && t[i] == t0[i] && forall j :: 0 <= j < |t| && j != i ==> t'[j] == t[j]
    ensures Served(t0, rs0, calls0, t', rs', calls')
  {
    hide IsFor, Settled, Told;
    assert forall j: nat :: j != i ==> (Gone(t0, t', j) <==> Gone(t0, t, j));
    assert Gone(t0, t', i) <==> Gone(t, t', i);
    SettledIfGoneIs(t, rs, calls, t', rs', calls', i, addr, tick);
    if Gone(t, t', i) { SettledIs(rs, calls, rs', calls', i, addr, tick); ClearedAre(rs, calls, rs', calls', i, addr, tick); }
    forall k | |calls0| <= k < |calls'| ensures ForGone(t0, t', rs0, calls'[k].ticket) {
      var x := calls'[k].ticket;
      if k < |calls| {
        assert calls'[k] == calls[k];
        var j: nat :| Gone(t0, t, j) && IsFor(rs0, j, x);
        assert Gone(t0, t', j);
      } else {
        WaitedBefore(t0, rs0, calls0, t, rs, calls, i, x);
        assert Gone(t0, t', i);
      }
    }
  }

  lemma ClearedAre(rs: seq<Req>, calls: seq<Call>, rs': seq<Req>, calls': seq<Call>, idx: nat, addr: Option<Addr>, tick: nat)
    requires Settled(rs, calls, rs', calls', idx, addr, tick)
    ensures rs' == Cleared(rs, idx)
  {
  }

  lemma WaitedBefore(t0: seq<Entry>, rs0: seq<Req>, calls0: seq<Call>, t: seq<Entry>, rs: seq<Req>, calls: seq<Call>, i: nat, x: Ticket)
    requires Served(t0, rs0, calls0, t, rs, calls) && IsFor(rs, i, x)
    ensures IsFor(rs0, i, x)
  {
    var r :| 0 <= r < |rs| && rs[r] == Req(Some(x), i);
    assert rs0[r] == rs[r];
  }

  lemma Waits(rs: seq<Req>, idx: nat, r: nat)
    requires r < |rs| && rs[r].found.Some? && rs[r].tableIdx == idx
    ensures IsFor(rs, idx, rs[r].found.value)
  {
    assert rs[r] == Req(Some(rs[r].found.value), idx);
  }

  /** The callbacks since `before`: all with the same address, at the same tick. */
  ghost predicate NewCalls(before: seq<Call>, calls: seq<Call>, addr: Option<Addr>, tick: nat) {
    before <= calls && forall i :: |before| <= i < |calls| ==> calls[i].addr == addr && calls[i].tick == tick
  }

  lemma {:induction false} WaitingUpdate(rs: seq<Req>, i: nat, r: Req, id: nat)
    requires i < |rs|
    ensures Waiting(rs[i := r], id) + Own(rs[i], id) == Waiting(rs, id) + Own(r, id)
    decreases i
  {
    if i == 0 {
      assert rs[0 := r][1..] == rs[1..];
    } else {
      WaitingUpdate(rs[1..], i - 1, r, id);
      assert rs[i := r][1..] == rs[1..][i - 1 := r];
    }
  }

  lemma {:induction false} CalledNext(calls: seq<Call>, c: Call, id: nat)
    ensures Called(calls + [c], id) == Called(calls, id) + if c.ticket.id == id then 1 else 0
    decreases |calls|
  {
    if calls == [] {
      assert (calls + [c])[1..] == [];
    } else {
      CalledNext(calls[1..], c, id);
      assert (calls + [c])[1..] == calls[1..] + [c];
    }
  }

  /** A callback is made and its request is gone. */
  lemma OnceCall(rs: seq<Req>, calls: seq<Call>, next: nat, i: nat, c: Call)
    requires Once(rs, calls, next) && i < |rs| && rs[i].found == Some(c.ticket)
    ensures Once(rs[i := rs[i].(found := None)], calls + [c], next)
  {
    var rs', calls' := rs[i := rs[i].(found := None)], calls + [c];
    forall id: nat ensures OnceAt(rs', calls', next, id) {
      assert OnceAt(rs, calls, next, id);
      WaitingUpdate(rs, i, rs'[i], id);
      CalledNext(calls, c, id);
    }
  }

  /** A request is accepted into a free slot. */
  lemma OnceAccept(rs: seq<Req>, calls: seq<Call>, next: nat, i: nat, r: Req)
    requires Once(rs, calls, next) && i < |rs| && rs[i].found.None? && r.found.Some? && r.found.value.id == next
    ensures Once(rs[i := r], calls, next + 1)
  {
    var rs', next' := rs[i := r], next + 1;
    forall id: nat ensures OnceAt(rs', calls, next', id) {
      assert OnceAt(rs, calls, next, id);
      WaitingUpdate(rs, i, r, id);
    }
  }

  // ---------------------------------------------------------------- the invariant, up to one entry

  /** All is well but for entry idx, which holds no port and has no requests. */
  ghost predicate Idle(c: Config, t: seq<Entry>, pcbs: seq<bool>, rs: seq<Req>, idx: int, ticks: nat, swept: nat) {
    TableBut(c, t, idx) && PortsBut(c, t, pcbs, idx, -1) && ReqsBut(c, t, rs, idx, ticks, swept)
  }

  /** All is well but for entry idx, which holds its port and may have requests. */
  ghost predicate Busy(c: Config, t: seq<Entry>, pcbs: seq<bool>, rs: seq<Req>, idx: int, ticks: nat, swept: nat) {
    && TableBut(c, t, idx) && 0 <= idx < c.table && t[idx].pcbIdx < c.table
    && PortsBut(c, t, pcbs, idx, t[idx].pcbIdx) && ReqsFor(c, t, rs, idx, ticks, swept)
  }

  lemma UsedSplit(t: seq<Entry>, idx: nat, k: int)
    requires idx < |t|
    ensures UsedBut(t, -1, k) <==> UsedBut(t, idx, k) || (t[idx].state == Asking && t[idx].pcbIdx == k)
  {
    if UsedBut(t, -1, k) {
      var i :| AsksBut(t, -1, i) && t[i].pcbIdx == k;
      assert i != idx ==> AsksBut(t, idx, i);
    }
    if UsedBut(t, idx, k) {
      var i :| AsksBut(t, idx, i) && t[i].pcbIdx == k;
      assert AsksBut(t, -1, i);
    }
    if t[idx].state == Asking { assert AsksBut(t, -1, idx); }
  }

  lemma UsedSwap(t: seq<Entry>, idx: nat, e: Entry, k: int)
    requires idx < |t|
    ensures UsedBut(t[idx := e], idx, k) <==> UsedBut(t, idx, k)
  {
    var t' := t[idx := e];
    if UsedBut(t, idx, k) {
      var i :| AsksBut(t, idx, i) && t[i].pcbIdx == k;
      assert AsksBut(t', idx, i);
    }
    if UsedBut(t', idx, k) {
      var i :| AsksBut(t', idx, i) && t'[i].pcbIdx == k;
      assert AsksBut(t, idx, i);
    }
  }

  /** What holds but for an entry does not depend on the entry. */
  lemma IdleSwap(c: Config, t: seq<Entry>, pcbs: seq<bool>, rs: seq<Req>, idx: nat, ticks: nat, swept: nat, e: Entry)
    requires Idle(c, t, pcbs, rs, idx, ticks, swept) && idx < c.table
    ensures Idle(c, t[idx := e], pcbs, rs, idx, ticks, swept)
  {
    hide UsedBut, Remaining, WellFormed;
    var t' := t[idx := e];
    assert forall i :: AsksBut(t', idx, i) <==> AsksBut(t, idx, i);
    forall k ensures UsedBut(t', idx, k) <==> UsedBut(t, idx, k) { UsedSwap(t, idx, e, k); }
  }

  lemma IdleValid(c: Config, t: seq<Entry>, pcbs: seq<bool>, rs: seq<Req>, idx: nat, ticks: nat, swept: nat)
    requires idx < c.table == |t| && t[idx].state != Asking && t[idx].state != New
    ensures Idle(c, t, pcbs, rs, idx, ticks, swept) <==> Idle(c, t, pcbs, rs, -1, ticks, swept)
  {
    hide UsedBut, Remaining, WellFormed;
    assert forall i :: AsksBut(t, -1, i) <==> AsksBut(t, idx, i);
    forall k ensures UsedBut(t, -1, k) <==> UsedBut(t, idx, k) { UsedSplit(t, idx, k); }
  }

  lemma RemainingPositive(c: Config, e: Entry)
    requires c.Valid() && WellFormed(c, e)
    ensures 1 <= Remaining(c, e) <= c.Bound()
  {
    TriGrows(e.retries, c.retries - 1);
    TriIs(e.retries);
    BoundIs(c);
    var k := c.servers - 1 - e.serverIdx;
    Product(k, Round(c));
    ServersLeft(k + 1, c.servers, Round(c));
  }

  lemma ServersLeft(a: nat, b: nat, n: nat)
    requires a <= b
    ensures a * n <= b * n
  {
  }

  lemma ValidBusy(c: Config, t: seq<Entry>, pcbs: seq<bool>, rs: seq<Req>, idx: nat, ticks: nat, swept: nat)
    requires Idle(c, t, pcbs, rs, -1, ticks, swept) && idx < c.table && t[idx].state == Asking
    ensures Busy(c, t, pcbs, rs, idx, ticks, swept) && WellFormed(c, t[idx])
    ensures forall i :: AsksBut(t, idx, i) ==> t[i].txid != t[idx].txid
  {
    hide UsedBut, Remaining;
    assert AsksBut(t, -1, idx);
    RemainingPositive(c, t[idx]);
    assert forall i :: AsksBut(t, idx, i) ==> AsksBut(t, -1, i);
    forall k ensures UsedBut(t, -1, k) <==> UsedBut(t, idx, k) || k == t[idx].pcbIdx { UsedSplit(t, idx, k); }
    forall r | 0 <= r < c.table && rs[r].found.Some?
      ensures ReqBut(c, t, rs[r], idx, ticks, swept) || (rs[r].tableIdx == idx && ticks <= rs[r].found.value.tick + c.Bound())
    {
      assert ReqBut(c, t, rs[r], -1, ticks, swept);
    }
  }

  /** An entry that asks with an id of its own completes the invariant. */
  lemma BusyValid(c: Config, t: seq<Entry>, pcbs: seq<bool>, rs: seq<Req>, idx: nat, ticks: nat, swept: nat)
    requires Busy(c, t, pcbs, rs, idx, ticks, swept) && t[idx].state == Asking && WellFormed(c, t[idx])
    requires forall i :: AsksBut(t, idx, i) ==> t[i].txid != t[idx].txid
    requires forall r :: 0 <= r < c.table && rs[r].found.Some? && rs[r].tableIdx == idx ==>
               ticks + Remaining(c, t[idx]) <= rs[r].found.value.tick + c.Bound() + if idx < swept then 0 else 1
    ensures Idle(c, t, pcbs, rs, -1, ticks, swept)
  {
    hide UsedBut, Remaining, WellFormed;
    assert forall i :: AsksBut(t, -1, i) <==> AsksBut(t, idx, i) || i == idx;
    forall k ensures UsedBut(t, -1, k) <==> UsedBut(t, idx, k) || k == t[idx].pcbIdx { UsedSplit(t, idx, k); }
    forall r | 0 <= r < c.table && rs[r].found.Some? ensures ReqBut(c, t, rs[r], -1, ticks, swept) {
      assert ReqBut(c, t, rs[r], idx, ticks, swept) || rs[r].tableIdx == idx;
    }
  }

  /** Changing the entry that is left out changes nothing else. */
  lemma BusySwap(c: Config, t: seq<Entry>, pcbs: seq<bool>, rs: seq<Req>, idx: nat, ticks: nat, swept: nat, e: Entry)
    requires Busy(c, t, pcbs, rs, idx, ticks, swept) && e.pcbIdx == t[idx].pcbIdx
    ensures Busy(c, t[idx := e], pcbs, rs, idx, ticks, swept)
    ensures forall i :: AsksBut(t[idx := e], idx, i) <==> AsksBut(t, idx, i)
  {
    hide UsedBut, Remaining, WellFormed;
    var t' := t[idx := e];
    assert forall i :: AsksBut(t', idx, i) <==> AsksBut(t, idx, i);
    forall k ensures UsedBut(t', idx, k) <==> UsedBut(t, idx, k) { UsedSwap(t, idx, e, k); }
    forall r | 0 <= r < c.table && rs[r].found.Some?
      ensures ReqBut(c, t', rs[r], idx, ticks, swept) || (rs[r].tableIdx == idx && ticks <= rs[r].found.value.tick + c.Bound())
    {
      assert ReqBut(c, t, rs[r], idx, ticks, swept) || rs[r].tableIdx == idx;
    }
  }

  /** A new request for an entry that asks. */
  lemma AcceptOk(c: Config, t: seq<Entry>, pcbs: seq<bool>, rs: seq<Req>, r: nat, i: nat, ticks: nat, ticket: Ticket)
    requires Idle(c, t, pcbs, rs, -1, ticks, c.table) && r < c.table && i < c.table && t[i].state == Asking && ticket.tick == ticks
    ensures Idle(c, t, pcbs, rs[r := Req(Some(ticket), i)], -1, ticks, c.table)
  {
    hide UsedBut, Remaining, WellFormed;
    assert AsksBut(t, -1, i);
    RemainingPositive(c, t[i]);
  }

  /** A new request for an entry that is not in use, which gets port k. */
  lemma NewBusy(c: Config, t: seq<Entry>, pcbs: seq<bool>, rs: seq<Req>, idx: nat, ticks: nat, r: nat, ticket: Ticket, e: Entry)
    requires Idle(c, t, pcbs, rs, idx, ticks, c.table) && idx < c.table && r < c.table && ticket.tick == ticks
    requires e.pcbIdx < c.table
    ensures Busy(c, t[idx := e], pcbs[e.pcbIdx := true], rs[r := Req(Some(ticket), idx)], idx, ticks, c.table)
    ensures forall q :: 0 <= q < c.table && q != r && rs[q].found.Some? ==> rs[q].tableIdx != idx
  {
    hide UsedBut, Remaining, WellFormed;
    IdleSwap(c, t, pcbs, rs, idx, ticks, c.table, e);
    var rs' := rs[r := Req(Some(ticket), idx)];
    var t' := t[idx := e];
    forall q | 0 <= q < c.table && rs'[q].found.Some?
      ensures ReqBut(c, t', rs'[q], idx, ticks, c.table) || (rs'[q].tableIdx == idx && ticks <= rs'[q].found.value.tick + c.Bound())
    {
      if q != r { assert ReqBut(c, t', rs[q], idx, ticks, c.table); }
    }
  }
}
