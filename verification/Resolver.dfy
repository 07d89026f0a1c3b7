/** The functions of dns.c over the resolver's tables. */
module Resolver {
  import opened Prelude
  import opened Circular
  import opened Dns
  import DnsNames

  /** lwip_strnicmp on names that fit into the table. */
  predicate SameName(a: seq<byte>, b: seq<byte>) {
    |a| == |b| && forall i :: 0 <= i < |a| ==> Lower(a[i]) == Lower(b[i])
  }

  class Resolver {
    const c: Config
    /** dns_table, dns_requests, and which of dns_pcbs are open. */
    var table: seq<Entry>
    var requests: seq<Req>
    var pcbs: seq<bool>
    var servers: seq<Addr>
    /** dns_txid, dns_seqno, dns_last_pcb_idx */
    var txid: nat
    var seqno: nat
    var lastPcb: nat
    /** The callbacks made so far. */
    var calls: seq<Call>
    /** How many ticks there were and how many requests were accepted. */
    var ticks: nat
    var accepted: nat
    /** The entries below this one have seen the current tick. */
    ghost var swept: nat

    ghost predicate Common()
      reads this
    {
      && c.Valid() && |servers| == c.servers && txid < 0x1_0000 && seqno < 0x100 && lastPcb < c.table
      && Once(requests, calls, accepted) && InTime(c, calls)
    }

    ghost predicate Rests(idx: int)
      reads this
    {
      Common() && Idle(c, table, pcbs, requests, idx, ticks, swept)
    }

    ghost predicate Holds(idx: int)
      reads this
    {
      Common() && Busy(c, table, pcbs, requests, idx, ticks, swept)
    }

    ghost predicate Valid()
      reads this
    {
      Rests(-1)
    }

    constructor (c: Config)
      requires c.Valid()
      ensures Valid() && this.c == c && swept == c.table && accepted == 0 && calls == []
    {
      this.c := c;
      table := seq(c.table, _ => Entry(Unused, [], 0, 0, 0, 0, 0, 0, 0, 0));
      requests := seq(c.table, _ => Req(None, 0));
      pcbs := seq(c.table, _ => false);
      servers := seq(c.servers, _ => 0);
      txid, seqno, lastPcb, calls := 0, 0, 0, [];
      ticks, swept, accepted := 0, c.table, 0;
      new;
      NoneWaiting(requests);
    }

    /** dns_setserver */
    method SetServer(k: nat, addr: Addr)
      requires Valid()
      modifies `servers
      ensures Valid() && servers == if k < c.servers then old(servers)[k := addr] else old(servers)
    {
      if k < c.servers {
        servers := servers[k := addr];
      }
    }

    /** dns_create_txid: an id that no other entry asks with. */
    method CreateTxid() returns (r: nat)
      requires c.Valid() && |table| == c.table && txid < 0x1_0000
      modifies `txid
      ensures r == txid < 0x1_0000 && forall i :: 0 <= i < c.table && table[i].state == Asking ==> table[i].txid != r
    {
      ghost var ids: seq<int> := seq(c.table, i requires 0 <= i < c.table reads this requires |table| == c.table => table[i].txid);
      ghost var v := Pigeon(Members(ids), 0, 0x1_0000);
      while true
        invariant txid < 0x1_0000 && |table| == c.table && v !in ids && 0 <= v < 0x1_0000
        invariant forall i :: 0 <= i < c.table ==> ids[i] == table[i].txid
        decreases Ahead(0, 0x1_0000, U16(txid + 1), v)
      {
        r := U16(txid + 1);
        txid := r;
        var i := 0;
        while i < c.table && !(table[i].state == Asking && table[i].txid == r)
          invariant i <= c.table && forall j :: 0 <= j < i && table[j].state == Asking ==> table[j].txid != r
        {
          i := i + 1;
        }
        if i == c.table {
          return;
        }
        assert ids[i] == r;
      }
    }

    /** dns_alloc_pcb; `canOpen` says whether a new port can be had. */
    method AllocPcb(canOpen: bool) returns (r: nat)
      requires |pcbs| == c.table && lastPcb < c.table
      modifies `pcbs, `lastPcb
      ensures lastPcb < c.table && r <= c.table
      ensures r < c.table ==> pcbs == old(pcbs)[r := true]
      ensures r == c.table <==> !canOpen && forall k :: 0 <= k < c.table ==> !old(pcbs)[k]
      ensures r == c.table ==> pcbs == old(pcbs)
    {
      var i := 0;
      while i < c.table && pcbs[i]
        invariant i <= c.table && forall k :: 0 <= k < i ==> pcbs[k]
      {
        i := i + 1;
      }
      if i < c.table && canOpen {
        pcbs := pcbs[i := true];
        lastPcb := i;
        return i;
      }
      var idx: nat := lastPcb + 1;
      ghost var first := if idx == c.table then 0 else idx;
      i := 0;
      while i < c.table
        invariant i <= c.table && idx <= c.table && pcbs == old(pcbs) && lastPcb < c.table
        invariant i < c.table ==> Ahead(0, c.table, first, if idx == c.table then 0 else idx) == i
        invariant forall k :: 0 <= k < c.table && Ahead(0, c.table, first, k) < i ==> !pcbs[k]
      {
        if idx >= c.table {
          idx := 0;
        }
        if pcbs[idx] {
          lastPcb := idx;
          assert pcbs == pcbs[idx := true];
          return idx;
        }
        i := i + 1;
        idx := idx + 1;
      }
      return c.table;
    }

    /** The first loop of dns_call_found: every request that waits for idx is called back. */
    method Notify(idx: nat, addr: Option<Addr>)
      requires Holds(idx)
      modifies `requests, `calls
      ensures Holds(idx) && Settled(old(requests), old(calls), requests, calls, idx, addr, ticks)
    {
      hide TableBut, PortsBut, Once, Remaining, Told;
      ghost var rs := requests;
      ToldStart(rs, calls, idx, addr, ticks);
      var i := 0;
      while i < c.table
        invariant i <= c.table == |rs| == |requests| && Holds(idx)
        invariant calls == old(calls) + Told(rs[..i], idx, addr, ticks)
        invariant forall r :: 0 <= r < c.table ==> requests[r] == if r < i && rs[r].tableIdx == idx then rs[r].(found := None) else rs[r]
      {
        ToldStep(rs, i, idx, addr, ticks);
        if requests[i].found.Some? && requests[i].tableIdx == idx {
          var c := Call(requests[i].found.value, addr, ticks);
          OnceCall(requests, calls, accepted, i, c);
          calls := calls + [c];
          requests := requests[i := requests[i].(found := None)];
        }
        i := i + 1;
      }
      assert rs[..i] == rs;
      assert requests == Cleared(rs, idx);
    }

    /** The rest of dns_call_found: the port is closed unless another entry asks through it. */
    method ClosePcb(idx: nat)
      requires Holds(idx) && forall r :: 0 <= r < c.table && requests[r].found.Some? ==> requests[r].tableIdx != idx
      modifies `table, `pcbs
      ensures Rests(idx) && table == old(table)[idx := old(table)[idx].(pcbIdx := c.table)]
    {
      hide ReqBut, Once, InTime, UsedBut, WellFormed;
      ghost var t, ps := table, pcbs;
      var own := table[idx].pcbIdx;
      var e := table[idx].(pcbIdx := c.table);
      var i := 0;
      while i < c.table && !(i != idx && table[i].state == Asking && table[i].pcbIdx == own)
        invariant i <= c.table && table == t && pcbs == ps
        invariant forall j :: AsksBut(t, idx, j) && j < i ==> t[j].pcbIdx != own
      {
        i := i + 1;
      }
      if i < c.table {
        StillUsed(t, idx, i);
        table := table[idx := e];
      } else {
        NotUsed(t, idx, own);
        pcbs := pcbs[own := false];
        table := table[idx := e];
      }
      IdleSwap(c, t, pcbs, requests, idx, ticks, swept, e);
    }

    /** dns_call_found */
    method CallFound(idx: nat, addr: Option<Addr>)
      requires Holds(idx)
      modifies `table, `requests, `pcbs, `calls
      ensures Rests(idx) && Settled(old(requests), old(calls), requests, calls, idx, addr, ticks)
      ensures table == old(table)[idx := old(table)[idx].(pcbIdx := c.table)]
    {
      hide Settled;
      Notify(idx, addr);
      SettledIs(old(requests), old(calls), requests, calls, idx, addr, ticks);
      ClosePcb(idx);
    }

    /** The entry is given up or flushed. */
    method Flush(idx: nat)
      requires Rests(idx) && idx < c.table
      modifies `table
      ensures Valid() && table == old(table)[idx := old(table)[idx].(state := Unused)]
    {
      hide Idle, Once, InTime;
      SizeOf(c, table, pcbs, requests, idx, ticks, swept);
      var e := table[idx].(state := Unused);
      IdleSwap(c, table, pcbs, requests, idx, ticks, swept, e);
      table := table[idx := e];
      IdleValid(c, table, pcbs, requests, idx, ticks, swept);
    }

    /** dns_send; a packet that cannot be sent is lost, and a server that is gone ends the query. */
    method Send(idx: nat)
      requires Holds(idx) && idx < c.table && table[idx].state == Asking && WellFormed(c, table[idx])
      requires Idle(c, table, pcbs, requests, -1, ticks, swept)
      modifies `table, `requests, `pcbs, `calls
      ensures Valid()
      ensures forall i :: 0 <= i < c.table && i != idx ==> table[i] == old(table)[i]
      ensures old(table)[idx].serverIdx < c.servers
      ensures table[idx] == if servers[old(table)[idx].serverIdx] != 0 then old(table)[idx]
                            else old(table)[idx].(pcbIdx := c.table, state := Unused)
      ensures if servers[old(table)[idx].serverIdx] != 0 then requests == old(requests) && calls == old(calls)
              else Settled(old(requests), old(calls), requests, calls, idx, None, ticks)
      ensures SettledIfGone(old(table), old(requests), old(calls), table, requests, calls, idx, None, ticks)
    {
      hide Idle, Busy, Once, InTime, WellFormed, Settled;
      SizeOf(c, table, pcbs, requests, -1, ticks, swept);
      assert table[idx].serverIdx < c.servers by { ServerIn(c, table[idx]); }
      if servers[table[idx].serverIdx] == 0 {
        CallFound(idx, None);
        Flush(idx);
      }
    }

    /** dns_backupserver_available */
    predicate BackupAvailable(e: Entry)
      requires |servers| == c.servers
      reads `servers
    {
      e.serverIdx + 1 < c.servers && servers[e.serverIdx + 1] != 0
    }

    /** dns_check_entry for an entry that asks. */
    method CheckAsking(i: nat)
      requires Valid() && i < c.table == |table| && table[i].state == Asking
      modifies `table, `requests, `pcbs, `calls
      ensures Valid() && SettledIfGone(old(table), old(requests), old(calls), table, requests, calls, i, None, ticks)
      ensures forall j :: 0 <= j < c.table && j != i ==> table[j] == old(table)[j]
      ensures Ticked(c, old(table)[i], table[i], servers)
    {
      hide Idle, Busy, Once, InTime, Remaining, Settled;
      ValidBusy(c, table, pcbs, requests, i, ticks, swept);
      var e := table[i].(tmr := table[i].tmr - 1);
      if e.tmr == 0 {
        e := e.(retries := e.retries + 1);
        if e.retries == c.retries {
          if BackupAvailable(e) {
            e := e.(serverIdx := e.serverIdx + 1, tmr := 1, retries := 0);
          } else {
            Update(i, e);
            CallFound(i, None);
            Flush(i);
            return;
          }
        } else {
          e := e.(tmr := e.retries);
        }
        Progress(c, table[i], e);
        Reask(i, e);
        Send(i);
      } else {
        Progress(c, table[i], e);
        Reask(i, e);
      }
    }

    /** The fields of an entry change, but not its port. */
    method Update(i: nat, e: Entry)
      requires Holds(i) && e.pcbIdx == table[i].pcbIdx
      modifies `table
      ensures Holds(i) && table == old(table)[i := e]
    {
      hide Once, InTime;
      BusySwap(c, table, pcbs, requests, i, ticks, swept, e);
      table := table[i := e];
    }

    /** An entry that asks goes on asking, with less time left. */
    method Reask(i: nat, e: Entry)
      requires Valid() && i < c.table == |table| && table[i].state == Asking && e.state == Asking && WellFormed(c, e)
      requires e.pcbIdx == table[i].pcbIdx && e.txid == table[i].txid && Remaining(c, e) <= Remaining(c, table[i])
      modifies `table
      ensures Valid() && Holds(i) && table == old(table)[i := e]
    {
      hide Once, InTime, Remaining, WellFormed;
      ghost var t := table;
      ValidBusy(c, t, pcbs, requests, i, ticks, swept);
      WasDue(c, t, pcbs, requests, i, ticks, swept);
      Update(i, e);
      BusySwap(c, t, pcbs, requests, i, ticks, swept, e);
      hide UsedBut;
      assert forall j :: AsksBut(table, i, j) ==> AsksBut(t, i, j) && table[j] == t[j];
      BusyValid(c, table, pcbs, requests, i, ticks, swept);
    }

    /** dns_check_entry; between calls no entry is new. */
    method CheckEntry(i: nat)
      requires Valid() && i < c.table == |table|
      modifies `table, `requests, `pcbs, `calls
      ensures Valid() && SettledIfGone(old(table), old(requests), old(calls), table, requests, calls, i, None, ticks)
      ensures forall j :: 0 <= j < c.table && j != i ==> table[j] == old(table)[j]
      ensures Ticked(c, old(table)[i], table[i], servers)
    {
      hide Idle, Busy, Once, InTime, Remaining, Settled;
      if table[i].state == Asking {
        CheckAsking(i);
      } else if table[i].state == Done {
        ghost var t := table;
        var e := table[i];
        IdleValid(c, t, pcbs, requests, i, ticks, swept);
        if e.ttl == 0 {
          Flush(i);
        } else {
          e := e.(ttl := e.ttl - 1);
          if e.ttl == 0 {
            e := e.(state := Unused);
          }
          IdleSwap(c, t, pcbs, requests, i, ticks, swept, e);
          table := table[i := e];
          IdleValid(c, table, pcbs, requests, i, ticks, swept);
        }
      }
    }

    /** dns_tmr, which calls dns_check_entries: a tick passes. */
    method Tick()
      requires Valid() && swept == c.table
      modifies this
      ensures Valid() && swept == c.table && ticks == old(ticks) + 1
      ensures accepted == old(accepted) && NewCalls(old(calls), calls, None, ticks)
      ensures Served(old(table), old(requests), old(calls), table, requests, calls)
      ensures forall j :: 0 <= j < c.table ==> Ticked(c, old(table)[j], table[j], servers)
    {
      hide Once, InTime, Remaining, UsedBut, WellFormed, Ticked, Served, SettledIfGone;
      ServedNone(table, requests, calls);
      ticks, swept := ticks + 1, 0;
      TickStarts(c, table, requests, -1, old(ticks));
      var i := 0;
      while i < c.table
        invariant i == swept <= c.table && Valid() && ticks == old(ticks) + 1 && accepted == old(accepted)
        invariant Served(old(table), old(requests), old(calls), table, requests, calls) && NewCalls(old(calls), calls, None, ticks)
        invariant servers == old(servers) && forall j :: 0 <= j < c.table ==>
                    if j < i then Ticked(c, old(table)[j], table[j], servers) else table[j] == old(table)[j]
      {
        ghost var t, rs, cs := table, requests, calls;
        CheckEntry(i);
        SettledIfGoneIs(t, rs, cs, table, requests, calls, i, None, ticks);
        ServedStep(old(table), old(requests), old(calls), t, rs, cs, i, table, requests, calls, None, ticks);
        TickedAsks(c, t[i], table[i], servers);
        Swept(c, t, rs, table, requests, ticks, i);
        swept := i + 1;
        i := i + 1;
      }
    }

    /** dns_check_entry for a new entry: it asks, with an id of its own. */
    method StartEntry(i: nat)
      requires Holds(i) && i < c.table && swept == c.table && table[i].state == New
      requires forall r :: 0 <= r < c.table && requests[r].found.Some? && requests[r].tableIdx == i ==> requests[r].found.value.tick == ticks
      modifies `table, `requests, `pcbs, `calls, `txid
      ensures Valid()
      ensures table[i].state == (if servers[0] == 0 then Unused else Asking) && table[i].name == old(table)[i].name
      ensures table[i].state == Asking ==> Remaining(c, table[i]) == c.Bound() && table[i].pcbIdx == old(table)[i].pcbIdx
      ensures if servers[0] != 0 then requests == old(requests) && calls == old(calls)
              else Settled(old(requests), old(calls), requests, calls, i, None, ticks)
      ensures forall j :: 0 <= j < c.table && j != i ==> table[j] == old(table)[j]
    {
      hide Once, InTime, UsedBut, Settled;
      ghost var t := table;
      var id := CreateTxid();
      var e := table[i].(txid := id, state := Asking, serverIdx := 0, tmr := 1, retries := 0);
      BusySwap(c, t, pcbs, requests, i, ticks, swept, e);
      Update(i, e);
      FullTime(c, e);
      assert forall j :: AsksBut(table, i, j) ==> AsksBut(t, i, j) && table[j] == t[j];
      BusyValid(c, table, pcbs, requests, i, ticks, swept);
      hide Idle, Busy, ReqBut;
      Send(i);
    }

    /** dns_correct_response */
    method CorrectResponse(idx: nat, addr: Addr, ttl: nat)
      requires Valid() && idx < c.table == |table| && table[idx].state == Asking
      modifies `table, `requests, `pcbs, `calls
      ensures Valid() && Settled(old(requests), old(calls), requests, calls, idx, Some(addr), ticks)
      ensures forall j :: 0 <= j < c.table && j != idx ==> table[j] == old(table)[j]
      ensures table[idx].addr == addr && table[idx].state == if ttl == 0 then Unused else Done
      ensures table[idx].ttl == if ttl > 604800 then 604800 else ttl
    {
      hide Idle, Busy, Once, InTime, Settled;
      ValidBusy(c, table, pcbs, requests, idx, ticks, swept);
      var e := table[idx].(addr := addr, state := Done, ttl := if ttl > MAX_TTL then MAX_TTL else ttl);
      Update(idx, e);
      CallFound(idx, Some(addr));
      SizeOf(c, table, pcbs, requests, idx, ticks, swept);
      if table[idx].ttl == 0 {
        Flush(idx);
      }
      IdleValid(c, table, pcbs, requests, idx, ticks, swept);
    }

    /** What dns_recv does with a reply to the query of entry i. */
    method Handle(i: nat, error: bool, section: Section)
      requires Valid() && swept == c.table && i < c.table == |table| && table[i].state == Asking && (!error ==> section != Broken)
      modifies `table, `requests, `pcbs, `calls
      ensures Valid()
      ensures var addr := if !error && section.Address? then Some(section.addr) else None;
              SettledIfGone(old(table), old(requests), old(calls), table, requests, calls, i, addr, ticks)
      ensures forall j :: 0 <= j < c.table && j != i ==> table[j] == old(table)[j]
      ensures !error && section.Address? ==> table[i].addr == section.addr && table[i].state != Asking
      ensures error && BackupAvailable(old(table)[i]) ==>
                table[i].state == Asking && table[i].serverIdx == old(table)[i].serverIdx + 1 && Remaining(c, table[i]) <= Remaining(c, old(table)[i])
                && table[i].name == old(table)[i].name && table[i].txid == old(table)[i].txid
      ensures (if error then !BackupAvailable(old(table)[i]) else section.NoAddress?) ==> table[i].state == Unused
    {
      hide Idle, Busy, Once, InTime, Remaining, Settled;
      ValidBusy(c, table, pcbs, requests, i, ticks, swept);
      if error {
        if BackupAvailable(table[i]) {
          var e := table[i].(retries := c.retries - 1, tmr := 1);
          Shortcut(c, table[i], e);
          Reask(i, e);
          SizeOf(c, table, pcbs, requests, -1, ticks, swept);
          CheckEntry(i);
          SizeOf(c, table, pcbs, requests, -1, ticks, swept);
          return;
        }
      } else if section.Address? {
        CorrectResponse(i, section.addr, section.ttl);
        SizeOf(c, table, pcbs, requests, -1, ticks, swept);
        return;
      }
      CallFound(i, None);
      Flush(i);
    }

    /**
    dns_recv, for a packet p that comes from `from` and whose answer records hold `section`;
    `behind` is what lies in memory behind the names in the table.
    */
    method Recv(p: seq<byte>, from: Addr, section: Section, behind: nat -> byte)
      requires Valid() && swept == c.table && |p| < 0x1_0000
      modifies `table, `requests, `pcbs, `calls
      ensures Valid() && |old(table)| == |table| == c.table
      ensures |p| > 3 ==> NewCalls(old(calls), calls, if p[3] % 16 == 0 && section.Address? then Some(section.addr) else None, ticks)
      ensures (forall i :: !Hits(old(table), servers, i, p, from, behind)) || (p[3] % 16 == 0 && section == Broken) ==>
                table == old(table) && requests == old(requests) && calls == old(calls)
      ensures forall i :: Hits(old(table), servers, i, p, from, behind) ==>
                var addr := if p[3] % 16 == 0 && section.Address? then Some(section.addr) else None;
                && SettledIfGone(old(table), old(requests), old(calls), table, requests, calls, i, addr, ticks)
                && forall j :: 0 <= j < c.table && j != i ==> table[j] == old(table)[j]
      ensures forall i :: Hits(old(table), servers, i, p, from, behind) ==> (
                if p[3] % 16 != 0 then
                  if BackupAvailable(old(table)[i])
                  then table[i].state == Asking && table[i].serverIdx == old(table)[i].serverIdx + 1 else table[i].state == Unused
                else if section.Address? then table[i].addr == section.addr && table[i].state != Asking
                else section.NoAddress? ==> table[i].state == Unused)
      ensures forall i :: 0 <= i < c.table && table[i].state == Asking ==>
                && old(table)[i].state == Asking && Remaining(c, table[i]) <= Remaining(c, old(table)[i])
                && table[i].name == old(table)[i].name && table[i].txid == old(table)[i].txid
    {
      hide Idle, Busy, Once, InTime, Remaining, Replies, SettledIfGone;
      SizeOf(c, table, pcbs, requests, -1, ticks, swept);
      ShortPacket(p, behind);
      NothingSettled(table, requests, calls, ticks);
      if |p| < DnsNames.HDR + DnsNames.QUERY {
        return;
      }
      var id := PacketId(p);
      var i := 0;
      while i < c.table && !(table[i].state == Asking && table[i].txid == id)
        invariant i <= c.table && forall j :: 0 <= j < i ==> !(table[j].state == Asking && table[j].txid == id)
      {
        i := i + 1;
      }
      if i == c.table {
        return;
      }
      ValidBusy(c, table, pcbs, requests, i, ticks, swept);
      if from != servers[table[i].serverIdx] {
        return;
      }
      var ok := MatchQuestion(p, table[i].name, behind);
      if !ok || (p[3] % 16 == 0 && section == Broken) {
        return;
      }
      assert Hits(old(table), servers, i, p, from, behind);
      HitsOnce(c, table, pcbs, requests, ticks, swept, servers, i, p, from, behind);
      ghost var t, rs, cs := table, requests, calls;
      Handle(i, p[3] % 16 != 0, section);
      SettledIfGoneIs(t, rs, cs, table, requests, calls, i, if p[3] % 16 == 0 && section.Address? then Some(section.addr) else None, ticks);
      SizeOf(c, table, pcbs, requests, -1, ticks, swept);
    }

    /** The search of dns_enqueue: the first unused entry, or else the completed one that is oldest. */
    method FindEntry() returns (r: nat)
      requires |table| == c.table
      ensures r <= c.table && (r < c.table ==> table[r].state == Unused || table[r].state == Done)
      ensures r < c.table && table[r].state == Unused ==> forall i :: 0 <= i < r ==> table[i].state != Unused
      ensures r == c.table || table[r].state == Done ==> forall i :: 0 <= i < c.table ==> table[i].state != Unused
      ensures r < c.table && table[r].state == Done ==>
                forall i :: 0 <= i < c.table && table[i].state == Done ==> U8(seqno - table[i].seqno) <= U8(seqno - table[r].seqno)
      ensures r < c.table <==> Usable(table, seqno)
    {
      hide U8;
      var lseq: nat, lseqi: nat, i: nat := 0, c.table, 0;
      while i < c.table && table[i].state != Unused
        invariant i <= c.table && lseqi <= c.table && forall j :: 0 <= j < i ==> table[j].state != Unused
        invariant forall j :: 0 <= j < i && table[j].state == Done ==> U8(seqno - table[j].seqno) <= lseq
        invariant if lseqi == c.table then lseq == 0 else lseq > 0 && table[lseqi].state == Done && U8(seqno - table[lseqi].seqno) == lseq
      {
        if table[i].state == Done {
          var age := U8(seqno - table[i].seqno);
          if age > lseq {
            lseq, lseqi := age, i;
          }
        }
        i := i + 1;
      }
      return if i < c.table then i else lseqi;
    }

    method FreeRequest() returns (r: nat)
      requires |requests| == c.table
      ensures r <= c.table && (r < c.table ==> requests[r].found.None?)
      ensures r < c.table <==> HasFree(requests)
    {
      r := 0;
      while r < c.table && requests[r].found.Some?
        invariant r <= c.table && forall q :: 0 <= q < r ==> requests[q].found.Some?
      {
        r := r + 1;
      }
    }

    /**
    dns_enqueue. `canOpen` says whether a new port can be had, and `tries` how many numbers of
    the id counter the choice of a port uses up. A query without a server fails at once.
    */
    method Enqueue(name: seq<byte>, canOpen: bool, tries: nat) returns (err: Err)
      requires Valid() && swept == c.table
      modifies this
      ensures Valid() && swept == c.table && ticks == old(ticks)
      ensures err == InProgress <==>
              && (exists r :: 0 <= r < |old(requests)| && old(requests)[r].found.None?)
              && (|| Duplicate(old(table), name)
                  || ((canOpen || true in old(pcbs)) && Usable(old(table), old(seqno))))
      ensures Usable(old(table), old(seqno)) <==>
              exists i :: 0 <= i < |old(table)| && (old(table)[i].state == Unused
                                                    || (old(table)[i].state == Done && (old(seqno) - old(table)[i].seqno) % 256 != 0))
      ensures Duplicate(old(table), name) <==>
              exists i :: 0 <= i < |old(table)| && old(table)[i].state == Asking && DnsNames.Variant(name, old(table)[i].name)
      ensures err == InProgress && (Duplicate(old(table), name) || servers[0] != 0) ==>
                WaitsFor(table, requests, Ticket(old(accepted), ticks), name)
      ensures err == InProgress && !Duplicate(old(table), name) && servers[0] == 0 ==> Called(calls, old(accepted)) == 1
      ensures accepted == old(accepted) + (if err == InProgress then 1 else 0)
      ensures calls == if err == InProgress && !Duplicate(old(table), name) && servers[0] == 0
                       then old(calls) + [Call(Ticket(old(accepted), ticks), None, ticks)] else old(calls)
      ensures Others(old(table), old(requests), table, requests, Ticket(old(accepted), ticks))
    {
      hide Idle, Busy, Once, InTime, Remaining, SameName, Called, HasFree, Usable, DnsNames.Variant;
      WhenAccepted(table, requests, seqno, name);
      SizeOf(c, table, pcbs, requests, -1, ticks, swept);
      var i, r := 0, 0;
      while i < c.table
        invariant i <= c.table && Valid() && swept == c.table == |table| == |requests|
        invariant table == old(table) && requests == old(requests) && calls == old(calls) && accepted == old(accepted) && ticks == old(ticks)
        invariant servers == old(servers) && pcbs == old(pcbs) && seqno == old(seqno)
        invariant forall j :: 0 <= j < i && table[j].state == Asking && SameName(name, table[j].name) ==> !HasFree(requests)
      {
        if table[i].state == Asking && SameName(name, table[i].name) {
          r := FreeRequest();
          if r < c.table {
            var ticket := Ticket(accepted, ticks);
            AcceptOk(c, table, pcbs, requests, r, i, ticks, ticket);
            OnceAccept(requests, calls, accepted, r, Req(Some(ticket), i));
            requests := requests[r := Req(Some(ticket), i)];
            accepted := accepted + 1;
            assert requests[r].found == Some(ticket) && Asks(table[i], name);
            assert Others(old(table), old(requests), table, requests, ticket);
            return InProgress;
          }
        }
        i := i + 1;
      }
      i := FindEntry();
      if i == c.table {
        return ErrMem;
      }
      r := FreeRequest();
      if r == c.table {
        return ErrMem;
      }
      err := NewEntry(i, r, name, canOpen, tries);
    }

    /** The rest of dns_enqueue, with entry i and request r. */
    method NewEntry(i: nat, r: nat, name: seq<byte>, canOpen: bool, tries: nat) returns (err: Err)
      requires Valid() && swept == c.table == |table| == |requests| && i < c.table && r < c.table
      requires (table[i].state == Unused || table[i].state == Done) && requests[r].found.None?
      modifies this
      ensures Valid() && swept == c.table && ticks == old(ticks)
      ensures servers == old(servers) && (err == InProgress <==> canOpen || true in old(pcbs))
      ensures err == InProgress && servers[0] != 0 ==> WaitsFor(table, requests, Ticket(old(accepted), ticks), name)
      ensures err == InProgress && servers[0] == 0 ==> Called(calls, old(accepted)) == 1
      ensures accepted == old(accepted) + (if err == InProgress then 1 else 0)
      ensures calls == if err == InProgress && servers[0] == 0 then old(calls) + [Call(Ticket(old(accepted), ticks), None, ticks)] else old(calls)
      ensures |requests| == c.table && Others(old(table), old(requests), table, requests, Ticket(old(accepted), ticks))
    {
      hide Idle, Busy, Once, InTime, Remaining, Called, Settled, Others;
      ghost var t, rs, cs, id := table, requests, calls, accepted;
      NotYet(rs, calls, id);
      var ok := Claim(i, r, name, canOpen, tries);
      if !ok {
        OthersStay(t, rs, table, requests, i, r, Ticket(id, ticks));
        return ErrMem;
      }
      ghost var rs1 := requests;
      seqno := U8(seqno + 1);
      StartEntry(i);
      SizeOf(c, table, pcbs, requests, -1, ticks, swept);
      if servers[0] == 0 {
        Cancelled(rs, rs1, cs, requests, calls, r, i, id, ticks);
        CalledNow(requests, calls, accepted, id);
      } else {
        assert requests[r].found == Some(Ticket(id, ticks)) && Asks(table[i], name);
      }
      OthersStay(t, rs, table, requests, i, r, Ticket(id, ticks));
      return InProgress;
    }

    /** Entry i and request r are filled, and a port is looked for. */
    method Claim(i: nat, r: nat, name: seq<byte>, canOpen: bool, tries: nat) returns (ok: bool)
      requires Valid() && swept == c.table == |table| == |requests| && i < c.table && r < c.table
      requires (table[i].state == Unused || table[i].state == Done) && requests[r].found.None?
      modifies `table, `requests, `pcbs, `lastPcb, `txid, `accepted
      ensures |table| == c.table && requests == old(requests)[r := Req(if ok then Some(Ticket(old(accepted), ticks)) else None, i)]
      ensures accepted == old(accepted) + if ok then 1 else 0
      ensures ok <==> canOpen || true in old(pcbs)
      ensures forall j :: 0 <= j < c.table && j != i ==> table[j] == old(table)[j]
      ensures !ok ==> Valid()
      ensures ok ==> Holds(i) && table[i].state == New && table[i].seqno == seqno && table[i].name == Stored(name)
      ensures ok ==> table[i].name == if |name| < 256 then name else name[..255]
      ensures ok ==> forall q :: 0 <= q < c.table && requests[q].found.Some? && requests[q].tableIdx == i ==> q == r
    {
      hide Idle, Busy, Once, InTime, Remaining;
      ghost var t, ps, rs := table, pcbs, requests;
      SizeOf(c, t, ps, rs, -1, ticks, swept);
      IdleValid(c, t, ps, rs, i, ticks, swept);
      var ticket := Ticket(accepted, ticks);
      var e := table[i].(state := New, seqno := seqno, name := Stored(name));
      table := table[i := e];
      requests := requests[r := Req(Some(ticket), i)];
      txid := U16(txid + tries);
      var k := AllocPcb(canOpen);
      e := e.(pcbIdx := k);
      ok := k < c.table;
      if !ok {
        e := e.(state := Unused);
        table := table[i := e];
        requests := requests[r := requests[r].(found := None)];
        assert table == t[i := e] && requests == rs[r := Req(None, i)];
        Refused(c, t, ps, rs, i, r, ticks, e);
        StillOnce(rs, calls, accepted, r, requests[r]);
      } else {
        NewBusy(c, t, ps, rs, i, ticks, r, ticket, e);
        OnceAccept(rs, calls, accepted, r, Req(Some(ticket), i));
        table := table[i := e];
        accepted := accepted + 1;
        assert table == t[i := e];
      }
    }
  }

  /** The server that is asked next. */
  ghost function NextServer(c: Config, e: Entry): nat {
    if e.tmr == 1 && e.retries + 1 == c.retries then e.serverIdx + 1 else e.serverIdx
  }

  /**
  What a tick makes of an entry. A query comes one tick closer to its end; it ends when all
  tries with all servers that are set are used up, or when its server is gone. A cached entry
  lives for its time to live.
  */
  ghost predicate Ticked(c: Config, e: Entry, e': Entry, servers: seq<Addr>) {
    match e.state
    case Asking =>
      && (e'.state == Asking || e'.state == Unused)
      && (e'.state == Asking ==> Remaining(c, e') == Remaining(c, e) - 1 && e'.serverIdx == NextServer(c, e) && e'.txid == e.txid && e'.name == e.name)
      && (e'.state == Unused <==> e.tmr == 1 && (NextServer(c, e) >= |servers| || servers[NextServer(c, e)] == 0))
    case Done => e' == e.(ttl := if e.ttl == 0 then 0 else e.ttl - 1, state := if e.ttl <= 1 then Unused else Done)
    case _ => e' == e
  }

  /** A query ends exactly when the server to ask is missing; a cached entry loses a second, and goes with its last. */
  lemma TickedIs(c: Config, e: Entry, e': Entry, servers: seq<Addr>)
    requires Ticked(c, e, e', servers)
    ensures e.state == Asking ==> (e'.state == Asking || e'.state == Unused)
    ensures e.state == Asking ==>
              var next := if e.tmr == 1 && e.retries + 1 == c.retries then e.serverIdx + 1 else e.serverIdx;
              e'.state == Unused <==> e.tmr == 1 && (next >= |servers| || servers[next] == 0)
    ensures e.state == Done ==> e'.ttl == (if e.ttl == 0 then 0 else e.ttl - 1) && e'.addr == e.addr && e'.name == e.name
    ensures e.state == Done ==> e'.state == if e.ttl <= 1 then Unused else Done
    ensures e.state == Unused ==> e' == e
  {
  }

  lemma TickedAsks(c: Config, e: Entry, e': Entry, servers: seq<Addr>)
    requires Ticked(c, e, e', servers)
    ensures e'.state == Asking ==> e.state == Asking && Remaining(c, e') < Remaining(c, e)
  {
  }

  /** A packet from `from` with id answers the query of entry i. */
  ghost predicate Answers(t: seq<Entry>, servers: seq<Addr>, i: int, id: nat, from: Addr) {
    && 0 <= i < |t| && t[i].state == Asking && t[i].txid == id
    && t[i].serverIdx < |servers| && from == servers[t[i].serverIdx]
  }

  /** An entry can be used for a new query. */
  ghost predicate Usable(t: seq<Entry>, seqno: nat) {
    exists i :: 0 <= i < |t| && (t[i].state == Unused || (t[i].state == Done && U8(seqno - t[i].seqno) > 0))
  }

  ghost predicate HasFree(rs: seq<Req>) {
    exists r :: 0 <= r < |rs| && rs[r].found.None?
  }

  /** The name is being asked for. */
  ghost predicate Duplicate(t: seq<Entry>, name: seq<byte>) {
    exists i :: 0 <= i < |t| && t[i].state == Asking && SameName(name, t[i].name)
  }

  lemma WhenAccepted(t: seq<Entry>, rs: seq<Req>, seqno: nat, name: seq<byte>)
    ensures HasFree(rs) <==> exists r :: 0 <= r < |rs| && rs[r].found.None?
    ensures Usable(t, seqno) <==>
            exists i :: 0 <= i < |t| && (t[i].state == Unused || (t[i].state == Done && (seqno - t[i].seqno) % 256 != 0))
    ensures Duplicate(t, name) <==> exists i :: 0 <= i < |t| && t[i].state == Asking && DnsNames.Variant(name, t[i].name)
  {
    forall i | 0 <= i < |t| ensures SameName(name, t[i].name) <==> DnsNames.Variant(name, t[i].name) { }
  }

  /** A name as the table stores it. */
  function Stored(name: seq<byte>): seq<byte> {
    if |name| < MAX_NAME_LENGTH then name else name[..MAX_NAME_LENGTH - 1]
  }

  /** The request waits for an entry that asks for the name. */
  ghost predicate WaitsFor(t: seq<Entry>, rs: seq<Req>, ticket: Ticket, name: seq<byte>) {
    exists r :: 0 <= r < |rs| && rs[r].found == Some(ticket) && rs[r].tableIdx < |t| && Asks(t[rs[r].tableIdx], name)
  }

  ghost predicate Asks(e: Entry, name: seq<byte>) {
    e.state == Asking && (e.name == Stored(name) || SameName(name, e.name))
  }

  /** The id in the header of a packet. */
  function PacketId(p: seq<byte>): nat
    requires |p| > 1
  {
    p[0] as nat * 256 + p[1] as nat
  }

  /** A name in the table as C sees it: its bytes, a zero byte, and what lies behind. */
  function Memory(name: seq<byte>, behind: nat -> byte): nat -> byte {
    (i: nat) => if i < |name| then name[i] else if i == |name| then 0 else behind(i)
  }

  /** The packet is a response with one question: the name, type A and class IN. */
  predicate Replies(p: seq<byte>, name: seq<byte>, behind: nat -> byte) {
    && |p| >= DnsNames.HDR + DnsNames.QUERY && p[2] >= 128 && p[4] == 0 && p[5] == 1
    && var r := DnsNames.Compare(Memory(name, behind), 0, p, DnsNames.HDR);
       r != DnsNames.FAIL && r + DnsNames.QUERY <= |p| && p[r..r + DnsNames.QUERY] == [0, 1, 0, 1]
  }

  /** The packet from `from` answers the query of entry i. */
  ghost predicate Hits(t: seq<Entry>, servers: seq<Addr>, i: int, p: seq<byte>, from: Addr, behind: nat -> byte) {
    |p| > 3 && Answers(t, servers, i, PacketId(p), from) && Replies(p, t[i].name, behind)
  }

  lemma HitsIs(t: seq<Entry>, servers: seq<Addr>, i: nat, p: seq<byte>, from: Addr, behind: nat -> byte)
    requires i < |t| && |p| > 3 && t[i].txid < 0x1_0000
    ensures Hits(t, servers, i, p, from, behind) <==>
            && t[i].state == Asking && p[0] == t[i].txid / 256 && p[1] == t[i].txid % 256
            && t[i].serverIdx < |servers| && from == servers[t[i].serverIdx] && Replies(p, t[i].name, behind)
  {
    hide Replies;
  }

  lemma WaitsForIs(t: seq<Entry>, rs: seq<Req>, ticket: Ticket, name: seq<byte>)
    ensures WaitsFor(t, rs, ticket, name) <==>
            exists r :: 0 <= r < |rs| && rs[r].found == Some(ticket) && rs[r].tableIdx < |t| && t[rs[r].tableIdx].state == Asking
              && (t[rs[r].tableIdx].name == (if |name| < 256 then name else name[..255]) || DnsNames.Variant(name, t[rs[r].tableIdx].name))
  {
    forall r | 0 <= r < |rs| && rs[r].tableIdx < |t|
      ensures Asks(t[rs[r].tableIdx], name) <==>
              && t[rs[r].tableIdx].state == Asking
              && (t[rs[r].tableIdx].name == (if |name| < 256 then name else name[..255]) || DnsNames.Variant(name, t[rs[r].tableIdx].name))
    {
    }
  }

  /** A packet answers the query of one entry at most. */
  lemma HitsOnce(c: Config, t: seq<Entry>, pcbs: seq<bool>, rs: seq<Req>, ticks: nat, swept: nat,
                 servers: seq<Addr>, i: nat, p: seq<byte>, from: Addr, behind: nat -> byte)
    requires Idle(c, t, pcbs, rs, -1, ticks, swept) && Hits(t, servers, i, p, from, behind)
    ensures forall j :: Hits(t, servers, j, p, from, behind) ==> j == i
  {
    hide Replies, PortsBut, ReqsBut;
    forall j | Hits(t, servers, j, p, from, behind) ensures j == i {
      assert AsksBut(t, -1, i) && AsksBut(t, -1, j);
    }
  }

  lemma NothingSettled(t: seq<Entry>, rs: seq<Req>, calls: seq<Call>, tick: nat)
    ensures forall idx: nat, addr :: SettledIfGone(t, rs, calls, t, rs, calls, idx, addr, tick)
  {
  }

  lemma ServedNone(t: seq<Entry>, rs: seq<Req>, calls: seq<Call>)
    ensures Served(t, rs, calls, t, rs, calls)
  {
  }

  lemma ToldStart(rs: seq<Req>, calls: seq<Call>, idx: nat, addr: Option<Addr>, tick: nat)
    ensures calls == calls + Told(rs[..0], idx, addr, tick)
  {
  }

  lemma ToldStep(rs: seq<Req>, i: nat, idx: nat, addr: Option<Addr>, tick: nat)
    requires i < |rs|
    ensures Told(rs[..i + 1], idx, addr, tick) == Told(rs[..i], idx, addr, tick)
              + if rs[i].found.Some? && rs[i].tableIdx == idx then [Call(rs[i].found.value, addr, tick)] else []
  {
    assert rs[..i + 1][..i] == rs[..i];
  }

  lemma ShortPacket(p: seq<byte>, behind: nat -> byte)
    ensures |p| < DnsNames.HDR + DnsNames.QUERY ==> forall name :: !Replies(p, name, behind)
  {
  }

  /** The tests of dns_recv on the header and the question of a packet. */
  method MatchQuestion(p: seq<byte>, name: seq<byte>, behind: nat -> byte) returns (ok: bool)
    requires |p| >= DnsNames.HDR + DnsNames.QUERY && |p| < 0x1_0000
    ensures ok <==> Replies(p, name, behind)
  {
    hide DnsNames.Compare;
    if p[2] < 128 || p[4] as nat * 256 + p[5] as nat != 1 {
      return false;
    }
    var r := DnsNames.CompareName(Memory(name, behind), p, DnsNames.HDR);
    if r == DnsNames.FAIL || r + DnsNames.QUERY > |p| {
      return false;
    }
    return p[r..r + DnsNames.QUERY] == [0, 1, 0, 1];
  }

  /** A reply to the query that dns_send builds, in any case of letters, passes these tests. */
  lemma OwnReply(name: seq<byte>, resp: seq<byte>, hdr: seq<byte>, rest: seq<byte>, behind: nat -> byte)
    requires |name| < 256 && DnsNames.Variant(resp, name) && DnsNames.Proper(DnsNames.Labels(name))
    requires |hdr| == DnsNames.HDR && hdr[2] >= 128 && hdr[4] == 0 && hdr[5] == 1
    ensures |resp| == |name| && Replies(hdr + DnsNames.Enc(DnsNames.Labels(resp)) + [0, 1, 0, 1] + rest, name, behind)
  {
    hide DnsNames.Compare, DnsNames.Enc, DnsNames.Labels, DnsNames.Proper, DnsNames.Variant;
    DnsNames.VariantLength(resp, name);
    var enc := DnsNames.Enc(DnsNames.Labels(resp));
    var p := hdr + enc + [0, 1, 0, 1] + rest;
    DnsNames.EncLength(resp);
    var end := DnsNames.HDR + |name| + 2;
    assert p[DnsNames.HDR..end] == enc;
    assert DnsNames.Carries(p, DnsNames.HDR, enc);
    assert p[end..end + DnsNames.QUERY] == [0, 1, 0, 1];
    DnsNames.ReplyRecognised(Memory(name, behind), name, resp, p, DnsNames.HDR);
  }

  /** What passes these tests: any packet whose question is a proper name that agrees with the query, type A and class IN. */
  lemma RepliesExactly(p: seq<byte>, name: seq<byte>, behind: nat -> byte)
    requires |p| < 0x1_0000
    ensures Replies(p, name, behind) <==>
            && |p| >= 16 && p[2] >= 128 && p[4] == 0 && p[5] == 1
            && exists ls :: AnswersQuestion(p, Memory(name, behind), ls)
  {
    hide DnsNames.Compare, DnsNames.Enc, DnsNames.Carries, DnsNames.Proper, DnsNames.Agrees;
    var query := Memory(name, behind);
    if Replies(p, name, behind) {
      var ls := DnsNames.CompareSound(query, 0, p, 12);
      QuestionThere(p, query, ls);
    }
    if |p| >= 16 && exists ls :: AnswersQuestion(p, query, ls) {
      var ls :| AnswersQuestion(p, query, ls);
      QuestionFound(p, query, ls);
      DnsNames.CompareAccepts(query, 0, p, 12, ls);
    }
  }

  /** Behind the header the packet asks for the labels ls, which are those of the query, type 1 and class 1. */
  ghost predicate AnswersQuestion(p: seq<byte>, query: nat -> byte, ls: seq<seq<byte>>) {
    && ls != [] && (forall i :: 0 <= i < |ls| ==> |ls[i]| < 192) && (forall i :: 0 < i < |ls| ==> |ls[i]| > 0)
    && DnsNames.Agrees(query, 0, ls) && DnsNames.Carries(p, 12, DnsNames.Enc(ls) + [0, 1, 0, 1])
  }

  lemma QuestionThere(p: seq<byte>, query: nat -> byte, ls: seq<seq<byte>>)
    requires |p| < 0x1_0000 && DnsNames.Accepts(query, 0, p, 12, ls)
    requires var r := 12 + |DnsNames.Enc(ls)|; r + 4 <= |p| && p[r..r + 4] == [0, 1, 0, 1]
    ensures AnswersQuestion(p, query, ls)
  {
    hide DnsNames.Enc, DnsNames.Agrees;
    DnsNames.CarriesSplit(p, 12, DnsNames.Enc(ls), [0, 1, 0, 1]);
  }

  lemma QuestionFound(p: seq<byte>, query: nat -> byte, ls: seq<seq<byte>>)
    requires |p| < 0x1_0000 && AnswersQuestion(p, query, ls)
    ensures DnsNames.Accepts(query, 0, p, 12, ls)
    ensures var r := 12 + |DnsNames.Enc(ls)|; r < 0xFFFF && r + 4 <= |p| && p[r..r + 4] == [0, 1, 0, 1]
  {
    hide DnsNames.Enc, DnsNames.Agrees;
    DnsNames.CarriesSplit(p, 12, DnsNames.Enc(ls), [0, 1, 0, 1]);
  }

  /** The packet that dns_send builds for an entry. */
  method Query(e: Entry, buf: seq<byte>) returns (p: seq<byte>)
    requires |e.name| < 256 && e.txid < 0x1_0000 && |buf| == 12 + |e.name| + 2 + 4
    ensures p == [(e.txid / 256) as byte, (e.txid % 256) as byte, 1, 0, 0, 1, 0, 0, 0, 0, 0, 0]
                 + DnsNames.Enc(DnsNames.Labels(e.name)) + [0, 1, 0, 1]
  {
    var hdr: seq<byte> := [(e.txid / 256) as byte, (e.txid % 256) as byte, 1, 0, 0, 1, 0, 0, 0, 0, 0, 0];
    p := DnsNames.EncodeQuery(e.name, hdr, [0, 1, 0, 1], buf);
  }

  /**
  From dns_send to dns_recv: a response from the server of an asking entry that carries the id
  bytes of its query and repeats its question, in any case of letters, answers that entry.
  */
  lemma OwnPacketHits(t: seq<Entry>, servers: seq<Addr>, i: nat, resp: seq<byte>, hdr: seq<byte>, rest: seq<byte>, behind: nat -> byte)
    requires i < |t| && t[i].state == Asking && t[i].txid < 0x1_0000 && t[i].serverIdx < |servers|
    requires |t[i].name| < 256 && DnsNames.Variant(resp, t[i].name) && DnsNames.Proper(DnsNames.Labels(t[i].name))
    requires |hdr| == 12 && hdr[0] == t[i].txid / 256 && hdr[1] == t[i].txid % 256 && hdr[2] >= 128 && hdr[4] == 0 && hdr[5] == 1
    ensures |resp| < 256
    ensures Hits(t, servers, i, hdr + DnsNames.Enc(DnsNames.Labels(resp)) + [0, 1, 0, 1] + rest, servers[t[i].serverIdx], behind)
  {
    hide Replies, DnsNames.Enc, DnsNames.Labels, DnsNames.Proper, DnsNames.Variant;
    OwnReply(t[i].name, resp, hdr, rest, behind);
    var p := hdr + DnsNames.Enc(DnsNames.Labels(resp)) + [0, 1, 0, 1] + rest;
    assert p[0] == hdr[0] && p[1] == hdr[1];
  }

  /** A packet whose first two bytes are not the id of an asking entry answers none. */
  lemma OtherIdMisses(t: seq<Entry>, servers: seq<Addr>, p: seq<byte>, from: Addr, behind: nat -> byte)
    requires |p| >= 2
    requires forall i :: 0 <= i < |t| && t[i].state == Asking ==> !(p[0] == t[i].txid / 256 && p[1] == t[i].txid % 256)
    ensures forall i :: !Hits(t, servers, i, p, from, behind)
  {
    hide Replies;
  }

  /**
  Such a response delivers: exactly the requests that wait for the entry are called back with
  the address in its answer section.
  */
  method Delivers(d: Resolver, i: nat, resp: seq<byte>, hdr: seq<byte>, rest: seq<byte>, addr: Addr, ttl: nat, behind: nat -> byte)
    requires d.Valid() && d.swept == d.c.table == |d.table| && i < d.c.table && d.table[i].state == Asking && d.table[i].txid < 0x1_0000
    requires d.table[i].serverIdx < |d.servers|
    requires |d.table[i].name| < 256 && DnsNames.Variant(resp, d.table[i].name) && DnsNames.Proper(DnsNames.Labels(d.table[i].name))
    requires |hdr| == 12 && hdr[0] == d.table[i].txid / 256 && hdr[1] == d.table[i].txid % 256
    requires hdr[2] >= 128 && hdr[3] % 16 == 0 && hdr[4] == 0 && hdr[5] == 1 && |rest| < 0x8000
    modifies d
    ensures d.Valid() && old(d.calls) <= d.calls && |d.requests| == |old(d.requests)|
    ensures forall r :: 0 <= r < |d.requests| && old(d.requests)[r].found.Some? && old(d.requests)[r].tableIdx == i ==>
              d.requests[r].found.None? && Call(old(d.requests)[r].found.value, Some(addr), d.ticks) in d.calls[|old(d.calls)|..]
    ensures forall r :: 0 <= r < |d.requests| && old(d.requests)[r].tableIdx != i ==> d.requests[r] == old(d.requests)[r]
    ensures forall k :: |old(d.calls)| <= k < |d.calls| ==> IsFor(old(d.requests), i, d.calls[k].ticket)
  {
    hide Replies, Idle, Once, InTime, Told, IsFor, DnsNames.Enc, DnsNames.Labels, DnsNames.Proper, DnsNames.Variant;
    ghost var t, rs, cs := d.table, d.requests, d.calls;
    OwnPacketHits(t, d.servers, i, resp, hdr, rest, behind);
    var p := hdr + DnsNames.Enc(DnsNames.Labels(resp)) + [0, 1, 0, 1] + rest;
    assert p[3] == hdr[3];
    assert |p| < 0x1_0000 by { DnsNames.EncLength(resp); }
    d.Recv(p, d.servers[d.table[i].serverIdx], Address(addr, ttl), behind);
    assert Gone(t, d.table, i);
    SettledIs(rs, cs, d.requests, d.calls, i, Some(addr), d.ticks);
  }

  /** A query for "a..b" gets no answer: a reply that repeats its question does not pass. */
  lemma ReplyLost(hdr: seq<byte>, rest: seq<byte>, behind: nat -> byte)
    requires |hdr| == DnsNames.HDR
    ensures !Replies(hdr + DnsNames.Enc(DnsNames.Labels(DnsNames.TWO_DOTS)) + [0, 1, 0, 1] + rest, DnsNames.TWO_DOTS, behind)
  {
    hide DnsNames.Compare, DnsNames.Enc, DnsNames.Labels;
    DnsNames.TwoDotsEnc();
    var enc := DnsNames.TWO_DOTS_ENC;
    var p := hdr + enc + [0, 1, 0, 1] + rest;
    assert p[DnsNames.HDR..DnsNames.HDR + 6] == enc;
    assert p[DnsNames.HDR + 3] == 1;
    DnsNames.EmptyLabelEnds(Memory(DnsNames.TWO_DOTS, behind), p, DnsNames.HDR);
  }

  lemma NoneWaiting(rs: seq<Req>)
    requires forall i :: 0 <= i < |rs| ==> rs[i].found.None?
    ensures Once(rs, [], 0)
  {
    forall id: nat ensures OnceAt(rs, [], 0, id) { NotWaiting(rs, id); }
  }

  lemma {:induction false} NotWaiting(rs: seq<Req>, id: nat)
    requires forall i :: 0 <= i < |rs| ==> rs[i].found.None?
    ensures Waiting(rs, id) == 0
    decreases |rs|
  {
    if rs != [] { NotWaiting(rs[1..], id); }
  }

  lemma StillUsed(t: seq<Entry>, idx: int, i: int)
    requires AsksBut(t, idx, i)
    ensures UsedBut(t, idx, t[i].pcbIdx)
  {
  }

  lemma NotUsed(t: seq<Entry>, idx: int, k: int)
    requires forall j :: AsksBut(t, idx, j) ==> t[j].pcbIdx != k
    ensures !UsedBut(t, idx, k)
  {
  }

  lemma SizeOf(c: Config, t: seq<Entry>, pcbs: seq<bool>, rs: seq<Req>, idx: int, ticks: nat, swept: nat)
    requires Idle(c, t, pcbs, rs, idx, ticks, swept)
    ensures |t| == |pcbs| == |rs| == c.table
  {
  }

  lemma ServerIn(c: Config, e: Entry)
    requires WellFormed(c, e)
    ensures e.serverIdx < c.servers
  {
  }

  /** A tick of the retry machine. */
  lemma Progress(c: Config, e: Entry, e': Entry)
    requires c.Valid() && WellFormed(c, e) && e.state == Asking
    requires var t := e.(tmr := e.tmr - 1);
             if t.tmr > 0 then e' == t
             else if t.retries + 1 < c.retries then e' == t.(retries := t.retries + 1, tmr := t.retries + 1)
             else t.serverIdx + 1 < c.servers && e' == t.(serverIdx := t.serverIdx + 1, tmr := 1, retries := 0)
    ensures WellFormed(c, e') && Remaining(c, e') == Remaining(c, e) - 1
  {
    if e.tmr == 1 && e.retries + 1 == c.retries {
      Product(c.servers - 2 - e.serverIdx, Round(c));
    }
  }

  lemma WasDue(c: Config, t: seq<Entry>, pcbs: seq<bool>, rs: seq<Req>, idx: nat, ticks: nat, swept: nat)
    requires Idle(c, t, pcbs, rs, -1, ticks, swept) && idx < c.table
    ensures forall r :: 0 <= r < c.table && rs[r].found.Some? && rs[r].tableIdx == idx ==>
               ticks + Remaining(c, t[idx]) <= rs[r].found.value.tick + c.Bound() + if idx < swept then 0 else 1
  {
  }

  lemma TickStarts(c: Config, t: seq<Entry>, rs: seq<Req>, idx: int, ticks: nat)
    requires |t| == c.table && ReqsBut(c, t, rs, idx, ticks, c.table)
    ensures ReqsBut(c, t, rs, idx, ticks + 1, 0)
  {
    hide Remaining;
    forall r | 0 <= r < c.table && rs[r].found.Some? ensures ReqBut(c, t, rs[r], idx, ticks + 1, 0) {
      assert ReqBut(c, t, rs[r], idx, ticks, c.table);
    }
  }

  /** An entry that has seen the tick is no later than before it. */
  lemma Swept(c: Config, t: seq<Entry>, rs: seq<Req>, t': seq<Entry>, rs': seq<Req>, ticks: nat, i: nat)
    requires |t| == |t'| == c.table && i < c.table && OnlyCleared(rs, rs')
    requires ReqsBut(c, t, rs, -1, ticks, i) && ReqsBut(c, t', rs', -1, ticks, i)
    requires t'[i].state == Asking ==> t[i].state == Asking && Remaining(c, t'[i]) < Remaining(c, t[i])
    ensures ReqsBut(c, t', rs', -1, ticks, i + 1)
  {
    hide Remaining;
    forall r | 0 <= r < c.table && rs'[r].found.Some? ensures ReqBut(c, t', rs'[r], -1, ticks, i + 1) {
      assert ReqBut(c, t', rs'[r], -1, ticks, i) && ReqBut(c, t, rs[r], -1, ticks, i);
    }
  }

  /** A query that starts has all its ticks to go. */
  lemma FullTime(c: Config, e: Entry)
    requires c.Valid() && e.tmr == 1 && e.retries == 0 && e.serverIdx == 0
    ensures Remaining(c, e) == c.Bound()
  {
    BoundIs(c);
    Product(c.servers - 1, Round(c));
  }

  /** After an error reply the next server is asked at once. */
  lemma Shortcut(c: Config, e: Entry, e': Entry)
    requires WellFormed(c, e) && e' == e.(retries := c.retries - 1, tmr := 1)
    ensures WellFormed(c, e') && Remaining(c, e') <= Remaining(c, e)
  {
    TriGrows(e.retries, c.retries - 1);
  }

  /** No port could be had: the entry is free again and the request is not accepted. */
  lemma Refused(c: Config, t: seq<Entry>, pcbs: seq<bool>, rs: seq<Req>, i: nat, r: nat, ticks: nat, e: Entry)
    requires Idle(c, t, pcbs, rs, i, ticks, c.table) && i < c.table && r < c.table && rs[r].found.None? && e.state == Unused
    ensures Idle(c, t[i := e], pcbs, rs[r := Req(None, i)], -1, ticks, c.table)
  {
    hide UsedBut, Remaining, WellFormed, ReqBut;
    IdleSwap(c, t, pcbs, rs, i, ticks, c.table, e);
    IdleValid(c, t[i := e], pcbs, rs, i, ticks, c.table);
  }

  lemma StillOnce(rs: seq<Req>, calls: seq<Call>, next: nat, r: nat, q: Req)
    requires Once(rs, calls, next) && r < |rs| && rs[r].found.None? && q.found.None?
    ensures Once(rs[r := q], calls, next)
  {
    var rs' := rs[r := q];
    forall id: nat ensures OnceAt(rs', calls, next, id) {
      assert OnceAt(rs, calls, next, id);
      WaitingUpdate(rs, r, q, id);
    }
  }

  /** A request that was accepted c.Bound() ticks ago has had its callback, once and in time. */
  lemma CalledBack(d: Resolver, id: nat)
    requires d.Valid() && d.swept == d.c.table && id < d.accepted
    requires forall r :: 0 <= r < |d.requests| && d.requests[r].found.Some? && d.requests[r].found.value.id == id ==>
               d.requests[r].found.value.tick + d.c.servers * (1 + d.c.retries * (d.c.retries - 1) / 2) <= d.ticks
    ensures Called(d.calls, id) == 1
    ensures forall k :: 0 <= k < |d.calls| ==>
              d.calls[k].tick <= d.calls[k].ticket.tick + d.c.servers * (1 + d.c.retries * (d.c.retries - 1) / 2)
  {
    forall r | 0 <= r < |d.requests| ensures Own(d.requests[r], id) == 0 {
      if d.requests[r].found.Some? {
        assert ReqBut(d.c, d.table, d.requests[r], -1, d.ticks, d.c.table);
        RemainingPositive(d.c, d.table[d.requests[r].tableIdx]);
      }
    }
    NoOwn(d.requests, id);
    assert OnceAt(d.requests, d.calls, d.accepted, id);
  }

  /** What a reply delivers goes to requests for the name that the answered query asks for. */
  lemma RightName(t: seq<Entry>, rs: seq<Req>, calls: seq<Call>, accepted: nat, t': seq<Entry>, rs': seq<Req>, calls': seq<Call>,
                  i: nat, addr: Option<Addr>, tick: nat, k: nat, name: seq<byte>)
    requires Once(rs, calls, accepted) && SettledIfGone(t, rs, calls, t', rs', calls', i, addr, tick)
    requires |calls| <= k < |calls'| && WaitsFor(t, rs, calls'[k].ticket, name)
    ensures i < |t| && t[i].state == Asking
    ensures t[i].name == (if |name| < 256 then name else name[..255]) || DnsNames.Variant(t[i].name, name)
  {
    hide Settled;
    var ticket := calls'[k].ticket;
    SettledIs(rs, calls, rs', calls', i, addr, tick);
    var q :| 0 <= q < |rs| && rs[q] == Req(Some(ticket), i);
    var r :| 0 <= r < |rs| && rs[r].found == Some(ticket) && rs[r].tableIdx < |t| && Asks(t[rs[r].tableIdx], name);
    assert OnceAt(rs, calls, accepted, ticket.id);
    if q < r { TwoWait(rs, ticket.id, q, r); } else if r < q { TwoWait(rs, ticket.id, r, q); }
  }

  lemma {:induction false} TwoWait(rs: seq<Req>, id: nat, a: nat, b: nat)
    requires a < b < |rs| && Own(rs[a], id) == 1 && Own(rs[b], id) == 1
    ensures Waiting(rs, id) >= 2
    decreases a
  {
    if a > 0 {
      TwoWait(rs[1..], id, a - 1, b - 1);
    } else if Waiting(rs[1..], id) == 0 {
      WaitingNone(rs[1..], id, b - 1);
    }
  }

  lemma {:induction false} NoOwn(rs: seq<Req>, id: nat)
    requires forall i :: 0 <= i < |rs| ==> Own(rs[i], id) == 0
    ensures Waiting(rs, id) == 0
    decreases |rs|
  {
    if rs != [] { NoOwn(rs[1..], id); }
  }

  /** No slot holds a request that is not accepted yet. */
  lemma NotYet(rs: seq<Req>, calls: seq<Call>, id: nat)
    requires Once(rs, calls, id)
    ensures forall q :: 0 <= q < |rs| ==> Own(rs[q], id) == 0
  {
    assert OnceAt(rs, calls, id, id);
    forall q | 0 <= q < |rs| ensures Own(rs[q], id) == 0 { WaitingNone(rs, id, q); }
  }

  lemma {:induction false} WaitingNone(rs: seq<Req>, id: nat, q: nat)
    requires Waiting(rs, id) == 0 && q < |rs|
    ensures Own(rs[q], id) == 0
    decreases q
  {
    if q > 0 { WaitingNone(rs[1..], id, q - 1); }
  }

  /** A new request that fails at once is the only one that is called back. */
  lemma Cancelled(rs: seq<Req>, rs1: seq<Req>, calls: seq<Call>, rs2: seq<Req>, calls2: seq<Call>, r: nat, i: nat, id: nat, ticks: nat)
    requires r < |rs| && (forall q :: 0 <= q < |rs| ==> Own(rs[q], id) == 0)
    requires rs1 == rs[r := Req(Some(Ticket(id, ticks)), i)] && Settled(rs1, calls, rs2, calls2, i, None, ticks)
    requires forall q :: 0 <= q < |rs| && rs1[q].found.Some? && rs1[q].tableIdx == i ==> q == r
    ensures |rs2| == |rs| && (forall q :: 0 <= q < |rs2| ==> Own(rs2[q], id) == 0)
    ensures calls2 == calls + [Call(Ticket(id, ticks), None, ticks)] && rs2[r].found.None?
    ensures forall q :: 0 <= q < |rs| && q != r ==> rs2[q] == rs[q]
  {
    ToldOne(rs1, i, None, ticks, r);
    forall q | 0 <= q < |rs2| ensures Own(rs2[q], id) == 0 { assert Own(rs[q], id) == 0; }
  }

  /** Entries that ask and requests that wait are left alone, and no request waits but the new one. */
  ghost predicate Others(t: seq<Entry>, rs: seq<Req>, t': seq<Entry>, rs': seq<Req>, ticket: Ticket) {
    && |t'| == |t| && |rs'| == |rs|
    && (forall j :: 0 <= j < |t| && t[j].state == Asking ==> t'[j] == t[j])
    && (forall q :: 0 <= q < |rs| && rs[q].found.Some? ==> rs'[q] == rs[q])
    && (forall q :: 0 <= q < |rs| && rs[q].found.None? ==> rs'[q].found.None? || rs'[q].found == Some(ticket))
  }

  lemma OthersStay(t: seq<Entry>, rs: seq<Req>, t': seq<Entry>, rs': seq<Req>, i: nat, r: nat, ticket: Ticket)
    requires |t'| == |t| && |rs'| == |rs| && i < |t| && r < |rs| && t[i].state != Asking && rs[r].found.None?
    requires (forall j :: 0 <= j < |t| && j != i ==> t'[j] == t[j]) && (forall q :: 0 <= q < |rs| && q != r ==> rs'[q] == rs[q])
    requires rs'[r].found.None? || rs'[r].found == Some(ticket)
    ensures Others(t, rs, t', rs', ticket)
  {
  }

  lemma CalledNow(rs: seq<Req>, calls: seq<Call>, accepted: nat, id: nat)
    requires Once(rs, calls, accepted) && id < accepted && forall q :: 0 <= q < |rs| ==> Own(rs[q], id) == 0
    ensures Called(calls, id) == 1
  {
    NoOwn(rs, id);
    assert OnceAt(rs, calls, accepted, id);
  }
}
