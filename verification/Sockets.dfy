/**
The socket slots of sockets.c with full duplex: threads hold a slot while they use it, and a
slot that is closed meanwhile goes when the last of them is done. What the source does under
its lock is one step; between two steps of a call other threads may take any steps.
*/
module Sockets {
  import opened Prelude

  /** A netconn. */
  type Conn = nat

  /** struct lwip_sock: conn, fd_used (a u8_t) and fd_free_pending with its TCP flag. */
  datatype Slot = Slot(conn: Option<Conn>, used: nat, pending: bool, tcp: bool)

  /** A thread's use of a slot, from getting the slot to giving it back; conn is what it found. */
  datatype Hold = Hold(slot: nat, conn: Option<Conn>)

  /** The holds on slot i. */
  ghost function On(holds: map<nat, Hold>, i: nat): set<nat> {
    set t | t in holds && holds[t].slot == i
  }

  lemma OnAdd(holds: map<nat, Hold>, t: nat, h: Hold, i: nat)
    requires t !in holds
    ensures |On(holds[t := h], i)| == |On(holds, i)| + if h.slot == i then 1 else 0
  {
    if h.slot == i {
      assert On(holds[t := h], i) == On(holds, i) + {t};
    } else {
      assert On(holds[t := h], i) == On(holds, i);
    }
  }

  lemma OnRemove(holds: map<nat, Hold>, t: nat, i: nat)
    requires t in holds
    ensures |On(holds - {t}, i)| == |On(holds, i)| - if holds[t].slot == i then 1 else 0
  {
    if holds[t].slot == i {
      assert On(holds, i) == On(holds - {t}, i) + {t};
    } else {
      assert On(holds - {t}, i) == On(holds, i);
    }
  }

  lemma OnSome(holds: map<nat, Hold>, t: nat)
    requires t in holds
    ensures |On(holds, holds[t].slot)| > 0
  {
    assert t in On(holds, holds[t].slot);
  }

  // ---------------------------------------------------------------- the invariant

  /** fd_used counts the holds; a slot that is to be freed is held exactly as long as it has its netconn. */
  ghost predicate SlotOk(slots: seq<Slot>, holds: map<nat, Hold>, i: nat)
    requires i < |slots|
  {
    && slots[i].used == |On(holds, i)| <= 255
    && (slots[i].pending ==> (slots[i].used > 0 <==> slots[i].conn.Some?))
  }

  /** Whoever holds a slot finds there what it found at first. */
  ghost predicate HoldOk(slots: seq<Slot>, holds: map<nat, Hold>, t: nat)
    requires t in holds
  {
    holds[t].slot < |slots| && slots[holds[t].slot].conn == holds[t].conn
  }

  /** The netconn c is in a slot. */
  ghost predicate Attached(slots: seq<Slot>, c: Conn) {
    exists i :: 0 <= i < |slots| && slots[i].conn == Some(c)
  }

  /** Every netconn ever given a slot is in one slot, or was detached once. */
  ghost predicate ConnsOk(slots: seq<Slot>, given: set<Conn>, detached: seq<Conn>) {
    && (forall i, j :: 0 <= i < j < |slots| && slots[i].conn.Some? ==> slots[i].conn != slots[j].conn)
    && (forall i, j :: 0 <= i < j < |detached| ==> detached[i] != detached[j])
    && (forall c :: c in given <==> Attached(slots, c) || c in detached)
    && (forall c :: Attached(slots, c) ==> c !in detached)
  }

  lemma AttachedIn(slots: seq<Slot>, i: nat)
    requires i < |slots| && slots[i].conn.Some?
    ensures Attached(slots, slots[i].conn.value)
  {
  }

  /** Fields other than conn do not matter. */
  lemma ConnsSame(slots: seq<Slot>, given: set<Conn>, detached: seq<Conn>, i: nat, s: Slot)
    requires ConnsOk(slots, given, detached) && i < |slots| && s.conn == slots[i].conn
    ensures ConnsOk(slots[i := s], given, detached)
  {
    var slots' := slots[i := s];
    forall c: Conn ensures Attached(slots', c) <==> Attached(slots, c) {
      if Attached(slots, c) {
        var k :| 0 <= k < |slots| && slots[k].conn == Some(c);
        assert slots'[k].conn == Some(c);
      }
      if Attached(slots', c) {
        var k :| 0 <= k < |slots'| && slots'[k].conn == Some(c);
        assert slots[k].conn == Some(c);
      }
    }
  }

  /** A netconn leaves its slot: it is detached now, and was not before. */
  lemma ConnsDetach(slots: seq<Slot>, given: set<Conn>, detached: seq<Conn>, i: nat, s: Slot)
    requires ConnsOk(slots, given, detached) && i < |slots| && slots[i].conn.Some? && s.conn == None
    ensures ConnsOk(slots[i := s], given, detached + [slots[i].conn.value])
  {
    var slots', c0 := slots[i := s], slots[i].conn.value;
    AttachedIn(slots, i);
    forall c: Conn ensures Attached(slots', c) <==> Attached(slots, c) && c != c0 {
      if Attached(slots, c) && c != c0 {
        var k :| 0 <= k < |slots| && slots[k].conn == Some(c);
        assert slots'[k].conn == Some(c);
      }
      if Attached(slots', c) {
        var k :| 0 <= k < |slots'| && slots'[k].conn == Some(c);
        assert k != i && slots[k].conn == Some(c);
        assert if k < i then slots[k].conn != slots[i].conn else slots[i].conn != slots[k].conn;
      }
    }
    hide Attached;
  }

  /** A netconn that never had a slot gets one. */
  lemma ConnsAttach(slots: seq<Slot>, given: set<Conn>, detached: seq<Conn>, i: nat, s: Slot)
    requires ConnsOk(slots, given, detached) && i < |slots| && slots[i].conn.None? && s.conn.Some? && s.conn.value !in given
    ensures ConnsOk(slots[i := s], given + {s.conn.value}, detached)
  {
    var slots', c0 := slots[i := s], s.conn.value;
    forall c: Conn ensures Attached(slots', c) <==> Attached(slots, c) || c == c0 {
      if Attached(slots, c) {
        var k :| 0 <= k < |slots| && slots[k].conn == Some(c);
        assert slots'[k].conn == Some(c);
      }
      if c == c0 { assert slots'[i].conn == Some(c); }
      if Attached(slots', c) {
        var k :| 0 <= k < |slots'| && slots'[k].conn == Some(c);
        if k != i { assert slots[k].conn == Some(c); }
      }
    }
    forall k | 0 <= k < |slots| && slots[k].conn.Some? ensures slots[k].conn != Some(c0) { AttachedIn(slots, k); }
  }

  // ---------------------------------------------------------------- steps

  const SOCKET_OFFSET: nat := 0

  /** free_socket_locked: the slot after it, and whether its netconn was detached. */
  function FreeLocked(s: Slot, tcp: bool): (Slot, bool)
    requires s.used > 0
  {
    if s.used > 1 then (s.(used := s.used - 1, pending := true, tcp := tcp), false)
    else (s.(used := 0, conn := None), true)
  }

  /** A step of another thread. */
  datatype Op = Take(slot: nat) | GiveBack(hold: nat) | Close(hold: nat, tcp: bool) | Open(slot: nat, conn: Conn)

  class SocketTable {
    var slots: seq<Slot>
    /** Who holds what; holds are numbered as they are taken. */
    var holds: map<nat, Hold>
    var nextHold: nat
    /** The netconns that were given a slot, and those that were detached, in order. */
    var given: set<Conn>
    var detached: seq<Conn>

    ghost predicate Valid()
      reads this
    {
      && (forall i :: 0 <= i < |slots| ==> SlotOk(slots, holds, i))
      && (forall t :: t in holds ==> t < nextHold && HoldOk(slots, holds, t))
      && ConnsOk(slots, given, detached)
    }

    constructor (n: nat)
      ensures Valid() && |slots| == n && holds == map[] && given == {} && detached == []
      ensures forall i :: 0 <= i < n ==> slots[i] == Slot(None, 0, false, false)
    {
      slots := seq(n, _ => Slot(None, 0, false, false));
      holds, nextHold, given, detached := map[], 0, {}, [];
    }

    /** sock_inc_used: no hold on a slot that is to be freed. */
    method IncUsed(i: nat) returns (t: Option<nat>)
      requires Valid() && i < |slots| && slots[i].used < 255
      modifies `slots, `holds, `nextHold
      ensures Valid() && (t.None? <==> old(slots)[i].pending)
      ensures t.None? ==> slots == old(slots) && holds == old(holds)
      ensures t.Some? ==> t.value !in old(holds) && holds == old(holds)[t.value := Hold(i, old(slots)[i].conn)]
      ensures t.Some? ==> slots == old(slots)[i := old(slots)[i].(used := old(slots)[i].used + 1)]
    {
      if slots[i].pending {
        return None;
      }
      hide ConnsOk, On;
      ghost var ss, hs := slots, holds;
      var id, h, s := nextHold, Hold(i, slots[i].conn), slots[i].(used := slots[i].used + 1);
      ConnsSame(ss, given, detached, i, s);
      slots := slots[i := s];
      holds := holds[id := h];
      nextHold := id + 1;
      forall k: nat | k < |slots| ensures SlotOk(slots, holds, k) {
        assert SlotOk(ss, hs, k);
        OnAdd(hs, id, h, k);
      }
      forall u | u in holds ensures HoldOk(slots, holds, u) {
        if u != id { assert HoldOk(ss, hs, u); }
      }
      return Some(id);
    }

    /**
    sock_inc_used_locked does the same. Its assertion that a slot to be freed is in use holds
    exactly when the slot still has its netconn.
    */
    method IncUsedLocked(i: nat) returns (t: Option<nat>, asserted: bool)
      requires Valid() && i < |slots| && slots[i].used < 255
      modifies `slots, `holds, `nextHold
      ensures Valid() && (t.None? <==> old(slots)[i].pending)
      ensures t.None? ==> slots == old(slots) && holds == old(holds) && (asserted <==> slots[i].conn.Some?)
      ensures t.Some? ==> asserted && t.value !in old(holds) && holds == old(holds)[t.value := Hold(i, old(slots)[i].conn)]
    {
      assert SlotOk(slots, holds, i);
      asserted := slots[i].pending ==> slots[i].used != 0;
      t := IncUsed(i);
    }

    /** What is left after hold t on slot i is given back and the slot is s. */
    method Leave(t: nat, i: nat, s: Slot, freed: bool)
      requires Valid() && t in holds && i == holds[t].slot && i < |slots| && s.used == slots[i].used - 1
      requires s.conn == (if freed then None else slots[i].conn) && (freed ==> slots[i].conn.Some? && s.used == 0)
      requires s.pending ==> (s.used > 0 <==> s.conn.Some?)
      modifies `slots, `holds, `detached
      ensures Valid() && holds == old(holds) - {t} && slots == old(slots)[i := s]
      ensures detached == old(detached) + if freed then [old(slots)[i].conn.value] else []
    {
      hide ConnsOk, On;
      ghost var ss, hs := slots, holds;
      if freed {
        ConnsDetach(ss, given, detached, i, s);
        detached := detached + [slots[i].conn.value];
      } else {
        ConnsSame(ss, given, detached, i, s);
      }
      slots := slots[i := s];
      holds := holds - {t};
      forall k: nat | k < |slots| ensures SlotOk(slots, holds, k) {
        assert SlotOk(ss, hs, k);
        OnRemove(hs, t, k);
      }
      forall u | u in holds ensures HoldOk(slots, holds, u) {
        assert HoldOk(ss, hs, u);
        OnSome(holds, u);
        assert SlotOk(slots, holds, holds[u].slot);
      }
    }

    /** done_socket: the last holder of a slot that is to be freed frees it. */
    method Done(t: nat)
      requires Valid() && t in holds
      modifies `slots, `holds, `detached
      ensures Valid() && holds == old(holds) - {t} && old(holds)[t].slot < |old(slots)| == |slots|
      ensures var i := old(holds)[t].slot;
              var s := old(slots)[i];
              if s.pending && s.used == 1
              then s.conn.Some? && detached == old(detached) + [s.conn.value] && slots == old(slots)[i := s.(used := 0, conn := None)]
              else detached == old(detached) && s.used > 0 && slots == old(slots)[i := s.(used := s.used - 1)]
    {
      assert HoldOk(slots, holds, t);
      var i := holds[t].slot;
      OnSome(holds, t);
      assert SlotOk(slots, holds, i);
      var s := slots[i].(used := slots[i].used - 1);
      var freed := false;
      if s.used == 0 && s.pending {
        var r := FreeLocked(s.(used := 1), s.tcp);
        s, freed := r.0, r.1;
      }
      Leave(t, i, s, freed);
    }

    /** free_socket, by a holder that found a netconn. */
    method Free(t: nat, tcp: bool)
      requires Valid() && t in holds && holds[t].conn.Some?
      modifies `slots, `holds, `detached
      ensures Valid() && holds == old(holds) - {t} && old(holds)[t].slot < |old(slots)| == |slots|
      ensures var i := old(holds)[t].slot;
              var s := old(slots)[i];
              if s.used == 1
              then detached == old(detached) + [old(holds)[t].conn.value] && slots == old(slots)[i := s.(used := 0, conn := None)]
              else detached == old(detached) && s.used > 1 && slots == old(slots)[i := s.(used := s.used - 1, pending := true, tcp := tcp)]
    {
      assert HoldOk(slots, holds, t);
      var i := holds[t].slot;
      OnSome(holds, t);
      assert SlotOk(slots, holds, i);
      var r := FreeLocked(slots[i], tcp);
      Leave(t, i, r.0, r.1);
    }

    /** What alloc_socket does under the lock: slot i is taken if it has no netconn and no holder. */
    method Claim(i: nat, conn: Conn) returns (t: Option<nat>)
      requires Valid() && i < |slots| && conn !in given
      modifies `slots, `holds, `nextHold, `given
      ensures Valid() && |slots| == |old(slots)| && (t.None? <==> old(slots)[i].conn.Some? || old(slots)[i].used > 0)
      ensures t.None? ==> slots == old(slots) && holds == old(holds) && given == old(given)
      ensures t.Some? ==> t.value !in old(holds) && holds == old(holds)[t.value := Hold(i, Some(conn))] && given == old(given) + {conn}
      ensures t.Some? ==> slots == old(slots)[i := Slot(Some(conn), 1, false, old(slots)[i].tcp)]
    {
      if slots[i].conn.Some? || slots[i].used > 0 {
        return None;
      }
      hide ConnsOk, On;
      ghost var ss, hs := slots, holds;
      var id, h, s := nextHold, Hold(i, Some(conn)), slots[i].(used := 1, pending := false, conn := Some(conn));
      ConnsAttach(ss, given, detached, i, s);
      slots := slots[i := s];
      holds := holds[id := h];
      nextHold := id + 1;
      given := given + {conn};
      forall k: nat | k < |slots| ensures SlotOk(slots, holds, k) {
        assert SlotOk(ss, hs, k);
        OnAdd(hs, id, h, k);
      }
      forall u | u in holds ensures HoldOk(slots, holds, u) {
        if u != id {
          assert HoldOk(ss, hs, u);
          OnSome(hs, u);
          assert SlotOk(ss, hs, hs[u].slot);
        }
      }
      return Some(id);
    }

    /** A step of another thread: it leaves our holds and our new netconn alone. */
    method OtherStep(op: Op, mine: set<nat>, reserved: Option<Conn>)
      requires Valid() && Ours(holds, given, mine, reserved)
      modifies this
      ensures Valid() && |slots| == |old(slots)| && Ours(holds, given, mine, reserved)
      ensures forall t :: t in mine ==> holds[t] == old(holds)[t]
      ensures old(detached) <= detached
    {
      hide SlotOk, HoldOk, ConnsOk;
      match op {
        case Take(i) =>
          if i < |slots| && slots[i].used < 255 {
            var _ := IncUsed(i);
          }
        case GiveBack(t) =>
          if t in holds && t !in mine {
            Done(t);
          }
        case Close(t, tcp) =>
          if t in holds && t !in mine && holds[t].conn.Some? {
            Free(t, tcp);
          }
        case Open(i, conn) =>
          if i < |slots| && conn !in given && Some(conn) != reserved {
            var _ := Claim(i, conn);
          }
      }
    }

    method OtherSteps(ops: seq<Op>, mine: set<nat>, reserved: Option<Conn>)
      requires Valid() && Ours(holds, given, mine, reserved)
      modifies this
      ensures Valid() && |slots| == |old(slots)| && Ours(holds, given, mine, reserved)
      ensures forall t :: t in mine ==> holds[t] == old(holds)[t]
      ensures old(detached) <= detached && (ops == [] ==> slots == old(slots))
    {
      for k := 0 to |ops|
        invariant ops == [] ==> slots == old(slots)
        invariant Valid() && |slots| == |old(slots)| && Ours(holds, given, mine, reserved)
        invariant forall t :: t in mine ==> t in holds && holds[t] == old(holds)[t]
        invariant old(detached) <= detached
      {
        OtherStep(ops[k], mine, reserved);
      }
    }

    /**
    tryget_socket, with steps of other threads between its own. A descriptor that is returned
    is held and has its netconn; otherwise no hold is left behind.
    */
    method TryGet(fd: int, ops: seq<Op>, mine: set<nat>) returns (r: Option<nat>, ghost taken: Option<nat>)
      requires Valid() && mine <= holds.Keys
      requires 0 <= fd - SOCKET_OFFSET < |slots| ==> slots[fd - SOCKET_OFFSET].used < 255
      modifies this
      ensures Valid() && mine <= holds.Keys && forall t :: t in mine ==> holds[t] == old(holds)[t]
      ensures r.Some? ==> r.value in holds && r.value !in mine && 0 <= fd - SOCKET_OFFSET < |slots|
      ensures r.Some? ==> holds[r.value] == Hold(fd - SOCKET_OFFSET, slots[fd - SOCKET_OFFSET].conn)
      ensures r.Some? ==> slots[fd - SOCKET_OFFSET].conn.Some?
      ensures r.None? ==> taken.None? || taken.value !in holds
      ensures 0 <= fd - SOCKET_OFFSET < |old(slots)| && old(slots)[fd - SOCKET_OFFSET].pending ==> r.None? && taken.None?
      ensures var i := fd - SOCKET_OFFSET;
              r.Some? <==> 0 <= i < |old(slots)| && !old(slots)[i].pending && old(slots)[i].conn.Some?
    {
      hide SlotOk, HoldOk, ConnsOk;
      var s := fd - SOCKET_OFFSET;
      if s < 0 || s >= |slots| {
        return None, None;
      }
      var t := IncUsed(s);
      taken := t;
      if t.None? {
        return None, None;
      }
      OtherSteps(ops, mine + {t.value}, None);
      StillThere(slots, holds, t.value);
      if slots[s].conn.Some? {
        return t, t;
      }
      Done(t.value);
      return None, t;
    }

    /** alloc_socket: a slot for a new netconn; the k-th time the lock is released others do env[k]. */
    method AllocSocket(conn: Conn, env: seq<seq<Op>>, mine: set<nat>) returns (fd: int, t: Option<nat>)
      requires Valid() && mine <= holds.Keys && conn !in given
      modifies this
      ensures Valid() && mine <= holds.Keys && forall u :: u in mine ==> holds[u] == old(holds)[u]
      ensures fd == -1 <==> t.None?
      ensures t.None? ==> conn !in given
      ensures t.Some? ==> t.value in holds && t.value !in mine && SOCKET_OFFSET <= fd < SOCKET_OFFSET + |slots|
      ensures t.Some? ==> holds[t.value] == Hold(fd - SOCKET_OFFSET, Some(conn)) && slots[fd - SOCKET_OFFSET].conn == Some(conn)
      ensures |slots| == |old(slots)| && (t.Some? ==> !slots[fd - SOCKET_OFFSET].pending)
      ensures Quiet(env) ==> (fd == -1 <==> forall i :: 0 <= i < |old(slots)| ==> old(slots)[i].conn.Some? || old(slots)[i].used > 0)
      ensures Quiet(env) && fd != -1 ==>
                forall i :: 0 <= i < fd - SOCKET_OFFSET && i < |old(slots)| ==> old(slots)[i].conn.Some? || old(slots)[i].used > 0
    {
      hide SlotOk, HoldOk, ConnsOk;
      var i := 0;
      while i < |slots|
        invariant Quiet(env) ==> slots == old(slots) && forall j :: 0 <= j < i && j < |slots| ==> slots[j].conn.Some? || slots[j].used > 0
        invariant i <= |slots| == |old(slots)| && Valid() && Ours(holds, given, mine, Some(conn))
        invariant forall u :: u in mine ==> u in holds && holds[u] == old(holds)[u]
        decreases |slots| - i
      {
        t := Claim(i, conn);
        if t.Some? {
          StillThere(slots, holds, t.value);
          return i + SOCKET_OFFSET, t;
        }
        OtherSteps(if i < |env| then env[i] else [], mine, Some(conn));
        i := i + 1;
      }
      return -1, None;
    }
  }

  /** No other thread does anything. */
  ghost predicate Quiet(env: seq<seq<Op>>) {
    forall k :: 0 <= k < |env| ==> env[k] == []
  }

  /** The holds in `mine` are there, and the reserved netconn has no slot yet. */
  ghost predicate Ours(holds: map<nat, Hold>, given: set<Conn>, mine: set<nat>, reserved: Option<Conn>) {
    mine <= holds.Keys && (reserved.Some? ==> reserved.value !in given)
  }

  lemma StillThere(slots: seq<Slot>, holds: map<nat, Hold>, t: nat)
    requires t in holds && HoldOk(slots, holds, t)
    ensures holds[t].slot < |slots| && slots[holds[t].slot].conn == holds[t].conn
  {
  }

  /**
  A slot can be marked to be freed and not be in use: two threads hold it, one closes it and
  the other is done.
  */
  method StaleMark() returns (table: SocketTable)
    ensures fresh(table) && table.Valid() && |table.slots| == 1 && table.slots[0] == Slot(None, 0, true, true)
    ensures table.holds == map[] && table.given == {7} && table.detached == [7]
  {
    table := new SocketTable(1);
    var a := table.Claim(0, 7);
    var b := table.IncUsed(0);
    table.Free(a.value, true);
    table.Done(b.value);
  }

  /** Such a slot is not lost: a new netconn gets it. */
  method StaleReused() returns (table: SocketTable, fd: int)
    ensures table.Valid() && fd == SOCKET_OFFSET && |table.slots| == 1 && table.slots[0].conn == Some(8) && !table.slots[0].pending
  {
    table := StaleMark();
    var t;
    fd, t := table.AllocSocket(8, [], {});
  }

  // ---------------------------------------------------------------- no slot leaks

  /** The slots that have a netconn, and the netconns in the slots of `a`. */
  ghost function WithConn(slots: seq<Slot>): set<int> {
    set i | 0 <= i < |slots| && slots[i].conn.Some?
  }

  ghost function ConnsIn(slots: seq<Slot>, a: set<int>): set<Conn>
    requires a <= WithConn(slots)
  {
    set i | i in a :: slots[i].conn.value
  }

  lemma {:induction false} OneEach(slots: seq<Slot>, a: set<int>)
    requires a <= WithConn(slots)
    requires forall i, j :: 0 <= i < j < |slots| && slots[i].conn.Some? ==> slots[i].conn != slots[j].conn
    ensures |ConnsIn(slots, a)| == |a|
    decreases |a|
  {
    if a != {} {
      var i :| i in a;
      var rest, c := a - {i}, slots[i].conn.value;
      OneEach(slots, rest);
      assert a == rest + {i};
      assert ConnsIn(slots, a) == ConnsIn(slots, rest) + {c};
      assert c !in ConnsIn(slots, rest);
    }
  }

  ghost function SetOf(s: seq<Conn>): set<Conn> {
    set c | c in s
  }

  lemma {:induction false} DistinctSize(s: seq<Conn>)
    requires forall i, j :: 0 <= i < j < |s| ==> s[i] != s[j]
    ensures |SetOf(s)| == |s|
    decreases |s|
  {
    if s != [] {
      var k := |s| - 1;
      DistinctSize(s[..k]);
      assert SetOf(s) == SetOf(s[..k]) + {s[k]};
    }
  }

  /** The slots with a netconn are as many as the netconns that were given one and not detached. */
  lemma ConnsCount(slots: seq<Slot>, given: set<Conn>, detached: seq<Conn>)
    requires ConnsOk(slots, given, detached)
    ensures |WithConn(slots)| == |given| - |detached|
  {
    var here, gone := ConnsIn(slots, WithConn(slots)), SetOf(detached);
    OneEach(slots, WithConn(slots));
    DistinctSize(detached);
    forall c: Conn ensures c in here <==> Attached(slots, c) {
      if Attached(slots, c) {
        var i :| 0 <= i < |slots| && slots[i].conn == Some(c);
        assert i in WithConn(slots) && slots[i].conn.value == c;
      }
    }
    assert given == here + gone;
    assert here !! gone;
  }

  /**
  At any time the slots that alloc_socket passes over are at most those that are held and one
  for each netconn that was given a slot and not detached.
  */
  lemma NoSlotLeaks(table: SocketTable)
    requires table.Valid()
    ensures |set i | 0 <= i < |table.slots| && (table.slots[i].conn.Some? || table.slots[i].used > 0)|
            <= |table.given| - |table.detached| + |set i | 0 <= i < |table.slots| && table.slots[i].used > 0|
  {
    var s := table.slots;
    var held := set i | 0 <= i < |s| && s[i].used > 0;
    ConnsCount(s, table.given, table.detached);
    assert (set i | 0 <= i < |s| && (s[i].conn.Some? || s[i].used > 0)) == WithConn(s) + held;
  }

  /** When every netconn is detached and nobody holds a slot, a table with a slot has room for a new one. */
  method RoomAgain(table: SocketTable, conn: Conn) returns (fd: int)
    requires table.Valid() && table.slots != [] && table.holds == map[] && conn !in table.given
    requires forall c :: c in table.given ==> c in table.detached
    modifies table
    ensures table.Valid() && fd == SOCKET_OFFSET && table.slots != [] && table.slots[0].conn == Some(conn)
  {
    assert SlotOk(table.slots, table.holds, 0) && On(table.holds, 0) == {};
    if table.slots[0].conn.Some? {
      AttachedIn(table.slots, 0);
    }
    var t;
    fd, t := table.AllocSocket(conn, [], {});
  }
}
