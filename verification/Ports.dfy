/** The choice of a local TCP port in tcp.c. */
module Ports {
  import opened Circular

  const RANGE_START: nat := 0xC000
  const RANGE_END: nat := 0xFFFF

  /** Some PCB of some list has local port p. */
  ghost predicate Taken(lists: seq<seq<nat>>, p: nat) {
    exists i :: 0 <= i < |lists| && p in lists[i]
  }

  class PortCounter {
    /** tcp_port, a u16_t */
    var port: nat

    constructor ()
      ensures port == RANGE_START
    {
      port := RANGE_START;
    }

    /** tcp_init with a random number: TCP_ENSURE_LOCAL_PORT_RANGE. */
    method Init(rand: nat)
      modifies this
      ensures RANGE_START <= port <= 0xFFFF && (port == RANGE_END <==> rand % 0x4000 == 0x3FFF)
    {
      port := rand % 0x4000 + RANGE_START;
    }

    /** The inner loops of tcp_new_port. */
    method IsTaken(lists: seq<seq<nat>>) returns (r: bool)
      ensures r <==> Taken(lists, port)
      ensures r <==> exists i :: 0 <= i < |lists| && port in lists[i]
    {
      for i := 0 to |lists|
        invariant forall k :: 0 <= k < i ==> port !in lists[k]
      {
        for j := 0 to |lists[i]|
          invariant forall k :: 0 <= k < j ==> lists[i][k] != port
        {
          if lists[i][j] == port {
            return true;
          }
        }
      }
      return false;
    }

    /**
    tcp_new_port: the ports that the counter visits are looked at until one is free, or until
    `n` > RANGE_END - RANGE_START of them were taken.
    */
    method NewPort(lists: seq<seq<nat>>) returns (r: nat, ghost n: nat)
      requires port <= 0xFFFF
      modifies this
      ensures Yields(lists, old(port), n, r) && port == Visit(old(port), if n < TRIES then n else n - 1)
      ensures if Inside(old(port)) then RangeSearch(lists, old(port), r) && InRange(port) && (r != 0 ==> r == port)
              else StraightSearch(lists, old(port), r)
    {
      hide Taken, AllTaken, RangeSearch, StraightSearch;
      n := 0;
      var count := 0;
      NoneYet(lists, port);
      while true
        invariant n == count < TRIES && port <= 0xFFFF && AllTaken(lists, old(port), n)
        invariant port == if n == 0 then old(port) else Visit(old(port), n - 1)
        decreases TRIES - n
      {
        port := (port + 1) % 0x1_0000;
        if port == RANGE_END {
          port := RANGE_START;
        }
        var taken := IsTaken(lists);
        if !taken {
          Concludes(lists, old(port), n, port);
          return port, n;
        }
        OneMore(lists, old(port), n);
        count, n := count + 1, n + 1;
        if count > RANGE_END - RANGE_START {
          Concludes(lists, old(port), n, 0);
          return 0, n;
        }
      }
    }
  }

  /** How many ports are looked at. */
  const TRIES: nat := RANGE_END - RANGE_START + 1

  function Next(port: nat): nat {
    var p := (port + 1) % 0x1_0000;
    if p == RANGE_END then RANGE_START else p
  }

  /** The port that is looked at after k others, from a counter at `port`. */
  function Visit(port: nat, k: nat): nat {
    if k == 0 then Next(port) else Next(Visit(port, k - 1))
  }

  ghost predicate AllTaken(lists: seq<seq<nat>>, port: nat, n: nat) {
    forall k: nat :: k < n ==> Taken(lists, Visit(port, k))
  }

  lemma NoneYet(lists: seq<seq<nat>>, port: nat)
    ensures AllTaken(lists, port, 0)
  {
  }

  lemma OneMore(lists: seq<seq<nat>>, port: nat, n: nat)
    requires AllTaken(lists, port, n) && Taken(lists, Visit(port, n))
    ensures AllTaken(lists, port, n + 1)
  {
  }

  /** What a call of tcp_new_port from a counter at `port` yields. */
  ghost predicate Yields(lists: seq<seq<nat>>, port: nat, n: nat, r: nat) {
    && n <= TRIES && AllTaken(lists, port, n)
    && (n < TRIES ==> r == Visit(port, n) && !Taken(lists, r))
    && (n == TRIES ==> r == 0)
  }

  predicate InRange(p: int) {
    RANGE_START <= p < RANGE_END
  }

  // ---------------------------------------------------------------- a counter within the range

  /** The counter is within the range or just below it. */
  predicate Inside(port: nat) {
    RANGE_START <= port + 1 <= RANGE_END
  }

  /** Every port that comes before r when one starts from `first` is taken. */
  ghost predicate TakenUpTo(lists: seq<seq<nat>>, first: nat, r: nat)
    requires InRange(first) && InRange(r)
  {
    var far := Ahead(RANGE_START, RANGE_END, first, r);
    forall p :: InRange(p) && Ahead(RANGE_START, RANGE_END, first, p) < far ==> Taken(lists, p)
  }

  /** The k-th port is k ahead of the first, round and round. */
  lemma {:induction false} VisitInside(port: nat, k: nat)
    requires Inside(port) && k < TRIES
    ensures InRange(Next(port)) && InRange(Visit(port, k))
    ensures Ahead(RANGE_START, RANGE_END, Next(port), Visit(port, k)) == if k == TRIES - 1 then 0 else k
  {
    hide Next, Visit;
    FirstInside(port);
    VisitStep(port, k);
    if k > 0 {
      VisitInside(port, k - 1);
      NextInside(Next(port), Visit(port, k - 1));
    }
  }

  lemma VisitStep(port: nat, k: nat)
    ensures Visit(port, k) == if k == 0 then Next(port) else Next(Visit(port, k - 1))
  {
  }

  lemma FirstInside(port: nat)
    requires Inside(port)
    ensures InRange(Next(port))
  {
  }

  lemma NextInside(first: nat, p: nat)
    requires InRange(first) && InRange(p)
    ensures InRange(Next(p))
    ensures var d := Ahead(RANGE_START, RANGE_END, first, p) + 1;
            Ahead(RANGE_START, RANGE_END, first, Next(p)) == if d == RANGE_END - RANGE_START then 0 else d
  {
  }

  lemma VisitedInside(port: nat, p: nat)
    requires Inside(port) && InRange(Next(port)) && InRange(p)
    ensures Visit(port, Ahead(RANGE_START, RANGE_END, Next(port), p)) == p
  {
    VisitInside(port, Ahead(RANGE_START, RANGE_END, Next(port), p));
  }

  /** The result is the first free port of the range behind the counter, and 0 exactly when there is none. */
  ghost predicate RangeSearch(lists: seq<seq<nat>>, port: nat, r: nat) {
    && InRange(Next(port))
    && (r == 0 <==> forall p :: InRange(p) ==> Taken(lists, p))
    && (r != 0 ==> InRange(r) && !Taken(lists, r) && TakenUpTo(lists, Next(port), r))
  }

  lemma FromInside(lists: seq<seq<nat>>, port: nat, n: nat, r: nat)
    requires Inside(port) && Yields(lists, port, n, r)
    ensures RangeSearch(lists, port, r) && forall k: nat :: k < TRIES ==> InRange(Visit(port, k))
    ensures r == 0 <==> forall p :: 0xC000 <= p < 0xFFFF ==> Taken(lists, p)
    ensures r != 0 ==> 0xC000 <= r < 0xFFFF && !Taken(lists, r)
    ensures r != 0 && port + 1 <= r ==> forall p :: port < p < r && 0xC000 <= p ==> Taken(lists, p)
    ensures r != 0 && r <= port ==> forall p :: (0xC000 <= p < r || port < p < 0xFFFF) && 0xC000 <= p ==> Taken(lists, p)
  {
    hide Taken, Visit;
    VisitInside(port, 0);
    forall k: nat | k < TRIES ensures InRange(Visit(port, k)) { VisitInside(port, k); }
    forall p | InRange(p) && Ahead(RANGE_START, RANGE_END, Next(port), p) < n ensures Taken(lists, p) {
      VisitedInside(port, p);
    }
    if n < TRIES { VisitInside(port, n); }
  }

  // ---------------------------------------------------------------- a counter out of the range

  /** From any other counter the ports looked at go straight up, and do not come round. */
  lemma {:induction false} VisitOutside(port: nat, k: nat)
    requires port <= 0xFFFF && !Inside(port) && k < TRIES
    ensures Visit(port, k) == (port + 1) % 0x1_0000 + k < RANGE_END
  {
    if k > 0 { VisitOutside(port, k - 1); }
  }

  /** All ports from lo up to hi, hi left out, are taken. */
  ghost predicate Full(lists: seq<seq<nat>>, lo: nat, hi: nat) {
    forall p :: lo <= p < hi ==> Taken(lists, p)
  }

  /** A port of the range that can be reached from `first` is free. */
  ghost predicate FreeWithin(lists: seq<seq<nat>>, first: nat) {
    exists p :: InRange(p) && p < first + TRIES && !Taken(lists, p)
  }

  /**
  A port of the range is handed out exactly when the range is near enough, all ports below it
  are taken, and one of it that can be reached is free. The result is the first free port from
  `first` on, and 0 exactly if that is port 0 or too far away.
  */
  ghost predicate StraightSearch(lists: seq<seq<nat>>, port: nat, r: nat) {
    var first := (port + 1) % 0x1_0000;
    && (InRange(r) <==> RANGE_START < first + TRIES && Full(lists, first, RANGE_START) && FreeWithin(lists, first))
    && (r == 0 <==> Full(lists, first, first + TRIES) || (first == 0 && !Taken(lists, 0)))
    && (r != 0 ==> first <= r < first + TRIES && Full(lists, first, r) && !Taken(lists, r))
  }

  lemma FromOutside(lists: seq<seq<nat>>, port: nat, n: nat, r: nat)
    requires port <= 0xFFFF && !Inside(port) && Yields(lists, port, n, r)
    ensures StraightSearch(lists, port, r)
    ensures var first := if port == 0xFFFF then 0 else port + 1;
            && (0xC000 <= r < 0xFFFF <==>
                  && 0xC000 - first <= 0x3FFF && (forall p :: first <= p < 0xC000 ==> Taken(lists, p))
                  && exists p: nat :: 0xC000 <= p < 0xFFFF && p <= first + 0x3FFF && !Taken(lists, p))
            && (r == 0 <==> (forall p :: first <= p <= first + 0x3FFF ==> Taken(lists, p)) || (first == 0 && !Taken(lists, 0)))
  {
    hide Taken, Visit;
    var first := (port + 1) % 0x1_0000;
    forall p | first <= p < first + n ensures Taken(lists, p) {
      VisitOutside(port, p - first);
      assert Taken(lists, Visit(port, p - first));
    }
    if n < TRIES {
      VisitOutside(port, n);
      assert r == first + n && !Taken(lists, r);
      if InRange(r) {
        assert FreeWithin(lists, first);
      } else if Full(lists, first, RANGE_START) {
        assert false;
      }
    }
  }

  lemma Concludes(lists: seq<seq<nat>>, port: nat, n: nat, r: nat)
    requires port <= 0xFFFF && Yields(lists, port, n, r)
    ensures if Inside(port) then RangeSearch(lists, port, r) && forall k: nat :: k < TRIES ==> InRange(Visit(port, k))
            else StraightSearch(lists, port, r)
  {
    hide Taken, Visit, RangeSearch, StraightSearch, Yields;
    if Inside(port) { FromInside(lists, port, n, r); } else { FromOutside(lists, port, n, r); }
  }

  /** tcp_init leaves the counter at the end of the range, and no port is found though all are free. */
  method NoPortFound() returns (counter: PortCounter, r: nat)
    ensures fresh(counter) && r == 0 && forall p :: !Taken([], p)
  {
    counter := new PortCounter();
    counter.Init(0x3FFF);
    ghost var n;
    r, n := counter.NewPort([]);
    assert !Taken([], 0);
  }
}
