/**
The receive window that tcp.c announces (RFC 1122 sections 4.2.2.16 and 4.2.3.3). Data that
arrives and ACKs that are sent are steps of the environment.
*/
module TcpWindow {
  import opened Prelude
  import opened Wrap32

  /** TCP_SEQ_GEQ and TCP_SEQ_GT: the s32_t cast of the difference is compared with 0. */
  predicate SeqGeq(a: nat, b: nat) { U32(a - b) < 0x8000_0000 }
  predicate SeqGt(a: nat, b: nat) { 0 < U32(a - b) < 0x8000_0000 }

  lemma SeqIs(a: int, b: int)
    requires Near(a, b)
    ensures SeqGeq(U32(a), U32(b)) <==> a >= b
    ensures SeqGt(U32(a), U32(b)) <==> a > b
    ensures a >= b ==> U32(U32(a) - U32(b)) == a - b
  {
    SignOfDifference(a, b);
  }

  datatype Step = Data(len: nat) | Recved(len: nat) | SendAck | Fin

  class Receiver {
    /** TCP_WND, which TCP_WND_MAX is without window scaling, and TCP_MSS. */
    const wnd: nat
    const maxMss: nat
    /** The maximum segment size of the connection. */
    const mss: nat
    /** rcv_nxt and rcv_ann_right_edge, u32_t */
    var rcvNxt: nat
    var annEdge: nat
    /** rcv_wnd and rcv_ann_wnd, u16_t */
    var rcvWnd: nat
    var annWnd: nat
    /** A FIN has arrived. */
    var closed: bool
    /** The sequence numbers without wrap-around. */
    ghost var nxt: nat
    ghost var edge: nat

    /** The least advance of the edge that is announced. */
    function Stride(): (r: nat)
      ensures r <= wnd / 2 && r <= mss && (r == wnd / 2 || r == mss)
    {
      Min(wnd / 2, mss)
    }

    /** TCP_WND_UPDATE_THRESHOLD */
    function Threshold(): (r: nat)
      ensures r <= wnd / 4 && r <= maxMss * 4 && (r == wnd / 4 || r == maxMss * 4)
    {
      Min(wnd / 4, maxMss * 4)
    }

    /** All but what tcp_update_rcv_ann_wnd sets up. */
    ghost predicate Pending()
      reads this
    {
      && wnd <= 0xFFFF && mss <= 0xFFFF && rcvNxt == U32(nxt) && annEdge == U32(edge)
      && rcvWnd <= wnd && edge <= nxt + rcvWnd && nxt <= edge + wnd + 1
    }

    /**
    The announced window never exceeds the real one and never takes back what was announced;
    while rcv_nxt has not passed the announced edge, the next edge is the same or at least
    Stride() further.
    */
    ghost predicate Announced()
      reads this
    {
      && Pending() && annWnd <= rcvWnd && edge <= nxt + annWnd
      && (nxt <= edge ==> nxt + annWnd == edge || nxt + annWnd >= edge + Stride())
    }

    /** The real window reaches at most TCP_WND, and the FIN, past the announced edge. */
    ghost predicate Valid()
      reads this
    {
      Announced() && nxt + rcvWnd <= edge + wnd + if closed then 1 else 0
    }

    /** As tcp_connect sets the window up. */
    constructor (wnd: nat, maxMss: nat, mss: nat, iss: nat)
      requires wnd <= 0xFFFF && mss <= 0xFFFF && iss < 0x1_0000_0000
      ensures Valid() && this.wnd == wnd && this.maxMss == maxMss && this.mss == mss && nxt == edge == iss && rcvWnd == annWnd == wnd && !closed
    {
      this.wnd, this.maxMss, this.mss, closed := wnd, maxMss, mss, false;
      rcvNxt, annEdge, rcvWnd, annWnd := iss, iss, wnd, wnd;
      nxt, edge := iss, iss;
    }

    /** tcp_update_rcv_ann_wnd */
    method Update() returns (inflation: nat)
      requires Pending()
      modifies `annWnd
      ensures Announced()
      ensures var right := nxt + rcvWnd;
              && inflation == (if right >= edge + Stride() then right - edge else 0)
              && annWnd == if right >= edge + Stride() then rcvWnd else if nxt > edge then 0 else edge - nxt
    {
      hide SeqGeq, SeqGt, U32;
      U32Add(nxt, rcvWnd);
      U32Add(edge, Stride());
      Small(rcvWnd);
      Small(Stride());
      var right := U32(rcvNxt + rcvWnd);
      SeqIs(nxt + rcvWnd, edge + Stride());
      SeqIs(nxt + rcvWnd, edge);
      SeqIs(nxt, edge);
      if SeqGeq(right, U32(annEdge + Stride())) {
        annWnd := rcvWnd;
        return U32(right - annEdge);
      }
      if SeqGt(rcvNxt, annEdge) {
        annWnd := 0;
      } else {
        SeqIs(edge, nxt);
        annWnd := U32(annEdge - rcvNxt) % 0x1_0000;
      }
      return 0;
    }

    /** An ACK goes out with rcv_ann_wnd: the edge it announces is on record. */
    method SendAck()
      requires Announced()
      modifies `annEdge, `edge
      ensures Announced() && (old(Valid()) ==> Valid()) && edge == nxt + annWnd
      ensures old(edge) <= edge <= nxt + rcvWnd && SeqGeq(annEdge, old(annEdge))
      ensures nxt <= old(edge) ==> edge == old(edge) || edge >= old(edge) + Stride()
    {
      U32Add(nxt, annWnd);
      Small(annWnd);
      SeqIs(nxt + annWnd, edge);
      annEdge, edge := U32(rcvNxt + annWnd), nxt + annWnd;
    }

    /** The window grows by what the application read; a u16_t that wraps counts as too large. */
    method Reopen(len: nat)
      requires Valid() && len <= 0xFFFF
      modifies `rcvWnd
      ensures Pending() && old(rcvWnd) <= rcvWnd == Min(old(rcvWnd) + len, wnd)
    {
      var w := (rcvWnd + len) % 0x1_0000;
      if w > wnd || w < rcvWnd {
        rcvWnd := wnd;
      } else {
        rcvWnd := w;
      }
    }

    /** tcp_recved: a window that grew enough is announced at once. */
    method Recved(len: nat) returns (ackNow: bool)
      requires Valid() && len <= 0xFFFF
      modifies `rcvWnd, `annWnd, `annEdge, `edge
      ensures Valid() && rcvWnd == Min(old(rcvWnd) + len, wnd)
      ensures var inflation := if nxt + rcvWnd >= old(edge) + Stride() then nxt + rcvWnd - old(edge) else 0;
              ackNow <==> inflation >= Threshold()
      ensures edge == if ackNow then nxt + annWnd else old(edge)
      ensures old(edge) <= edge && nxt + rcvWnd <= edge + Max(Stride(), Threshold())
      ensures nxt <= old(edge) ==> edge == old(edge) || edge >= old(edge) + Stride()
    {
      hide U32, SeqGeq;
      Reopen(len);
      var inflation := Update();
      ackNow := inflation >= Threshold();
      if ackNow {
        SendAck();
      }
    }

    /** In-window data is taken unless the peer is done: rcv_nxt and rcv_wnd move, and the window is updated. */
    method Data(len: nat)
      requires Valid() && len <= rcvWnd
      modifies `rcvNxt, `nxt, `rcvWnd, `annWnd
      ensures Valid() && nxt == old(nxt) + (if closed then 0 else len) && nxt + rcvWnd == old(nxt + rcvWnd)
    {
      if closed {
        return;
      }
      U32Add(nxt, len);
      Small(len);
      rcvNxt, nxt := U32(rcvNxt + len), nxt + len;
      rcvWnd := rcvWnd - len;
      var _ := Update();
    }

    /** A FIN is not read by the application, so its place in the window is given back. */
    method Fin()
      requires Valid()
      modifies `rcvWnd, `closed
      ensures Valid() && closed && rcvWnd == if old(closed) then old(rcvWnd) else Min(old(rcvWnd) + 1, wnd)
    {
      if !closed && rcvWnd != wnd {
        rcvWnd := rcvWnd + 1;
      }
      closed := true;
    }

    /**
    Any run of these steps, with rcv_nxt and the announced edge before each: the edges never
    retreat, and one that rcv_nxt has not passed moves by at least Stride() if it moves.
    */
    method Run(steps: seq<Step>) returns (ghost edges: seq<nat>, ghost nxts: seq<nat>)
      requires Valid()
      modifies this
      ensures Valid() && |edges| == |nxts| == |steps| + 1 && edges[0] == old(edge) && edges[|steps|] == edge
      ensures nxts[0] == old(nxt) && nxts[|steps|] == nxt
      ensures forall i, j :: 0 <= i < j < |edges| ==> edges[i] <= edges[j] && nxts[i] <= nxts[j]
      ensures forall i :: 0 <= i < |steps| ==> Strides(edges, nxts, i, Stride())
    {
      hide Strides, U32, SeqGeq;
      edges, nxts := [edge], [nxt];
      for k := 0 to |steps|
        invariant Valid() && |edges| == |nxts| == k + 1 && edges[0] == old(edge) && edges[k] == edge
        invariant nxts[0] == old(nxt) && nxts[k] == nxt
        invariant forall i, j :: 0 <= i < j < |edges| ==> edges[i] <= edges[j] && nxts[i] <= nxts[j]
        invariant forall i :: 0 <= i < k ==> Strides(edges, nxts, i, Stride())
      {
        match steps[k] {
          case Data(len) =>
            Data(Min(len, rcvWnd));
          case Recved(len) =>
            var _ := Recved(Min(len, 0xFFFF));
          case SendAck => SendAck();
          case Fin => Fin();
        }
        StrideNext(edges, nxts, k, Stride(), edge, nxt);
        edges, nxts := edges + [edge], nxts + [nxt];
      }
    }
  }

  /** Step i moves an edge that rcv_nxt has not passed by at least `stride`, or not at all. */
  ghost predicate Strides(edges: seq<nat>, nxts: seq<nat>, i: nat, stride: nat)
    requires i + 1 < |edges| == |nxts|
  {
    nxts[i] <= edges[i] ==> edges[i + 1] == edges[i] || edges[i + 1] >= edges[i] + stride
  }

  lemma StrideNext(edges: seq<nat>, nxts: seq<nat>, k: nat, stride: nat, edge: nat, nxt: nat)
    requires |edges| == |nxts| == k + 1 && forall i :: 0 <= i < k ==> Strides(edges, nxts, i, stride)
    requires nxts[k] <= edges[k] ==> edge == edges[k] || edge >= edges[k] + stride
    ensures forall i :: 0 <= i <= k ==> Strides(edges + [edge], nxts + [nxt], i, stride)
  {
    forall i | 0 <= i < k ensures Strides(edges + [edge], nxts + [nxt], i, stride) {
      assert Strides(edges, nxts, i, stride);
    }
  }

  function Max(a: nat, b: nat): nat { if a < b then b else a }

  lemma Small(x: nat)
    requires x < 0x1_0000_0000
    ensures U32(x) == x
  {
  }
}
