/** What every run keeps between the sender's queue, the receiver's window and the ACKs. */
module Reliability {
  import opened Bytes
  import opened FrameCodec
  import opened Dedup
  import opened Session
  import opened Transport

  function AckSeqAt(s: State, i: nat): nat
    requires i < |s.acks|
  {
    match AckOfBytes(s.acks[i])
    case Some(a) => a.ackSeq
    case None => 0
  }

  /** Only assigned numbers are seen. */
  ghost predicate WindowInv(s: State) {
    && Settled(s.rcv.window) && s.rcv.window.size == 1024 && s.rcv.window.next >= 1
    && (forall x: nat :: Seen(s.rcv.window, x) ==> x < s.snd.nextSeq)
    && s.rcv.toGrant < U32
  }

  /** Every ACK decodes, covers only seen numbers, and acknowledges at least as much as the one before. */
  ghost predicate AckInv(s: State) {
    && (forall i :: 0 <= i < |s.acks| ==> AckOfBytes(s.acks[i]).Some? && AckSeqAt(s, i) < s.rcv.window.next)
    && (forall i, j :: 0 <= i <= j < |s.acks| ==> AckSeqAt(s, i) <= AckSeqAt(s, j))
  }

  ghost predicate Queued(s: State, sn: nat) { exists e :: e in s.snd.queue && e.sn == sn }

  ghost predicate Safe(s: State, i: nat)
    requires i < |s.sent|
  {
    s.sent[i].fireAndForget ==> Queued(s, i + 1) || Seen(s.rcv.window, i + 1)
  }

  ghost predicate QueueInv(s: State) { s.snd.active ==> forall i :: 0 <= i < |s.sent| ==> Safe(s, i) }

  // ---- the window ----

  /** Receiving changes the window only by marking, and only in-window numbers. */
  lemma {:induction false} ReceiveMarks(r: RecvSide, sn: nat)
    requires Settled(r.window) && r.window.size == 1024
    ensures var (r', act) := ReceiveFrame(r, sn);
            && Settled(r'.window) && r'.window.size == 1024 && r'.window.next >= r.window.next
            && (forall x: nat :: Seen(r'.window, x) <==> Seen(r.window, x) || (x == sn && act != Beyond))
            && (act == Deliver || act == Gap ==> !Seen(r.window, sn))
            && (act == Deliver ==> sn == r.window.next)
            && (act == Duplicate ==> Seen(r.window, sn))
            && (act == Gap ==> sn > r.window.next && r'.window.next == r.window.next)
            && r'.toGrant == r.toGrant + 1
  {
    hide Mark;
    MarkAddsExactly(r.window, sn);
    CheckClassifies(r.window, sn);
    if Check(r.window, sn) == OutOfOrder {
      OutOfOrderKeepsNext(r.window, sn);
    }
  }

  lemma {:induction false} WireNumber(s: State, raw: seq<byte>)
    requires WireInv(s) && raw in s.wire && Decode(raw).Ok?
    ensures 1 <= Decode(raw).value.header.streamSeq < s.snd.nextSeq
    ensures s.sent[Decode(raw).value.header.streamSeq - 1].frame == raw
  {
    hide Decode;
    assert OnRecord(s, raw);
    var i :| 0 <= i < |s.sent| && s.sent[i].frame == raw;
    assert Stamped(s, i);
  }

  lemma {:induction false} EmitKeeps(p: Params, s: State, gap: bool)
    requires Proper(p) && WindowInv(s) && s.snd.nextSeq < U64 && AckInv(s)
    ensures var t := EmitAck(p, s, gap);
            && t.rcv.window == s.rcv.window && t.rcv.toGrant == 0
            && |t.acks| == |s.acks| + 1 && AckOfBytes(t.acks[|s.acks|]) == Some(BuildAck(s.rcv, gap).1)
            && AckInv(t)
  {
    hide AckOfBytes, SackBitmap;
    var t, a := EmitAck(p, s, gap), BuildAck(s.rcv, gap).1;
    assert Pow256(8) == U64 && Pow256(4) == U32 && Pow256(2) == 65536;
    if s.rcv.window.next > 0 { assert Seen(s.rcv.window, s.rcv.window.next - 1); }
    AckRoundTrip(p.local, p.remote, a);
    var n := |s.acks|;
    assert forall i :: 0 <= i < n ==> t.acks[i] == s.acks[i];
    assert forall i :: 0 <= i < n ==> AckSeqAt(t, i) == AckSeqAt(s, i);
    assert AckSeqAt(t, n) == AckSeqOf(s.rcv.window);
  }

  lemma {:induction false} AcceptKeeps(p: Params, s: State, f: Frame)
    requires Proper(p) && WindowInv(s) && AckInv(s) && s.snd.nextSeq < U64
    requires f.ext.Some? && 1 <= f.header.streamSeq < s.snd.nextSeq && s.rcv.toGrant + 1 < U32
    ensures WindowInv(Accept(p, s, f)) && AckInv(Accept(p, s, f))
    ensures Accept(p, s, f).rcv.window == ReceiveFrame(s.rcv, f.header.streamSeq).0.window
  {
    hide AckOfBytes, ReceiveFrame;
    ReceiveMarks(s.rcv, f.header.streamSeq);
    var (rcv, act) := ReceiveFrame(s.rcv, f.header.streamSeq);
    var t := Record(s, f, rcv, act);
    SameAcks(s, t);
    assert WindowInv(t);
    EmitKeeps(p, t, act == Gap);
  }

  lemma {:induction false} WindowStep(p: Params, s: State, step: Step)
    requires Proper(p) && WireInv(s) && WindowInv(s) && AckInv(s)
    ensures WindowInv(Apply(p, s, step)) && AckInv(Apply(p, s, step))
  {
    hide Decode, AckOfBytes, Accept, CheckRto, ProcessAck, FastRetransmit;
    var t := Apply(p, s, step);
    WireStep(p, s, step);
    if step.RecvData? {
      RecvDataCases(p, s, step.raw);
      if t != s {
        WireNumber(s, step.raw);
        AcceptKeeps(p, s, Decode(step.raw).value);
      }
    } else {
      SenderKeepsReceiver(p, s, step);
      SameAcks(s, t);
    }
  }

  lemma {:induction false} SameAcks(s: State, t: State)
    requires AckInv(s) && t.acks == s.acks && t.rcv.window.next >= s.rcv.window.next
    ensures AckInv(t)
  {
    hide AckOfBytes;
    assert forall i :: 0 <= i < |s.acks| ==> AckSeqAt(t, i) == AckSeqAt(s, i);
  }

  lemma {:induction false} SenderKeepsReceiver(p: Params, s: State, step: Step)
    requires !step.RecvData? && WireInv(s)
    ensures var t := Apply(p, s, step);
            && t.rcv.window == s.rcv.window && t.acks == s.acks && t.snd.nextSeq >= s.snd.nextSeq
            && (s.rcv.toGrant < U32 ==> t.rcv.toGrant < U32)
            && t.firsts == s.firsts && t.skipped == s.skipped && t.handed == s.handed
            && t.received == s.received && t.repeats == s.repeats
  {
    hide Decode, AckOfBytes, Patch, Scan, Unacked;
  }

  lemma {:induction false} RecvDataCases(p: Params, s: State, raw: seq<byte>)
    requires WireInv(s)
    ensures var t := DoRecvData(p, s, raw);
            || t == s
            || (raw in s.wire && Decode(raw).Ok? && Decode(raw).value.ext.Some? && s.rcvActive
                && s.rcv.toGrant + 1 < U32 && t == Accept(p, s, Decode(raw).value))
  {
    hide Decode, Accept;
    if raw in s.wire && Decode(raw).Ok? {
      WireNumber(s, raw);
    }
  }

  // ---- the queue ----

  lemma {:induction false} QueueSend(s: State, frame: seq<byte>, ff: bool, reqId: nat, deadline: int)
    requires WireInv(s) && QueueInv(s)
    ensures QueueInv(DoSend(s, frame, ff, reqId, deadline))
  {
    hide Decode, Patch;
    var t := DoSend(s, frame, ff, reqId, deadline);
    if t != s {
      forall i | 0 <= i < |t.sent|
        ensures Safe(t, i)
      {
        if i < |s.sent| {
          assert Safe(s, i);
          if Queued(s, i + 1) {
            var e :| e in s.snd.queue && e.sn == i + 1;
            assert e in t.snd.queue;
          }
        } else {
          assert t.snd.queue[|s.snd.queue|].sn == i + 1;
        }
      }
    }
  }

  lemma {:induction false} QueueTimeout(p: Params, s: State, now: int)
    requires WireInv(s) && QueueInv(s)
    ensures QueueInv(DoTimeout(p, s, now))
  {
    hide Decode, Scan;
    var t := DoTimeout(p, s, now);
    RtoKeeps(s.snd, now, p.cfg);
    if t.snd.active {
      forall i | 0 <= i < |t.sent|
        ensures Safe(t, i)
      {
        assert Safe(s, i);
        if Queued(s, i + 1) {
          var k :| 0 <= k < |s.snd.queue| && s.snd.queue[k].sn == i + 1;
          assert t.snd.queue[k].sn == i + 1;
        }
      }
    }
  }

  /** An entry dropped by an ACK was seen, because the ACK covers it. */
  lemma {:induction false} QueueRecvAck(s: State, i: nat)
    requires WireInv(s) && WindowInv(s) && AckInv(s) && QueueInv(s)
    ensures QueueInv(DoRecvAck(s, i))
  {
    hide Decode, AckOfBytes, Unacked;
    var t := DoRecvAck(s, i);
    if t != s && s.snd.active {
      var a := AckOfBytes(s.acks[i]).value;
      assert AckSeqAt(s, i) == a.ackSeq;
      UnackedKeeps(s.snd.queue, a.ackSeq);
      forall k | 0 <= k < |t.sent|
        ensures Safe(t, k)
      {
        assert Safe(s, k);
        if s.sent[k].fireAndForget && Queued(s, k + 1) {
          var e :| e in s.snd.queue && e.sn == k + 1;
          if !Acked(e, a.ackSeq) { assert e in t.snd.queue; }
        }
      }
    }
  }

  lemma {:induction false} QueueComplete(p: Params, s: State, reqId: nat)
    requires WireInv(s) && QueueInv(s)
    ensures QueueInv(Apply(p, s, Complete(reqId)))
  {
    hide Decode, RemoveFirst;
    var t := Apply(p, s, Complete(reqId));
    RemoveKeeps(s.snd.queue, reqId);
    if s.snd.active {
      forall k | 0 <= k < |t.sent|
        ensures Safe(t, k)
      {
        assert Safe(s, k);
        if s.sent[k].fireAndForget && Queued(s, k + 1) {
          var e :| e in s.snd.queue && e.sn == k + 1;
          assert Matches(s, e);
          assert e in t.snd.queue;
        }
      }
    }
  }

  lemma {:induction false} QueueRecvData(p: Params, s: State, raw: seq<byte>)
    requires Proper(p) && WireInv(s) && WindowInv(s) && AckInv(s) && QueueInv(s)
    ensures QueueInv(DoRecvData(p, s, raw))
  {
    hide Decode, Accept, ReceiveFrame;
    var t := DoRecvData(p, s, raw);
    RecvDataCases(p, s, raw);
    WireRecvData(p, s, raw);
    if t != s && s.snd.active {
      var f := Decode(raw).value;
      WireNumber(s, raw);
      AcceptKeeps(p, s, f);
      ReceiveMarks(s.rcv, f.header.streamSeq);
      forall k | 0 <= k < |t.sent|
        ensures Safe(t, k)
      {
        assert Safe(s, k);
        if Queued(s, k + 1) { assert Queued(t, k + 1); }
      }
    }
  }

  lemma {:induction false} QueueStep(p: Params, s: State, step: Step)
    requires Proper(p) && WireInv(s) && WindowInv(s) && AckInv(s) && QueueInv(s)
    ensures QueueInv(Apply(p, s, step))
  {
    hide Decode, DoSend, DoTimeout, DoRecvAck, DoRecvData;
    match step
    case SendFrame(frame, ff, reqId, deadline) => QueueSend(s, frame, ff, reqId, deadline);
    case Timeout(now) => QueueTimeout(p, s, now);
    case RecvAck(i) => QueueRecvAck(s, i);
    case Complete(reqId) => QueueComplete(p, s, reqId);
    case RecvData(raw) => QueueRecvData(p, s, raw);
    case KillSender =>
    case KillReceiver => QueueSame(s, Apply(p, s, step));
    case Grant(_) => QueueSame(s, Apply(p, s, step));
  }

  lemma {:induction false} QueueSame(s: State, t: State)
    requires QueueInv(s) && t.snd == s.snd && t.sent == s.sent && t.rcv.window == s.rcv.window
    ensures QueueInv(t)
  {
    if t.snd.active {
      forall k | 0 <= k < |t.sent|
        ensures Safe(t, k)
      {
        assert Safe(s, k);
        if Queued(s, k + 1) { assert Queued(t, k + 1); }
      }
    }
  }

  lemma {:induction false} Always(p: Params, steps: seq<Step>)
    requires Proper(p)
    ensures var s := After(p, steps); WireInv(s) && WindowInv(s) && AckInv(s) && QueueInv(s)
  {
    hide Apply;
    if steps != [] {
      var prefix, last := steps[..|steps| - 1], steps[|steps| - 1];
      Always(p, prefix);
      WireStep(p, After(p, prefix), last);
      WindowStep(p, After(p, prefix), last);
      QueueStep(p, After(p, prefix), last);
    }
  }

  // ---- main results ----

  /** In every run, while the sender is active, each fire-and-forget frame it stamped is still queued with its
      exact bytes or has been seen by the receiver. */
  lemma {:induction false} NothingForgotten(p: Params, steps: seq<Step>, i: nat)
    requires Proper(p) && i < |After(p, steps).sent|
    ensures var s := After(p, steps);
            s.snd.active && s.sent[i].fireAndForget ==>
              || Seen(s.rcv.window, i + 1)
              || exists e :: e in s.snd.queue && e.sn == i + 1 && e.frame == s.sent[i].frame
  {
    hide After;
    Always(p, steps);
    var s := After(p, steps);
    if s.snd.active && s.sent[i].fireAndForget && !Seen(s.rcv.window, i + 1) {
      assert Safe(s, i);
      var e :| e in s.snd.queue && e.sn == i + 1;
      assert Matches(s, e);
    }
  }

  /** In every run each ACK on the wire covers only seen numbers, and later ACKs never acknowledge less. */
  lemma {:induction false} AcksAreTrue(p: Params, steps: seq<Step>, i: nat, x: nat)
    requires Proper(p) && i < |After(p, steps).acks|
    ensures var s := After(p, steps);
            && AckOfBytes(s.acks[i]).Some?
            && (x <= AckOfBytes(s.acks[i]).value.ackSeq ==> Seen(s.rcv.window, x))
            && forall j :: i <= j < |s.acks| ==>
                 AckOfBytes(s.acks[j]).Some?
                 && AckOfBytes(s.acks[i]).value.ackSeq <= AckOfBytes(s.acks[j]).value.ackSeq
  {
    hide After, AckOfBytes;
    Always(p, steps);
    var s := After(p, steps);
    forall j | i <= j < |s.acks|
      ensures AckOfBytes(s.acks[j]).Some?
      ensures AckOfBytes(s.acks[i]).value.ackSeq <= AckOfBytes(s.acks[j]).value.ackSeq
    {
      assert AckSeqAt(s, i) <= AckSeqAt(s, j);
    }
  }

  /** In every run all wire copies that decode to one sequence number are the same bytes. */
  lemma {:induction false} WireCopiesIdentical(p: Params, steps: seq<Step>, a: seq<byte>, b: seq<byte>)
    ensures a in After(p, steps).wire && b in After(p, steps).wire && SameNumber(a, b) ==> a == b
  {
    hide After, Decode;
    WireAlways(p, steps);
    var s := After(p, steps);
    if a in s.wire && b in s.wire && SameNumber(a, b) {
      WireNumber(s, a);
      WireNumber(s, b);
    }
  }

  ghost predicate SameNumber(a: seq<byte>, b: seq<byte>) {
    Decode(a).Ok? && Decode(b).Ok? && Decode(a).value.header.streamSeq == Decode(b).value.header.streamSeq
  }

  /** Receiving takes `s` to `t` and emits one ACK, and what the sender decodes from its bytes is the receiver's true
      state: `ack_seq` is the largest n with 0..n all seen, SACK bit i says whether ack_seq + 1 + i was seen, bit 0 is
      never set, and the grant is everything not yet granted. */
  ghost predicate TrueReport(s: State, t: State, n: nat, i: nat)
    requires i < 256
  {
    && |t.acks| == |s.acks| + 1
    && var a := AckOfBytes(t.acks[|s.acks|]);
       && a.Some? && a.value.grant == s.rcv.toGrant + 1 && t.rcv.toGrant == 0
       && (n == a.value.ackSeq <==> (forall x: nat :: x <= n ==> Seen(t.rcv.window, x)) && !Seen(t.rcv.window, n + 1))
       && (a.value.sack.Some? ==>
             && |a.value.sack.value| == 32
             && (Bit(a.value.sack.value[i / 8], i % 8) <==> Seen(t.rcv.window, a.value.ackSeq + 1 + i))
             && !Bit(a.value.sack.value[0], 0))
  }

  /** In every run, whenever receiving a frame emits an ACK, the ACK is a true report. */
  lemma {:induction false} AckReportsReceiver(p: Params, steps: seq<Step>, raw: seq<byte>, n: nat, i: nat)
    requires Proper(p) && i < 256
    ensures var s := After(p, steps);
            var t := DoRecvData(p, s, raw);
            |t.acks| > |s.acks| ==> TrueReport(s, t, n, i)
  {
    hide After, Decode, AckOfBytes, SackBitmap, Bit, ReceiveFrame;
    Always(p, steps);
    var s := After(p, steps);
    if |DoRecvData(p, s, raw).acks| > |s.acks| {
      RecvDataCases(p, s, raw);
      WireNumber(s, raw);
      var f := Decode(raw).value;
      ReceiveMarks(s.rcv, f.header.streamSeq);
      var (rcv, act) := ReceiveFrame(s.rcv, f.header.streamSeq);
      var u := Record(s, f, rcv, act);
      AcceptKeeps(p, s, f);
      SameAcks(s, u);
      EmitKeeps(p, u, act == Gap);
      AckSeqIsLargest(u.rcv.window, n);
      SackIsExact(u.rcv.window, i);
    }
  }
}
