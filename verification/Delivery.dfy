/** What reaches the verb handler, for every network behaviour. */
module Delivery {
  import opened Bytes
  import opened FrameCodec
  import opened Dedup
  import opened Session
  import opened Transport
  import opened Reliability

  /** Write, WriteImm, Send and response verbs are never handed up again as duplicates. */
  predicate Once(h: Handed) { h.frame.ext.Some? && !Redelivered(h.frame.ext.value.verb) }

  ghost predicate Increasing(q: seq<nat>) { forall i, j :: 0 <= i < j < |q| ==> q[i] < q[j] }

  /** First-time deliveries and gap arrivals split the seen numbers. */
  ghost predicate SplitInv(s: State) {
    && Increasing(s.firsts)
    && (forall x :: x in s.firsts ==> 1 <= x < s.rcv.window.next)
    && (forall x :: x in s.firsts ==> x !in s.skipped)
    && (forall x: nat :: x >= 1 ==> (Seen(s.rcv.window, x) <==> x in s.firsts || x in s.skipped))
    && 0 !in s.skipped
  }

  ghost predicate HandedInv(s: State) {
    && (forall i :: 0 <= i < |s.handed| ==> Once(s.handed[i]) ==> s.handed[i].sn in s.firsts)
    && (forall i, j :: 0 <= i < j < |s.handed| ==>
          Once(s.handed[i]) && Once(s.handed[j]) ==> s.handed[i].sn < s.handed[j].sn)
    && (forall x :: x in s.firsts ==> exists i :: 0 <= i < |s.handed| && s.handed[i].sn == x)
  }

  lemma {:induction false} RecordSplits(s: State, f: Frame)
    requires WindowInv(s) && SplitInv(s) && f.ext.Some? && f.header.streamSeq >= 1
    ensures var (rcv, act) := ReceiveFrame(s.rcv, f.header.streamSeq);
            SplitInv(Record(s, f, rcv, act))
  {
    hide ReceiveFrame;
    var sn := f.header.streamSeq;
    ReceiveMarks(s.rcv, sn);
    var (rcv, act) := ReceiveFrame(s.rcv, sn);
    var t := Record(s, f, rcv, act);
    assert act == Deliver ==> sn !in s.skipped && Seen(rcv.window, sn);
    assert forall x: nat :: x in t.firsts <==> x in s.firsts || (x == sn && act == Deliver);
    assert act == Deliver ==> sn < rcv.window.next by {
      if act == Deliver { DeliverAdvances(s.rcv, sn); }
    }
    forall i, j | 0 <= i < j < |t.firsts|
      ensures t.firsts[i] < t.firsts[j]
    {
      assert t.firsts[i] in s.firsts;
    }
  }

  lemma {:induction false} DeliverAdvances(r: RecvSide, sn: nat)
    requires Settled(r.window) && r.window.size == 1024 && ReceiveFrame(r, sn).1 == Deliver
    ensures sn < ReceiveFrame(r, sn).0.window.next
  {
    hide Mark;
    MarkAddsExactly(r.window, sn);
    var w := Mark(r.window, sn);
    assert Seen(w, sn) && !Seen(w, w.next);
    assert w.next >= sn;
  }

  lemma {:induction false} RecordHands(s: State, f: Frame)
    requires WindowInv(s) && SplitInv(s) && HandedInv(s) && f.ext.Some? && f.header.streamSeq >= 1
    ensures var (rcv, act) := ReceiveFrame(s.rcv, f.header.streamSeq);
            HandedInv(Record(s, f, rcv, act))
  {
    hide ReceiveFrame;
    var sn := f.header.streamSeq;
    ReceiveMarks(s.rcv, sn);
    var (rcv, act) := ReceiveFrame(s.rcv, sn);
    var t := Record(s, f, rcv, act);
    forall x | x in t.firsts
      ensures exists i :: 0 <= i < |t.handed| && t.handed[i].sn == x
    {
      if x in s.firsts {
        var i :| 0 <= i < |s.handed| && s.handed[i].sn == x;
        assert t.handed[i].sn == x;
      } else {
        assert t.handed[|s.handed|].sn == x;
      }
    }
  }

  ghost predicate SameHistory(s: State, t: State) {
    && t.rcv.window == s.rcv.window && t.firsts == s.firsts && t.skipped == s.skipped && t.handed == s.handed
    && t.sent == s.sent && t.received == s.received && t.repeats == s.repeats
  }

  lemma SameHistoryKeeps(s: State, t: State)
    requires SplitInv(s) && HandedInv(s) && t.rcv.window == s.rcv.window
    requires t.firsts == s.firsts && t.skipped == s.skipped && t.handed == s.handed
    ensures SplitInv(t) && HandedInv(t)
  {
  }

  /** Sending the ACK does not touch the history. */
  lemma AcceptHistory(p: Params, s: State, f: Frame)
    requires f.ext.Some?
    ensures var (rcv, act) := ReceiveFrame(s.rcv, f.header.streamSeq);
            SameHistory(Record(s, f, rcv, act), Accept(p, s, f))
  {
    hide ReceiveFrame, AckFrame, SackBitmap;
  }

  lemma {:induction false} DeliveryRecv(p: Params, s: State, f: Frame)
    requires WindowInv(s) && SplitInv(s) && HandedInv(s) && f.ext.Some? && f.header.streamSeq >= 1
    ensures var t := Accept(p, s, f);
            SplitInv(t) && HandedInv(t) && s.skipped <= t.skipped && s.firsts <= t.firsts
  {
    RecordSplits(s, f);
    RecordHands(s, f);
    AcceptHistory(p, s, f);
    hide ReceiveFrame, Accept, SplitInv, HandedInv;
    var (rcv, act) := ReceiveFrame(s.rcv, f.header.streamSeq);
    SameHistoryKeeps(Record(s, f, rcv, act), Accept(p, s, f));
  }

  lemma {:induction false} DeliveryStep(p: Params, s: State, step: Step)
    requires Proper(p) && WireInv(s) && WindowInv(s) && AckInv(s) && SplitInv(s) && HandedInv(s)
    ensures var t := Apply(p, s, step); SplitInv(t) && HandedInv(t)
    ensures s.skipped <= Apply(p, s, step).skipped && s.firsts <= Apply(p, s, step).firsts
  {
    hide Decode, Accept, SplitInv, HandedInv, WindowInv, AckInv, DoSend, DoTimeout, DoRecvAck, DoRecvData, WireInv;
    if step.RecvData? {
      RecvDataCases(p, s, step.raw);
      if Apply(p, s, step) != s {
        WireNumber(s, step.raw);
        DeliveryRecv(p, s, Decode(step.raw).value);
      }
    } else {
      SenderKeepsReceiver(p, s, step);
      SameHistoryKeeps(s, Apply(p, s, step));
    }
  }

  lemma {:induction false} DeliveryAlways(p: Params, steps: seq<Step>)
    requires Proper(p)
    ensures var s := After(p, steps); SplitInv(s) && HandedInv(s)
  {
    hide Apply;
    if steps != [] {
      var prefix := steps[..|steps| - 1];
      DeliveryAlways(p, prefix);
      Always(p, prefix);
      DeliveryStep(p, After(p, prefix), steps[|steps| - 1]);
    }
  }

  ghost predicate Genuine(s: State, h: Handed) {
    1 <= h.sn <= |s.sent| && Decode(s.sent[h.sn - 1].frame) == Ok(h.frame)
  }

  lemma {:induction false} GenuineRecv(p: Params, s: State, f: Frame, h: Handed)
    requires f.ext.Some? && Genuine(s, Handed(f.header.streamSeq, f)) && h in Accept(p, s, f).handed
    ensures h in s.handed || h == Handed(f.header.streamSeq, f)
    ensures Accept(p, s, f).sent == s.sent
  {
    hide Decode, Genuine;
    AcceptHistory(p, s, f);
    hide Accept, ReceiveFrame;
  }

  lemma SentGrows(p: Params, s: State, step: Step)
    requires !step.RecvData?
    ensures s.sent <= Apply(p, s, step).sent
  {
    hide Decode, AckOfBytes, Patch, Scan, Unacked;
  }

  lemma {:induction false} GenuineStep(p: Params, s: State, step: Step, h: Handed)
    requires WireInv(s) && h in Apply(p, s, step).handed && (h in s.handed ==> Genuine(s, h))
    ensures Genuine(Apply(p, s, step), h)
  {
    hide Decode, Accept, DoSend, DoTimeout, DoRecvAck, DoRecvData, WireInv;
    if step.RecvData? {
      RecvDataCases(p, s, step.raw);
      if Apply(p, s, step) != s {
        WireNumber(s, step.raw);
        assert s.snd.nextSeq == |s.sent| + 1 by { SentCount(s); }
        GenuineRecv(p, s, Decode(step.raw).value, h);
      }
    } else {
      SenderKeepsReceiver(p, s, step);
      SentGrows(p, s, step);
    }
  }

  lemma SentCount(s: State)
    requires WireInv(s)
    ensures s.snd.nextSeq == |s.sent| + 1
  {
  }

  lemma {:induction false} GenuineAlways(p: Params, steps: seq<Step>)
    ensures forall h :: h in After(p, steps).handed ==> Genuine(After(p, steps), h)
  {
    hide Apply, Genuine;
    if steps != [] {
      var prefix := steps[..|steps| - 1];
      GenuineAlways(p, prefix);
      WireAlways(p, prefix);
      forall h | h in After(p, steps).handed
        ensures Genuine(After(p, steps), h)
      {
        GenuineStep(p, After(p, prefix), steps[|steps| - 1], h);
      }
    }
  }

  /** Whatever reaches the handler under one number, however often, is one and the same frame: the one stamped. */
  lemma {:induction false} SameNumberSameFrame(p: Params, steps: seq<Step>, g: Handed, h: Handed)
    requires g in After(p, steps).handed && h in After(p, steps).handed && g.sn == h.sn
    ensures g == h && 1 <= h.sn <= |After(p, steps).sent|
    ensures Decode(After(p, steps).sent[h.sn - 1].frame) == Ok(h.frame)
  {
    hide After, Decode;
    GenuineAlways(p, steps);
    assert Genuine(After(p, steps), g) && Genuine(After(p, steps), h);
  }

  /** At most once and in order: two handler calls for Write, WriteImm or Send frames have increasing numbers,
      whatever the network does. */
  lemma {:induction false} AtMostOnceInOrder(p: Params, steps: seq<Step>, i: nat, j: nat)
    requires Proper(p) && i < j < |After(p, steps).handed|
    requires Once(After(p, steps).handed[i]) && Once(After(p, steps).handed[j])
    ensures After(p, steps).handed[i].sn < After(p, steps).handed[j].sn
  {
    hide After;
    DeliveryAlways(p, steps);
  }

  lemma {:induction false} Extends(p: Params, steps: seq<Step>, more: seq<Step>)
    requires Proper(p)
    ensures After(p, steps).skipped <= After(p, steps + more).skipped
    decreases |more|
  {
    hide Apply;
    if more == [] {
      assert steps + more == steps;
    } else {
      var prefix := steps + more[..|more| - 1];
      assert (steps + more)[..|steps + more| - 1] == prefix;
      Extends(p, steps, more[..|more| - 1]);
      Always(p, prefix);
      DeliveryAlways(p, prefix);
      DeliveryStep(p, After(p, prefix), more[|more| - 1]);
    }
  }

  /** A number first seen past a gap is never handed up for a Write, WriteImm or Send, in any continuation. */
  lemma {:induction false} GapArrivalIsLost(p: Params, steps: seq<Step>, more: seq<Step>, x: nat, i: nat)
    requires Proper(p) && x in After(p, steps).skipped
    requires i < |After(p, steps + more).handed| && Once(After(p, steps + more).handed[i])
    ensures After(p, steps + more).handed[i].sn != x
  {
    hide After;
    Extends(p, steps, more);
    DeliveryAlways(p, steps + more);
  }

  /** Exactly which seen numbers reached the handler on first arrival: those that did not arrive past a gap. */
  lemma {:induction false} DeliveredIffInOrder(p: Params, steps: seq<Step>, x: nat)
    requires Proper(p) && x >= 1 && Seen(After(p, steps).rcv.window, x)
    ensures x in After(p, steps).firsts <==> x !in After(p, steps).skipped
    ensures x in After(p, steps).firsts ==>
              exists i :: 0 <= i < |After(p, steps).handed| && After(p, steps).handed[i].sn == x
  {
    hide After;
    DeliveryAlways(p, steps);
  }

  function Upto(n: nat): seq<nat> { seq(n, i requires 0 <= i < n => i + 1) }

  lemma {:induction false} UptoHas(n: nat)
    ensures forall x: nat :: x in Upto(n) <==> 1 <= x <= n
  {
    forall x: nat
      ensures x in Upto(n) <==> 1 <= x <= n
    {
      if 1 <= x <= n { assert Upto(n)[x - 1] == x; }
    }
  }

  lemma {:induction false} CoverAt(q: seq<nat>, n: nat, i: nat)
    requires Increasing(q) && i < |q| && forall x :: x in q <==> 1 <= x <= n
    ensures q[i] == i + 1
    decreases i
  {
    assert q[i] in q;
    if i > 0 { CoverAt(q, n, i - 1); }
    assert i + 1 in q;
    var k :| 0 <= k < |q| && q[k] == i + 1;
  }

  lemma {:induction false} IncreasingCover(q: seq<nat>, n: nat)
    requires Increasing(q) && forall x :: x in q <==> 1 <= x <= n
    ensures q == Upto(n)
  {
    forall i | 0 <= i < |q|
      ensures q[i] == i + 1
    {
      CoverAt(q, n, i);
    }
    if |q| > 0 { assert q[|q| - 1] in q; }
    if n > 0 { assert n in q; }
  }

  /** The delivered history is exactly 1..next_expected-1, with nothing held past a gap, if and only if every
      first copy arrived in order. */
  lemma {:induction false} HistoryExactIffInOrder(p: Params, steps: seq<Step>)
    requires Proper(p)
    ensures var s := After(p, steps);
            s.firsts == Upto(AckSeqOf(s.rcv.window)) && s.rcv.window.ahead == {} <==> s.skipped == {}
  {
    hide After, Upto;
    Always(p, steps);
    DeliveryAlways(p, steps);
    var s := After(p, steps);
    var w := s.rcv.window;
    assert forall a :: a in w.ahead ==> Seen(w, a) && a !in s.firsts;
    assert forall x :: x in s.skipped ==> Seen(w, x);
    UptoHas(w.next - 1);
    if s.skipped == {} {
      assert forall x: nat :: 1 <= x < w.next ==> Seen(w, x);
      IncreasingCover(s.firsts, w.next - 1);
    }
  }

  // ---- an acknowledged write that is never executed ----

  ghost predicate IsWrite(b: seq<byte>) {
    Decode(b).Ok? && Decode(b).value.ext.Some? && Decode(b).value.ext.value.verb == Write
  }

  /** Two writes, the second overtaking the first, the first received twice, its ACK returned. */
  function OvertakingRun(b1: seq<byte>, b2: seq<byte>): seq<Step> {
    [SendFrame(b1, true, 0, 0), SendFrame(b2, true, 0, 0), RecvData(Patch(b2, 2)), RecvData(Patch(b1, 1)),
     RecvData(Patch(b1, 1)), RecvAck(1)]
  }

  lemma {:induction false} PatchedWrite(b: seq<byte>, sn: nat)
    requires IsWrite(b) && 1 <= sn < U64
    ensures IsWrite(Patch(b, sn)) && Decode(Patch(b, sn)).value.header.streamSeq == sn
  {
    assert Pow256(8) == U64;
    PatchCommutes(b, sn);
  }

  lemma {:induction false} AfterSnoc(p: Params, steps: seq<Step>, st: Step)
    ensures After(p, steps + [st]) == Apply(p, After(p, steps), st)
  {
    assert (steps + [st])[..|steps + [st]| - 1] == steps;
  }

  lemma {:induction false} BothSent(p: Params, b1: seq<byte>, b2: seq<byte>)
    requires p.credits >= 2
    ensures var s := After(p, [SendFrame(b1, true, 0, 0), SendFrame(b2, true, 0, 0)]);
            s == Init(p).(snd := SendSide(true, 3, p.credits - 2,
                                          [Entry(1, Patch(b1, 1), 0, 0, true, 0),
                                           Entry(2, Patch(b2, 2), 0, 0, true, 0)], 0, 0),
                          wire := {Patch(b1, 1), Patch(b2, 2)},
                          sent := [Sent(Patch(b1, 1), true, 0), Sent(Patch(b2, 2), true, 0)],
                          tx := [Tx(1, Patch(b1, 1)), Tx(2, Patch(b2, 2))])
  {
    hide Patch;
    AfterSnoc(p, [], SendFrame(b1, true, 0, 0));
    AfterSnoc(p, [SendFrame(b1, true, 0, 0)], SendFrame(b2, true, 0, 0));
    assert [SendFrame(b1, true, 0, 0)] + [SendFrame(b2, true, 0, 0)]
           == [SendFrame(b1, true, 0, 0), SendFrame(b2, true, 0, 0)];
    assert [] + [SendFrame(b1, true, 0, 0)] == [SendFrame(b1, true, 0, 0)];
  }

  /** The three receptions: past a gap, filling the gap, and a duplicate. */
  lemma {:induction false} GapThenFill(r: RecvSide)
    requires r.window == Window(1, {}, 1024) && r.toGrant == r.sinceAck == 0
    ensures ReceiveFrame(r, 2) == (r.(window := Window(1, {2}, 1024), toGrant := 1, sinceAck := 1), Gap)
    ensures ReceiveFrame(r.(window := Window(1, {2}, 1024)), 1)
            == (r.(window := Window(3, {}, 1024), toGrant := 1, sinceAck := 1), Deliver)
    ensures ReceiveFrame(r.(window := Window(3, {}, 1024), toGrant := 1, sinceAck := 1), 1)
            == (r.(window := Window(3, {}, 1024), toGrant := 2, sinceAck := 2), Duplicate)
  {
    var v := Window(1, {2} + {1}, 1024);
    assert v.ahead - {1} == {2} && {2} - {2} == {};
    assert Advance(v) == Advance(Window(2, {2}, 1024));
    assert Advance(Window(2, {2}, 1024)) == Advance(Window(3, {}, 1024));
    assert {} + {2} == {2};
  }

  /** One reception of a Write: either nothing but the receiver moves, or an ACK carrying its state goes out. */
  lemma {:induction false} ReceiveWrite(p: Params, steps: seq<Step>, raw: seq<byte>)
    requires Proper(p) && IsWrite(raw)
    requires var s := After(p, steps); raw in s.wire && s.rcvActive && s.rcv.toGrant < 100
    ensures var s := After(p, steps);
            var t := After(p, steps + [RecvData(raw)]);
            var sn := Decode(raw).value.header.streamSeq;
            var (rcv, act) := ReceiveFrame(s.rcv, sn);
            && t.snd == s.snd && t.sent == s.sent && t.wire == s.wire && t.rcvActive
            && t.rcv.window == rcv.window
            && (act == Gap ==> t.skipped == s.skipped + {sn})
            && (act != Gap ==> t.skipped == s.skipped)
            && (act == Gap || act == Duplicate ==>
                  && t.rcv == rcv.(toGrant := 0, sinceAck := 0) && |t.acks| == |s.acks| + 1
                  && AckOfBytes(t.acks[|s.acks|]).Some?
                  && AckOfBytes(t.acks[|s.acks|]).value.ackSeq == AckSeqOf(rcv.window))
            && (act == Deliver && !ShouldSendAck(rcv) ==> t.rcv == rcv && t.acks == s.acks)
  {
    hide After, Decode, AckOfBytes, ReceiveFrame, SackBitmap, AckFrame;
    Always(p, steps);
    AfterSnoc(p, steps, RecvData(raw));
    var s, f := After(p, steps), Decode(raw).value;
    WireNumber(s, raw);
    WireRecvData(p, s, raw);
    ReceiveMarks(s.rcv, f.header.streamSeq);
    var (rcv, act) := ReceiveFrame(s.rcv, f.header.streamSeq);
    var u := Record(s, f, rcv, act);
    SameAcks(s, u);
    assert DoRecvData(p, s, raw) == Accept(p, s, f);
    assert WindowInv(u);
    EmitKeeps(p, u, act == Gap);
  }

  /** Both writes are dropped as acknowledged, yet the second does not reach the handler at position i. */
  ghost predicate AckedNotHanded(s: State, t: State, i: nat) {
    && s.snd.active && s.snd.queue == [] && |s.sent| == 2 && s.sent[1].fireAndForget && 2 in s.skipped
    && (i < |t.handed| && Once(t.handed[i]) ==> t.handed[i].sn != 2)
  }

  /** There are byte strings that are writes. */
  lemma {:induction false} SomeWrite() returns (b: seq<byte>)
    ensures IsWrite(b)
  {
    var h := FrameHeader(MAGIC, VERSION, Data, 0, 0, 0, 0, 0, 0, 0);
    var f := Frame(h, Some(ExtHeader(Write, 0, 0, 0, 0, 0, 0, 0, 0, 0, None)), []);
    assert Sized(f) && Consistent(f);
    b := Encode(f);
    RoundTrip(f);
  }

  /** Two actual writes whose run ends with the sender having dropped both as acknowledged, although the second never
      reaches the handler in any continuation. */
  lemma {:induction false} AcknowledgedButLost(p: Params) returns (b1: seq<byte>, b2: seq<byte>)
    requires Proper(p) && p.credits >= 2
    ensures IsWrite(b1) && IsWrite(b2)
    ensures forall more, i ::
              AckedNotHanded(After(p, OvertakingRun(b1, b2)), After(p, OvertakingRun(b1, b2) + more), i)
  {
    hide IsWrite, AckedNotHanded, After;
    b1 := SomeWrite();
    b2 := b1;
    forall more, i
      ensures AckedNotHanded(After(p, OvertakingRun(b1, b2)), After(p, OvertakingRun(b1, b2) + more), i)
    {
      LosesSecond(p, b1, b2, more, i);
    }
  }

  /** The same whatever the two writes are. */
  lemma {:induction false} LosesSecond(p: Params, b1: seq<byte>, b2: seq<byte>, more: seq<Step>, i: nat)
    requires Proper(p) && p.credits >= 2 && IsWrite(b1) && IsWrite(b2)
    ensures AckedNotHanded(After(p, OvertakingRun(b1, b2)), After(p, OvertakingRun(b1, b2) + more), i)
  {
    hide After, Decode, AckOfBytes, ReceiveFrame, Patch;
    var p1, p2 := Patch(b1, 1), Patch(b2, 2);
    var r2 := [SendFrame(b1, true, 0, 0), SendFrame(b2, true, 0, 0)];
    BothSent(p, b1, b2);
    PatchedWrite(b1, 1);
    PatchedWrite(b2, 2);
    GapThenFill(Init(p).rcv);
    ReceiveWrite(p, r2, p2);
    var r3 := r2 + [RecvData(p2)];
    ReceiveWrite(p, r3, p1);
    var r4 := r3 + [RecvData(p1)];
    ReceiveWrite(p, r4, p1);
    var r5 := r4 + [RecvData(p1)];
    AfterSnoc(p, r5, RecvAck(1));
    assert r5 + [RecvAck(1)] == OvertakingRun(b1, b2);
    DropsBoth(After(p, r5).snd, AckOfBytes(After(p, r5).acks[1]).value);
    var t := After(p, OvertakingRun(b1, b2) + more);
    if i < |t.handed| && Once(t.handed[i]) {
      GapArrivalIsLost(p, OvertakingRun(b1, b2), more, 2, i);
    }
  }

  lemma {:induction false} DropsBoth(s: SendSide, a: AckPayload)
    requires s.active && |s.queue| == 2 && s.lastAck == 0 && a.ackSeq == 2
    requires Acked(s.queue[0], 2) && Acked(s.queue[1], 2)
    ensures var (t, resend) := FastRetransmit(s, a);
            resend == None && ProcessAck(t, a).queue == [] && ProcessAck(t, a).active
  {
    assert s.queue[..1][..0] == [];
    assert Unacked(s.queue[..1], 2) == [];
  }
}
