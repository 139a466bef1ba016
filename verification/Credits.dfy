/** Credit accounting over whole runs. */
module Credits {
  import opened Bytes
  import opened FrameCodec
  import opened Dedup
  import opened Session
  import opened Transport
  import opened Reliability
  import opened Delivery

  function GrantOf(ack: seq<byte>): nat {
    match AckOfBytes(ack)
    case Some(a) => a.grant
    case None => 0
  }

  /** Credits in ACKs that were emitted but have not come back: in flight or lost. */
  ghost function Outstanding(acks: seq<seq<byte>>, returned: set<nat>): nat {
    if acks == [] then 0
    else Outstanding(acks[..|acks| - 1], returned) + if |acks| - 1 in returned then 0 else GrantOf(acks[|acks| - 1])
  }

  lemma {:induction false} OutstandingReturn(acks: seq<seq<byte>>, returned: set<nat>, i: nat)
    requires i < |acks|
    ensures Outstanding(acks, returned + {i})
              == Outstanding(acks, returned) - if i in returned then 0 else GrantOf(acks[i])
    decreases |acks|
  {
    hide GrantOf;
    var k := |acks| - 1;
    if i < k {
      OutstandingReturn(acks[..k], returned, i);
    } else {
      OutstandingBeyond(acks[..k], returned, k);
    }
  }

  lemma {:induction false} OutstandingBeyond(acks: seq<seq<byte>>, returned: set<nat>, i: nat)
    requires i >= |acks|
    ensures Outstanding(acks, returned + {i}) == Outstanding(acks, returned)
  {
    hide GrantOf;
    if acks != [] { OutstandingBeyond(acks[..|acks| - 1], returned, i); }
  }

  /** Nothing is created or lost: credits held, pending, in ACKs not returned, clipped at the u32 maximum and spent
      on frames balance the initial credits, one per received frame, application grants, and whatever the network
      credited again by duplicating ACKs. */
  ghost predicate Ledger(p: Params, s: State) {
    && (forall i :: i in s.returned ==> i < |s.acks|)
    && s.snd.credits <= U32_MAX
    && s.snd.credits + s.rcv.toGrant + Outstanding(s.acks, s.returned) + s.clipped + |s.sent|
       == p.credits + s.received + s.appGrants + s.dupGrants
  }

  lemma {:induction false} LedgerEmit(p: Params, s: State, gap: bool)
    requires Proper(p) && WindowInv(s) && AckInv(s) && s.snd.nextSeq < U64 && Ledger(p, s)
    ensures Ledger(p, EmitAck(p, s, gap))
  {
    hide AckOfBytes, SackBitmap;
    var t := EmitAck(p, s, gap);
    EmitKeeps(p, s, gap);
    var n := |s.acks|;
    assert t.acks[..n] == s.acks && n !in t.returned;
    assert GrantOf(t.acks[n]) == s.rcv.toGrant;
  }

  lemma {:induction false} LedgerRecvData(p: Params, s: State, raw: seq<byte>)
    requires Proper(p) && WireInv(s) && WindowInv(s) && AckInv(s) && Ledger(p, s)
    ensures Ledger(p, DoRecvData(p, s, raw))
  {
    hide Decode, ReceiveFrame, EmitAck, Outstanding;
    RecvDataCases(p, s, raw);
    if DoRecvData(p, s, raw) != s {
      var f := Decode(raw).value;
      WireNumber(s, raw);
      ReceiveMarks(s.rcv, f.header.streamSeq);
      var (rcv, act) := ReceiveFrame(s.rcv, f.header.streamSeq);
      var u := Record(s, f, rcv, act);
      SameAcks(s, u);
      assert WindowInv(u);
      LedgerEmit(p, u, act == Gap);
    }
  }

  lemma {:induction false} LedgerStep(p: Params, s: State, step: Step)
    requires Proper(p) && WireInv(s) && WindowInv(s) && AckInv(s) && Ledger(p, s)
    ensures Ledger(p, Apply(p, s, step))
  {
    hide Decode, Patch, AckOfBytes, Unacked, RemoveFirst, Scan, DoRecvData, Outstanding;
    match step
    case RecvData(raw) => LedgerRecvData(p, s, raw);
    case RecvAck(i) =>
      if i < |s.acks| { OutstandingReturn(s.acks, s.returned, i); }
    case _ =>
  }

  /** Conservation in every run, whatever the network does. */
  lemma {:induction false} CreditsConserved(p: Params, steps: seq<Step>)
    requires Proper(p)
    ensures Ledger(p, After(p, steps))
  {
    hide Apply, Ledger;
    if steps != [] {
      var prefix := steps[..|steps| - 1];
      CreditsConserved(p, prefix);
      Always(p, prefix);
      LedgerStep(p, After(p, prefix), steps[|steps| - 1]);
    } else {
      LedgerInit(p);
    }
  }

  lemma {:induction false} LedgerInit(p: Params)
    requires Proper(p)
    ensures Ledger(p, Init(p))
  {}

  // ---- distinct frames ----

  /** Every reception is a first delivery, a first arrival past a gap, or a repeat. */
  ghost predicate Tally(s: State) { s.received == |s.firsts| + |s.skipped| + s.repeats }

  lemma {:induction false} TallyRecv(p: Params, s: State, f: Frame)
    requires WindowInv(s) && SplitInv(s) && Tally(s) && f.ext.Some? && f.header.streamSeq >= 1
    ensures Tally(Accept(p, s, f))
  {
    hide ReceiveFrame, Accept;
    var sn := f.header.streamSeq;
    ReceiveMarks(s.rcv, sn);
    AcceptHistory(p, s, f);
    assert !Seen(s.rcv.window, sn) ==> sn !in s.skipped;
  }

  lemma {:induction false} TallyAlways(p: Params, steps: seq<Step>)
    requires Proper(p)
    ensures Tally(After(p, steps))
  {
    hide Decode, Accept, DoSend, DoTimeout, DoRecvAck, DoRecvData, WindowInv, AckInv, SplitInv, HandedInv,
         QueueInv, WireInv;
    if steps != [] {
      var prefix, step := steps[..|steps| - 1], steps[|steps| - 1];
      var s := After(p, prefix);
      TallyAlways(p, prefix);
      Always(p, prefix);
      DeliveryAlways(p, prefix);
      if step.RecvData? {
        RecvDataCases(p, s, step.raw);
        if DoRecvData(p, s, step.raw) != s {
          WireNumber(s, step.raw);
          TallyRecv(p, s, Decode(step.raw).value);
        }
      } else {
        SenderKeepsReceiver(p, s, step);
      }
    }
  }

  function Numbers(n: nat): set<nat> { if n == 0 then {} else Numbers(n - 1) + {n} }

  lemma {:induction false} NumbersSize(n: nat)
    ensures |Numbers(n)| == n && forall x: nat :: x in Numbers(n) <==> 1 <= x <= n
  {
    if n > 0 { NumbersSize(n - 1); }
  }

  function Elements(q: seq<nat>): set<nat> { if q == [] then {} else Elements(q[..|q| - 1]) + {q[|q| - 1]} }

  lemma {:induction false} ElementsAre(q: seq<nat>)
    ensures forall x :: x in Elements(q) <==> x in q
  {
    if q != [] {
      ElementsAre(q[..|q| - 1]);
      assert q == q[..|q| - 1] + [q[|q| - 1]];
    }
  }

  lemma {:induction false} IncreasingSize(q: seq<nat>)
    requires Increasing(q)
    ensures |Elements(q)| == |q|
  {
    if q != [] {
      var k := |q| - 1;
      IncreasingSize(q[..k]);
      ElementsAre(q[..k]);
      assert q[k] !in q[..k];
    }
  }

  /** Frames that were stamped and never seen by the receiver. */
  ghost function Unseen(s: State): set<nat> { set x: nat | 1 <= x <= |s.sent| && !Seen(s.rcv.window, x) }

  /** Numbers 1..n split into a set, an increasing list and another set. */
  lemma {:induction false} SplitSize(n: nat, u: set<nat>, q: seq<nat>, k: set<nat>)
    requires Increasing(q) && u * k == {} && forall x :: x in q ==> x !in u && x !in k
    requires forall x: nat :: 1 <= x <= n <==> x in u || x in q || x in k
    ensures |u| == n - |q| - |k|
  {
    NumbersSize(n);
    ElementsAre(q);
    IncreasingSize(q);
    hide Numbers, Elements, Increasing;
    assert Elements(q) * k == {} && u * (Elements(q) + k) == {};
    assert Numbers(n) == u + (Elements(q) + k);
  }

  lemma {:induction false} UnseenSize(s: State)
    requires WindowInv(s) && SplitInv(s) && s.snd.nextSeq == |s.sent| + 1
    ensures |Unseen(s)| == |s.sent| - |s.firsts| - |s.skipped|
  {
    hide Settled, Increasing, Seen;
    forall x: nat
      ensures 1 <= x <= |s.sent| <==> x in Unseen(s) || x in s.firsts || x in s.skipped
      ensures x in s.firsts || x in s.skipped ==> x !in Unseen(s)
    {
      if x >= 1 { assert Seen(s.rcv.window, x) <==> x in s.firsts || x in s.skipped; }
    }
    assert Unseen(s) * s.skipped == {};
    SplitSize(|s.sent|, Unseen(s), s.firsts, s.skipped);
  }

  /** Credits beyond the initial ones that entered circulation. */
  function Extra(s: State): nat { s.appGrants + s.dupGrants + s.repeats }

  /** Credits on their way back to the sender, or lost on it. */
  ghost function Pending(s: State): nat { s.rcv.toGrant + Outstanding(s.acks, s.returned) + s.clipped }

  /** The ledger over distinct frames: a frame not yet seen costs one credit, and every repeated reception returns a
      credit that was not spent. */
  lemma {:induction false} FramesConserved(p: Params, steps: seq<Step>)
    requires Proper(p)
    ensures var s := After(p, steps); |Unseen(s)| + s.snd.credits + Pending(s) == p.credits + Extra(s)
  {
    hide After, Unseen, Outstanding;
    CreditsConserved(p, steps);
    TallyAlways(p, steps);
    Always(p, steps);
    DeliveryAlways(p, steps);
    UnseenSize(After(p, steps));
  }

  /** While the application grants nothing, no ACK is duplicated and no data frame is received twice, the frames whose
      credit has not come back, unseen or with the credit on its way, never exceed the initial credits. */
  lemma {:induction false} UnreturnedCapped(p: Params, steps: seq<Step>)
    requires Proper(p)
    ensures var s := After(p, steps); Extra(s) == 0 ==> |Unseen(s)| + Pending(s) <= p.credits
  {
    hide After, Unseen, Outstanding;
    FramesConserved(p, steps);
  }

  ghost predicate OnlySends(steps: seq<Step>) { forall i :: 0 <= i < |steps| ==> steps[i].SendFrame? }

  lemma {:induction false} SendsKeep(p: Params, steps: seq<Step>, more: seq<Step>)
    requires OnlySends(more)
    ensures var s, t := After(p, steps), After(p, steps + more); Pending(t) == Pending(s) && Extra(t) == Extra(s)
  {
    hide Outstanding, Patch;
    if more == [] {
      assert steps + more == steps;
    } else {
      SendsKeep(p, steps, more[..|more| - 1]);
      assert (steps + more)[..|steps + more| - 1] == steps + more[..|more| - 1];
      assert (steps + more)[|steps + more| - 1] == more[|more| - 1];
    }
  }

  function Sends(n: nat): seq<Step> { seq(n, _ => SendFrame([], true, 0, 0)) }

  lemma SendOne(s: State)
    requires s.snd.active && s.snd.credits > 0 && s.snd.nextSeq + 1 < U64
    ensures var t := DoSend(s, [], true, 0, 0);
            t.snd.active && t.snd.credits == s.snd.credits - 1 && t.snd.nextSeq == s.snd.nextSeq + 1
  {
    hide Patch;
  }

  lemma {:induction false} SendsSpend(p: Params, steps: seq<Step>, n: nat)
    requires var s := After(p, steps); s.snd.active && n <= s.snd.credits && s.snd.nextSeq + n < U64
    ensures var s, t := After(p, steps), After(p, steps + Sends(n));
            t.snd.active && t.snd.credits == s.snd.credits - n && t.snd.nextSeq == s.snd.nextSeq + n
  {
    hide After, DoSend;
    if n == 0 {
      assert steps + Sends(0) == steps;
    } else {
      SendsSpend(p, steps, n - 1);
      SendOne(After(p, steps + Sends(n - 1)));
      AfterSnoc(p, steps + Sends(n - 1), SendFrame([], true, 0, 0));
      assert steps + Sends(n) == steps + Sends(n - 1) + [SendFrame([], true, 0, 0)];
    }
  }

  /** Exactly when the cap can be broken: with an active sender, further sends can put more unseen frames on the wire
      than there were initial credits if and only if more extra credits entered circulation than are pending. */
  lemma {:induction false} CapExceededIff(p: Params, steps: seq<Step>)
    requires Proper(p)
    requires var s := After(p, steps); s.snd.active && s.snd.nextSeq + s.snd.credits < U64
    ensures var s := After(p, steps);
            (exists more :: OnlySends(more) && |Unseen(After(p, steps + more))| > p.credits) <==> Extra(s) > Pending(s)
  {
    hide After, Unseen, Pending, Extra;
    var s := After(p, steps);
    if Extra(s) > Pending(s) {
      var more := Sends(s.snd.credits);
      SendsSpend(p, steps, s.snd.credits);
      SendsKeep(p, steps, more);
      FramesConserved(p, steps + more);
      assert OnlySends(more) && |Unseen(After(p, steps + more))| > p.credits;
    } else {
      forall more | OnlySends(more)
        ensures |Unseen(After(p, steps + more))| <= p.credits
      {
        SendsKeep(p, steps, more);
        FramesConserved(p, steps + more);
      }
    }
  }

  // ---- a repeated frame buys a credit ----

  /** One write sent, received twice, its ACK returned. */
  function TwiceReceived(b: seq<byte>): seq<Step> {
    [SendFrame(b, true, 0, 0), RecvData(Patch(b, 1)), RecvData(Patch(b, 1)), RecvAck(0)]
  }

  lemma {:induction false} AcceptLedger(p: Params, s: State, f: Frame)
    requires f.ext.Some?
    ensures var t := Accept(p, s, f);
            && t.returned == s.returned && t.appGrants == s.appGrants && t.dupGrants == s.dupGrants
            && t.clipped == s.clipped
            && t.repeats == s.repeats +
                  if ReceiveFrame(s.rcv, f.header.streamSeq).1 in {Duplicate, Beyond} then 1 else 0
  {
    hide ReceiveFrame, BuildAck, AckFrame;
  }

  lemma {:induction false} WriteSent(p: Params, b: seq<byte>)
    requires p.credits >= 1
    ensures var s := After(p, [SendFrame(b, true, 0, 0)]);
            s == Init(p).(snd := SendSide(true, 2, p.credits - 1, [Entry(1, Patch(b, 1), 0, 0, true, 0)], 0, 0),
                          wire := {Patch(b, 1)}, sent := [Sent(Patch(b, 1), true, 0)], tx := [Tx(1, Patch(b, 1))])
  {
    hide Patch;
    AfterSnoc(p, [], SendFrame(b, true, 0, 0));
    assert [] + [SendFrame(b, true, 0, 0)] == [SendFrame(b, true, 0, 0)];
  }

  lemma {:induction false} FirstThenRepeat(r: RecvSide)
    requires r.window == Window(1, {}, 1024) && r.toGrant == r.sinceAck == 0
    ensures ReceiveFrame(r, 1) == (r.(window := Window(2, {}, 1024), toGrant := 1, sinceAck := 1), Deliver)
    ensures ReceiveFrame(r.(window := Window(2, {}, 1024), toGrant := 1, sinceAck := 1), 1)
            == (r.(window := Window(2, {}, 1024), toGrant := 2, sinceAck := 2), Duplicate)
  {
    var v := Window(1, {} + {1}, 1024);
    assert v.ahead - {1} == {};
    assert Advance(v) == Advance(Window(2, {}, 1024));
  }

  /** The state just before the ACK of the doubly received write returns. */
  lemma {:induction false} BeforeReturn(p: Params, b: seq<byte>)
    requires Proper(p) && p.credits >= 1 && IsWrite(b)
    ensures var s := After(p, TwiceReceived(b)[..3]);
            && s.snd == SendSide(true, 2, p.credits - 1, [Entry(1, Patch(b, 1), 0, 0, true, 0)], 0, 0)
            && |s.sent| == 1 && s.rcv.window == Window(2, {}, 1024) && s.rcv.toGrant == 0 && |s.acks| == 1
            && AckOfBytes(s.acks[0]).Some? && s.returned == {}
            && s.appGrants == s.dupGrants == s.clipped == 0 && s.repeats == 1
  {
    hide After, Decode, AckOfBytes, ReceiveFrame, Patch, Accept;
    var p1, r1 := Patch(b, 1), [SendFrame(b, true, 0, 0)];
    WriteSent(p, b);
    PatchedWrite(b, 1);
    FirstThenRepeat(Init(p).rcv);
    ReceiveWrite(p, r1, p1);
    WriteAccepted(p, r1, p1);
    var r2 := r1 + [RecvData(p1)];
    ReceiveWrite(p, r2, p1);
    WriteAccepted(p, r2, p1);
    assert TwiceReceived(b)[..3] == r2 + [RecvData(p1)];
  }

  lemma {:induction false} WriteAccepted(p: Params, steps: seq<Step>, raw: seq<byte>)
    requires Proper(p) && IsWrite(raw)
    requires var s := After(p, steps); raw in s.wire && s.rcvActive && s.rcv.toGrant < 100
    ensures var s := After(p, steps);
            var t := After(p, steps + [RecvData(raw)]);
            var act := ReceiveFrame(s.rcv, Decode(raw).value.header.streamSeq).1;
            && t.returned == s.returned && t.appGrants == s.appGrants && t.dupGrants == s.dupGrants
            && t.clipped == s.clipped && t.repeats == s.repeats + if act in {Duplicate, Beyond} then 1 else 0
  {
    hide After, Decode, ReceiveFrame, Accept;
    var s := After(p, steps);
    Always(p, steps);
    AfterSnoc(p, steps, RecvData(raw));
    WireNumber(s, raw);
    AcceptLedger(p, s, Decode(raw).value);
  }

  lemma {:induction false} AckReturns(s: State)
    requires |s.acks| == 1 && AckOfBytes(s.acks[0]).Some? && s.returned == {} && s.snd.active
    requires s.snd.credits + GrantOf(s.acks[0]) <= U32_MAX
    ensures var t := DoRecvAck(s, 0);
            && t.snd.active && t.snd.nextSeq == s.snd.nextSeq && t.snd.credits == s.snd.credits + GrantOf(s.acks[0])
            && t.rcv == s.rcv && Outstanding(t.acks, t.returned) == 0 && Outstanding(s.acks, {}) == GrantOf(s.acks[0])
            && t.clipped == s.clipped && Extra(t) == Extra(s)
  {
    hide AckOfBytes, Unacked;
    assert s.acks[..0] == [];
    assert {} + {0} == {0};
  }

  /** The cap is broken without any duplicated ACK or application grant: a frame received twice returns two credits, and
      the sender can then have more frames unseen than it was given credits. */
  lemma {:induction false} RepeatBuysCredit(p: Params) returns (steps: seq<Step>)
    requires Proper(p) && 1 <= p.credits < U32_MAX
    ensures var s := After(p, steps); s.appGrants == s.dupGrants == 0 && |Unseen(s)| > p.credits
  {
    hide After, AckOfBytes, IsWrite, Unseen, Outstanding;
    var b := SomeWrite();
    var r3 := TwiceReceived(b)[..3];
    BeforeReturn(p, b);
    var s := After(p, r3);
    FramesConserved(p, r3);
    AfterSnoc(p, r3, RecvAck(0));
    assert r3 + [RecvAck(0)] == TwiceReceived(b);
    UnseenNone(s);
    GrantIsOutstanding(s);
    AckReturns(s);
    CapExceededIff(p, TwiceReceived(b));
    var more :| OnlySends(more) && |Unseen(After(p, TwiceReceived(b) + more))| > p.credits;
    steps := TwiceReceived(b) + more;
    SendsGrantNothing(p, TwiceReceived(b), more);
  }

  lemma GrantIsOutstanding(s: State)
    requires |s.acks| == 1 && s.returned == {}
    ensures Outstanding(s.acks, s.returned) == GrantOf(s.acks[0])
  {
    assert s.acks[..0] == [];
  }

  lemma UnseenNone(s: State)
    requires |s.sent| == 1 && s.rcv.window == Window(2, {}, 1024)
    ensures Unseen(s) == {}
  {
  }

  lemma {:induction false} SendsGrantNothing(p: Params, steps: seq<Step>, more: seq<Step>)
    requires OnlySends(more)
    ensures var s, t := After(p, steps), After(p, steps + more);
            t.appGrants == s.appGrants && t.dupGrants == s.dupGrants
  {
    hide Patch;
    if more == [] {
      assert steps + more == steps;
    } else {
      SendsGrantNothing(p, steps, more[..|more| - 1]);
      assert (steps + more)[..|steps + more| - 1] == steps + more[..|more| - 1];
      assert (steps + more)[|steps + more| - 1] == more[|more| - 1];
    }
  }

  /** Saturation clips nothing while the credits ever put into circulation fit a u32. */
  lemma {:induction false} NoClipping(p: Params, steps: seq<Step>)
    requires Proper(p)
    ensures var s := After(p, steps);
            p.credits + s.received + s.appGrants + s.dupGrants <= U32_MAX ==> s.clipped == 0
  {
    hide Apply;
    if steps != [] {
      var prefix := steps[..|steps| - 1];
      NoClipping(p, prefix);
      CreditsConserved(p, steps);
      CreditsConserved(p, prefix);
      ClipStep(p, After(p, prefix), steps[|steps| - 1]);
    }
  }

  lemma {:induction false} ClipStep(p: Params, s: State, step: Step)
    requires Ledger(p, s)
    ensures var t := Apply(p, s, step);
            && t.received >= s.received && t.appGrants >= s.appGrants && t.dupGrants >= s.dupGrants
            && (s.clipped == 0 && p.credits + t.received + t.appGrants + t.dupGrants <= U32_MAX ==> t.clipped == 0)
  {
    hide Decode, Patch, AckOfBytes, Unacked, RemoveFirst, Scan, Outstanding, ReceiveFrame, BuildAck;
    if step.RecvAck? && step.i < |s.acks| && step.i !in s.returned {
      OutstandingHas(s.acks, s.returned, step.i);
    }
  }

  lemma {:induction false} OutstandingHas(acks: seq<seq<byte>>, returned: set<nat>, i: nat)
    requires i < |acks| && i !in returned
    ensures Outstanding(acks, returned) >= GrantOf(acks[i])
  {
    hide GrantOf;
    if i < |acks| - 1 { OutstandingHas(acks[..|acks| - 1], returned, i); }
  }
}
