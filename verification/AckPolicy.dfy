/** When the receiver acknowledges, what it hands up, and when the sender resends before a timeout. All laws are about
    what is observable: the ACKs on the wire, the numbers seen, the counts pending. */
module AckPolicy {
  import opened Bytes
  import opened FrameCodec
  import opened Dedup
  import opened Session
  import opened Transport
  import opened Reliability

  // ---- one reception ----

  /** What a live session does with a sequenced frame. Nothing is answered past the window. Within it the ACK is
      immediate for a repeat and for a frame past a gap, which alone carries a SACK; a frame in order is acknowledged
      once 8 receptions or 8 credits are pending. A frame goes up the first time if it is in order, and again only if it
      asks for an answer: a read or an atomic. */
  ghost predicate Answered(s: State, t: State, f: Frame)
    requires f.ext.Some?
  {
    var sn, verb := f.header.streamSeq, f.ext.value.verb;
    var next := s.rcv.window.next;
    var repeat, inOrder := Seen(s.rcv.window, sn), sn == next;
    if sn >= next + 1024 then
      && t.acks == s.acks && t.handed == s.handed && t.rcv.window == s.rcv.window
      && t.rcv.sinceAck == s.rcv.sinceAck + 1 && t.rcv.toGrant == s.rcv.toGrant + 1
    else
      && t.handed == s.handed + (if inOrder || (repeat && (verb == ReadReq || verb == AtomicCas || verb == AtomicFaa))
                                 then [Handed(sn, f)] else [])
      && if inOrder && s.rcv.sinceAck < 7 && s.rcv.toGrant < 7 then
           t.acks == s.acks && t.rcv.sinceAck == s.rcv.sinceAck + 1 && t.rcv.toGrant == s.rcv.toGrant + 1
         else
           && |t.acks| == |s.acks| + 1 && t.acks[..|s.acks|] == s.acks && t.rcv.sinceAck == 0 && t.rcv.toGrant == 0
           && var a := AckOfBytes(t.acks[|s.acks|]);
              a.Some? && a.value.grant == s.rcv.toGrant + 1 && (a.value.sack.Some? <==> !repeat && !inOrder)
  }

  lemma {:induction false} ReceptionAnswered(p: Params, s: State, f: Frame)
    requires Proper(p) && WindowInv(s) && AckInv(s) && s.snd.nextSeq < U64
    requires f.ext.Some? && 1 <= f.header.streamSeq < s.snd.nextSeq && s.rcv.toGrant + 1 < U32
    ensures Answered(s, Accept(p, s, f), f)
    ensures Accept(p, s, f).received == s.received + 1
  {
    hide AckOfBytes, SackBitmap, Mark;
    CheckClassifies(s.rcv.window, f.header.streamSeq);
    var (rcv, act) := ReceiveFrame(s.rcv, f.header.streamSeq);
    ReceiveMarks(s.rcv, f.header.streamSeq);
    var u := Record(s, f, rcv, act);
    SameAcks(s, u);
    EmitKeeps(p, u, act == Gap);
    assert s.handed + [] == s.handed;
  }

  /** Receiving a datagram in a run either changes nothing or answers the frame it holds. */
  lemma {:induction false} DatagramAnswered(p: Params, s: State, raw: seq<byte>)
    requires Proper(p) && WireInv(s) && WindowInv(s) && AckInv(s)
    ensures var t := DoRecvData(p, s, raw);
            t == s || (Decode(raw).Ok? && Decode(raw).value.ext.Some? && t.received == s.received + 1
                       && Answered(s, t, Decode(raw).value))
  {
    hide Decode, Accept, Answered;
    RecvDataCases(p, s, raw);
    if DoRecvData(p, s, raw) != s {
      WireNumber(s, raw);
      ReceptionAnswered(p, s, Decode(raw).value);
    }
  }

  // ---- the ACK is never more than 8 receptions away ----

  ghost predicate FarAhead(s: State, raw: seq<byte>) {
    Decode(raw).Ok? && Decode(raw).value.header.streamSeq >= s.rcv.window.next + 1024
  }

  ghost predicate Near(p: Params, steps: seq<Step>, k: nat)
    requires k < |steps|
  {
    steps[k].RecvData? ==> !FarAhead(After(p, steps[..k]), steps[k].raw)
  }

  /** From step `from` on, no datagram lies beyond the window on arrival. */
  ghost predicate NoneBeyond(p: Params, steps: seq<Step>, from: nat) {
    forall k :: from <= k < |steps| ==> Near(p, steps, k)
  }

  lemma NoneBeyondPrefix(p: Params, steps: seq<Step>, from: nat)
    requires from < |steps| && NoneBeyond(p, steps, from)
    ensures NoneBeyond(p, steps[..|steps| - 1], from) && Near(p, steps, |steps| - 1)
  {
    hide After, FarAhead;
    var q := steps[..|steps| - 1];
    forall k | from <= k < |q|
      ensures Near(p, q, k)
    {
      assert Near(p, steps, k) && q[..k] == steps[..k];
    }
  }

  /** Between two states of a run: ACKs are only added, and while none was, the receptions since are all pending and
      fewer than 8. */
  ghost predicate Pending(s: State, t: State) {
    && |s.acks| <= |t.acks| && s.received <= t.received
    && (|t.acks| == |s.acks| ==> t.rcv.sinceAck == s.rcv.sinceAck + t.received - s.received)
    && (|t.acks| == |s.acks| && t.received > s.received ==> t.rcv.sinceAck < 8)
  }

  lemma {:induction false} PendingStep(p: Params, s: State, t: State, step: Step)
    requires Proper(p) && WireInv(t) && WindowInv(t) && AckInv(t) && Pending(s, t)
    requires step.RecvData? ==> !FarAhead(t, step.raw)
    ensures Pending(s, Apply(p, t, step))
  {
    hide Decode, AckOfBytes, Accept, CheckRto, ProcessAck, FastRetransmit, DoRecvData;
    if step.RecvData? {
      DatagramAnswered(p, t, step.raw);
    } else {
      SenderKeepsReceiver(p, t, step);
      SinceAckKept(p, t, step);
    }
  }

  lemma SinceAckKept(p: Params, s: State, step: Step)
    requires !step.RecvData?
    ensures Apply(p, s, step).rcv.sinceAck == s.rcv.sinceAck
    ensures Apply(p, s, step).rcv.toGrant >= s.rcv.toGrant
  {
    hide Decode, AckOfBytes, Patch, Scan, Unacked;
  }

  lemma {:induction false} PendingRun(p: Params, steps: seq<Step>, from: nat)
    requires Proper(p) && from <= |steps| && NoneBeyond(p, steps, from)
    ensures Pending(After(p, steps[..from]), After(p, steps))
    decreases |steps|
  {
    hide Apply, FarAhead, WireInv, WindowInv, AckInv, Reliability.QueueInv;
    if from == |steps| {
      assert steps[..from] == steps;
    } else {
      var q := steps[..|steps| - 1];
      NoneBeyondPrefix(p, steps, from);
      assert q[..from] == steps[..from];
      PendingRun(p, q, from);
      Always(p, q);
      PendingStep(p, After(p, steps[..from]), After(p, q), steps[|steps| - 1]);
    }
  }

  /** In every run any 8 receptions, none of them beyond the window, draw at least one ACK. */
  lemma {:induction false} EightReceptionsAck(p: Params, steps: seq<Step>, from: nat)
    requires Proper(p) && from <= |steps| && NoneBeyond(p, steps, from)
    requires After(p, steps).received >= After(p, steps[..from]).received + 8
    ensures |After(p, steps).acks| > |After(p, steps[..from]).acks|
  {
    hide After;
    PendingRun(p, steps, from);
  }

  /** The receptions beyond the window are exempt: 8 of them may draw no ACK at all. */
  lemma BeyondDrawsNone(p: Params, s: State, f: Frame)
    requires f.ext.Some? && f.header.streamSeq >= s.rcv.window.next + 1024 && s.rcv.window.size == 1024
    requires Settled(s.rcv.window)
    ensures Accept(p, s, f).acks == s.acks && Accept(p, s, f).received == s.received + 1
  {
    hide Mark;
    CheckClassifies(s.rcv.window, f.header.streamSeq);
  }

  // ---- in-order frames return credits eight at a time ----

  /** Receptions pending are also credits pending. */
  lemma {:induction false} CreditsCoverReceptions(p: Params, steps: seq<Step>)
    requires Proper(p)
    ensures After(p, steps).rcv.toGrant >= After(p, steps).rcv.sinceAck
  {
    hide Apply, AckOfBytes, Decode;
    if steps != [] {
      var q, step := steps[..|steps| - 1], steps[|steps| - 1];
      CreditsCoverReceptions(p, q);
      Always(p, q);
      CoverStep(p, After(p, q), step);
    }
  }

  lemma {:induction false} CoverStep(p: Params, s: State, step: Step)
    requires Proper(p) && WireInv(s) && WindowInv(s) && AckInv(s) && s.rcv.toGrant >= s.rcv.sinceAck
    ensures Apply(p, s, step).rcv.toGrant >= Apply(p, s, step).rcv.sinceAck
  {
    hide WireInv, WindowInv, AckInv, Decode, AckOfBytes, DoRecvData;
    if step.RecvData? { DatagramAnswered(p, s, step.raw); } else { SinceAckKept(p, s, step); }
  }

  ghost predicate InOrder(s: State, raw: seq<byte>) {
    Decode(raw).Ok? && Decode(raw).value.header.streamSeq == s.rcv.window.next
  }

  /** In every run the ACK drawn by a frame in order returns at least 8 credits. */
  lemma {:induction false} InOrderAckReturnsEight(p: Params, steps: seq<Step>, raw: seq<byte>)
    requires Proper(p) && InOrder(After(p, steps), raw)
    ensures var s := After(p, steps);
            var t := DoRecvData(p, s, raw);
            |t.acks| > |s.acks| ==> AckOfBytes(t.acks[|s.acks|]).Some? && AckOfBytes(t.acks[|s.acks|]).value.grant >= 8
  {
    hide After, DoRecvData, Decode, AckOfBytes, WireInv, AckInv;
    Always(p, steps);
    CreditsCoverReceptions(p, steps);
    DatagramAnswered(p, After(p, steps), raw);
  }

  ghost predicate OrderlyAt(p: Params, steps: seq<Step>, k: nat)
    requires k < |steps|
  {
    steps[k].RecvData? ==> InOrder(After(p, steps[..k]), steps[k].raw)
  }

  ghost predicate Grants(t: State, i: nat) {
    i < |t.acks| && AckOfBytes(t.acks[i]).Some? && AckOfBytes(t.acks[i]).value.grant >= 8
  }

  /** In every run, while all frames received are in order, each 8 of them draw an ACK, and each ACK drawn returns at
      least 8 credits. */
  lemma {:induction false} EightInOrderReturnEight(p: Params, steps: seq<Step>, from: nat)
    requires Proper(p) && from <= |steps| && forall k :: from <= k < |steps| ==> OrderlyAt(p, steps, k)
    ensures var s, t := After(p, steps[..from]), After(p, steps);
            && (t.received >= s.received + 8 ==> |t.acks| > |s.acks|)
            && forall i :: |s.acks| <= i < |t.acks| ==> Grants(t, i)
  {
    hide After, Grants;
    forall k | from <= k < |steps|
      ensures Near(p, steps, k)
    {
      assert OrderlyAt(p, steps, k);
    }
    PendingRun(p, steps, from);
    OrderlyGrants(p, steps, from);
  }

  lemma {:induction false} OrderlyGrants(p: Params, steps: seq<Step>, from: nat)
    requires Proper(p) && from <= |steps| && forall k :: from <= k < |steps| ==> OrderlyAt(p, steps, k)
    ensures forall i :: |After(p, steps[..from]).acks| <= i < |After(p, steps).acks| ==> Grants(After(p, steps), i)
    decreases |steps|
  {
    hide Apply, InOrder, Grants, WireInv;
    if from == |steps| {
      assert steps[..from] == steps;
    } else {
      var k := |steps| - 1;
      var q, step := steps[..k], steps[k];
      forall j | from <= j < k
        ensures OrderlyAt(p, q, j)
      {
        assert OrderlyAt(p, steps, j) && q[..j] == steps[..j];
      }
      OrderlyGrants(p, q, from);
      assert q[..from] == steps[..from] && OrderlyAt(p, steps, k);
      GrantsStep(p, q, step);
      assert forall i :: 0 <= i < |After(p, q).acks| && Grants(After(p, q), i) ==> Grants(After(p, steps), i);
    }
  }

  lemma {:induction false} GrantsStep(p: Params, steps: seq<Step>, step: Step)
    requires Proper(p) && (step.RecvData? ==> InOrder(After(p, steps), step.raw))
    ensures var s := After(p, steps);
            var t := Apply(p, s, step);
            && |s.acks| <= |t.acks| <= |s.acks| + 1
            && (|t.acks| > |s.acks| ==> Grants(t, |s.acks|))
            && forall i :: 0 <= i < |s.acks| && Grants(s, i) ==> Grants(t, i)
  {
    hide After, DoRecvData, Decode, AckOfBytes, InOrder;
    var s := After(p, steps);
    Always(p, steps);
    if step.RecvData? {
      InOrderAckReturnsEight(p, steps, step.raw);
      AcksAppend(p, s, step.raw);
    } else {
      SenderKeepsReceiver(p, s, step);
    }
  }

  lemma {:induction false} AcksAppend(p: Params, s: State, raw: seq<byte>)
    requires Proper(p) && WireInv(s) && WindowInv(s) && AckInv(s)
    ensures var t := DoRecvData(p, s, raw);
            |s.acks| <= |t.acks| <= |s.acks| + 1 && t.acks[..|s.acks|] == s.acks
  {
    hide DoRecvData, Decode, AckOfBytes, WireInv, WindowInv, AckInv;
    DatagramAnswered(p, s, raw);
  }
}
