/** Fast retransmit over whole runs: which number an ACK makes the sender resend, and when. */
module FastResend {
  import opened Bytes
  import opened FrameCodec
  import opened Dedup
  import opened Session
  import opened Transport
  import opened Reliability

  predicate Covers(a: AckPayload, x: nat) { x <= a.ackSeq }

  /** A number named is the least one the ACK does not cover. */
  lemma NamesLeastUncovered(s: SendSide, a: AckPayload, x: nat)
    requires FastRetransmit(s, a).1 == Some(x)
    ensures !Covers(a, x) && forall y: nat :: y < x ==> Covers(a, y)
  {
  }

  predicate Processes(s: State, step: Step) {
    step.RecvAck? && step.i < |s.acks| && AckOfBytes(s.acks[step.i]).Some?
  }

  function AckOf(s: State, step: Step): AckPayload
    requires Processes(s, step)
  {
    AckOfBytes(s.acks[step.i]).value
  }

  /** The number a step makes the sender resend, if any. */
  function Named(s: State, step: Step): Option<nat> {
    if Processes(s, step) then FastRetransmit(s.snd, AckOf(s, step)).1 else None
  }

  /** The highest acknowledgement the sender has processed. */
  function Highest(p: Params, steps: seq<Step>): nat {
    if steps == [] then 0
    else
      var k := |steps| - 1;
      var s, h := After(p, steps[..k]), Highest(p, steps[..k]);
      if Processes(s, steps[k]) && AckOf(s, steps[k]).ackSeq > h then AckOf(s, steps[k]).ackSeq else h
  }

  /** The step acknowledges more than ever before, names a number, or reports a timeout. */
  predicate Restarts(p: Params, steps: seq<Step>, step: Step) {
    var s := After(p, steps);
    || (Processes(s, step) && AckOf(s, step).ackSeq > Highest(p, steps))
    || Named(s, step).Some?
    || Apply(p, s, step).reports != s.reports
  }

  /** How many ACKs were processed since the last step that restarts the count. */
  function StaleAcks(p: Params, steps: seq<Step>): nat {
    if steps == [] then 0
    else
      var k := |steps| - 1;
      if Restarts(p, steps[..k], steps[k]) then 0
      else StaleAcks(p, steps[..k]) + if Processes(After(p, steps[..k]), steps[k]) then 1 else 0
  }

  ghost predicate Counts(s: State, highest: nat, stale: nat) { s.snd.lastAck == highest && s.snd.dupAcks == stale }

  lemma {:induction false} CountsStep(p: Params, steps: seq<Step>, step: Step)
    requires Counts(After(p, steps), Highest(p, steps), StaleAcks(p, steps)) && StaleAcks(p, steps) <= 2
    ensures Counts(After(p, steps + [step]), Highest(p, steps + [step]), StaleAcks(p, steps + [step]))
    ensures StaleAcks(p, steps + [step]) <= 2
  {
    hide AckOfBytes, Decode, Apply, Named;
    var all := steps + [step];
    assert all[..|all| - 1] == steps;
    var s := After(p, steps);
    StepCounts(p, s, step);
    if Processes(s, step) { NamedAt(s, step); } else { NothingNamed(s, step); }
  }

  lemma NothingNamed(s: State, step: Step)
    requires !Processes(s, step)
    ensures Named(s, step) == None
  {
  }

  lemma NamedAt(s: State, step: Step)
    requires Processes(s, step)
    ensures Named(s, step) == if AckOf(s, step).ackSeq <= s.snd.lastAck && s.snd.dupAcks >= 2
                              then Some(AckOf(s, step).ackSeq + 1) else None
  {
  }

  lemma {:induction false} StepCounts(p: Params, s: State, step: Step)
    ensures var t := Apply(p, s, step);
            if Processes(s, step) then
              var a := AckOf(s, step).ackSeq;
              && t.reports == s.reports
              && t.snd.lastAck == (if a > s.snd.lastAck then a else s.snd.lastAck)
              && t.snd.dupAcks == if a > s.snd.lastAck || s.snd.dupAcks >= 2 then 0 else s.snd.dupAcks + 1
            else
              t.snd.lastAck == s.snd.lastAck && t.snd.dupAcks == if t.reports != s.reports then 0 else s.snd.dupAcks
  {
    hide AckOfBytes, Decode, Patch, Unacked, Scan, RemoveFirst, Accept;
    var t := Apply(p, s, step);
    if step.RecvData? { WireRecvData(p, s, step.raw); }
    if step.Timeout? {
      var due := CheckRto(s.snd, step.now, p.cfg).1;
      assert |multiset(due)| == |due|;
      assert |t.reports| == |s.reports| + |due|;
    }
  }

  lemma {:induction false} CountsAlways(p: Params, steps: seq<Step>)
    ensures Counts(After(p, steps), Highest(p, steps), StaleAcks(p, steps)) && StaleAcks(p, steps) <= 2
  {
    hide Apply, Restarts, Processes, Counts;
    if steps == [] {
      CountsInit(p);
    } else {
      var q, step := steps[..|steps| - 1], steps[|steps| - 1];
      CountsAlways(p, q);
      CountsStep(p, q, step);
      assert q + [step] == steps;
    }
  }

  lemma CountsInit(p: Params)
    ensures Counts(After(p, []), Highest(p, []), StaleAcks(p, []))
  {
  }

  /** In every run an ACK names a number exactly when it is the third that acknowledges nothing new since the last ACK
      that did, the last number named, or the last timeout reported; the number is the least one it does not cover. */
  lemma {:induction false} ThirdStaleNames(p: Params, steps: seq<Step>, step: Step)
    requires Processes(After(p, steps), step)
    ensures var s := After(p, steps);
            var a := AckOf(s, step).ackSeq;
            Named(s, step) == if a <= Highest(p, steps) && StaleAcks(p, steps) + 1 == 3 then Some(a + 1) else None
  {
    hide After, Highest, StaleAcks, Named, Processes, AckOf;
    CountsAlways(p, steps);
    NamedAt(After(p, steps), step);
  }

  // ---- the number named was missing when the ACK was emitted ----

  /** Step k of the run emitted the i-th ACK, in a state where x was the least number not seen. */
  ghost predicate EmittedAt(p: Params, steps: seq<Step>, k: nat, i: nat, x: nat)
    requires k < |steps|
  {
    var t := After(p, steps[..k + 1]);
    && |After(p, steps[..k]).acks| == i && |t.acks| == i + 1
    && t.acks <= After(p, steps).acks
    && !Seen(t.rcv.window, x) && forall y: nat :: y < x ==> Seen(t.rcv.window, y)
  }

  lemma {:induction false} StepEmits(p: Params, steps: seq<Step>, step: Step)
    requires Proper(p)
    ensures var s := After(p, steps);
            var t := Apply(p, s, step);
            && s.acks <= t.acks && |t.acks| <= |s.acks| + 1
            && (|t.acks| > |s.acks| ==>
                  && AckOfBytes(t.acks[|s.acks|]).Some?
                  && var x := AckOfBytes(t.acks[|s.acks|]).value.ackSeq + 1;
                     !Seen(t.rcv.window, x) && forall y: nat :: y < x ==> Seen(t.rcv.window, y))
  {
    hide After, DoRecvData, Decode, AckOfBytes, Seen;
    var s := After(p, steps);
    Always(p, steps);
    if step.RecvData? {
      RecvAppends(p, s, step.raw);
      var t := DoRecvData(p, s, step.raw);
      if |t.acks| > |s.acks| {
        AckReportsReceiver(p, steps, step.raw, 0, 0);
        AckReportsReceiver(p, steps, step.raw, AckOfBytes(t.acks[|s.acks|]).value.ackSeq, 0);
      }
    } else {
      SenderKeepsReceiver(p, s, step);
    }
  }

  lemma RecvAppends(p: Params, s: State, raw: seq<byte>)
    ensures s.acks <= DoRecvData(p, s, raw).acks && |DoRecvData(p, s, raw).acks| <= |s.acks| + 1
  {
    hide Decode, ReceiveFrame, BuildAck, AckFrame;
  }

  lemma {:induction false} Emission(p: Params, steps: seq<Step>, i: nat) returns (k: nat)
    requires Proper(p) && i < |After(p, steps).acks|
    ensures k < |steps| && AckOfBytes(After(p, steps).acks[i]).Some?
    ensures EmittedAt(p, steps, k, i, AckOfBytes(After(p, steps).acks[i]).value.ackSeq + 1)
    decreases |steps|
  {
    hide Apply, AckOfBytes, Seen;
    var n := |steps| - 1;
    var q := steps[..n];
    StepEmits(p, q, steps[n]);
    if i < |After(p, q).acks| {
      k := Emission(p, q, i);
      assert q[..k] == steps[..k] && q[..k + 1] == steps[..k + 1];
    } else {
      k := n;
      assert steps[..n + 1] == steps;
    }
  }

  /** In every run a number named was not seen, and everything below it was, when the ACK naming it was emitted. */
  lemma {:induction false} NamedWasMissing(p: Params, steps: seq<Step>, step: Step, x: nat) returns (k: nat)
    requires Proper(p) && Named(After(p, steps), step) == Some(x)
    ensures k < |steps| && step.RecvAck? && EmittedAt(p, steps, k, step.i, x)
  {
    hide After, AckOfBytes, EmittedAt;
    NamedAt(After(p, steps), step);
    k := Emission(p, steps, step.i);
  }
}
