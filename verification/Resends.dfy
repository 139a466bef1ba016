/** Every transmission accounted for: each frame goes out once when stamped, and again exactly for each timeout
    reported and each time an ACK names it while it is queued. */
module Resends {
  import opened Bytes
  import opened FrameCodec
  import opened Session
  import opened Transport
  import opened Retransmission
  import opened FastResend

  function Count(tx: seq<Tx>, x: nat): nat {
    if tx == [] then 0 else Count(tx[..|tx| - 1], x) + if tx[|tx| - 1].sn == x then 1 else 0
  }

  lemma {:induction false} CountAppend(a: seq<Tx>, b: seq<Tx>, x: nat)
    ensures Count(a + b, x) == Count(a, x) + Count(b, x)
  {
    if b == [] {
      assert a + b == a;
    } else {
      assert (a + b)[..|a + b| - 1] == a + b[..|b| - 1];
      CountAppend(a, b[..|b| - 1], x);
    }
  }

  lemma {:induction false} LookupFinds(q: seq<Entry>, x: nat)
    ensures Lookup(q, x).Some? <==> HasNumber(q, x)
    ensures Lookup(q, x).Some? ==> Lookup(q, x).value in q && Lookup(q, x).value.sn == x
  {
    if q != [] {
      LookupFinds(q[1..], x);
      if HasNumber(q[1..], x) {
        var i :| 0 <= i < |q[1..]| && q[1..][i].sn == x;
        assert q[i + 1].sn == x;
      }
      if HasNumber(q, x) && q[0].sn != x {
        var i :| 0 <= i < |q| && q[i].sn == x;
        assert q[1..][i - 1].sn == x;
      }
    }
  }

  lemma {:induction false} OneCopyCount(q: seq<Entry>, sn: nat, x: nat)
    ensures Count(OneCopy(q, sn), x) == if sn == x && HasNumber(q, x) then 1 else 0
  {
    hide Lookup, HasNumber, Count;
    LookupFinds(q, sn);
    CountOne(OneCopy(q, sn), x);
  }

  lemma CopiesLast(q: seq<Entry>, sns: seq<nat>)
    requires sns != []
    ensures Copies(q, sns) == Copies(q, sns[..|sns| - 1]) + OneCopy(q, sns[|sns| - 1])
  {
    hide OneCopy;
  }

  lemma CopiesNone(q: seq<Entry>, x: nat)
    ensures Count(Copies(q, []), x) == 0
  {
  }

  /** Each number asked for is transmitted once for each time it is asked for, if it is queued. */
  lemma {:induction false} CopiesCount(q: seq<Entry>, sns: seq<nat>, x: nat)
    ensures Count(Copies(q, sns), x) == if HasNumber(q, x) then multiset(sns)[x] else 0
    decreases |sns|
  {
    hide Lookup, HasNumber, Count, Copies, OneCopy;
    if sns == [] {
      CopiesNone(q, x);
    } else {
      var init, y := sns[..|sns| - 1], sns[|sns| - 1];
      assert sns == init + [y];
      CopiesCount(q, init, x);
      CopiesLast(q, sns);
      CountAppend(Copies(q, init), OneCopy(q, y), x);
      OneCopyCount(q, y, x);
      CountSnoc(init, y, x);
    }
  }

  lemma CountSnoc(sns: seq<nat>, y: nat, x: nat)
    ensures multiset(sns + [y])[x] == multiset(sns)[x] + if y == x then 1 else 0
  {
  }

  lemma CountOne(more: seq<Tx>, x: nat)
    requires |more| <= 1
    ensures Count(more, x) == if |more| == 1 && more[0].sn == x then 1 else 0
  {
  }

  lemma {:induction false} CopiesGenuine(s: State, q: seq<Entry>, sns: seq<nat>)
    requires forall e :: e in q ==> Matches(s, e)
    ensures forall c :: c in Copies(q, sns) ==> Genuine(s.sent, c)
  {
    hide Lookup, HasNumber;
    if sns != [] {
      CopiesGenuine(s, q, sns[..|sns| - 1]);
      LookupFinds(q, sns[|sns| - 1]);
    }
  }

  /** The bytes stamped with its number. */
  ghost predicate Genuine(sent: seq<Sent>, c: Tx) { 1 <= c.sn <= |sent| && c.frame == sent[c.sn - 1].frame }

  /** How often ACKs named a number while it was queued. */
  function TimesNamed(p: Params, steps: seq<Step>, x: nat): nat {
    if steps == [] then 0
    else
      var k := |steps| - 1;
      var s := After(p, steps[..k]);
      TimesNamed(p, steps[..k], x)
      + if Named(s, steps[k]) == Some(x) && Lookup(s.snd.queue, x).Some? then 1 else 0
  }

  /** How often x has gone out, given its reports and how often it was named. */
  ghost predicate Accounted(s: State, x: nat, named: nat) {
    && Count(s.tx, x) == (if 1 <= x <= |s.sent| then 1 else 0) + s.reports[x] + named
    && forall c :: c in s.tx ==> Genuine(s.sent, c)
  }

  lemma {:induction false} TimeoutSends(p: Params, s: State, now: int, x: nat, named: nat)
    requires WireInv(s) && Accounted(s, x, named)
    ensures Accounted(DoTimeout(p, s, now), x, named)
  {
    hide Scan, Decode, Count, Copies;
    var (snd, due) := CheckRto(s.snd, now, p.cfg);
    var t := DoTimeout(p, s, now);
    CountAppend(s.tx, Copies(snd.queue, due), x);
    CopiesCount(snd.queue, due, x);
    WireTimeout(p, s, now);
    CopiesGenuine(t, snd.queue, due);
    RtoKeeps(s.snd, now, p.cfg);
    if x in due { DueStaysQueued(s.snd, now, p.cfg, x); }
  }

  lemma {:induction false} DueStaysQueued(s: SendSide, now: int, cfg: Config, x: nat)
    requires Ordered(s.queue) && x in CheckRto(s, now, cfg).1
    ensures HasNumber(CheckRto(s, now, cfg).0.queue, x)
  {
    hide Scan;
    DueAreQueued(s.queue, now, cfg, x);
    var i :| 0 <= i < |s.queue| && s.queue[i].sn == x;
    ScanAt(s.queue, now, cfg);
    RtoKeeps(s, now, cfg);
    assert CheckRto(s, now, cfg).0.queue[i].sn == x;
  }

  lemma {:induction false} AckSends(s: State, step: Step, x: nat, named: nat)
    requires WireInv(s) && Accounted(s, x, named) && step.RecvAck?
    ensures Accounted(DoRecvAck(s, step.i), x,
                      named + if Named(s, step) == Some(x) && Lookup(s.snd.queue, x).Some? then 1 else 0)
  {
    hide AckOfBytes, Decode, Count, Copies, Lookup, Unacked;
    var t := DoRecvAck(s, step.i);
    if Processes(s, step) {
      var resend := Named(s, step);
      var again := if resend.Some? then [resend.value] else [];
      assert t.tx == s.tx + Copies(s.snd.queue, again);
      CountAppend(s.tx, Copies(s.snd.queue, again), x);
      CopiesCount(s.snd.queue, again, x);
      LookupFinds(s.snd.queue, x);
      CopiesGenuine(s, s.snd.queue, again);
    }
  }

  lemma {:induction false} SendSends(
      s: State, frame: seq<byte>, ff: bool, reqId: nat, deadline: int, x: nat, named: nat)
    requires WireInv(s) && Accounted(s, x, named)
    ensures Accounted(DoSend(s, frame, ff, reqId, deadline), x, named)
  {
    hide Patch, Decode, Count;
    var t := DoSend(s, frame, ff, reqId, deadline);
    if t != s {
      var c := Tx(s.snd.nextSeq, Patch(frame, s.snd.nextSeq));
      CountAppend(s.tx, [c], x);
      CountOne([c], x);
      forall d | d in t.tx
        ensures Genuine(t.sent, d)
      {
        if d in s.tx { assert Genuine(s.sent, d); }
      }
    }
  }

  lemma {:induction false} StepSends(p: Params, s: State, step: Step, x: nat, named: nat)
    requires WireInv(s) && Accounted(s, x, named)
    ensures Accounted(Apply(p, s, step), x,
                      named + if Named(s, step) == Some(x) && Lookup(s.snd.queue, x).Some? then 1 else 0)
  {
    hide Accounted, DoSend, DoTimeout, DoRecvAck, DoRecvData, Lookup, AckOfBytes;
    var t := Apply(p, s, step);
    match step
    case SendFrame(frame, ff, reqId, deadline) => SendSends(s, frame, ff, reqId, deadline, x, named);
    case Timeout(now) => TimeoutSends(p, s, now, x, named);
    case RecvAck(_) => AckSends(s, step, x, named);
    case RecvData(raw) =>
      WireRecvData(p, s, raw);
      NothingSent(s, t, x, named);
    case _ => NothingSent(s, t, x, named);
  }

  lemma NothingSent(s: State, t: State, x: nat, named: nat)
    requires Accounted(s, x, named) && t.tx == s.tx && t.sent == s.sent && t.reports == s.reports
    ensures Accounted(t, x, named)
  {
  }

  lemma {:induction false} AccountedAlways(p: Params, steps: seq<Step>, x: nat)
    ensures Accounted(After(p, steps), x, TimesNamed(p, steps, x))
  {
    hide Apply, Accounted, Named, Lookup;
    if steps == [] {
      NothingYet(p, x);
    } else {
      var q := steps[..|steps| - 1];
      AccountedAlways(p, q, x);
      WireAlways(p, q);
      StepSends(p, After(p, q), steps[|steps| - 1], x, TimesNamed(p, q, x));
    }
  }

  lemma NothingYet(p: Params, x: nat)
    ensures Accounted(Init(p), x, 0)
  {
  }

  /** In every run a stamped frame has been transmitted once, plus once for each timeout reported for it and once for
      each ACK that named it while it was queued; every transmission is the bytes stamped with its number. */
  lemma {:induction false} TransmissionsAccounted(p: Params, steps: seq<Step>, x: nat)
    ensures var s := After(p, steps);
            && (1 <= x <= |s.sent| ==> Count(s.tx, x) == 1 + s.reports[x] + TimesNamed(p, steps, x))
            && (!(1 <= x <= |s.sent|) ==> Count(s.tx, x) == 0)
            && forall c :: c in s.tx ==> 1 <= c.sn <= |s.sent| && c.frame == s.sent[c.sn - 1].frame
  {
    hide After, Count, TimesNamed;
    AccountedAlways(p, steps, x);
    AllGenuine(After(p, steps), x);
    ReportedAtMost(p, steps, x);
  }

  lemma {:induction false} AllGenuine(s: State, x: nat)
    requires forall c :: c in s.tx ==> Genuine(s.sent, c)
    ensures !(1 <= x <= |s.sent|) ==> Count(s.tx, x) == 0
  {
    if !(1 <= x <= |s.sent|) { NoneCounted(s.tx, x); }
  }

  lemma {:induction false} NoneCounted(tx: seq<Tx>, x: nat)
    requires forall c :: c in tx ==> c.sn != x
    ensures Count(tx, x) == 0
  {
    if tx != [] { NoneCounted(tx[..|tx| - 1], x); }
  }

  /** In every run a dead sender holds nothing back for retransmission, and sends nothing. */
  lemma {:induction false} DeadSendsNothing(p: Params, steps: seq<Step>, step: Step)
    requires !After(p, steps).snd.active
    ensures After(p, steps).snd.queue == [] && Apply(p, After(p, steps), step).tx == After(p, steps).tx
  {
    hide Apply;
    DeadIsEmpty(p, steps);
    DeadStep(p, After(p, steps), step);
  }

  lemma {:induction false} DeadIsEmpty(p: Params, steps: seq<Step>)
    ensures !After(p, steps).snd.active ==> After(p, steps).snd.queue == []
  {
    hide Apply;
    if steps != [] {
      DeadIsEmpty(p, steps[..|steps| - 1]);
      DeadStep(p, After(p, steps[..|steps| - 1]), steps[|steps| - 1]);
    }
  }

  lemma {:induction false} DeadStep(p: Params, s: State, step: Step)
    requires !s.snd.active ==> s.snd.queue == []
    ensures !Apply(p, s, step).snd.active ==> Apply(p, s, step).snd.queue == []
    ensures !s.snd.active ==> Apply(p, s, step).tx == s.tx
  {
    hide AckOfBytes, Decode, Scan, Patch, Accept;
    if step.RecvData? { WireRecvData(p, s, step.raw); }
    if step.RecvAck? && !s.snd.active && Processes(s, step) { NothingQueued(Named(s, step)); }
  }

  lemma NothingQueued(resend: Option<nat>)
    ensures Copies([], match resend case None => [] case Some(x) => [x]) == []
  {
    if resend.Some? { assert [resend.value][..0] == []; }
  }

  ghost predicate Carries(tx: seq<Tx>, raw: seq<byte>) { exists k :: 0 <= k < |tx| && tx[k].frame == raw }

  lemma {:induction false} CountedIsThere(tx: seq<Tx>, x: nat)
    requires Count(tx, x) > 0
    ensures exists k :: 0 <= k < |tx| && tx[k].sn == x
  {
    var n := |tx| - 1;
    if tx[n].sn != x {
      CountedIsThere(tx[..n], x);
      var k :| 0 <= k < n && tx[..n][k].sn == x;
      assert tx[k].sn == x;
    }
  }

  lemma {:induction false} SentOnWire(p: Params, steps: seq<Step>, i: nat)
    requires i < |After(p, steps).sent|
    ensures After(p, steps).sent[i].frame in After(p, steps).wire
  {
    hide Apply;
    if steps != [] {
      var q := steps[..|steps| - 1];
      WireGrows(p, After(p, q), steps[|steps| - 1]);
      if i < |After(p, q).sent| { SentOnWire(p, q, i); }
    }
  }

  lemma WireGrows(p: Params, s: State, step: Step)
    ensures var t := Apply(p, s, step);
            && s.wire <= t.wire && s.sent <= t.sent && |t.sent| <= |s.sent| + 1
            && (|t.sent| > |s.sent| ==> t.sent[|s.sent|].frame in t.wire)
  {
    hide AckOfBytes, Decode, Scan, Patch, Accept, Copies, Unacked;
    if step.RecvData? { WireRecvData(p, s, step.raw); }
  }

  /** In every run the datagrams the network can deliver are exactly those that were transmitted. */
  lemma {:induction false} WireIsTransmitted(p: Params, steps: seq<Step>, raw: seq<byte>)
    ensures raw in After(p, steps).wire <==> Carries(After(p, steps).tx, raw)
  {
    hide After, Count, TimesNamed, WireInv;
    var s := After(p, steps);
    if raw in s.wire {
      WireAlways(p, steps);
      RawOnRecord(s, raw);
      var i :| 0 <= i < |s.sent| && s.sent[i].frame == raw;
      TransmissionsAccounted(p, steps, i + 1);
      CountedIsThere(s.tx, i + 1);
      var k :| 0 <= k < |s.tx| && s.tx[k].sn == i + 1;
      assert s.tx[k] in s.tx;
    }
    if Carries(s.tx, raw) {
      var k :| 0 <= k < |s.tx| && s.tx[k].frame == raw;
      TransmissionsAccounted(p, steps, 0);
      assert s.tx[k] in s.tx;
      SentOnWire(p, steps, s.tx[k].sn - 1);
    }
  }

  lemma RawOnRecord(s: State, raw: seq<byte>)
    requires WireInv(s) && raw in s.wire
    ensures exists i :: 0 <= i < |s.sent| && s.sent[i].frame == raw
  {
    hide Decode;
    assert OnRecord(s, raw);
  }
}
