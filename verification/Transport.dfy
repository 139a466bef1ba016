/** One direction of a session as a protocol: a sender, a receiver, and a network that may drop, duplicate and
    reorder datagrams. Every data frame ever put on the wire stays available to `RecvData` and every ACK to
    `RecvAck`, so a run may receive any of them any number of times, in any order, or never. The run takes place
    on real bytes: the receiver decodes what the sender patched. */
module Transport {
  import opened Bytes
  import opened FrameCodec
  import opened Dedup
  import opened Session

  /** Protocol parameters: retry policy, node ids of the receiver and the sender, initial credits. */
  datatype Params = Params(cfg: Config, local: nat, remote: nat, credits: nat)

  ghost predicate Proper(p: Params) { p.local < 65536 && p.remote < 65536 && p.credits <= U32_MAX }

  /** A frame as it was stamped; position i of `State.sent` holds sequence number i + 1. */
  datatype Sent = Sent(frame: seq<byte>, fireAndForget: bool, reqId: nat)

  /** A frame put on the fabric, for the first time or again. */
  datatype Tx = Tx(sn: nat, frame: seq<byte>)

  /** A frame passed up to the verb handler. */
  datatype Handed = Handed(sn: nat, frame: Frame)

  /** `snd`, `rcv`, `rcvActive`, `wire` and `acks` are the protocol state; the rest is history:
      everything stamped, first-time deliveries, numbers first seen past a gap, everything handed up, timeout
      reports, the credit ledger with `repeats` counting receptions of frames seen before or beyond the window, and
      every transmission in order. */
  datatype State = State(
    snd: SendSide, rcv: RecvSide, rcvActive: bool, wire: set<seq<byte>>, acks: seq<seq<byte>>,
    sent: seq<Sent>, firsts: seq<nat>, skipped: set<nat>, handed: seq<Handed>, reports: multiset<nat>,
    returned: set<nat>, received: nat, repeats: nat, appGrants: nat, dupGrants: nat, clipped: nat, tx: seq<Tx>)

  datatype Step =
    | SendFrame(frame: seq<byte>, ff: bool, reqId: nat, deadline: int)
    | Timeout(now: int)
    | RecvData(raw: seq<byte>)
    | RecvAck(i: nat)
    | Complete(reqId: nat)
    | Grant(n: nat)
    | KillSender
    | KillReceiver

  function Init(p: Params): State {
    State(SendSide(true, 1, p.credits, [], 0, 0), RecvSide(Window(1, {}, 1024), [], 0, 0), true, {}, [],
          [], [], {}, [], multiset{}, {}, 0, 0, 0, 0, 0, [])
  }

  function DoSend(s: State, frame: seq<byte>, ff: bool, reqId: nat, deadline: int): State {
    if !s.snd.active || s.snd.credits == 0 || s.snd.nextSeq + 1 >= U64 then s
    else
      var stamped := Patch(frame, s.snd.nextSeq);
      s.(snd := AssignSeq(s.snd.(credits := s.snd.credits - 1), frame, ff, reqId, deadline),
         wire := s.wire + {stamped}, sent := s.sent + [Sent(stamped, ff, reqId)],
         tx := s.tx + [Tx(s.snd.nextSeq, stamped)])
  }

  function OneCopy(q: seq<Entry>, sn: nat): (c: seq<Tx>)
    ensures |c| <= 1 && (c != [] <==> Lookup(q, sn).Some?)
  {
    var e := Lookup(q, sn);
    if e.Some? then [Tx(e.value.sn, e.value.frame)] else []
  }

  /** What is transmitted again for the given numbers, in their order. */
  function Copies(q: seq<Entry>, sns: seq<nat>): seq<Tx> {
    if sns == [] then [] else Copies(q, sns[..|sns| - 1]) + OneCopy(q, sns[|sns| - 1])
  }

  function DoTimeout(p: Params, s: State, now: int): State {
    var (snd, due) := CheckRto(s.snd, now, p.cfg);
    s.(snd := snd, reports := s.reports + multiset(due), tx := s.tx + Copies(snd.queue, due))
  }

  predicate Redelivered(v: Verb) { v == ReadReq || v == AtomicCas || v == AtomicFaa }

  function DoRecvData(p: Params, s: State, raw: seq<byte>): State {
    if raw !in s.wire then s
    else
      match Decode(raw)
      case Err(_) => s
      case Ok(f) =>
        if f.ext.None? then s else RecvFrame(p, s, f)
  }

  /** `handle_data_frame`: unsequenced frames go up as they are, a dead session drops the frame. */
  function RecvFrame(p: Params, s: State, f: Frame): State
    requires f.ext.Some?
  {
    if f.header.streamSeq == 0 then s.(handed := s.handed + [Handed(0, f)])
    else if !s.rcvActive || s.rcv.toGrant + 1 >= U32 then s
    else Accept(p, s, f)
  }

  /** A sequenced frame on a live session. */
  function Accept(p: Params, s: State, f: Frame): State
    requires f.ext.Some?
  {
    var (rcv, act) := ReceiveFrame(s.rcv, f.header.streamSeq);
    var t := Record(s, f, rcv, act);
    if act != Beyond && (act == Duplicate || act == Gap || ShouldSendAck(rcv)) then EmitAck(p, t, act == Gap) else t
  }

  /** The state once a frame has been classified and, if due, handed up. */
  function Record(s: State, f: Frame, rcv: RecvSide, act: ReceiveAction): State
    requires f.ext.Some?
  {
    var sn := f.header.streamSeq;
    var up := act == Deliver || (act == Duplicate && Redelivered(f.ext.value.verb));
    s.(rcv := rcv, received := s.received + 1,
       repeats := s.repeats + if act == Duplicate || act == Beyond then 1 else 0,
       handed := if up then s.handed + [Handed(sn, f)] else s.handed,
       firsts := if act == Deliver then s.firsts + [sn] else s.firsts,
       skipped := if act == Gap then s.skipped + {sn} else s.skipped)
  }

  function EmitAck(p: Params, s: State, hasGap: bool): State {
    var (rcv, a) := BuildAck(s.rcv, hasGap);
    s.(rcv := rcv, acks := s.acks + [AckFrame(p.local, p.remote, a)])
  }

  function DoRecvAck(s: State, i: nat): State {
    if i >= |s.acks| || AckOfBytes(s.acks[i]).None? then s
    else
      var a := AckOfBytes(s.acks[i]).value;
      var (snd, resend) := FastRetransmit(s.snd, a);
      var again := match resend case None => [] case Some(x) => [x];
      s.(snd := ProcessAck(snd, a), returned := s.returned + {i},
         tx := s.tx + Copies(snd.queue, again),
         dupGrants := s.dupGrants + if i in s.returned then a.grant else 0,
         clipped := s.clipped + if snd.credits + a.grant > U32_MAX then snd.credits + a.grant - U32_MAX else 0)
  }

  function Apply(p: Params, s: State, step: Step): State {
    match step
    case SendFrame(frame, ff, reqId, deadline) => DoSend(s, frame, ff, reqId, deadline)
    case Timeout(now) => DoTimeout(p, s, now)
    case RecvData(raw) => DoRecvData(p, s, raw)
    case RecvAck(i) => DoRecvAck(s, i)
    case Complete(reqId) => s.(snd := s.snd.(queue := RemoveFirst(s.snd.queue, reqId)))
    case Grant(n) =>
      if s.rcv.toGrant + n >= U32 then s
      else s.(rcv := s.rcv.(toGrant := s.rcv.toGrant + n), appGrants := s.appGrants + n)
    case KillSender => s.(snd := Kill(s.snd))
    case KillReceiver => s.(rcvActive := false)
  }

  /** The state after a run. A step that is not possible in a state leaves it alone, so `steps` ranges over all
      runs; a step that would overflow the u64 sequence counter or the u32 grant counter is not taken. */
  function After(p: Params, steps: seq<Step>): State {
    if steps == [] then Init(p) else Apply(p, After(p, steps[..|steps| - 1]), steps[|steps| - 1])
  }

  // ================= queue and wire =================

  ghost predicate Matches(s: State, e: Entry) {
    && 1 <= e.sn <= |s.sent|
    && e.frame == s.sent[e.sn - 1].frame
    && e.fireAndForget == s.sent[e.sn - 1].fireAndForget && e.reqId == s.sent[e.sn - 1].reqId
  }

  ghost predicate Ordered(q: seq<Entry>) { forall i, j :: 0 <= i < j < |q| ==> q[i].sn < q[j].sn }

  /** Stamped frames decode, if at all, to their own number. */
  ghost predicate Stamped(s: State, i: nat)
    requires i < |s.sent|
  {
    Decode(s.sent[i].frame).Ok? ==> Decode(s.sent[i].frame).value.header.streamSeq == i + 1
  }

  ghost predicate OnRecord(s: State, raw: seq<byte>) { exists i :: 0 <= i < |s.sent| && s.sent[i].frame == raw }

  ghost predicate WireInv(s: State) {
    && s.snd.nextSeq == |s.sent| + 1 && s.snd.nextSeq < U64
    && (forall e :: e in s.snd.queue ==> Matches(s, e))
    && Ordered(s.snd.queue)
    && (forall i :: 0 <= i < |s.sent| ==> Stamped(s, i))
    && (forall raw :: raw in s.wire ==> OnRecord(s, raw))
  }

  lemma {:induction false} UnackedKeeps(q: seq<Entry>, a: nat)
    requires Ordered(q)
    ensures Ordered(Unacked(q, a))
    ensures forall e :: e in Unacked(q, a) <==> e in q && !Acked(e, a)
  {
    AckPartitions(q, a);
    if q != [] {
      var k := |q| - 1;
      UnackedKeeps(q[..k], a);
      hide Acked;
      var u := Unacked(q[..k], a);
      forall i | 0 <= i < |u|
        ensures u[i].sn < q[k].sn
      {
        assert u[i] in q[..k];
      }
    }
  }

  lemma {:induction false} RemoveKeeps(q: seq<Entry>, reqId: nat)
    requires Ordered(q)
    ensures Ordered(RemoveFirst(q, reqId))
    ensures forall e :: e in RemoveFirst(q, reqId) ==> e in q
    ensures forall e :: e in q && !Answers(e, reqId) ==> e in RemoveFirst(q, reqId)
  {
    if q != [] {
      assert q == [q[0]] + q[1..];
    }
    if q != [] && !Answers(q[0], reqId) {
      RemoveKeeps(q[1..], reqId);
      forall e | e in RemoveFirst(q[1..], reqId)
        ensures q[0].sn < e.sn
      {
        var i :| 0 <= i < |q[1..]| && q[1..][i] == e;
      }
    }
  }

  /** A scan that does not kill keeps every entry in place, bumping exactly the expired ones. */
  lemma {:induction false} ScanAt(q: seq<Entry>, now: int, cfg: Config)
    requires !Scan(q, now, cfg).kill
    ensures |Scan(q, now, cfg).queue| == |q|
    ensures forall i :: 0 <= i < |q| ==>
              Scan(q, now, cfg).queue[i] == if now < q[i].deadline then q[i] else Bump(q[i], now, cfg)
  {
    if q != [] {
      ScanAt(q[..|q| - 1], now, cfg);
    }
  }

  lemma {:induction false} RtoKeeps(s: SendSide, now: int, cfg: Config)
    requires Ordered(s.queue)
    ensures var t := CheckRto(s, now, cfg).0;
            && Ordered(t.queue) && t.nextSeq == s.nextSeq && t.credits == s.credits
            && (t.active ==> |t.queue| == |s.queue|)
            && (t.active ==> s.active)
            && (t.queue != [] ==> |t.queue| == |s.queue|)
            && forall i :: 0 <= i < |t.queue| ==>
                 && t.queue[i].sn == s.queue[i].sn && t.queue[i].frame == s.queue[i].frame
                 && t.queue[i].fireAndForget == s.queue[i].fireAndForget && t.queue[i].reqId == s.queue[i].reqId
  {
    if s.active && !Scan(s.queue, now, cfg).kill {
      ScanAt(s.queue, now, cfg);
    }
  }

  lemma {:induction false} WireSend(s: State, frame: seq<byte>, ff: bool, reqId: nat, deadline: int)
    requires WireInv(s)
    ensures WireInv(DoSend(s, frame, ff, reqId, deadline))
  {
    hide Decode, Patch;
    var t := DoSend(s, frame, ff, reqId, deadline);
    if t != s {
      PatchStamps(frame, s.snd.nextSeq);
      forall e | e in t.snd.queue
        ensures Matches(t, e)
      {
        if e in s.snd.queue {
          assert Matches(s, e);
        }
      }
      forall i | 0 <= i < |t.sent|
        ensures Stamped(t, i)
      {
        if i < |s.sent| {
          assert Stamped(s, i);
        }
      }
      forall raw | raw in t.wire
        ensures OnRecord(t, raw)
      {
        if raw in s.wire {
          assert OnRecord(s, raw);
          var i :| 0 <= i < |s.sent| && s.sent[i].frame == raw;
          assert t.sent[i].frame == raw;
        } else {
          assert t.sent[|s.sent|].frame == raw;
        }
      }
      forall i, j | 0 <= i < j < |t.snd.queue|
        ensures t.snd.queue[i].sn < t.snd.queue[j].sn
      {
        assert t.snd.queue[i] in s.snd.queue;
        assert Matches(s, t.snd.queue[i]);
      }
    }
  }

  lemma {:induction false} PatchStamps(b: seq<byte>, sn: nat)
    requires sn < U64
    ensures Decode(Patch(b, sn)).Ok? ==> Decode(Patch(b, sn)).value.header.streamSeq == sn
  {
    assert Pow256(8) == U64;
    PatchCommutes(b, sn);
  }

  lemma {:induction false} WireTimeout(p: Params, s: State, now: int)
    requires WireInv(s)
    ensures WireInv(DoTimeout(p, s, now))
  {
    hide Decode, Scan;
    var t := DoTimeout(p, s, now);
    RtoKeeps(s.snd, now, p.cfg);
    forall e | e in t.snd.queue
      ensures Matches(t, e)
    {
      var i :| 0 <= i < |t.snd.queue| && t.snd.queue[i] == e;
      assert Matches(s, s.snd.queue[i]);
    }
    WireSame(s, t);
  }

  /** WireInv depends on nothing but the queue, the counter, the record and the wire. */
  lemma {:induction false} WireSame(s: State, t: State)
    requires WireInv(s) && t.sent == s.sent && t.snd.nextSeq == s.snd.nextSeq
    requires forall e :: e in t.snd.queue ==> Matches(t, e)
    requires Ordered(t.snd.queue)
    requires t.wire == s.wire
    ensures WireInv(t)
  {
    hide Decode;
    forall i | 0 <= i < |t.sent|
      ensures Stamped(t, i)
    {
      assert Stamped(s, i);
    }
    forall raw | raw in t.wire
      ensures OnRecord(t, raw)
    {
      assert OnRecord(s, raw);
    }
  }

  lemma {:induction false} WireRecvAck(s: State, i: nat)
    requires WireInv(s)
    ensures WireInv(DoRecvAck(s, i))
  {
    hide Decode, AckOfBytes, Unacked;
    var t := DoRecvAck(s, i);
    if t != s {
      var a := AckOfBytes(s.acks[i]).value;
      UnackedKeeps(s.snd.queue, a.ackSeq);
      forall e | e in t.snd.queue
        ensures Matches(t, e)
      {
        assert Matches(s, e);
      }
      WireSame(s, t);
    }
  }

  lemma {:induction false} WireRecvData(p: Params, s: State, raw: seq<byte>)
    ensures var t := DoRecvData(p, s, raw);
            t.snd == s.snd && t.sent == s.sent && t.wire == s.wire && t.reports == s.reports && t.tx == s.tx
  {}

  lemma {:induction false} WireStep(p: Params, s: State, step: Step)
    requires WireInv(s)
    ensures WireInv(Apply(p, s, step))
  {
    hide Decode, DoSend, DoTimeout, DoRecvAck, DoRecvData;
    var t := Apply(p, s, step);
    match step
    case SendFrame(frame, ff, reqId, deadline) => WireSend(s, frame, ff, reqId, deadline);
    case Timeout(now) => WireTimeout(p, s, now);
    case RecvAck(i) => WireRecvAck(s, i);
    case Complete(reqId) =>
      RemoveKeeps(s.snd.queue, reqId);
      forall e | e in t.snd.queue
        ensures Matches(t, e)
      {
        assert Matches(s, e);
      }
      WireSame(s, t);
    case RecvData(raw) =>
      WireRecvData(p, s, raw);
      MatchesAfter(s, t);
      WireSame(s, t);
    case _ =>
      MatchesAfter(s, t);
      WireSame(s, t);
  }

  lemma {:induction false} MatchesAfter(s: State, t: State)
    requires t.sent == s.sent && forall e :: e in s.snd.queue ==> Matches(s, e)
    requires forall e :: e in t.snd.queue ==> e in s.snd.queue
    ensures forall e :: e in t.snd.queue ==> Matches(t, e)
  {
    forall e | e in t.snd.queue
      ensures Matches(t, e)
    {
      assert Matches(s, e);
    }
  }

  /** In every run every wire copy of a sequence number has the bytes that were stamped with it. */
  lemma {:induction false} WireAlways(p: Params, steps: seq<Step>)
    ensures WireInv(After(p, steps))
  {
    if steps != [] {
      WireAlways(p, steps[..|steps| - 1]);
      WireStep(p, After(p, steps[..|steps| - 1]), steps[|steps| - 1]);
    }
  }
}
