/** Transport and verb handler together: the handler is fed what the transport hands up, over any network. */
module EndToEnd {
  import opened Bytes
  import opened FrameCodec
  import opened Dedup
  import opened Session
  import opened Transport
  import opened Reliability
  import opened Delivery
  import opened ReadCache
  import VerbHandler

  /** Which word a request addresses, from its extension header and payload length. Requests that fail lookup,
      permission, alignment or length checks address a word that is not there. */
  type Resolver = (ExtHeader, nat) -> nat

  /** The leading eight bytes of a payload as a number. */
  function Word(b: seq<byte>): nat { FromBE(if |b| >= 8 then b[..8] else b) }

  function RequestOf(f: Frame, resolve: Resolver): Option<VerbHandler.Request> {
    if f.ext.None? then None
    else
      var e, at := f.ext.value, resolve(f.ext.value, |f.payload|);
      match e.verb
      case AtomicFaa => Some(VerbHandler.Request(e.reqId, VerbHandler.Faa(at, Word(f.payload))))
      case AtomicCas =>
        Some(VerbHandler.Request(e.reqId,
                                 VerbHandler.Cas(at, Word(f.payload),
                                                 if |f.payload| >= 8 then Word(f.payload[8..]) else 0)))
      case Write => Some(VerbHandler.Request(e.reqId, VerbHandler.WriteWord(at, Word(f.payload))))
      case WriteImm => Some(VerbHandler.Request(e.reqId, VerbHandler.WriteWord(at, Word(f.payload))))
      case ReadReq => Some(VerbHandler.Request(e.reqId, VerbHandler.ReadWord(at)))
      case _ => None
  }

  /** The operands of a request are the eight-byte words of its payload: the sum's addend, the value expected and then
      the value to put in its place, the value written. */
  lemma {:induction false} OperandsOf(f: Frame, resolve: Resolver, a: nat, b: nat)
    requires f.ext.Some? && a < U64 && b < U64
    requires f.payload == if f.ext.value.verb == AtomicCas then BE(8, a) + BE(8, b) else BE(8, a)
    ensures var e, r := f.ext.value, RequestOf(f, resolve);
            var at := resolve(e, |f.payload|);
            && (e.verb == AtomicCas ==> r == Some(VerbHandler.Request(e.reqId, VerbHandler.Cas(at, a, b))))
            && (e.verb == AtomicFaa ==> r == Some(VerbHandler.Request(e.reqId, VerbHandler.Faa(at, a))))
            && (e.verb == Write || e.verb == WriteImm ==>
                  r == Some(VerbHandler.Request(e.reqId, VerbHandler.WriteWord(at, a))))
            && (e.verb == ReadReq ==> r == Some(VerbHandler.Request(e.reqId, VerbHandler.ReadWord(at))))
  {
    assert Pow256(8) == U64;
    FromBEofBE(8, a);
    FromBEofBE(8, b);
    hide BE, FromBE, Pow256;
    assert f.payload[..8] == BE(8, a);
    if f.ext.value.verb == AtomicCas { assert f.payload[8..] == BE(8, b) && BE(8, b)[..8] == BE(8, b); }
  }

  /** The handler over everything handed up, one frame after the other; `times` are the clock readings. */
  ghost function HandleAll(n: VerbHandler.Node, up: seq<Handed>, times: seq<int>, resolve: Resolver): VerbHandler.Node
    requires |times| == |up|
  {
    if up == [] then n
    else
      var k := |up| - 1;
      var p, r := HandleAll(n, up[..k], times[..k], resolve), RequestOf(up[k].frame, resolve);
      if r.Some? then VerbHandler.Handle(p, up[k].sn, r.value, times[k]) else p
  }

  /** The request the sender stamped under a number. */
  function Stamped(sent: seq<Sent>, sn: nat, resolve: Resolver): Option<VerbHandler.Request> {
    if !(1 <= sn <= |sent|) || Decode(sent[sn - 1].frame).Err? then None
    else RequestOf(Decode(sent[sn - 1].frame).value, resolve)
  }

  function PlanOf(sent: seq<Sent>, resolve: Resolver): map<nat, VerbHandler.Request> {
    map sn: nat | 1 <= sn <= |sent| && Stamped(sent, sn, resolve).Some? :: Stamped(sent, sn, resolve).value
  }

  function ArrivalsOf(up: seq<Handed>, times: seq<int>): seq<VerbHandler.Arrival>
    requires |times| == |up|
  {
    seq(|up|, i requires 0 <= i < |up| => VerbHandler.Arrival(up[i].sn, times[i]))
  }

  /** Everything in `up` carries the frame stamped under its number. */
  ghost predicate AllGenuine(sent: seq<Sent>, up: seq<Handed>) {
    forall h :: h in up ==> 1 <= h.sn <= |sent| && Decode(sent[h.sn - 1].frame) == Ok(h.frame)
  }

  lemma {:induction false} FollowsPlan(
      n: VerbHandler.Node, sent: seq<Sent>, up: seq<Handed>, times: seq<int>, resolve: Resolver)
    requires |times| == |up| && AllGenuine(sent, up)
    ensures HandleAll(n, up, times, resolve) == VerbHandler.After(n, PlanOf(sent, resolve), ArrivalsOf(up, times))
    decreases |up|
  {
    hide Decode, RequestOf, VerbHandler.Handle;
    if up != [] {
      var k := |up| - 1;
      FollowsPlan(n, sent, up[..k], times[..k], resolve);
      assert ArrivalsOf(up, times)[..k] == ArrivalsOf(up[..k], times[..k]);
      assert up[k] in up;
    }
  }

  /** In every run over any network, handling what is handed up is running the requests the sender stamped, each under
      its own number. */
  lemma {:induction false} HandlerRunsStampedRequests(
      p: Params, steps: seq<Step>, n: VerbHandler.Node, times: seq<int>, resolve: Resolver)
    requires |times| == |After(p, steps).handed|
    ensures var s := After(p, steps);
            HandleAll(n, s.handed, times, resolve)
              == VerbHandler.After(n, PlanOf(s.sent, resolve), ArrivalsOf(s.handed, times))
  {
    hide After, Decode, RequestOf;
    var s := After(p, steps);
    forall h | h in s.handed
      ensures 1 <= h.sn <= |s.sent| && Decode(s.sent[h.sn - 1].frame) == Ok(h.frame)
    {
      SameNumberSameFrame(p, steps, h, h);
    }
    FollowsPlan(n, s.sent, s.handed, times, resolve);
  }

  // ---- what is executed ----

  ghost predicate FromPlan(log: seq<VerbHandler.Exec>, plan: map<nat, VerbHandler.Request>) {
    forall e :: e in log ==> e.sn in plan && plan[e.sn] == e.req
  }

  lemma HandleLogs(n: VerbHandler.Node, sn: nat, r: VerbHandler.Request, now: int)
    ensures var t := VerbHandler.Handle(n, sn, r, now);
            t.log == n.log || (|t.log| == |n.log| + 1 && t.log[..|n.log|] == n.log
                               && t.log[|n.log|].sn == sn && t.log[|n.log|].req == r && !r.op.ReadWord?)
  {
    hide Insert, Get;
  }

  lemma {:induction false} LogFromPlan(
      n: VerbHandler.Node, plan: map<nat, VerbHandler.Request>, run: seq<VerbHandler.Arrival>)
    requires FromPlan(n.log, plan)
    ensures FromPlan(VerbHandler.After(n, plan, run).log, plan)
  {
    hide VerbHandler.Handle;
    if run != [] {
      var k := |run| - 1;
      LogFromPlan(n, plan, run[..k]);
      if run[k].sn in plan {
        var q := VerbHandler.After(n, plan, run[..k]);
        HandleLogs(q, run[k].sn, plan[run[k].sn], run[k].now);
        var t := VerbHandler.After(n, plan, run);
        assert t.log == q.log || t.log == q.log + [t.log[|q.log|]];
      }
    }
  }

  /** End to end, over any network: whatever the node executes is the request stamped under its number; no atomic or
      write executes twice if and only if duplicates are handled before 1024 later executions; and an FAA-only word is
      its initial value plus the adds of the executions. */
  lemma {:induction false} ExecutionsAccounted(
      p: Params, steps: seq<Step>, mem: map<nat, nat>, cache: Cache<VerbHandler.Reply>, times: seq<int>,
      resolve: Resolver, addr: nat)
    requires |times| == |After(p, steps).handed| && addr in mem && mem[addr] < U64
    ensures var s := After(p, steps);
            var n, plan, run := VerbHandler.Fresh(mem, cache), PlanOf(s.sent, resolve), ArrivalsOf(s.handed, times);
            var t := HandleAll(n, s.handed, times, resolve);
            && FromPlan(t.log, plan)
            && (VerbHandler.Distinct(VerbHandler.Sns(t.log)) <==> VerbHandler.AllTimely(n, plan, run))
            && addr in t.mem
            && (VerbHandler.FaaOnly(t.log, addr) ==> t.mem[addr] == (mem[addr] + VerbHandler.Added(t.log, addr)) % U64)
  {
    hide After, VerbHandler.After, HandleAll, PlanOf, ArrivalsOf;
    var s, n := After(p, steps), VerbHandler.Fresh(mem, cache);
    var plan, run := PlanOf(s.sent, resolve), ArrivalsOf(s.handed, times);
    HandlerRunsStampedRequests(p, steps, n, times, resolve);
    LogFromPlan(n, plan, run);
    VerbHandler.AtMostOnceIffTimely(mem, cache, plan, run);
    VerbHandler.FaaAccounted(mem, cache, plan, run, addr);
  }

  /** End to end, over any network: when request ids are not reused and duplicates are timely, all success responses
      ever
      sent for one stamped atomic are identical. */
  lemma {:induction false} ResponsesIdenticalOverTransport(
      p: Params, steps: seq<Step>, mem: map<nat, nat>, cache: Cache<VerbHandler.Reply>, times: seq<int>,
      resolve: Resolver, sn: nat)
    requires |times| == |After(p, steps).handed| && cache.entries == map[]
    requires var plan := PlanOf(After(p, steps).sent, resolve);
             VerbHandler.UniqueIds(plan) && sn in plan && VerbHandler.Atomic(plan[sn].op)
    requires VerbHandler.AllTimely(VerbHandler.Fresh(mem, cache), PlanOf(After(p, steps).sent, resolve),
                                   ArrivalsOf(After(p, steps).handed, times))
    ensures var s := After(p, steps);
            var t := HandleAll(VerbHandler.Fresh(mem, cache), s.handed, times, resolve);
            VerbHandler.OneAnswer(t, PlanOf(s.sent, resolve)[sn].reqId)
  {
    hide After, VerbHandler.After, HandleAll, PlanOf, ArrivalsOf, VerbHandler.AllTimely;
    var s, n := After(p, steps), VerbHandler.Fresh(mem, cache);
    HandlerRunsStampedRequests(p, steps, n, times, resolve);
    VerbHandler.ResponsesIdentical(mem, cache, PlanOf(s.sent, resolve), ArrivalsOf(s.handed, times), sn);
  }

  // ---- writes, at most once whatever the delays ----

  ghost predicate WritesHanded(log: seq<VerbHandler.Exec>, up: seq<Handed>) {
    forall i :: 0 <= i < |log| && log[i].req.op.WriteWord? ==>
      exists j :: 0 <= j < |up| && Once(up[j]) && up[j].sn == log[i].sn
  }

  ghost predicate WritesOnce(log: seq<VerbHandler.Exec>) {
    forall i, j :: 0 <= i < j < |log| && log[i].req.op.WriteWord? && log[j].req.op.WriteWord? ==> log[i].sn != log[j].sn
  }

  ghost predicate OnceIncreasing(up: seq<Handed>) {
    forall i, j :: 0 <= i < j < |up| && Once(up[i]) && Once(up[j]) ==> up[i].sn < up[j].sn
  }

  lemma WriteIsOnce(f: Frame, sn: nat, resolve: Resolver)
    ensures RequestOf(f, resolve).Some? && RequestOf(f, resolve).value.op.WriteWord? ==> Once(Handed(sn, f))
  {
    hide Word;
  }

  lemma {:induction false} WritesAtMostOnce(
      n: VerbHandler.Node, up: seq<Handed>, times: seq<int>, resolve: Resolver)
    requires |times| == |up| && OnceIncreasing(up) && n.log == []
    ensures var t := HandleAll(n, up, times, resolve); WritesHanded(t.log, up) && WritesOnce(t.log)
    decreases |up|
  {
    hide RequestOf, VerbHandler.Handle, Once;
    if up != [] {
      var k := |up| - 1;
      WritesAtMostOnce(n, up[..k], times[..k], resolve);
      var q, r := HandleAll(n, up[..k], times[..k], resolve), RequestOf(up[k].frame, resolve);
      var t := HandleAll(n, up, times, resolve);
      if r.Some? {
        HandleLogs(q, up[k].sn, r.value, times[k]);
        WriteIsOnce(up[k].frame, up[k].sn, resolve);
        assert Handed(up[k].sn, up[k].frame) == up[k];
      }
      OneMore(q.log, t.log, up);
    }
  }

  lemma {:induction false} OneMore(log: seq<VerbHandler.Exec>, log': seq<VerbHandler.Exec>, up: seq<Handed>)
    requires up != [] && OnceIncreasing(up) && WritesHanded(log, up[..|up| - 1]) && WritesOnce(log)
    requires log' == log || (|log'| == |log| + 1 && log'[..|log|] == log && log'[|log|].sn == up[|up| - 1].sn
                             && (log'[|log|].req.op.WriteWord? ==> Once(up[|up| - 1])))
    ensures WritesHanded(log', up) && WritesOnce(log')
  {
    hide Once;
    var k := |up| - 1;
    forall i | 0 <= i < |log| && log[i].req.op.WriteWord?
      ensures exists j :: 0 <= j < k && Once(up[j]) && up[j].sn == log[i].sn
    {
      var j :| 0 <= j < k && Once(up[..k][j]) && up[..k][j].sn == log[i].sn;
      assert Once(up[j]);
    }
    assert forall i :: 0 <= i < |log| ==> log'[i] == log[i];
  }

  /** End to end, over any network and however late duplicates come, no write executes twice. */
  lemma {:induction false} WritesExecuteOnce(
      p: Params, steps: seq<Step>, mem: map<nat, nat>, cache: Cache<VerbHandler.Reply>, times: seq<int>,
      resolve: Resolver)
    requires Proper(p) && |times| == |After(p, steps).handed|
    ensures WritesOnce(HandleAll(VerbHandler.Fresh(mem, cache), After(p, steps).handed, times, resolve).log)
  {
    hide After, Once, HandleAll;
    var up := After(p, steps).handed;
    forall i, j | 0 <= i < j < |up| && Once(up[i]) && Once(up[j])
      ensures up[i].sn < up[j].sn
    {
      AtMostOnceInOrder(p, steps, i, j);
    }
    WritesAtMostOnce(VerbHandler.Fresh(mem, cache), up, times, resolve);
  }

  // ---- a late duplicate over a real network ----

  /** An increment of the addressed word, as bytes; requests differ in their id. */
  function IncrementFrame(id: nat): Frame {
    Frame(FrameHeader(MAGIC, VERSION, Data, 0, 0, 0, 0, 0, 0, 0),
          Some(ExtHeader(AtomicFaa, 0, 0, 0, 0, id, 0, 0, 0, 0, None)), BE(8, 1))
  }

  lemma {:induction false} IncrementDecodes(id: nat)
    requires id < U64
    ensures Decode(Encode(IncrementFrame(id))) == Ok(IncrementFrame(id))
  {
    assert Pow256(8) == U64 && Pow256(4) == U32 && Pow256(1) == 256 && Pow256(16) > 0;
    hide BE;
    assert Sized(IncrementFrame(id)) && Consistent(IncrementFrame(id));
    RoundTrip(IncrementFrame(id));
  }

  function Raw(id: nat): seq<byte> { Patch(Encode(IncrementFrame(id)), id) }

  lemma {:induction false} RawDecodes(id: nat)
    requires 1 <= id < U64
    ensures Decode(Raw(id)) == Ok(WithSeq(IncrementFrame(id), id))
  {
    IncrementDecodes(id);
    assert Pow256(8) == U64;
    hide Decode, Patch, Encode;
    PatchCommutes(Encode(IncrementFrame(id)), id);
  }

  function Send(id: nat): Step { SendFrame(Encode(IncrementFrame(id)), false, id, 0) }

  function Recv(id: nat): Step { RecvData(Raw(id)) }

  /** One increment sent, received, received again, which brings out an ACK, and the ACK returned. A single credit is
      enough to go on like this for ever. */
  function Rounds(n: nat): seq<Step> {
    if n == 0 then [] else Rounds(n - 1) + [Send(n)] + [Recv(n)] + [Recv(n)] + [RecvAck(n - 1)]
  }

  function Carried(id: nat): Handed { Handed(id, WithSeq(IncrementFrame(id), id)) }

  function TwiceUp(n: nat): seq<Handed> { if n == 0 then [] else TwiceUp(n - 1) + [Carried(n)] + [Carried(n)] }

  ghost predicate OnWire(s: State, id: nat) {
    1 <= id <= |s.sent| && s.sent[id - 1].frame == Raw(id) && Raw(id) in s.wire
  }

  ghost predicate AllStamped(s: State, n: nat) { |s.sent| == n && forall id :: 1 <= id <= n ==> OnWire(s, id) }

  /** n increments are stamped, the first k of them seen; `due` receptions are not yet acknowledged. */
  ghost predicate Reached(s: State, n: nat, k: nat, due: nat, acks: nat) {
    && AllStamped(s, n) && s.snd.active && s.snd.nextSeq == n + 1
    && s.rcvActive && s.rcv.window == Window(k + 1, {}, 1024) && s.rcv.toGrant == s.rcv.sinceAck == due
    && |s.acks| == acks
  }

  lemma SameStamps(s: State, t: State, n: nat)
    requires AllStamped(s, n) && t.sent == s.sent && s.wire <= t.wire
    ensures AllStamped(t, n)
  {
    hide Raw;
    forall id | 1 <= id <= n
      ensures OnWire(t, id)
    {
      assert OnWire(s, id);
    }
  }

  lemma SendNext(s: State, id: nat)
    requires id >= 1 && id + 1 < U64 && Reached(s, id - 1, id - 1, 0, id - 1) && s.snd.credits >= 1
    ensures var t := DoSend(s, Encode(IncrementFrame(id)), false, id, 0);
            Reached(t, id, id - 1, 0, id - 1) && t.handed == s.handed
  {
    hide Patch, Encode;
    var t := DoSend(s, Encode(IncrementFrame(id)), false, id, 0);
    forall k | 1 <= k <= id
      ensures OnWire(t, k)
    {
      if k < id { assert OnWire(s, k); }
    }
  }

  lemma Receptions(r: RecvSide, k: nat)
    requires r.window == Window(k + 1, {}, 1024)
    ensures ReceiveFrame(r, k + 1)
              == (r.(window := Window(k + 2, {}, 1024), toGrant := r.toGrant + 1, sinceAck := r.sinceAck + 1), Deliver)
    ensures forall id :: 1 <= id <= k ==>
              ReceiveFrame(r, id) == (r.(toGrant := r.toGrant + 1, sinceAck := r.sinceAck + 1), Duplicate)
  {
    var v := Window(k + 1, {} + {k + 1}, 1024);
    assert v.ahead - {k + 1} == {};
    assert Advance(v) == Advance(Window(k + 2, {}, 1024));
  }

  /** Receiving one of the stamped increments is accepting its frame. */
  lemma {:induction false} RecvIsAccept(p: Params, s: State, n: nat, id: nat)
    requires 1 <= id <= n < U32 && AllStamped(s, n) && s.rcvActive && s.rcv.toGrant < 8
    ensures DoRecvData(p, s, Raw(id)) == Accept(p, s, Carried(id).frame)
  {
    hide Decode, Patch, Encode, Accept;
    RawDecodes(id);
    assert OnWire(s, id);
  }

  lemma CarriedIs(id: nat)
    ensures var h := Carried(id);
            && h.sn == id && h.frame.header.streamSeq == id && h.frame.ext.Some?
            && h.frame.ext.value.verb == AtomicFaa
  {
    hide BE;
  }

  lemma {:induction false} FirstCopy(p: Params, s: State, id: nat)
    requires 1 <= id < U32 && Reached(s, id, id - 1, 0, id - 1)
    ensures var t := DoRecvData(p, s, Raw(id));
            Reached(t, id, id, 1, id - 1) && t.handed == s.handed + [Carried(id)] && t.snd == s.snd
  {
    hide DoRecvData, ReceiveFrame, AllStamped, Carried, Raw, EmitAck;
    RecvIsAccept(p, s, id, id);
    CarriedIs(id);
    Receptions(s.rcv, id - 1);
    SameStamps(s, Accept(p, s, Carried(id).frame), id);
  }

  /** Accepting a duplicate atomic hands it up and acknowledges it. */
  lemma AcceptAgain(p: Params, s: State, h: Handed)
    requires h.frame.ext.Some? && h.frame.ext.value.verb == AtomicFaa && h.frame.header.streamSeq == h.sn
    requires ReceiveFrame(s.rcv, h.sn).1 == Duplicate
    ensures Accept(p, s, h.frame)
              == EmitAck(p, s.(rcv := ReceiveFrame(s.rcv, h.sn).0, received := s.received + 1, repeats := s.repeats + 1,
                               handed := s.handed + [h]), false)
  {
    hide ReceiveFrame, EmitAck;
  }

  /** A second copy is handed up again, because atomics are, and acknowledged at once. */
  lemma {:induction false} SecondCopy(p: Params, s: State, n: nat, id: nat, due: nat, acks: nat)
    requires Proper(p) && 1 <= id <= n < U32 && Reached(s, n, n, due, acks) && due < 7
    requires WindowInv(s) && AckInv(s)
    ensures var t := DoRecvData(p, s, Raw(id));
            && Reached(t, n, n, 0, acks + 1) && t.handed == s.handed + [Carried(id)] && t.snd == s.snd
            && AckOfBytes(t.acks[acks]).Some? && AckOfBytes(t.acks[acks]).value.grant == due + 1
  {
    hide DoRecvData, ReceiveFrame, AllStamped, Carried, Raw, AckOfBytes, SackBitmap, AckFrame, Accept;
    RecvIsAccept(p, s, n, id);
    CarriedIs(id);
    Receptions(s.rcv, n);
    AcceptAgain(p, s, Carried(id));
    var u := s.(rcv := ReceiveFrame(s.rcv, id).0, received := s.received + 1, repeats := s.repeats + 1,
                handed := s.handed + [Carried(id)]);
    SameAcks(s, u);
    EmitKeeps(p, u, false);
    SameStamps(s, EmitAck(p, u, false), n);
  }

  lemma {:induction false} AckLands(p: Params, s: State, n: nat, i: nat)
    requires Reached(s, n, n, 0, i + 1) && AckOfBytes(s.acks[i]).Some? && AckOfBytes(s.acks[i]).value.grant >= 1
    ensures var t := DoRecvAck(s, i);
            Reached(t, n, n, 0, i + 1) && t.handed == s.handed && t.snd.credits >= 1
  {
    hide AckOfBytes, Unacked, OnWire, AllStamped;
    SameStamps(s, DoRecvAck(s, i), n);
  }

  lemma {:induction false} AllRounds(p: Params, n: nat)
    requires Proper(p) && p.credits >= 1 && n < U32
    ensures var s := After(p, Rounds(n)); Reached(s, n, n, 0, n) && s.handed == TwiceUp(n) && s.snd.credits >= 1
  {
    hide After, Send, Recv, Reached, DoSend, DoRecvData, DoRecvAck, AckOfBytes, WindowInv, AckInv, Carried;
    if n == 0 {
      NoRounds(p);
    } else {
      AllRounds(p, n - 1);
      var w0 := Rounds(n - 1);
      var w1 := w0 + [Send(n)];
      var w2 := w1 + [Recv(n)];
      var w3 := w2 + [Recv(n)];
      OneRound(p, n, w0, w1, w2, w3);
      AfterSnoc(p, w3, RecvAck(n - 1));
      AckLands(p, After(p, w3), n, n - 1);
    }
  }

  lemma {:induction false} OneRound(
      p: Params, n: nat, w0: seq<Step>, w1: seq<Step>, w2: seq<Step>, w3: seq<Step>)
    requires Proper(p) && 1 <= n < U32 && w1 == w0 + [Send(n)] && w2 == w1 + [Recv(n)] && w3 == w2 + [Recv(n)]
    requires var s := After(p, w0); Reached(s, n - 1, n - 1, 0, n - 1) && s.snd.credits >= 1
    ensures var s, t := After(p, w0), After(p, w3);
            && Reached(t, n, n, 0, n) && t.handed == s.handed + [Carried(n)] + [Carried(n)] && |t.acks| == n
            && AckOfBytes(t.acks[n - 1]).Some? && AckOfBytes(t.acks[n - 1]).value.grant >= 1
  {
    AfterSnoc(p, w0, Send(n));
    AfterSnoc(p, w1, Recv(n));
    AfterSnoc(p, w2, Recv(n));
    hide After, DoSend, DoRecvData, AckOfBytes, WindowInv, AckInv, Carried, AllStamped, WireInv, QueueInv;
    SendNext(After(p, w0), n);
    FirstCopy(p, After(p, w1), n);
    Always(p, w2);
    SecondCopy(p, After(p, w2), n, n, 1, n - 1);
  }

  lemma NoRounds(p: Params)
    requires p.credits >= 1
    ensures var s := After(p, Rounds(0)); Reached(s, 0, 0, 0, 0) && s.handed == TwiceUp(0) && s.snd.credits >= 1
  {
  }

  /** The run: n rounds, then the first increment once more. */
  function LateRun(n: nat): seq<Step> { Rounds(n) + [Recv(1)] }

  lemma {:induction false} LateHandedUp(p: Params, n: nat)
    requires Proper(p) && p.credits >= 1 && 1 <= n < U32
    ensures var s := After(p, LateRun(n)); AllStamped(s, n) && s.handed == TwiceUp(n) + [Carried(1)]
  {
    AllRounds(p, n);
    AfterSnoc(p, Rounds(n), Recv(1));
    Always(p, Rounds(n));
    hide After, Rounds, DoRecvData, AckOfBytes, WindowInv, AckInv, Carried, AllStamped, TwiceUp, WireInv, QueueInv;
    SecondCopy(p, After(p, Rounds(n)), n, 1, 0, n);
  }

  lemma {:induction false} IncrementsPlanned(s: State, n: nat, resolve: Resolver)
    requires AllStamped(s, n) && n < U32 && forall e, k :: resolve(e, k) == 0
    ensures PlanOf(s.sent, resolve) == VerbHandler.Increments(n)
  {
    hide Decode, Patch, Encode, FromBE;
    forall sn: nat | 1 <= sn <= n
      ensures Stamped(s.sent, sn, resolve) == Some(VerbHandler.Request(sn, VerbHandler.Faa(0, 1)))
    {
      RawDecodes(sn);
      assert OnWire(s, sn);
      assert BE(8, 1)[..8] == BE(8, 1);
      OneIsOne();
    }
  }

  lemma OneIsOne()
    ensures FromBE(BE(8, 1)) == 1
  {
    assert Pow256(8) > 1;
    FromBEofBE(8, 1);
  }

  lemma {:induction false} TwiceArrives(n: nat)
    ensures |TwiceUp(n)| == 2 * n && ArrivalsOf(TwiceUp(n), seq(2 * n, _ => 0)) == VerbHandler.Twice(n)
  {
    hide Carried;
    if n > 0 {
      TwiceArrives(n - 1);
      assert ArrivalsOf(TwiceUp(n), seq(2 * n, _ => 0))
          == ArrivalsOf(TwiceUp(n - 1), seq(2 * (n - 1), _ => 0))
             + [VerbHandler.Arrival(n, 0)] + [VerbHandler.Arrival(n, 0)] by { CarriedIs(n); }
    }
  }

  /** What the handler makes of that run. */
  lemma {:induction false} LateFeed(
      p: Params, m: VerbHandler.Node, resolve: Resolver, n: nat, times: seq<int>)
    requires Proper(p) && p.credits >= 1 && 1 <= n < U32 && forall e, k :: resolve(e, k) == 0
    requires times == seq(2 * n + 1, _ => 0)
    ensures var s := After(p, LateRun(n));
            && |s.sent| == n && |s.handed| == 2 * n + 1
            && HandleAll(m, s.handed, times, resolve)
                 == VerbHandler.After(m, VerbHandler.Increments(n), VerbHandler.Twice(n) + [VerbHandler.Arrival(1, 0)])
  {
    hide After, HandleAll, PlanOf, VerbHandler.After, TwiceUp, VerbHandler.Twice, OnWire, Carried, LateRun, ArrivalsOf;
    var s := After(p, LateRun(n));
    LateHandedUp(p, n);
    TwiceArrives(n);
    IncrementsPlanned(s, n, resolve);
    HandlerRunsStampedRequests(p, LateRun(n), m, times, resolve);
    CarriedIs(1);
    ArrivalsPush(TwiceUp(n), Carried(1), 2 * n);
  }

  /** A late duplicate over the transport, whatever the initial credits: 1025 increments are sent and executed, then the
      network delivers the first one again; the word ends at 1026. */
  lemma {:induction false} LateDuplicateOverTransport(p: Params, cache: Cache<VerbHandler.Reply>, resolve: Resolver)
    requires Proper(p) && p.credits >= 1 && forall e, k :: resolve(e, k) == 0
    ensures var s := After(p, LateRun(1025));
            && |s.sent| == 1025 && |s.handed| == 2051
            && HandleAll(VerbHandler.Fresh(map[0 := 0], cache), s.handed, seq(2051, _ => 0), resolve).mem
                 == map[0 := 1026]
  {
    hide After, HandleAll, VerbHandler.After, VerbHandler.Twice, VerbHandler.Increments, LateRun;
    LateFeed(p, VerbHandler.Fresh(map[0 := 0], cache), resolve, 1025, seq(2051, _ => 0));
    VerbHandler.LateDuplicateAfterTwice(cache);
  }

  lemma ArrivalsPush(up: seq<Handed>, h: Handed, n: nat)
    requires |up| == n
    ensures ArrivalsOf(up + [h], seq(n + 1, _ => 0)) == ArrivalsOf(up, seq(n, _ => 0)) + [VerbHandler.Arrival(h.sn, 0)]
  {
  }
}
