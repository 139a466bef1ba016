/** One reliable session. The functions give each operation on values; `ReliableSession` is the object that
    performs it in place and is proved against them. Clock readings are parameters. */
module Session {
  import opened Bytes
  import opened FrameCodec
  import opened Dedup

  const U32_MAX: nat := 0xFFFF_FFFF
  const RECORD_LIMIT: nat := 1024

  datatype Entry = Entry(
    sn: nat, frame: seq<byte>, deadline: int, retries: nat, fireAndForget: bool, reqId: nat)

  datatype SendSide = SendSide(
    active: bool, nextSeq: nat, credits: nat, queue: seq<Entry>, lastAck: nat, dupAcks: nat)

  /** `executed` lists the sequence numbers of the execution records, oldest first. */
  datatype RecvSide = RecvSide(window: Window, executed: seq<nat>, toGrant: nat, sinceAck: nat)

  datatype ReceiveAction = Deliver | Duplicate | Gap | Beyond

  datatype Config = Config(rtoBase: nat, maxRetries: nat)

  // ---- sending ----

  function AssignSeq(s: SendSide, frame: seq<byte>, ff: bool, reqId: nat, deadline: int): SendSide {
    s.(nextSeq := s.nextSeq + 1,
       queue := s.queue + [Entry(s.nextSeq, Patch(frame, s.nextSeq), deadline, 0, ff, reqId)])
  }

  function AddCredits(s: SendSide, n: nat): SendSide {
    s.(credits := if s.credits + n > U32_MAX then U32_MAX else s.credits + n)
  }

  predicate Acked(e: Entry, ackSeq: nat) { e.sn <= ackSeq && e.fireAndForget }

  function Unacked(q: seq<Entry>, ackSeq: nat): seq<Entry> {
    if q == [] then []
    else
      var p := Unacked(q[..|q| - 1], ackSeq);
      if Acked(q[|q| - 1], ackSeq) then p else p + [q[|q| - 1]]
  }

  function AckedOf(q: seq<Entry>, ackSeq: nat): seq<Entry> {
    if q == [] then []
    else
      var p := AckedOf(q[..|q| - 1], ackSeq);
      if Acked(q[|q| - 1], ackSeq) then p + [q[|q| - 1]] else p
  }

  /** Nothing is lost or duplicated: an ACK splits the queue into what it removes and what stays. */
  lemma {:induction false} AckPartitions(q: seq<Entry>, ackSeq: nat)
    ensures multiset(Unacked(q, ackSeq)) + multiset(AckedOf(q, ackSeq)) == multiset(q)
    ensures forall e :: e in Unacked(q, ackSeq) <==> e in q && !Acked(e, ackSeq)
  {
    if q != [] {
      AckPartitions(q[..|q| - 1], ackSeq);
      assert q == q[..|q| - 1] + [q[|q| - 1]];
    }
  }

  /** An ACK that advances also restarts the count of duplicate ACKs. */
  function ProcessAck(s: SendSide, a: AckPayload): SendSide {
    AddCredits(s.(queue := Unacked(s.queue, a.ackSeq),
                  dupAcks := if a.ackSeq > s.lastAck then 0 else s.dupAcks), a.grant)
  }

  /** Three ACKs in a row that do not advance ask for the first unacknowledged frame. */
  function FastRetransmit(s: SendSide, a: AckPayload): (SendSide, Option<nat>) {
    if a.ackSeq > s.lastAck then (s.(lastAck := a.ackSeq, dupAcks := 0), None)
    else if s.dupAcks + 1 >= 3 then (s.(dupAcks := 0), Some(a.ackSeq + 1))
    else (s.(dupAcks := s.dupAcks + 1), None)
  }

  predicate Answers(e: Entry, reqId: nat) { e.reqId == reqId && !e.fireAndForget }

  function RemoveFirst(q: seq<Entry>, reqId: nat): seq<Entry> {
    if q == [] then [] else if Answers(q[0], reqId) then q[1..] else [q[0]] + RemoveFirst(q[1..], reqId)
  }

  /** Completing a request takes out exactly the first entry that waits for its response. */
  lemma {:induction false} CompletesFirst(q: seq<Entry>, reqId: nat, i: nat)
    requires i < |q| && q[i].reqId == reqId && !q[i].fireAndForget
    requires forall j :: 0 <= j < i ==> q[j].reqId != reqId || q[j].fireAndForget
    ensures RemoveFirst(q, reqId) == q[..i] + q[i + 1..]
  {
    if i > 0 {
      CompletesFirst(q[1..], reqId, i - 1);
      assert q[1..][..i - 1] == q[1..i] && q[1..][i..] == q[i + 1..];
    }
  }

  /** A response that no entry waits for takes nothing out. */
  lemma {:induction false} CompletesNone(q: seq<Entry>, reqId: nat)
    requires forall j :: 0 <= j < |q| ==> q[j].reqId != reqId || q[j].fireAndForget
    ensures RemoveFirst(q, reqId) == q
  {
    if q != [] { CompletesNone(q[1..], reqId); }
  }

  /** The queued entry under a number. */
  function Lookup(q: seq<Entry>, sn: nat): Option<Entry> {
    if q == [] then None else if q[0].sn == sn then Some(q[0]) else Lookup(q[1..], sn)
  }

  function Kill(s: SendSide): SendSide { s.(active := false, queue := []) }

  datatype ScanResult = ScanResult(queue: seq<Entry>, timeouts: seq<nat>, kill: bool)

  function Bump(e: Entry, now: int, cfg: Config): Entry {
    e.(retries := e.retries + 1,
       deadline := now + cfg.rtoBase * Pow2(if e.retries + 1 < 10 then e.retries + 1 else 10))
  }

  /** The first retry waits two base intervals and each later one twice the wait before, up to 1024 base intervals. */
  lemma BackoffDoubles(e: Entry, now: int, f: Entry, then': int, cfg: Config)
    requires f.retries == e.retries + 1
    ensures var wait, next := Bump(e, now, cfg).deadline - now, Bump(f, then', cfg).deadline - then';
            && Bump(e, now, cfg) == e.(retries := e.retries + 1, deadline := now + wait)
            && (e.retries == 0 ==> wait == 2 * cfg.rtoBase)
            && (e.retries + 1 < 10 ==> next == 2 * wait)
            && (e.retries + 1 >= 10 ==> next == wait == 1024 * cfg.rtoBase)
  {
    assert Pow2(10) == 1024 by { PowTen(); }
    if e.retries + 1 < 10 { Twice(cfg.rtoBase, Pow2(e.retries + 1)); }
  }

  lemma PowTen()
    ensures Pow2(10) == 1024
  {
    assert Pow2(5) == 32;
    assert Pow2(8) == 256;
  }

  lemma Twice(a: int, b: int)
    ensures a * (2 * b) == 2 * (a * b)
  {
  }

  /** The timeout scan: stops at the first entry whose retries are used up. */
  function Scan(q: seq<Entry>, now: int, cfg: Config): ScanResult {
    if q == [] then ScanResult([], [], false)
    else
      var p, e := Scan(q[..|q| - 1], now, cfg), q[|q| - 1];
      if p.kill then p
      else if now < e.deadline then p.(queue := p.queue + [e])
      else if e.retries + 1 > cfg.maxRetries then p.(kill := true)
      else ScanResult(p.queue + [Bump(e, now, cfg)], p.timeouts + [e.sn], false)
  }

  function CheckRto(s: SendSide, now: int, cfg: Config): (SendSide, seq<nat>) {
    if !s.active then (s, [])
    else
      var r := Scan(s.queue, now, cfg);
      if r.kill then (Kill(s), [])
      else (s.(queue := r.queue, dupAcks := if r.timeouts != [] then 0 else s.dupAcks), r.timeouts)
  }

  // ---- receiving ----

  function ReceiveFrame(r: RecvSide, s: nat): (RecvSide, ReceiveAction) {
    var r' := r.(sinceAck := r.sinceAck + 1, toGrant := r.toGrant + 1);
    match Check(r.window, s)
    case InOrder => (r'.(window := Mark(r.window, s)), Deliver)
    case AlreadySeen => (r', Duplicate)
    case OutOfOrder => (r'.(window := Mark(r.window, s)), Gap)
    case BeyondWindow => (r', Beyond)
  }

  function Trim(records: seq<nat>): seq<nat> {
    if |records| > RECORD_LIMIT then records[|records| - RECORD_LIMIT..] else records
  }

  function MarkExecuted(records: seq<nat>, s: nat): seq<nat> {
    if s in records then records else Trim(records + [s])
  }

  predicate ShouldSendAck(r: RecvSide) { r.sinceAck >= 8 || r.toGrant >= 8 }

  function AckSeqOf(w: Window): nat { if w.next == 0 then 0 else w.next - 1 }

  /** The low `n` bits of byte `k` of the SACK bitmap. */
  function SackByte(w: Window, k: nat, n: nat): nat {
    if n == 0 then 0
    else
      var p := SackByte(w, k, n - 1);
      if Seen(w, AckSeqOf(w) + 1 + 8 * k + n - 1) then OrBit(p, n - 1) else p
  }

  lemma {:induction false} SackByteFits(w: Window, k: nat, n: nat)
    ensures SackByte(w, k, n) < Pow2(n)
    decreases n
  {
    if n > 0 {
      SackByteFits(w, k, n - 1);
      OrBitFits(SackByte(w, k, n - 1), n - 1, n);
    }
  }

  lemma {:induction false} SackByteBits(w: Window, k: nat, n: nat, j: nat)
    ensures Bit(SackByte(w, k, n), j) <==> j < n && Seen(w, AckSeqOf(w) + 1 + 8 * k + j)
    decreases n
  {
    if n == 0 {
      ZeroBits(j);
    } else {
      SackByteBits(w, k, n - 1, j);
      OrBitAt(SackByte(w, k, n - 1), n - 1, j);
    }
  }

  function SackBitmap(w: Window): (m: seq<byte>)
    ensures |m| == 32
  {
    seq(32, k requires 0 <= k < 32 => SackFullByte(w, k))
  }

  function SackFullByte(w: Window, k: nat): byte {
    assert SackByte(w, k, 8) < 256 by { SackByteFits(w, k, 8); assert Pow2(8) == 256; }
    SackByte(w, k, 8)
  }

  function BuildAck(r: RecvSide, hasGap: bool): (RecvSide, AckPayload) {
    (r.(toGrant := 0, sinceAck := 0),
     AckPayload(AckSeqOf(r.window), r.toGrant, 0, if hasGap then Some(SackBitmap(r.window)) else None))
  }

  /** Bit `i` of the SACK bitmap says whether `ack_seq + 1 + i` was seen; bit 0 is never set. */
  lemma {:induction false} SackIsExact(w: Window, i: nat)
    requires Settled(w) && w.next >= 1 && i < 256
    ensures Bit(SackBitmap(w)[i / 8], i % 8) <==> Seen(w, AckSeqOf(w) + 1 + i)
    ensures !Bit(SackBitmap(w)[0], 0)
  {
    SackByteBits(w, i / 8, 8, i % 8);
    SackByteBits(w, 0, 8, 0);
  }

  /** `ack_seq` is the largest n with 1..n all seen. */
  lemma {:induction false} AckSeqIsLargest(w: Window, n: nat)
    requires Settled(w) && w.next >= 1
    ensures n == AckSeqOf(w) <==> (forall x: nat :: x <= n ==> Seen(w, x)) && !Seen(w, n + 1)
  {
    NextIsLeastUnseen(w, n + 1);
  }
}
