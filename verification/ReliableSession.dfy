/** The session object: every method changes the fields in place and is proved to perform the operation that
    module Session defines on values. */
module SessionObject {
  import opened Bytes
  import opened FrameCodec
  import opened Dedup
  import opened Session

  class ReliableSession {
    var active: bool
    var nextSeq: nat
    var availableCredits: nat
    var retransmitQueue: seq<Entry>
    var lastAckSeq: nat
    var dupAckCount: nat
    const config: Config
    const dedup: DedupWindow
    var executionRecords: seq<nat>
    var creditsToGrant: nat
    var framesSinceLastAck: nat

    ghost predicate Valid()
      reads this, dedup, dedup.seen
    {
      dedup.Valid() && dedup.windowSize > 0
    }

    ghost function Sender(): SendSide
      reads this
    {
      SendSide(active, nextSeq, availableCredits, retransmitQueue, lastAckSeq, dupAckCount)
    }

    ghost function Receiver(): RecvSide
      reads this, dedup
    {
      RecvSide(dedup.View(), executionRecords, creditsToGrant, framesSinceLastAck)
    }

    constructor (config: Config, initialCredits: nat)
      ensures Valid() && fresh(dedup) && fresh(dedup.seen)
      ensures this.config == config
      ensures Sender() == SendSide(true, 1, initialCredits, [], 0, 0)
      ensures Receiver() == RecvSide(Window(1, {}, 1024), [], 0, 0)
    {
      this.config := config;
      active, nextSeq, availableCredits := true, 1, initialCredits;
      retransmitQueue, lastAckSeq, dupAckCount := [], 0, 0;
      dedup := new DedupWindow(1, 1024);
      executionRecords, creditsToGrant, framesSinceLastAck := [], 0, 0;
    }

    /** Stamps the frame bytes in place and queues a copy for retransmission. */
    method AssignSeqTo(frame: array<byte>, fireAndForget: bool, reqId: nat, deadline: int) returns (sn: nat)
      modifies this`nextSeq, this`retransmitQueue, frame
      ensures sn == old(nextSeq)
      ensures frame[..] == Patch(old(frame[..]), sn)
      ensures Sender() == AssignSeq(old(Sender()), old(frame[..]), fireAndForget, reqId, deadline)
      ensures retransmitQueue == old(retransmitQueue) + [Entry(sn, frame[..], deadline, 0, fireAndForget, reqId)]
    {
      sn := nextSeq;
      nextSeq := nextSeq + 1;
      ghost var was := frame[..];
      if frame.Length >= 24 {
        var b := BE(8, sn);
        forall i | 0 <= i < 8 { frame[16 + i] := b[i]; }
        assert frame[..] == was[..16] + b + was[24..];
      }
      if frame.Length >= 8 {
        ghost var stamped := frame[..];
        var flags := FromBE(frame[6..8]);
        assert stamped[6..8] == frame[6..8];
        var b := BE(2, SetAckReq(flags));
        frame[6], frame[7] := b[0], b[1];
        assert frame[..] == stamped[..6] + b + stamped[8..];
      }
      retransmitQueue := retransmitQueue + [Entry(sn, frame[..], deadline, 0, fireAndForget, reqId)];
    }

    method ConsumeCredit() returns (ok: bool)
      modifies this`availableCredits
      ensures ok <==> old(availableCredits) > 0
      ensures availableCredits == if ok then old(availableCredits) - 1 else old(availableCredits)
    {
      if availableCredits == 0 { return false; }
      availableCredits := availableCredits - 1;
      ok := true;
    }

    /** Drops the acknowledged fire-and-forget entries; requests stay until their response arrives. */
    method ApplyAck(a: AckPayload) returns (removed: seq<Entry>)
      modifies this`retransmitQueue, this`availableCredits, this`dupAckCount
      ensures Sender() == ProcessAck(old(Sender()), a)
      ensures removed == AckedOf(old(retransmitQueue), a.ackSeq)
    {
      removed := [];
      var keep := [];
      ghost var q, i := retransmitQueue, 0;
      while retransmitQueue != []
        invariant 0 <= i <= |q| && retransmitQueue == q[i..]
        invariant keep == Unacked(q[..i], a.ackSeq)
        invariant removed == AckedOf(q[..i], a.ackSeq)
        invariant availableCredits == old(availableCredits) && dupAckCount == old(dupAckCount)
        decreases |retransmitQueue|
      {
        var entry := retransmitQueue[0];
        retransmitQueue := retransmitQueue[1..];
        assert q[..i + 1][..i] == q[..i];
        if entry.sn <= a.ackSeq && entry.fireAndForget {
          removed := removed + [entry];
        } else {
          keep := keep + [entry];
        }
        i := i + 1;
      }
      assert q[..|q|] == q;
      retransmitQueue := keep;
      availableCredits :=
        if availableCredits + a.grant > U32_MAX then U32_MAX else availableCredits + a.grant;
      if a.ackSeq > lastAckSeq { dupAckCount := 0; }
    }

    method CheckFastRetransmit(a: AckPayload) returns (resend: Option<nat>)
      modifies this`lastAckSeq, this`dupAckCount
      ensures (Sender(), resend) == FastRetransmit(old(Sender()), a)
      ensures resend ==
              if a.ackSeq <= old(lastAckSeq) && old(dupAckCount) >= 2 then Some(a.ackSeq + 1) else None
    {
      if a.ackSeq > lastAckSeq {
        lastAckSeq, dupAckCount := a.ackSeq, 0;
        return None;
      }
      dupAckCount := dupAckCount + 1;
      if dupAckCount >= 3 {
        dupAckCount := 0;
        return Some(a.ackSeq + 1);
      }
      return None;
    }

    method CompleteRequest(reqId: nat) returns (found: bool)
      modifies this`retransmitQueue
      ensures Sender() == old(Sender()).(queue := RemoveFirst(old(retransmitQueue), reqId))
      ensures found <==> exists e :: e in old(retransmitQueue) && e.reqId == reqId && !e.fireAndForget
    {
      hide RemoveFirst;
      var q := retransmitQueue;
      for pos := 0 to |q|
        invariant retransmitQueue == q
        invariant forall k :: 0 <= k < pos ==> !Answers(q[k], reqId)
      {
        if q[pos].reqId == reqId && !q[pos].fireAndForget {
          CompletesFirst(q, reqId, pos);
          retransmitQueue := q[..pos] + q[pos + 1..];
          assert q[pos] in q;
          return true;
        }
      }
      CompletesNone(q, reqId);
      found := false;
    }

    method FindEntry(sn: nat) returns (e: Option<Entry>)
      ensures e == Lookup(retransmitQueue, sn)
      ensures e.Some? ==> e.value in retransmitQueue && e.value.sn == sn
      ensures e.None? ==> forall x :: x in retransmitQueue ==> x.sn != sn
    {
      var q := retransmitQueue;
      for i := 0 to |q|
        invariant forall k :: 0 <= k < i ==> q[k].sn != sn
        invariant Lookup(q, sn) == Lookup(q[i..], sn)
      {
        if q[i].sn == sn { return Some(q[i]); }
        assert q[i..][1..] == q[i + 1..];
      }
      e := None;
    }

    method KillSession() returns (pending: seq<Entry>)
      modifies this`active, this`retransmitQueue
      ensures Sender() == Kill(old(Sender())) && pending == old(retransmitQueue)
      ensures !active && retransmitQueue == []
    {
      active := false;
      pending := retransmitQueue;
      retransmitQueue := [];
    }

    /** Updates expired entries in place, stopping at the first one whose retries are used up. */
    method ScanTimeouts(now: int) returns (timeouts: seq<nat>)
      modifies this`active, this`retransmitQueue, this`dupAckCount
      ensures (Sender(), timeouts) == CheckRto(old(Sender()), now, config)
    {
      hide Scan, Bump, Updated;
      if !active { return []; }
      timeouts := [];
      var q := retransmitQueue;
      ghost var done: seq<Entry> := [];
      ScanNone(now, config);
      UpdatedStart(q);
      for i := 0 to |q|
        invariant active && Updated(retransmitQueue, done, q, i) && dupAckCount == old(dupAckCount)
        invariant Scan(q[..i], now, config) == ScanResult(done, timeouts, false)
      {
        UpdatedNext(retransmitQueue, done, q, i);
        var entry := retransmitQueue[i];
        ScanNext(q, i, now, config, done, timeouts);
        if now >= entry.deadline {
          if entry.retries + 1 > config.maxRetries {
            KillIsSticky(q, i + 1, now, config);
            var _ := KillSession();
            return [];
          }
          var backoff := config.rtoBase * Pow2(if entry.retries + 1 < 10 then entry.retries + 1 else 10);
          BumpIs(entry, now, config);
          entry := entry.(retries := entry.retries + 1, deadline := now + backoff);
          retransmitQueue := retransmitQueue[i := entry];
          timeouts := timeouts + [entry.sn];
        }
        done := done + [entry];
      }
      assert q[..|q|] == q;
      UpdatedEnd(retransmitQueue, done, q);
      if timeouts != [] { dupAckCount := 0; }
    }

    method Receive(sn: nat) returns (action: ReceiveAction)
      requires Valid()
      modifies this`framesSinceLastAck, this`creditsToGrant, dedup`nextExpected, dedup`ahead, dedup.seen
      ensures Valid()
      ensures (Receiver(), action) == ReceiveFrame(old(Receiver()), sn)
    {
      framesSinceLastAck := framesSinceLastAck + 1;
      creditsToGrant := creditsToGrant + 1;
      var r := dedup.CheckSeq(sn);
      match r
      case InOrder =>
        var _ := dedup.MarkAndAdvance(sn);
        action := Deliver;
      case AlreadySeen =>
        action := Duplicate;
      case OutOfOrder =>
        var _ := dedup.MarkAndAdvance(sn);
        action := Gap;
      case BeyondWindow =>
        action := Beyond;
    }

    method MarkAsExecuted(sn: nat)
      modifies this`executionRecords
      ensures executionRecords == MarkExecuted(old(executionRecords), sn)
    {
      var known := IsExecuted(sn);
      if !known {
        ghost var grown := executionRecords + [sn];
        executionRecords := executionRecords + [sn];
        while |executionRecords| > RECORD_LIMIT
          invariant |executionRecords| >= RECORD_LIMIT || executionRecords == grown
          invariant |executionRecords| <= |grown|
          invariant executionRecords == grown[|grown| - |executionRecords|..]
        {
          executionRecords := executionRecords[1..];
        }
      }
    }

    method IsExecuted(sn: nat) returns (found: bool)
      ensures found <==> sn in executionRecords
    {
      for i := 0 to |executionRecords|
        invariant sn !in executionRecords[..i]
      {
        if executionRecords[i] == sn { return true; }
      }
      found := false;
    }

    /** Adds application credits. The CREDIT-frame branch needs eight credits pending and no ACK due, so it
        never fires: no credit frame is produced. */
    method GrantCredits(count: nat) returns (creditFrame: Option<nat>)
      modifies this`creditsToGrant
      ensures creditsToGrant == old(creditsToGrant) + count && creditFrame == None
    {
      creditsToGrant := creditsToGrant + count;
      creditFrame := None;
      var shouldAck := framesSinceLastAck >= 8 || creditsToGrant >= 8;
      if creditsToGrant >= 8 && !shouldAck {
        assert false;
      }
    }

    method BuildAckPayload(hasGap: bool) returns (a: AckPayload)
      requires Valid()
      modifies this`creditsToGrant, this`framesSinceLastAck
      ensures Valid()
      ensures (Receiver(), a) == BuildAck(old(Receiver()), hasGap)
    {
      var ackSeq := if dedup.nextExpected == 0 then 0 else dedup.nextExpected - 1;
      var grant := creditsToGrant;
      creditsToGrant, framesSinceLastAck := 0, 0;
      var sack: Option<seq<byte>> := None;
      if hasGap {
        var bitmap := BuildSack(ackSeq);
        sack := Some(bitmap);
      }
      a := AckPayload(ackSeq, grant, 0, sack);
    }

    method BuildSack(ackSeq: nat) returns (m: seq<byte>)
      requires Valid() && ackSeq == AckSeqOf(dedup.View())
      ensures m == SackBitmap(dedup.View())
    {
      hide Represents, SackByte, OrBit;
      var bitmap := new nat[32](_ => 0);
      ghost var w := dedup.View();
      SackNone(w);
      for i := 0 to 256
        invariant Filled(w, bitmap[..], i)
      {
        DivMod8(i);
        SackNext(w, i / 8, i % 8);
        var seen := dedup.IsSeen(ackSeq + 1 + i);
        if seen {
          bitmap[i / 8] := OrBit(bitmap[i / 8], i % 8);
        }
      }
      m := [];
      for k := 0 to 32
        invariant |m| == k && forall j :: 0 <= j < k ==> m[j] == SackFullByte(w, j)
      {
        assert SackFullByte(w, k) == bitmap[..][k];
        m := m + [bitmap[k]];
      }
    }
  }

  /** The first `i` bits of the bitmap are done. */
  ghost predicate Filled(w: Window, bitmap: seq<nat>, i: nat) {
    && |bitmap| == 32
    && forall k :: 0 <= k < 32 ==> bitmap[k] == SackByte(w, k, if k < i / 8 then 8 else if k == i / 8 then i % 8 else 0)
  }

  lemma SackNone(w: Window)
    ensures forall k :: SackByte(w, k, 0) == 0
  {
  }

  lemma SackNext(w: Window, q: nat, r: nat)
    ensures SackByte(w, q, r + 1)
              == if Seen(w, AckSeqOf(w) + 1 + (8 * q + r)) then OrBit(SackByte(w, q, r), r) else SackByte(w, q, r)
  {
    hide OrBit;
  }

  lemma DivMod8(i: nat)
    ensures i == 8 * (i / 8) + i % 8
    ensures (i + 1) / 8 == (if i % 8 == 7 then i / 8 + 1 else i / 8)
            && (i + 1) % 8 == (if i % 8 == 7 then 0 else i % 8 + 1)
  {
  }

  lemma ScanNone(now: int, cfg: Config)
    ensures Scan([], now, cfg) == ScanResult([], [], false)
  {
  }

  lemma BumpIs(e: Entry, now: int, cfg: Config)
    ensures Bump(e, now, cfg) == e.(retries := e.retries + 1,
              deadline := now + cfg.rtoBase * Pow2(if e.retries + 1 < 10 then e.retries + 1 else 10))
  {
  }

  /** Entries before `i` are those of `done`, the others still those of `q`. */
  ghost predicate Updated(rq: seq<Entry>, done: seq<Entry>, q: seq<Entry>, i: nat) {
    && |rq| == |q| && |done| == i <= |q|
    && (forall k :: 0 <= k < i ==> rq[k] == done[k])
    && (forall k :: i <= k < |q| ==> rq[k] == q[k])
  }

  lemma UpdatedStart(q: seq<Entry>)
    ensures Updated(q, [], q, 0)
  {
  }

  lemma UpdatedNext(rq: seq<Entry>, done: seq<Entry>, q: seq<Entry>, i: nat)
    requires Updated(rq, done, q, i) && i < |q|
    ensures i < |rq| && rq[i] == q[i] && Updated(rq, done + [q[i]], q, i + 1)
    ensures forall e :: Updated(rq[i := e], done + [e], q, i + 1)
  {
  }

  lemma UpdatedEnd(rq: seq<Entry>, done: seq<Entry>, q: seq<Entry>)
    requires Updated(rq, done, q, |q|)
    ensures rq == done
  {
  }

  /** One more entry scanned. */
  lemma ScanNext(q: seq<Entry>, i: nat, now: int, cfg: Config, done: seq<Entry>, timeouts: seq<nat>)
    requires i < |q| && Scan(q[..i], now, cfg) == ScanResult(done, timeouts, false)
    ensures Scan(q[..i + 1], now, cfg) ==
              if now < q[i].deadline then ScanResult(done + [q[i]], timeouts, false)
              else if q[i].retries + 1 > cfg.maxRetries then ScanResult(done, timeouts, true)
              else ScanResult(done + [Bump(q[i], now, cfg)], timeouts + [q[i].sn], false)
  {
    assert q[..i + 1][..i] == q[..i];
    hide Bump;
  }

  lemma {:induction false} KillIsSticky(q: seq<Entry>, i: nat, now: int, cfg: Config)
    requires i <= |q| && Scan(q[..i], now, cfg).kill
    ensures Scan(q, now, cfg).kill
    decreases |q| - i
  {
    if i < |q| {
      assert q[..i + 1][..i] == q[..i];
      KillIsSticky(q, i + 1, now, cfg);
    } else {
      assert q[..i] == q;
    }
  }
}
