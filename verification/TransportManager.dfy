/** The transport manager's handlers for one session, performed on the session object in place. Each is proved to be
    the corresponding protocol step: `s` is any protocol state whose session halves are the object's. */
module ManagerObject {
  import opened Bytes
  import opened FrameCodec
  import opened Dedup
  import opened Session
  import opened SessionObject
  import opened Transport

  class TransportManager {
    const session: ReliableSession
    const params: Params

    ghost predicate Valid()
      reads this, session, session.dedup, session.dedup.seen
    {
      session.Valid() && session.config == params.cfg
    }

    constructor (params: Params)
      ensures Valid() && this.params == params && fresh(session)
      ensures session.Sender() == Init(params).snd && session.Receiver() == Init(params).rcv
    {
      this.params := params;
      session := new ReliableSession(params.cfg, params.credits);
    }

    /** `send`: the frame array is stamped in place; `sent` is what goes to the fabric. */
    method SendFrame(frame: array<byte>, ff: bool, reqId: nat, deadline: int, ghost s: State)
      returns (sent: Option<seq<byte>>)
      requires Valid() && s.snd == session.Sender() && s.snd.nextSeq + 1 < U64
      modifies session`availableCredits, session`nextSeq, session`retransmitQueue, frame
      ensures Valid()
      ensures var t := DoSend(s, old(frame[..]), ff, reqId, deadline);
              && session.Sender() == t.snd
              && t.wire == s.wire + (if sent.Some? then {sent.value} else {})
              && t.tx == s.tx + (if sent.Some? then [Tx(s.snd.nextSeq, sent.value)] else [])
    {
      if !session.active { return None; }
      var ok := session.ConsumeCredit();
      if !ok { return None; }
      var _ := session.AssignSeqTo(frame, ff, reqId, deadline);
      sent := Some(frame[..]);
    }

    /** `handle_data_frame`: what is handed up and which ACK frame goes out. */
    method HandleDataFrame(f: Frame, ghost s: State) returns (up: Option<Handed>, ack: Option<seq<byte>>)
      requires Valid() && f.ext.Some? && s.rcv == session.Receiver() && s.rcvActive == session.active
      requires s.rcv.toGrant + 1 < U32
      modifies session`framesSinceLastAck, session`creditsToGrant,
               session.dedup`nextExpected, session.dedup`ahead, session.dedup.seen
      ensures Valid()
      ensures var t := RecvFrame(params, s, f);
              && session.Receiver() == t.rcv
              && t.handed == s.handed + (if up.Some? then [up.value] else [])
              && t.acks == s.acks + (if ack.Some? then [ack.value] else [])
      ensures session.active && 0 < f.header.streamSeq < s.rcv.window.next + s.rcv.window.size ==>
                ack.Some? || (session.framesSinceLastAck < 8 && session.creditsToGrant < 8)
      ensures ack.Some? && f.header.streamSeq == s.rcv.window.next ==>
                old(session.framesSinceLastAck) >= 7 || old(session.creditsToGrant) >= 7
      ensures up.Some? ==> up.value == Handed(f.header.streamSeq, f)
      ensures up.Some? <==>
                || f.header.streamSeq == 0
                || (session.active && f.header.streamSeq == s.rcv.window.next)
                || (session.active && Seen(s.rcv.window, f.header.streamSeq)
                    && f.ext.value.verb in {ReadReq, AtomicCas, AtomicFaa})
    {
      hide Represents, Mark, AckFrame, SackBitmap, AckSeqOf;
      up, ack := None, None;
      assert s.handed + [] == s.handed && s.acks + [] == s.acks;
      if f.header.streamSeq == 0 { return Some(Handed(0, f)), None; }
      if !session.active { return; }
      var action := session.Receive(f.header.streamSeq);
      match action {
        case Deliver => up := Some(Handed(f.header.streamSeq, f));
        case Duplicate =>
          if Redelivered(f.ext.value.verb) { up := Some(Handed(f.header.streamSeq, f)); }
        case Gap =>
        case Beyond => return;
      }
      if action == Duplicate || action == Gap || session.framesSinceLastAck >= 8 || session.creditsToGrant >= 8 {
        var a := session.BuildAckPayload(action == Gap);
        ack := Some(AckFrame(params.local, params.remote, a));
      }
    }

    /** `handle_ack_frame` on a decoded payload: fast retransmit first, then the ACK itself. */
    method HandleAckFrame(a: AckPayload) returns (resend: Option<seq<byte>>)
      modifies session`lastAckSeq, session`dupAckCount, session`retransmitQueue, session`availableCredits
      ensures session.Sender() == ProcessAck(FastRetransmit(old(session.Sender()), a).0, a)
      ensures resend.Some? ==>
                && a.ackSeq <= old(session.lastAckSeq) && old(session.dupAckCount) >= 2
                && exists e :: e in old(session.retransmitQueue) && e.sn == a.ackSeq + 1 && e.frame == resend.value
      ensures resend.None? ==>
                || a.ackSeq > old(session.lastAckSeq) || old(session.dupAckCount) < 2
                || forall e :: e in old(session.retransmitQueue) ==> e.sn != a.ackSeq + 1
    {
      resend := None;
      var sn := session.CheckFastRetransmit(a);
      if sn.Some? {
        var e := session.FindEntry(sn.value);
        if e.Some? { resend := Some(e.value.frame); }
      }
      var _ := session.ApplyAck(a);
    }

    /** The retransmission task's visit to the session: what the scan reports goes out again. */
    method RetransmitDue(now: int, ghost s: State) returns (out: seq<Tx>)
      requires Valid() && s.snd == session.Sender()
      modifies session`active, session`retransmitQueue, session`dupAckCount
      ensures Valid() && session.Sender() == DoTimeout(params, s, now).snd
      ensures DoTimeout(params, s, now).tx == s.tx + out
    {
      var due := session.ScanTimeouts(now);
      out := [];
      for i := 0 to |due|
        invariant (session.Sender(), due) == CheckRto(s.snd, now, params.cfg)
        invariant out == Copies(session.retransmitQueue, due[..i])
      {
        assert due[..i + 1][..i] == due[..i];
        var e := session.FindEntry(due[i]);
        if e.Some? { out := out + [Tx(e.value.sn, e.value.frame)]; }
      }
      assert due[..|due|] == due;
    }
  }
}
