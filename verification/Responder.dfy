/** The verb handler as an object: it works on the session's execution records and response cache in place. */
module ResponderObject {
  import opened Bytes
  import opened Session
  import opened SessionObject
  import opened ReadCache
  import opened VerbHandler
  import opened WordHistory

  class Responder {
    var mem: map<nat, nat>
    const session: ReliableSession
    const cache: ReadResponseCache<Reply>
    ghost var log: seq<Exec>
    ghost var replies: seq<Reply>

    ghost predicate Valid()
      reads this, cache
    {
      cache.Valid()
    }

    ghost function View(): Node
      reads this, session, cache
    {
      Node(mem, session.executionRecords, cache.View(), log, replies)
    }

    constructor (mem: map<nat, nat>, session: ReliableSession, cache: ReadResponseCache<Reply>)
      requires cache.Valid()
      ensures Valid() && this.session == session && this.cache == cache
      ensures View() == Node(mem, session.executionRecords, cache.View(), [], [])
    {
      this.mem, this.session, this.cache, log, replies := mem, session, cache, [], [];
    }

    method ResendCached(r: Request, now: int) returns (reply: Option<Reply>)
      requires Valid()
      modifies this`replies, cache`entries, cache`nextOrder
      ensures Valid() && View() == Resend(old(View()), r, now)
      ensures replies == if reply.Some? then old(replies) + [reply.value] else old(replies)
    {
      reply := cache.Lookup(r.reqId, now);
      if reply.Some? { replies := replies + [reply.value]; }
    }

    method HandleRead(r: Request, now: int) returns (reply: Option<Reply>)
      requires Valid()
      modifies this`replies, cache`entries, cache`nextOrder
      ensures Valid() && View() == Read(old(View()), r, now)
      ensures replies == if reply.Some? then old(replies) + [reply.value] else old(replies)
    {
      reply := cache.Lookup(r.reqId, now);
      if reply.None? && r.op.addr in mem {
        reply := Some(Reply(r.reqId, mem[r.op.addr]));
        cache.Store(r.reqId, reply.value, now);
      }
      if reply.Some? { replies := replies + [reply.value]; }
    }

    method RunRequest(sn: nat, r: Request, now: int) returns (reply: Option<Reply>)
      requires Valid() && sn !in session.executionRecords
      modifies this`mem, this`log, this`replies, session`executionRecords, cache`entries, cache`nextOrder
      ensures Valid() && View() == Execute(old(View()), sn, r, now)
      ensures replies == if reply.Some? then old(replies) + [reply.value] else old(replies)
      ensures |log| == |old(log)| + 1 && log[..|old(log)|] == old(log)
      ensures var e := log[|old(log)|];
              && e.req == r && (e.ok <==> r.op.addr in old(mem)) && (e.ok ==> e.was == old(mem)[r.op.addr])
              && reply == (if e.ok && Atomic(r.op) then Some(Reply(r.reqId, e.was)) else None)
              && mem == if TookEffect(e, r.op.addr) then old(mem)[r.op.addr := Left(e)] else old(mem)
    {
      reply := None;
      if r.op.addr in mem {
        var was := mem[r.op.addr];
        match r.op {
          case Faa(addr, add) => mem := mem[addr := (was + add) % U64];
          case Cas(addr, wanted, swap) => if was == wanted { mem := mem[addr := swap]; }
          case WriteWord(addr, value) => mem := mem[addr := value];
          case ReadWord(_) =>
        }
        assert mem == old(mem)[r.op.addr := NewValue(r.op, was)];
        log := log + [Exec(sn, r, true, was)];
        if Atomic(r.op) {
          reply := Some(Reply(r.reqId, was));
          cache.Store(r.reqId, reply.value, now);
          replies := replies + [reply.value];
        }
      } else {
        log := log + [Exec(sn, r, false, 0)];
      }
      session.MarkAsExecuted(sn);
    }

    /** Dispatch of one inbound frame: the new state is exactly `Handle` of the old one. */
    method HandleVerbFrame(sn: nat, r: Request, now: int) returns (reply: Option<Reply>)
      requires Valid()
      modifies this`mem, this`log, this`replies, session`executionRecords, cache`entries, cache`nextOrder
      ensures Valid() && View() == Handle(old(View()), sn, r, now)
      ensures replies == if reply.Some? then old(replies) + [reply.value] else old(replies)
    {
      if r.op.ReadWord? {
        reply := HandleRead(r, now);
        return;
      }
      var done := session.IsExecuted(sn);
      if !done {
        reply := RunRequest(sn, r, now);
      } else if Atomic(r.op) {
        reply := ResendCached(r, now);
      } else {
        reply := None;
      }
    }
  }
}
