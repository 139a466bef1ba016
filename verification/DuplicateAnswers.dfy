/** When a duplicate request gets its answer: the handler's cache seen as a run of stores and lookups. */
module DuplicateAnswers {
  import opened Bytes
  import opened Session
  import opened ReadCache
  import opened ReadCacheRuns
  import opened VerbHandler

  /** What handling one request does to the cache. */
  ghost function CacheOps(n: Node, sn: nat, r: Request, now: int): seq<CacheOp<Reply>> {
    if r.op.ReadWord? then
      [Look(r.reqId, now)] +
      if Get(n.cache, r.reqId, now).1.None? && r.op.addr in n.mem
      then [Put(r.reqId, now, Reply(r.reqId, n.mem[r.op.addr]))] else []
    else if !Atomic(r.op) then []
    else if sn in n.executed then [Look(r.reqId, now)]
    else if r.op.addr in n.mem then [Put(r.reqId, now, Reply(r.reqId, n.mem[r.op.addr]))]
    else []
  }

  ghost function RunOps(n: Node, plan: map<nat, Request>, run: seq<Arrival>): seq<CacheOp<Reply>> {
    if run == [] then []
    else
      var k := |run| - 1;
      RunOps(n, plan, run[..k]) +
      if run[k].sn in plan
      then CacheOps(After(n, plan, run[..k]), run[k].sn, plan[run[k].sn], run[k].now) else []
  }

  lemma {:induction false} CacheAfterOne<V>(c: Cache<V>, ops: seq<CacheOp<V>>, op: CacheOp<V>)
    ensures CacheAfter(c, ops + [op]) == Do(CacheAfter(c, ops), op)
  {
    assert (ops + [op])[..|ops|] == ops;
  }

  lemma {:induction false} HandleDoes(c: Cache<Reply>, ops: seq<CacheOp<Reply>>, n: Node, sn: nat, r: Request, now: int)
    requires CacheAfter(c, ops) == n.cache
    ensures CacheAfter(c, ops + CacheOps(n, sn, r, now)) == Handle(n, sn, r, now).cache
  {
    hide CacheAfter, Insert, Get, MarkExecuted;
    var more := CacheOps(n, sn, r, now);
    if more == [] {
      assert ops + more == ops;
    } else {
      CacheAfterOne(c, ops, more[0]);
      if |more| == 1 {
        assert more == [more[0]];
      } else {
        assert ops + more == ops + [more[0]] + [more[1]];
        CacheAfterOne(c, ops + [more[0]], more[1]);
      }
    }
  }

  lemma {:induction false} RunDoes(
      c: Cache<Reply>, ops: seq<CacheOp<Reply>>, n: Node, plan: map<nat, Request>, run: seq<Arrival>)
    requires CacheAfter(c, ops) == n.cache
    ensures CacheAfter(c, ops + RunOps(n, plan, run)) == After(n, plan, run).cache
    decreases |run|
  {
    hide CacheAfter, CacheOps, Handle;
    if run == [] {
      assert ops + [] == ops;
    } else {
      var k := |run| - 1;
      RunDoes(c, ops, n, plan, run[..k]);
      var done := RunOps(n, plan, run[..k]);
      if run[k].sn in plan {
        var p, r := After(n, plan, run[..k]), plan[run[k].sn];
        HandleDoes(c, ops + done, p, run[k].sn, r, run[k].now);
        var more := CacheOps(p, run[k].sn, r, run[k].now);
        assert ops + (done + more) == ops + done + more;
      } else {
        assert done + [] == done;
      }
    }
  }

  // ---- the execution record stays for 1023 further requests ----

  ghost predicate RecordedWithin(records: seq<nat>, sn: nat, k: nat) {
    exists j :: 0 <= j < |records| && records[j] == sn && |records| - j <= k
  }

  lemma MarkKeeps(records: seq<nat>, sn: nat, k: nat, s: nat)
    requires RecordedWithin(records, sn, k) && k < RECORD_LIMIT
    ensures RecordedWithin(MarkExecuted(records, s), sn, k + 1)
  {
    var j :| 0 <= j < |records| && records[j] == sn && |records| - j <= k;
    var all := records + [s];
    if s !in records && |all| > RECORD_LIMIT {
      var d := |all| - RECORD_LIMIT;
      assert Trim(all)[j - d] == sn;
    } else {
      assert MarkExecuted(records, s)[j] == sn;
    }
  }

  lemma HandleMarks(n: Node, sn: nat, r: Request, now: int)
    ensures var t := Handle(n, sn, r, now); t.executed == n.executed || t.executed == MarkExecuted(n.executed, sn)
  {
    hide Insert, Get, MarkExecuted;
  }

  lemma {:induction false} RunKeepsRecord(n: Node, plan: map<nat, Request>, run: seq<Arrival>, sn: nat)
    requires RecordedWithin(n.executed, sn, 1) && |run| < RECORD_LIMIT
    ensures RecordedWithin(After(n, plan, run).executed, sn, |run| + 1)
    decreases |run|
  {
    hide Handle, MarkExecuted, RecordedWithin;
    if run != [] {
      var k := |run| - 1;
      RunKeepsRecord(n, plan, run[..k], sn);
      var p := After(n, plan, run[..k]);
      Widen(p.executed, sn, k + 1);
      if run[k].sn in plan {
        HandleMarks(p, run[k].sn, plan[run[k].sn], run[k].now);
        MarkKeeps(p.executed, sn, k + 1, run[k].sn);
      }
    }
  }

  lemma Widen(records: seq<nat>, sn: nat, k: nat)
    requires RecordedWithin(records, sn, k)
    ensures RecordedWithin(records, sn, k + 1)
  {
  }

  lemma MarkedIsLast(records: seq<nat>, sn: nat)
    requires sn !in records
    ensures RecordedWithin(MarkExecuted(records, sn), sn, 1)
  {
    var m := MarkExecuted(records, sn);
    assert m[|m| - 1] == sn;
  }

  // ---- the answer ----

  ghost predicate Clocked(run: seq<Arrival>, first: int, last: int) {
    && first <= last
    && (forall i :: 0 <= i < |run| ==> first <= run[i].now <= last)
    && (forall i, j :: 0 <= i < j < |run| ==> run[i].now <= run[j].now)
  }

  /** The ids other than `id` under which the arrivals of a run were handled. */
  ghost function OtherIds(plan: map<nat, Request>, run: seq<Arrival>, id: nat): set<nat> {
    set i | 0 <= i < |run| && run[i].sn in plan && plan[run[i].sn].reqId != id :: plan[run[i].sn].reqId
  }

  /** Every cache operation of a run comes from an arrival; none stores under the id of a recorded atomic. */
  ghost predicate OpsFrom(ops: seq<CacheOp<Reply>>, id: nat, others: set<nat>, first: int, last: int) {
    && (forall i :: 0 <= i < |ops| ==> (if ops[i].key == id then ops[i].Look? else ops[i].key in others))
    && (forall i :: 0 <= i < |ops| ==> first <= ops[i].at <= last)
    && (forall i, j :: 0 <= i < j < |ops| ==> ops[i].at <= ops[j].at)
  }

  lemma OpsOfHandle(n: Node, plan: map<nat, Request>, a: Arrival, sn: nat, i: nat)
    requires UniqueIds(plan) && sn in plan && Atomic(plan[sn].op) && sn in n.executed && a.sn in plan
    requires i < |CacheOps(n, a.sn, plan[a.sn], a.now)|
    ensures var op := CacheOps(n, a.sn, plan[a.sn], a.now)[i];
            && op.key == plan[a.sn].reqId && op.at == a.now
            && (op.key == plan[sn].reqId ==> op.Look?)
  {
    hide Insert, Get;
  }

  lemma OthersGrow(plan: map<nat, Request>, run: seq<Arrival>, id: nat)
    requires run != []
    ensures OtherIds(plan, run[..|run| - 1], id) <= OtherIds(plan, run, id)
    ensures var a := run[|run| - 1];
            a.sn in plan && plan[a.sn].reqId != id ==> plan[a.sn].reqId in OtherIds(plan, run, id)
  {
    var k := |run| - 1;
    forall x | x in OtherIds(plan, run[..k], id)
      ensures x in OtherIds(plan, run, id)
    {
      var i :| 0 <= i < k && run[..k][i].sn in plan && plan[run[..k][i].sn].reqId != id
               && plan[run[..k][i].sn].reqId == x;
      assert run[i] == run[..k][i];
    }
    assert run[k] == run[|run| - 1];
  }

  lemma OpsFromConcat(
      ops: seq<CacheOp<Reply>>, more: seq<CacheOp<Reply>>, id: nat, some: set<nat>, others: set<nat>,
      first: int, last: int, now: int)
    requires OpsFrom(ops, id, some, first, last) && some <= others && first <= last <= now
    requires OpsFrom(more, id, others, now, now)
    ensures OpsFrom(ops + more, id, others, first, now)
  {
  }

  lemma {:induction false} ArrivalOps(n: Node, plan: map<nat, Request>, a: Arrival, sn: nat, others: set<nat>)
    requires UniqueIds(plan) && sn in plan && Atomic(plan[sn].op) && sn in n.executed && a.sn in plan
    requires plan[a.sn].reqId != plan[sn].reqId ==> plan[a.sn].reqId in others
    ensures OpsFrom(CacheOps(n, a.sn, plan[a.sn], a.now), plan[sn].reqId, others, a.now, a.now)
  {
    hide CacheOps, UniqueIds;
    var more := CacheOps(n, a.sn, plan[a.sn], a.now);
    forall i | 0 <= i < |more|
      ensures more[i].key == plan[a.sn].reqId && more[i].at == a.now
              && (more[i].key == plan[sn].reqId ==> more[i].Look?)
    {
      OpsOfHandle(n, plan, a, sn, i);
    }
  }

  ghost function LastTime(run: seq<Arrival>, first: int): int {
    if run == [] then first else run[|run| - 1].now
  }

  lemma {:induction false} RunOpsFrom(
      n: Node, plan: map<nat, Request>, run: seq<Arrival>, sn: nat, first: int, last: int)
    requires UniqueIds(plan) && sn in plan && Atomic(plan[sn].op)
    requires RecordedWithin(n.executed, sn, 1) && |run| < RECORD_LIMIT && Clocked(run, first, last)
    ensures OpsFrom(RunOps(n, plan, run), plan[sn].reqId, OtherIds(plan, run, plan[sn].reqId), first,
                    LastTime(run, first))
    decreases |run|
  {
    hide After, CacheOps, OtherIds, UniqueIds, OpsFrom;
    if run == [] {
      NoOps(plan[sn].reqId, OtherIds(plan, run, plan[sn].reqId), first);
    } else {
      var k, id := |run| - 1, plan[sn].reqId;
      assert Clocked(run[..k], first, last) && LastTime(run[..k], first) <= run[k].now;
      RunOpsFrom(n, plan, run[..k], sn, first, last);
      RunKeepsRecord(n, plan, run[..k], sn);
      OthersGrow(plan, run, id);
      var p, a, others := After(n, plan, run[..k]), run[k], OtherIds(plan, run, id);
      NoOps(id, others, a.now);
      if a.sn in plan { ArrivalOps(p, plan, a, sn, others); }
      OpsFromConcat(RunOps(n, plan, run[..k]), if a.sn in plan then CacheOps(p, a.sn, plan[a.sn], a.now) else [],
                    id, OtherIds(plan, run[..k], id), others, first, LastTime(run[..k], first), a.now);
    }
  }

  lemma NoOps(id: nat, others: set<nat>, now: int)
    ensures OpsFrom([], id, others, now, now)
  {
  }

  lemma {:induction false} FoundAgain(
      c: Cache<Reply>, put: CacheOp<Reply>, ops: seq<CacheOp<Reply>>, others: set<nat>, last: int, now: int)
    requires Stamped(c) && put.Put? && OpsFrom(ops, put.key, others, put.at, last) && put.at <= last <= now
    requires |others| + 1 < c.capacity && now - put.at <= c.ttl
    ensures Get(CacheAfter(c, [put] + ops), put.key, now).1 == Some(put.response)
  {
    hide CacheAfter, EvictedSince, Stamped;
    var all := [put] + ops;
    forall i, j | 0 <= i <= j < |all|
      ensures all[i].at <= all[j].at <= now
    {
    }
    forall j | 0 < j < |all|
      ensures if all[j].key == put.key then all[j].Look? else all[j].key in others
    {
      assert all[j] == ops[j - 1];
    }
    assert IsLastPut(all, 0, put.key);
    assert OthersSince(all, 0, put.key) <= others;
    SubsetSize(OthersSince(all, 0, put.key), others);
    RecentIsSafe(c, all, 0, put.key);
    FoundIffKept(c, all, 0, put.key, now);
  }

  /** An atomic that ran at `first` is answered again with the same word, and changes nothing more, whenever its
      duplicate comes within the time to live, after fewer than 1024 further arrivals under fewer than `capacity - 1`
      other ids. */
  lemma {:induction false} DuplicateAnswered(
      n: Node, plan: map<nat, Request>, later: seq<Arrival>, sn: nat, first: int, now: int)
    requires UniqueIds(plan) && sn in plan && Atomic(plan[sn].op) && Stamped(n.cache)
    requires sn !in n.executed && plan[sn].op.addr in n.mem
    requires Clocked(later, first, now) && |later| < 1024 && now - first <= n.cache.ttl
    requires |OtherIds(plan, later, plan[sn].reqId)| + 1 < n.cache.capacity
    ensures var u := After(Handle(n, sn, plan[sn], first), plan, later);
            var d := Handle(u, sn, plan[sn], now);
            && d.replies == u.replies + [Reply(plan[sn].reqId, n.mem[plan[sn].op.addr])]
            && d.mem == u.mem && d.log == u.log
  {
    var r := plan[sn];
    var t := Handle(n, sn, r, first);
    var put := Put(r.reqId, first, Reply(r.reqId, n.mem[r.op.addr]));
    assert t.cache == Do(n.cache, put);
    assert [put][..0] == [];
    assert CacheAfter(n.cache, [put]) == t.cache;
    MarkedIsLast(n.executed, sn);
    hide CacheAfter, RunOps, Handle, OtherIds, Get, Stamped, After;
    RunDoes(n.cache, [put], t, plan, later);
    RunOpsFrom(t, plan, later, sn, first, now);
    RunKeepsRecord(t, plan, later, sn);
    FoundAgain(n.cache, put, RunOps(t, plan, later), OtherIds(plan, later, r.reqId), LastTime(later, first), now);
    ResendsHit(After(t, plan, later), sn, r, now);
  }

  lemma ResendsHit(u: Node, sn: nat, r: Request, now: int)
    requires Atomic(r.op) && sn in u.executed
    ensures var d, hit := Handle(u, sn, r, now), Get(u.cache, r.reqId, now).1;
            && d.mem == u.mem && d.log == u.log
            && d.replies == if hit.Some? then u.replies + [hit.value] else u.replies
  {
    hide Get;
  }

  /** A read that missed the cache is answered with the word; asked again within the time to live it gives the same
      answer, whatever the memory holds by then. */
  lemma ReadRepeats(n: Node, sn: nat, r: Request, first: int, mem: map<nat, nat>, now: int)
    requires r.op.ReadWord? && r.op.addr in n.mem && Get(n.cache, r.reqId, first).1.None?
    requires now - first <= n.cache.ttl
    ensures var t, reply := Handle(n, sn, r, first), Reply(r.reqId, n.mem[r.op.addr]);
            && t.replies == n.replies + [reply]
            && Handle(t.(mem := mem), sn, r, now).replies == t.replies + [reply]
  {
    StoredIsFound(Get(n.cache, r.reqId, first).0, r.reqId, Reply(r.reqId, n.mem[r.op.addr]), first, now);
    hide Insert;
  }
}
