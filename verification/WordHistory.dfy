/** What the words, the log and the replies of a node say after any run, without reference to how requests are
    executed. A log entry records the word it found in `was`. */
module WordHistory {
  import opened Bytes
  import opened ReadCache
  import opened Session
  import opened VerbHandler

  /** The entry changed its word: a write, an add, or a compare-and-swap that found the value it expected. */
  predicate TookEffect(e: Exec, addr: nat) {
    && e.ok && e.req.op.addr == addr
    && match e.req.op
       case WriteWord(_, _) => true
       case Faa(_, _) => true
       case Cas(_, wanted, _) => e.was == wanted
       case ReadWord(_) => false
  }

  /** What an entry that took effect left in its word. */
  function Left(e: Exec): nat {
    match e.req.op
    case WriteWord(_, value) => value
    case Faa(_, add) => (e.was + add) % U64
    case Cas(_, _, swap) => swap
    case ReadWord(_) => e.was
  }

  /** The word after the given executions: what the last one that took effect left, or the initial value. */
  function WordAfter(log: seq<Exec>, addr: nat, initial: nat): nat {
    if log == [] then initial
    else if TookEffect(log[|log| - 1], addr) then Left(log[|log| - 1])
    else WordAfter(log[..|log| - 1], addr, initial)
  }

  /** Every word is what its history says; every entry found what the entries before it left. */
  ghost predicate Consistent(n: Node, mem: map<nat, nat>) {
    && n.mem.Keys == mem.Keys
    && (forall addr :: addr in mem ==> n.mem[addr] == WordAfter(n.log, addr, mem[addr]))
    && (forall i :: 0 <= i < |n.log| ==> EntryConsistent(n.log, i, mem))
  }

  ghost predicate EntryConsistent(log: seq<Exec>, i: nat, mem: map<nat, nat>)
    requires i < |log|
  {
    var e := log[i];
    && (e.ok <==> e.req.op.addr in mem)
    && (e.ok ==> e.was == WordAfter(log[..i], e.req.op.addr, mem[e.req.op.addr]))
  }

  /** What handling one request does to memory and log. */
  lemma HandleEffect(n: Node, sn: nat, r: Request, now: int)
    ensures var t := Handle(n, sn, r, now);
            || (t.mem == n.mem && t.log == n.log)
            || (|t.log| == |n.log| + 1 && t.log[..|n.log|] == n.log
                && var e := t.log[|n.log|];
                   && e.sn == sn && e.req == r && (e.ok <==> r.op.addr in n.mem) && (e.ok ==> e.was == n.mem[r.op.addr])
                   && t.mem == if TookEffect(e, r.op.addr) then n.mem[r.op.addr := Left(e)] else n.mem)
  {
    hide Insert, Get, MarkExecuted;
    var t := Handle(n, sn, r, now);
    if r.op.addr in n.mem { assert n.mem == n.mem[r.op.addr := n.mem[r.op.addr]]; }
  }

  lemma {:induction false} HandleConsistent(n: Node, sn: nat, r: Request, now: int, mem: map<nat, nat>)
    requires Consistent(n, mem)
    ensures Consistent(Handle(n, sn, r, now), mem)
  {
    HandleEffect(n, sn, r, now);
    hide Handle, TookEffect, Left;
    var t, k := Handle(n, sn, r, now), |n.log|;
    if t.log != n.log {
      TookItsWord(t.log[k]);
      assert t.log[..k] == n.log && |t.log| == k + 1;
      forall i | 0 <= i < |t.log|
        ensures EntryConsistent(t.log, i, mem)
      {
        if i < k {
          assert EntryConsistent(n.log, i, mem);
          assert t.log[..k][i] == t.log[i] && t.log[..i] == n.log[..i];
        }
      }
      forall addr | addr in mem
        ensures addr in t.mem && t.mem[addr] == WordAfter(t.log, addr, mem[addr])
      {
        assert n.mem[addr] == WordAfter(n.log, addr, mem[addr]);
      }
    }
  }

  lemma TookItsWord(e: Exec)
    ensures forall addr :: TookEffect(e, addr) ==> e.ok && addr == e.req.op.addr
  {
  }

  lemma {:induction false} RunConsistent(
      mem: map<nat, nat>, cache: Cache<Reply>, plan: map<nat, Request>, run: seq<Arrival>)
    ensures Consistent(After(Fresh(mem, cache), plan, run), mem)
  {
    hide Handle, Consistent;
    if run == [] {
      FreshConsistent(mem, cache);
    } else {
      var k := |run| - 1;
      RunConsistent(mem, cache, plan, run[..k]);
      if run[k].sn in plan {
        HandleConsistent(After(Fresh(mem, cache), plan, run[..k]), run[k].sn, plan[run[k].sn], run[k].now, mem);
      }
    }
  }

  lemma FreshConsistent(mem: map<nat, nat>, cache: Cache<Reply>)
    ensures Consistent(Fresh(mem, cache), mem)
  {
  }

  /** In every run a word is what the last execution that took effect on it left: the value of a write, the sum of an
      add, or the new value of a compare-and-swap that found the value it expected. */
  lemma {:induction false} WordIsLastEffect(
      mem: map<nat, nat>, cache: Cache<Reply>, plan: map<nat, Request>, run: seq<Arrival>, addr: nat, k: nat)
    requires addr in mem
    requires var log := After(Fresh(mem, cache), plan, run).log;
             k < |log| && TookEffect(log[k], addr) && forall j :: k < j < |log| ==> !TookEffect(log[j], addr)
    ensures var t := After(Fresh(mem, cache), plan, run); addr in t.mem && t.mem[addr] == Left(t.log[k])
  {
    hide After, TookEffect, Left;
    RunConsistent(mem, cache, plan, run);
    LastEffectAt(After(Fresh(mem, cache), plan, run).log, addr, mem[addr], k);
  }

  lemma {:induction false} LastEffectAt(log: seq<Exec>, addr: nat, initial: nat, k: nat)
    requires k < |log| && TookEffect(log[k], addr) && forall j :: k < j < |log| ==> !TookEffect(log[j], addr)
    ensures WordAfter(log, addr, initial) == Left(log[k])
    decreases |log|
  {
    hide TookEffect, Left;
    if k < |log| - 1 { LastEffectAt(log[..|log| - 1], addr, initial, k); }
  }

  /** In every run a word on which nothing took effect keeps its initial value. */
  lemma {:induction false} WordUntouched(
      mem: map<nat, nat>, cache: Cache<Reply>, plan: map<nat, Request>, run: seq<Arrival>, addr: nat)
    requires addr in mem
    requires forall e :: e in After(Fresh(mem, cache), plan, run).log ==> !TookEffect(e, addr)
    ensures var t := After(Fresh(mem, cache), plan, run); addr in t.mem && t.mem[addr] == mem[addr]
  {
    hide After, TookEffect, Left;
    RunConsistent(mem, cache, plan, run);
    NoEffect(After(Fresh(mem, cache), plan, run).log, addr, mem[addr]);
  }

  lemma {:induction false} NoEffect(log: seq<Exec>, addr: nat, initial: nat)
    requires forall e :: e in log ==> !TookEffect(e, addr)
    ensures WordAfter(log, addr, initial) == initial
    decreases |log|
  {
    hide TookEffect;
    if log != [] { NoEffect(log[..|log| - 1], addr, initial); }
  }

  /** In every run each execution found in its word what the executions before it had left, and failed exactly when
      there is no such word. */
  lemma {:induction false} FoundWhatWasLeft(
      mem: map<nat, nat>, cache: Cache<Reply>, plan: map<nat, Request>, run: seq<Arrival>, i: nat)
    requires i < |After(Fresh(mem, cache), plan, run).log|
    ensures var log := After(Fresh(mem, cache), plan, run).log;
            && (log[i].ok <==> log[i].req.op.addr in mem)
            && (log[i].ok ==>
                  log[i].was == WordAfter(log[..i], log[i].req.op.addr, mem[log[i].req.op.addr]))
  {
    hide After, WordAfter;
    RunConsistent(mem, cache, plan, run);
    assert EntryConsistent(After(Fresh(mem, cache), plan, run).log, i, mem);
  }

  // ---- where replies come from ----

  /** A value that answers the request: for an atomic the word one of its executions found, for a read the word at some
      point of the run. */
  ghost predicate Sourced(log: seq<Exec>, mem: map<nat, nat>, sn: nat, r: Request, v: nat) {
    if Atomic(r.op) then exists i :: 0 <= i < |log| && log[i].sn == sn && log[i].ok && log[i].was == v
    else r.op.addr in mem && exists k :: 0 <= k <= |log| && v == WordAfter(log[..k], r.op.addr, mem[r.op.addr])
  }

  lemma SourcedGrows(log: seq<Exec>, log': seq<Exec>, mem: map<nat, nat>, sn: nat, r: Request, v: nat)
    requires Sourced(log, mem, sn, r, v) && log <= log'
    ensures Sourced(log', mem, sn, r, v)
  {
    hide WordAfter;
    if Atomic(r.op) {
      var i :| 0 <= i < |log| && log[i].sn == sn && log[i].ok && log[i].was == v;
      assert log'[i] == log[i];
    } else {
      var k :| 0 <= k <= |log| && v == WordAfter(log[..k], r.op.addr, mem[r.op.addr]);
      assert log'[..k] == log[..k];
    }
  }

  ghost predicate RepliesSourced(n: Node, mem: map<nat, nat>, sn: nat, r: Request) {
    && KeysMatch(n)
    && (forall i :: 0 <= i < |n.replies| && n.replies[i].reqId == r.reqId ==>
          Sourced(n.log, mem, sn, r, n.replies[i].value))
    && (r.reqId in n.cache.entries ==> Sourced(n.log, mem, sn, r, n.cache.entries[r.reqId].response.value))
  }

  /** What handling adds to replies and cache: at most one reply under the request's own id, fresh or cached. */
  lemma HandleReplies(n: Node, sn: nat, r: Request, now: int, id: nat)
    ensures var t := Handle(n, sn, r, now);
            && (t.replies == n.replies
                || (|t.replies| == |n.replies| + 1 && t.replies[..|n.replies|] == n.replies && !r.op.WriteWord?
                    && var v := t.replies[|n.replies|];
                       || (r.reqId in n.cache.entries && v == n.cache.entries[r.reqId].response)
                       || (r.op.addr in n.mem && v == Reply(r.reqId, n.mem[r.op.addr])
                           && (Atomic(r.op) ==> |t.log| == |n.log| + 1))))
            && (id in t.cache.entries ==>
                  || (id in n.cache.entries && t.cache.entries[id].response == n.cache.entries[id].response)
                  || (id == r.reqId && !r.op.WriteWord? && r.op.addr in n.mem
                      && t.cache.entries[id].response == Reply(id, n.mem[r.op.addr])
                      && (Atomic(r.op) ==> |t.log| == |n.log| + 1)))
  {
    hide Insert, Get, MarkExecuted;
    var (c, hit) := Get(n.cache, r.reqId, now);
    GetKeeps(n.cache, r.reqId, now, id);
    GetKeeps(n.cache, r.reqId, now, r.reqId);
    if r.op.addr in n.mem {
      InsertKeeps(n.cache, r.reqId, Reply(r.reqId, n.mem[r.op.addr]), now, id);
      InsertKeeps(c, r.reqId, Reply(r.reqId, n.mem[r.op.addr]), now, id);
    }
  }

  /** The word a request finds now is a sourced answer once its execution, if any, is logged. */
  lemma FreshSourced(n: Node, t: Node, mem: map<nat, nat>, sn: nat, r: Request)
    requires Consistent(n, mem) && r.op.addr in n.mem && n.log <= t.log && !r.op.WriteWord?
    requires Atomic(r.op) ==> |t.log| == |n.log| + 1 && t.log[|n.log|].sn == sn && t.log[|n.log|].ok
                              && t.log[|n.log|].was == n.mem[r.op.addr]
    ensures Sourced(t.log, mem, sn, r, n.mem[r.op.addr])
  {
    hide WordAfter;
    if !Atomic(r.op) { assert t.log[..|n.log|] == n.log; }
  }

  lemma {:induction false} OwnSourced(n: Node, mem: map<nat, nat>, sn: nat, r: Request, now: int)
    requires Consistent(n, mem) && RepliesSourced(n, mem, sn, r) && !r.op.WriteWord?
    ensures RepliesSourced(Handle(n, sn, r, now), mem, sn, r)
  {
    HandleEffect(n, sn, r, now);
    HandleReplies(n, sn, r, now, r.reqId);
    HandleKeysMatch(n, sn, r, now);
    hide Handle, KeysMatch, WordAfter;
    var t := Handle(n, sn, r, now);
    assert n.log <= t.log;
    if r.op.addr in n.mem && (Atomic(r.op) ==> |t.log| == |n.log| + 1) { FreshSourced(n, t, mem, sn, r); }
    hide Consistent;
    forall i | 0 <= i < |t.replies| && t.replies[i].reqId == r.reqId
      ensures Sourced(t.log, mem, sn, r, t.replies[i].value)
    {
      if i < |n.replies| {
        assert t.replies[i] == n.replies[i];
        SourcedGrows(n.log, t.log, mem, sn, r, n.replies[i].value);
      } else if r.reqId in n.cache.entries && t.replies[i] == n.cache.entries[r.reqId].response {
        SourcedGrows(n.log, t.log, mem, sn, r, n.cache.entries[r.reqId].response.value);
      }
    }
    if r.reqId in n.cache.entries {
      SourcedGrows(n.log, t.log, mem, sn, r, n.cache.entries[r.reqId].response.value);
    }
  }

  lemma {:induction false} OtherSourced(
      n: Node, mem: map<nat, nat>, sn: nat, r: Request, other: nat, q: Request, now: int)
    requires RepliesSourced(n, mem, sn, r) && (q.op.WriteWord? || q.reqId != r.reqId)
    ensures RepliesSourced(Handle(n, other, q, now), mem, sn, r)
  {
    HandleEffect(n, other, q, now);
    HandleReplies(n, other, q, now, r.reqId);
    HandleKeysMatch(n, other, q, now);
    hide Handle, Sourced;
    var t := Handle(n, other, q, now);
    assert n.log <= t.log;
    forall i | 0 <= i < |t.replies| && t.replies[i].reqId == r.reqId
      ensures Sourced(t.log, mem, sn, r, t.replies[i].value)
    {
      assert i < |n.replies| ==> t.replies[i] == n.replies[i];
      SourcedGrows(n.log, t.log, mem, sn, r, n.replies[i].value);
    }
    if r.reqId in t.cache.entries {
      SourcedGrows(n.log, t.log, mem, sn, r, n.cache.entries[r.reqId].response.value);
    }
  }

  lemma {:induction false} RunSourced(
      mem: map<nat, nat>, cache: Cache<Reply>, plan: map<nat, Request>, run: seq<Arrival>, sn: nat)
    requires UniqueIds(plan) && cache.entries == map[] && sn in plan && !plan[sn].op.WriteWord?
    ensures RepliesSourced(After(Fresh(mem, cache), plan, run), mem, sn, plan[sn])
  {
    hide Handle, RepliesSourced, Consistent;
    if run == [] {
      FreshSourcedAll(mem, cache, sn, plan[sn]);
    } else {
      var k := |run| - 1;
      var n := After(Fresh(mem, cache), plan, run[..k]);
      RunSourced(mem, cache, plan, run[..k], sn);
      RunConsistent(mem, cache, plan, run[..k]);
      if run[k].sn == sn {
        OwnSourced(n, mem, sn, plan[sn], run[k].now);
      } else if run[k].sn in plan {
        OtherSourced(n, mem, sn, plan[sn], run[k].sn, plan[run[k].sn], run[k].now);
      }
    }
  }

  lemma FreshSourcedAll(mem: map<nat, nat>, cache: Cache<Reply>, sn: nat, r: Request)
    requires cache.entries == map[]
    ensures RepliesSourced(Fresh(mem, cache), mem, sn, r)
  {
  }

  /** In every run, however late duplicates come, a reply under an atomic's id carries the word that an execution of
      that very request found, and a reply under a read's id the word at some point of the run. */
  lemma {:induction false} RepliesAreTrue(
      mem: map<nat, nat>, cache: Cache<Reply>, plan: map<nat, Request>, run: seq<Arrival>, sn: nat, i: nat)
    requires UniqueIds(plan) && cache.entries == map[] && sn in plan && !plan[sn].op.WriteWord?
    requires var t := After(Fresh(mem, cache), plan, run);
             i < |t.replies| && t.replies[i].reqId == plan[sn].reqId
    ensures var t := After(Fresh(mem, cache), plan, run); Sourced(t.log, mem, sn, plan[sn], t.replies[i].value)
  {
    hide After, Sourced;
    RunSourced(mem, cache, plan, run, sn);
  }

  /** In every run each execution of an atomic on an existing word was answered with the word it found. */
  lemma {:induction false} ExecutionsAnswered(
      mem: map<nat, nat>, cache: Cache<Reply>, plan: map<nat, Request>, run: seq<Arrival>, i: nat)
    requires var log := After(Fresh(mem, cache), plan, run).log; i < |log| && log[i].ok && Atomic(log[i].req.op)
    ensures var t := After(Fresh(mem, cache), plan, run); Reply(t.log[i].req.reqId, t.log[i].was) in t.replies
    decreases |run|
  {
    hide Handle;
    if run != [] {
      var k := |run| - 1;
      var n, t := After(Fresh(mem, cache), plan, run[..k]), After(Fresh(mem, cache), plan, run);
      if run[k].sn in plan {
        HandleAnswers(n, run[k].sn, plan[run[k].sn], run[k].now);
        if i < |n.log| {
          assert t.log[i] == n.log[i];
          ExecutionsAnswered(mem, cache, plan, run[..k], i);
        }
      } else {
        ExecutionsAnswered(mem, cache, plan, run[..k], i);
      }
    }
  }

  lemma HandleAnswers(n: Node, sn: nat, r: Request, now: int)
    ensures var t := Handle(n, sn, r, now);
            && n.log <= t.log && |t.log| <= |n.log| + 1 && n.replies <= t.replies
            && (|t.log| == |n.log| + 1 && t.log[|n.log|].ok && Atomic(t.log[|n.log|].req.op) ==>
                  t.replies == n.replies + [Reply(t.log[|n.log|].req.reqId, t.log[|n.log|].was)])
  {
    hide Insert, Get, MarkExecuted;
  }

  // ---- compare-and-swap from a caller's view ----

  predicate SwapsFrom(e: Exec, addr: nat, v: nat) {
    e.ok && e.req.op.Cas? && e.req.op.addr == addr && e.req.op.wanted == v && e.req.op.swap != v
  }

  /** Between two compare-and-swaps that both found the value they expect, something put that value back. */
  lemma {:induction false} PutBackBetween(log: seq<Exec>, mem: map<nat, nat>, addr: nat, v: nat, i: nat, j: nat)
    requires i < j < |log| && EntryConsistent(log, j, mem)
    requires SwapsFrom(log[i], addr, v) && SwapsFrom(log[j], addr, v) && log[i].was == v == log[j].was
    ensures exists k :: i < k < j && TookEffect(log[k], addr) && Left(log[k]) == v
  {
    WordComesFrom(log[..j], addr, mem[addr], i);
    var k :| i <= k < j && TookEffect(log[..j][k], addr)
             && WordAfter(log[..j], addr, mem[addr]) == Left(log[..j][k]);
    assert log[..j][k] == log[k];
  }

  lemma {:induction false} WordComesFrom(log: seq<Exec>, addr: nat, initial: nat, i: nat)
    requires i < |log| && TookEffect(log[i], addr)
    ensures exists k :: i <= k < |log| && TookEffect(log[k], addr) && WordAfter(log, addr, initial) == Left(log[k])
    decreases |log|
  {
    hide TookEffect, Left;
    var n := |log| - 1;
    if !TookEffect(log[n], addr) {
      WordComesFrom(log[..n], addr, initial, i);
      var k :| i <= k < n && TookEffect(log[..n][k], addr)
               && WordAfter(log[..n], addr, initial) == Left(log[..n][k]);
      assert log[..n][k] == log[k];
    }
  }

  /** Of several compare-and-swaps that expect the same value and would change it, at most one is answered with that
      value, as long as nothing puts the value back. Late duplicates included. */
  lemma {:induction false} OneSwapSucceeds(
      mem: map<nat, nat>, cache: Cache<Reply>, plan: map<nat, Request>, run: seq<Arrival>,
      a: nat, b: nat, addr: nat, v: nat, i: nat, j: nat)
    requires UniqueIds(plan) && cache.entries == map[] && a in plan && b in plan && a != b
    requires forall s :: s == a || s == b ==>
               plan[s].op.Cas? && plan[s].op.addr == addr && plan[s].op.wanted == v && plan[s].op.swap != v
    requires var t := After(Fresh(mem, cache), plan, run);
             && i < |t.replies| && j < |t.replies|
             && t.replies[i].reqId == plan[a].reqId && t.replies[j].reqId == plan[b].reqId
             && forall e :: e in t.log && TookEffect(e, addr) ==> Left(e) != v
    ensures var t := After(Fresh(mem, cache), plan, run); t.replies[i].value != v || t.replies[j].value != v
  {
    hide After, TookEffect, Left, EntryConsistent;
    var t := After(Fresh(mem, cache), plan, run);
    RepliesAreTrue(mem, cache, plan, run, a, i);
    RepliesAreTrue(mem, cache, plan, run, b, j);
    RunConsistent(mem, cache, plan, run);
    if t.replies[i].value == v && t.replies[j].value == v {
      var x :| 0 <= x < |t.log| && t.log[x].sn == a && t.log[x].ok && t.log[x].was == v;
      var y :| 0 <= y < |t.log| && t.log[y].sn == b && t.log[y].ok && t.log[y].was == v;
      LogIsPlanned(mem, cache, plan, run, x);
      LogIsPlanned(mem, cache, plan, run, y);
      if x < y { PutBackBetween(t.log, mem, addr, v, x, y); } else { PutBackBetween(t.log, mem, addr, v, y, x); }
    }
  }

  lemma {:induction false} LogIsPlanned(
      mem: map<nat, nat>, cache: Cache<Reply>, plan: map<nat, Request>, run: seq<Arrival>, i: nat)
    requires i < |After(Fresh(mem, cache), plan, run).log|
    ensures var e := After(Fresh(mem, cache), plan, run).log[i]; e.sn in plan && e.req == plan[e.sn]
    decreases |run|
  {
    hide Handle;
    if run != [] {
      var k := |run| - 1;
      var n := After(Fresh(mem, cache), plan, run[..k]);
      if run[k].sn in plan { HandleEffect(n, run[k].sn, plan[run[k].sn], run[k].now); }
      if i < |n.log| {
        assert After(Fresh(mem, cache), plan, run).log[..|n.log|][i] == n.log[i];
        LogIsPlanned(mem, cache, plan, run[..k], i);
      }
    }
  }
}
