/** The verb handler of one node serving one peer: execution records decide whether a request runs, the response
    cache answers duplicates. Requests arrive in any order and any number of times; the peer fixes for every
    sequence number one request (all wire copies are the same bytes, see Reliability.WireCopiesIdentical). */
module VerbHandler {
  import opened Bytes
  import opened Session
  import opened ReadCache

  datatype Op =
    | Faa(addr: nat, add: nat)
    | Cas(addr: nat, wanted: nat, swap: nat)
    | WriteWord(addr: nat, value: nat)
    | ReadWord(addr: nat)

  datatype Request = Request(reqId: nat, op: Op)

  /** A success response: the value read, or the word's value before the atomic. */
  datatype Reply = Reply(reqId: nat, value: nat)

  /** One handler execution: `ok` when the address was valid, `was` the word's value before. */
  datatype Exec = Exec(sn: nat, req: Request, ok: bool, was: nat)

  /** `mem` holds the aligned words the peer may reach. `log` and `replies` are history. */
  datatype Node = Node(
    mem: map<nat, nat>, executed: seq<nat>, cache: Cache<Reply>, log: seq<Exec>, replies: seq<Reply>)

  predicate Atomic(op: Op) { op.Faa? || op.Cas? }

  function NewValue(op: Op, was: nat): nat {
    match op
    case Faa(_, add) => (was + add) % U64
    case Cas(_, wanted, swap) => if was == wanted then swap else was
    case WriteWord(_, value) => value
    case ReadWord(_) => was
  }

  /** Run a request that has no execution record, then record it whether or not it succeeded. */
  ghost function Execute(n: Node, sn: nat, r: Request, now: int): Node {
    var marked := n.(executed := MarkExecuted(n.executed, sn));
    if r.op.addr !in n.mem then marked.(log := n.log + [Exec(sn, r, false, 0)])
    else
      var was := n.mem[r.op.addr];
      var done := marked.(mem := n.mem[r.op.addr := NewValue(r.op, was)], log := n.log + [Exec(sn, r, true, was)]);
      if !Atomic(r.op) then done
      else done.(cache := Insert(n.cache, r.reqId, Reply(r.reqId, was), now),
                 replies := n.replies + [Reply(r.reqId, was)])
  }

  /** Answer a duplicate from the cache, if the response is still there. */
  function Resend(n: Node, r: Request, now: int): Node {
    var (cache, hit) := Get(n.cache, r.reqId, now);
    n.(cache := cache, replies := if hit.Some? then n.replies + [hit.value] else n.replies)
  }

  ghost function Read(n: Node, r: Request, now: int): Node {
    var (cache, hit) := Get(n.cache, r.reqId, now);
    if hit.Some? then n.(cache := cache, replies := n.replies + [hit.value])
    else if r.op.addr !in n.mem then n.(cache := cache)
    else
      var reply := Reply(r.reqId, n.mem[r.op.addr]);
      n.(cache := Insert(cache, r.reqId, reply, now), replies := n.replies + [reply])
  }

  ghost function Handle(n: Node, sn: nat, r: Request, now: int): Node {
    if r.op.ReadWord? then Read(n, r, now)
    else if sn !in n.executed then Execute(n, sn, r, now)
    else if Atomic(r.op) then Resend(n, r, now)
    else n
  }

  /** An arrival: a sequence number and the time it is handled. */
  datatype Arrival = Arrival(sn: nat, now: int)

  ghost function After(n: Node, plan: map<nat, Request>, run: seq<Arrival>): Node {
    if run == [] then n
    else
      var p, a := After(n, plan, run[..|run| - 1]), run[|run| - 1];
      if a.sn in plan then Handle(p, a.sn, plan[a.sn], a.now) else p
  }

  function Fresh(mem: map<nat, nat>, cache: Cache<Reply>): Node { Node(mem, [], cache, [], []) }

  // ---- execution records are the last 1024 executions ----

  function Sns(log: seq<Exec>): seq<nat> {
    if log == [] then [] else Sns(log[..|log| - 1]) + [log[|log| - 1].sn]
  }

  lemma {:induction false} SnsAppend(log: seq<Exec>, e: Exec)
    ensures Sns(log + [e]) == Sns(log) + [e.sn] && |Sns(log)| == |log|
  {
    SnsLength(log);
    assert (log + [e])[..|log + [e]| - 1] == log;
  }

  lemma {:induction false} SnsLength(log: seq<Exec>)
    ensures |Sns(log)| == |log|
    ensures forall i :: 0 <= i < |log| ==> Sns(log)[i] == log[i].sn
  {
    if log != [] { SnsLength(log[..|log| - 1]); }
  }

  ghost predicate Recorded(n: Node) { n.executed == Trim(Sns(n.log)) }

  lemma {:induction false} TrimAppend(m: seq<nat>, s: nat)
    ensures Trim(Trim(m) + [s]) == Trim(m + [s])
  {}

  lemma {:induction false} HandleRecords(n: Node, sn: nat, r: Request, now: int)
    requires Recorded(n)
    ensures Recorded(Handle(n, sn, r, now))
    ensures n.log <= Handle(n, sn, r, now).log
    ensures !r.op.ReadWord? ==>
              (Handle(n, sn, r, now).log == n.log <==> sn in Trim(Sns(n.log)))
              && (sn !in Trim(Sns(n.log)) ==> Sns(Handle(n, sn, r, now).log) == Sns(n.log) + [sn])
    ensures r.op.ReadWord? ==> Handle(n, sn, r, now).log == n.log
  {
    hide Trim, Sns, Insert, Get;
    if !r.op.ReadWord? && sn !in n.executed {
      var t := Handle(n, sn, r, now);
      SnsAppend(n.log, t.log[|n.log|]);
      assert t.log == n.log + [t.log[|n.log|]];
      TrimAppend(Sns(n.log), sn);
    }
  }

  lemma {:induction false} RunRecords(n: Node, plan: map<nat, Request>, run: seq<Arrival>)
    requires Recorded(n)
    ensures Recorded(After(n, plan, run))
  {
    hide Recorded, Handle;
    if run != [] {
      var k := |run| - 1;
      RunRecords(n, plan, run[..k]);
      if run[k].sn in plan {
        HandleRecords(After(n, plan, run[..k]), run[k].sn, plan[run[k].sn], run[k].now);
      }
    }
  }

  // ---- at most once, exactly when duplicates are timely ----

  ghost predicate Distinct(q: seq<nat>) { forall i, j :: 0 <= i < j < |q| ==> q[i] != q[j] }

  /** The arrival is not of a request that ran more than 1024 executions ago. */
  ghost predicate Timely(n: Node, sn: nat) { sn in Sns(n.log) ==> sn in Trim(Sns(n.log)) }

  ghost predicate AllTimely(n: Node, plan: map<nat, Request>, run: seq<Arrival>) {
    forall i :: 0 <= i < |run| && run[i].sn in plan && !plan[run[i].sn].op.ReadWord? ==>
      Timely(After(n, plan, run[..i]), run[i].sn)
  }

  /** No write or atomic runs twice if and only if every duplicate is handled before 1024 later requests have run. */
  lemma {:induction false} AtMostOnceIffTimely(
      mem: map<nat, nat>, cache: Cache<Reply>, plan: map<nat, Request>, run: seq<Arrival>)
    ensures Distinct(Sns(After(Fresh(mem, cache), plan, run).log)) <==> AllTimely(Fresh(mem, cache), plan, run)
  {
    hide Sns, Trim, Handle;
    var n := Fresh(mem, cache);
    assert Sns([]) == [] by { SnsLength([]); }
    assert Recorded(n) by { FreshRecorded(mem, cache); }
    if run != [] {
      var k := |run| - 1;
      var a := run[k];
      var p := After(n, plan, run[..k]);
      AtMostOnceIffTimely(mem, cache, plan, run[..k]);
      RunRecords(n, plan, run[..k]);
      TimelyPrefix(n, plan, run);
      if a.sn in plan {
        HandleRecords(p, a.sn, plan[a.sn], a.now);
        TrimWithin(Sns(p.log));
        if !plan[a.sn].op.ReadWord? && a.sn !in Trim(Sns(p.log)) {
          DistinctAppend(Sns(p.log), a.sn);
        }
      }
    }
  }

  lemma {:induction false} FreshRecorded(mem: map<nat, nat>, cache: Cache<Reply>)
    ensures Recorded(Fresh(mem, cache))
  {}

  lemma {:induction false} TrimWithin(m: seq<nat>)
    ensures forall x :: x in Trim(m) ==> x in m
  {}

  lemma {:induction false} DistinctAppend(q: seq<nat>, x: nat)
    ensures Distinct(q + [x]) <==> Distinct(q) && x !in q
  {
    var r := q + [x];
    if Distinct(r) {
      forall i | 0 <= i < |q|
        ensures q[i] != x
      {
        assert r[i] != r[|q|];
      }
      forall i, j | 0 <= i < j < |q|
        ensures q[i] != q[j]
      {
        assert r[i] != r[j];
      }
    }
  }

  lemma {:induction false} TimelyPrefix(n: Node, plan: map<nat, Request>, run: seq<Arrival>)
    requires run != []
    ensures var k := |run| - 1;
            AllTimely(n, plan, run) <==>
              && AllTimely(n, plan, run[..k])
              && (run[k].sn in plan && !plan[run[k].sn].op.ReadWord? ==> Timely(After(n, plan, run[..k]), run[k].sn))
  {
    hide After, Timely;
    var k := |run| - 1;
    assert forall i :: 0 <= i < k ==> run[..k][..i] == run[..i] && run[..k][i] == run[i];
  }

  // ---- fetch-and-add words ----

  function Touches(e: Exec, addr: nat): bool { e.ok && e.req.op.addr == addr }

  ghost predicate FaaOnly(log: seq<Exec>, addr: nat) {
    forall i :: 0 <= i < |log| && Touches(log[i], addr) ==> log[i].req.op.Faa?
  }

  function Added(log: seq<Exec>, addr: nat): nat {
    if log == [] then 0
    else
      var e := log[|log| - 1];
      Added(log[..|log| - 1], addr) + if Touches(e, addr) && e.req.op.Faa? then e.req.op.add else 0
  }

  lemma {:induction false} HandleAdds(n: Node, sn: nat, r: Request, now: int, addr: nat, init: nat)
    requires addr in n.mem
    requires FaaOnly(n.log, addr) ==> n.mem[addr] == (init + Added(n.log, addr)) % U64
    ensures var t := Handle(n, sn, r, now);
            addr in t.mem && (FaaOnly(t.log, addr) ==> t.mem[addr] == (init + Added(t.log, addr)) % U64)
  {
    hide Insert, Get, MarkExecuted;
    var t := Handle(n, sn, r, now);
    if t.log != n.log {
      var e := t.log[|n.log|];
      assert t.log == n.log + [e];
      assert t.log[..|t.log| - 1] == n.log;
      if FaaOnly(t.log, addr) {
        assert forall i :: 0 <= i < |n.log| ==> t.log[i] == n.log[i];
        assert FaaOnly(n.log, addr);
        if Touches(e, addr) {
          ModAdd(init + Added(n.log, addr), r.op.add);
        }
      }
    }
  }

  lemma {:induction false} ModAdd(a: nat, b: nat)
    ensures (a % U64 + b) % U64 == (a + b) % U64
  {
    var q := a / U64;
    assert a == U64 * q + a % U64;
    assert a + b == U64 * q + (a % U64 + b);
    ModShift(a % U64 + b, q);
  }

  lemma {:induction false} ModShift(x: nat, q: nat)
    ensures (U64 * q + x) % U64 == x % U64
    decreases q
  {
    if q > 0 {
      ModShift(x, q - 1);
      assert U64 * q + x == (U64 * (q - 1) + x) + U64;
    }
  }

  /** Accounting: after any run a word touched only by fetch-and-adds holds its initial value plus the sum of the adds
      of all executions, modulo 2^64; if duplicates were timely those executions have distinct numbers. */
  lemma {:induction false} FaaAccounted(
    mem: map<nat, nat>, cache: Cache<Reply>, plan: map<nat, Request>, run: seq<Arrival>, addr: nat)
    requires addr in mem && mem[addr] < U64
    ensures var t := After(Fresh(mem, cache), plan, run);
            && addr in t.mem
            && (FaaOnly(t.log, addr) ==> t.mem[addr] == (mem[addr] + Added(t.log, addr)) % U64)
            && (AllTimely(Fresh(mem, cache), plan, run) ==> Distinct(Sns(t.log)))
  {
    hide Handle, FaaOnly, Added, Sns, Distinct, AllTimely;
    AtMostOnceIffTimely(mem, cache, plan, run);
    FaaRun(mem, cache, plan, run, addr);
  }

  lemma {:induction false} FaaRun(
    mem: map<nat, nat>, cache: Cache<Reply>, plan: map<nat, Request>, run: seq<Arrival>, addr: nat)
    requires addr in mem && mem[addr] < U64
    ensures var t := After(Fresh(mem, cache), plan, run);
            addr in t.mem && (FaaOnly(t.log, addr) ==> t.mem[addr] == (mem[addr] + Added(t.log, addr)) % U64)
  {
    hide Handle, FaaOnly;
    if run != [] {
      var k := |run| - 1;
      FaaRun(mem, cache, plan, run[..k], addr);
      if run[k].sn in plan {
        HandleAdds(After(Fresh(mem, cache), plan, run[..k]), run[k].sn, plan[run[k].sn], run[k].now, addr, mem[addr]);
      }
    }
  }

  // ---- one answer per request ----

  /** Different requests carry different request ids (writes have none that matter). */
  ghost predicate UniqueIds(plan: map<nat, Request>) {
    forall a, b :: a in plan && b in plan && a != b && !plan[a].op.WriteWord? && !plan[b].op.WriteWord? ==>
      plan[a].reqId != plan[b].reqId
  }

  ghost predicate Unused(n: Node, id: nat) {
    id !in n.cache.entries && forall i :: 0 <= i < |n.replies| ==> n.replies[i].reqId != id
  }

  /** All replies sent under one id are equal, and so is the cached one. */
  ghost predicate OneAnswer(n: Node, id: nat) {
    && (forall i, j :: 0 <= i < |n.replies| && 0 <= j < |n.replies|
                           && n.replies[i].reqId == id == n.replies[j].reqId ==>
          n.replies[i] == n.replies[j])
    && (id in n.cache.entries ==>
          forall i :: 0 <= i < |n.replies| && n.replies[i].reqId == id ==> n.replies[i] == n.cache.entries[id].response)
  }

  /** Cached replies sit under their own id. */
  ghost predicate KeysMatch(n: Node) {
    forall k :: k in n.cache.entries ==> n.cache.entries[k].response.reqId == k
  }

  ghost predicate Answered(n: Node, sn: nat, id: nat) {
    OneAnswer(n, id) && KeysMatch(n) && (sn !in Sns(n.log) ==> Unused(n, id))
  }

  lemma {:induction false} GetKeeps(c: Cache<Reply>, key: nat, now: int, k: nat)
    ensures var (d, hit) := Get(c, key, now);
            && (k in d.entries ==> k in c.entries && d.entries[k].response == c.entries[k].response)
            && (hit.Some? ==> key in c.entries && hit.value == c.entries[key].response)
  {}

  lemma {:induction false} InsertKeeps(c: Cache<Reply>, key: nat, r: Reply, now: int, k: nat)
    ensures var d := Insert(c, key, r, now);
            k in d.entries ==> if k == key then d.entries[k].response == r
                               else k in c.entries && d.entries[k].response == c.entries[k].response
  {}

  lemma {:induction false} HandleKeysMatch(n: Node, sn: nat, r: Request, now: int)
    requires KeysMatch(n)
    ensures KeysMatch(Handle(n, sn, r, now))
  {
    hide Insert, Get, MarkExecuted;
    var t := Handle(n, sn, r, now);
    var (c, hit) := Get(n.cache, r.reqId, now);
    forall k | k in t.cache.entries
      ensures t.cache.entries[k].response.reqId == k
    {
      GetKeeps(n.cache, r.reqId, now, k);
      if r.op.addr in n.mem {
        InsertKeeps(n.cache, r.reqId, Reply(r.reqId, n.mem[r.op.addr]), now, k);
        InsertKeeps(c, r.reqId, Reply(r.reqId, n.mem[r.op.addr]), now, k);
      }
    }
  }

  /** Handling a request under another id leaves this id's answer alone. */
  lemma {:induction false} OtherIdKeeps(n: Node, sn: nat, r: Request, now: int, id: nat)
    requires KeysMatch(n) && OneAnswer(n, id) && (r.op.WriteWord? || r.reqId != id)
    ensures OneAnswer(Handle(n, sn, r, now), id)
    ensures Unused(n, id) ==> Unused(Handle(n, sn, r, now), id)
  {
    hide Insert, Get, MarkExecuted;
    var (c, hit) := Get(n.cache, r.reqId, now);
    GetKeeps(n.cache, r.reqId, now, id);
    if r.op.addr in n.mem {
      InsertKeeps(n.cache, r.reqId, Reply(r.reqId, n.mem[r.op.addr]), now, id);
      InsertKeeps(c, r.reqId, Reply(r.reqId, n.mem[r.op.addr]), now, id);
    }
  }

  /** Handling the request itself, on time: the first run creates the answer, later copies repeat it. */
  lemma {:induction false} OwnIdKeeps(n: Node, sn: nat, r: Request, now: int)
    requires Recorded(n) && Timely(n, sn) && Atomic(r.op) && Answered(n, sn, r.reqId)
    ensures OneAnswer(Handle(n, sn, r, now), r.reqId)
    ensures sn !in n.executed || sn in Sns(n.log)
  {
    hide Insert, Get, MarkExecuted, Sns, Trim;
    TrimWithin(Sns(n.log));
    GetKeeps(n.cache, r.reqId, now, r.reqId);
    if r.op.addr in n.mem {
      InsertKeeps(n.cache, r.reqId, Reply(r.reqId, n.mem[r.op.addr]), now, r.reqId);
    }
  }

  lemma {:induction false} HandleAnswered(n: Node, plan: map<nat, Request>, a: Arrival, sn: nat)
    requires UniqueIds(plan) && sn in plan && Atomic(plan[sn].op) && a.sn in plan && Recorded(n)
    requires !plan[a.sn].op.ReadWord? ==> Timely(n, a.sn)
    requires Answered(n, sn, plan[sn].reqId)
    ensures Answered(Handle(n, a.sn, plan[a.sn], a.now), sn, plan[sn].reqId)
  {
    hide Handle, Sns, OneAnswer, Unused, KeysMatch, Trim;
    HandleKeysMatch(n, a.sn, plan[a.sn], a.now);
    HandleRecords(n, a.sn, plan[a.sn], a.now);
    if a.sn == sn {
      OwnIdKeeps(n, sn, plan[sn], a.now);
      TrimWithin(Sns(n.log));
    } else {
      OtherIdKeeps(n, a.sn, plan[a.sn], a.now, plan[sn].reqId);
    }
  }

  /** All success responses ever sent for one atomic request are identical, provided duplicates are timely. */
  lemma {:induction false} ResponsesIdentical(
    mem: map<nat, nat>, cache: Cache<Reply>, plan: map<nat, Request>, run: seq<Arrival>, sn: nat)
    requires UniqueIds(plan) && cache.entries == map[] && sn in plan && Atomic(plan[sn].op)
    requires AllTimely(Fresh(mem, cache), plan, run)
    ensures OneAnswer(After(Fresh(mem, cache), plan, run), plan[sn].reqId)
    ensures Answered(After(Fresh(mem, cache), plan, run), sn, plan[sn].reqId)
  {
    hide Handle, OneAnswer, KeysMatch, Timely, Sns;
    var n := Fresh(mem, cache);
    if run == [] {
      FreshAnswered(mem, cache, sn, plan[sn].reqId);
    } else {
      var k := |run| - 1;
      TimelyPrefix(n, plan, run);
      ResponsesIdentical(mem, cache, plan, run[..k], sn);
      FreshRecorded(mem, cache);
      RunRecords(n, plan, run[..k]);
      if run[k].sn in plan {
        HandleAnswered(After(n, plan, run[..k]), plan, run[k], sn);
      }
    }
  }

  lemma {:induction false} FreshAnswered(mem: map<nat, nat>, cache: Cache<Reply>, sn: nat, id: nat)
    requires cache.entries == map[]
    ensures Answered(Fresh(mem, cache), sn, id)
  {}

  // ---- a late duplicate runs again ----

  function CountUp(n: nat): seq<Arrival> { seq(n, i requires 0 <= i < n => Arrival(i + 1, 0)) }

  /** A thousand and more increments of word 0, numbered from 1. */
  function Increments(n: nat): map<nat, Request> { map i: nat | 1 <= i <= n :: Request(i, Faa(0, 1)) }

  lemma {:induction false} CountUpAt(n: nat)
    ensures |CountUp(n)| == n
    ensures n > 0 ==> CountUp(n)[..n - 1] == CountUp(n - 1) && CountUp(n)[n - 1] == Arrival(n, 0)
  {}

  lemma {:induction false} Incremented(p: Node, sn: nat, n: nat)
    requires p.mem == map[0 := n] && n + 1 < U64 && sn !in p.executed
    ensures Handle(p, sn, Request(sn, Faa(0, 1)), 0).mem == map[0 := n + 1]
  {
    hide Insert, MarkExecuted;
  }

  lemma {:induction false} CountedUp(cache: Cache<Reply>, m: nat, n: nat)
    requires n <= m < U64
    ensures Counted(After(Fresh(map[0 := 0], cache), Increments(m), CountUp(n)), n)
  {
    hide Handle, CountUp, Counted;
    CountUpAt(n);
    if n == 0 {
      CountedNone(cache, m);
    } else {
      CountedUp(cache, m, n - 1);
      CountsOn(After(Fresh(map[0 := 0], cache), Increments(m), CountUp(n - 1)), n);
    }
  }

  /** Increments 1..n have been executed, once each and in order. */
  ghost predicate Counted(t: Node, n: nat) {
    && t.mem == map[0 := n] && Recorded(t) && |Sns(t.log)| == n
    && forall i :: 0 <= i < n ==> Sns(t.log)[i] == i + 1
  }

  /** A duplicate of the first increment after 1025 of them is executed a second time. */
  lemma {:induction false} RunsAgain(p: Node)
    requires Counted(p, 1025)
    ensures var t := Handle(p, 1, Request(1, Faa(0, 1)), 0); t.mem == map[0 := 1026] && !Distinct(Sns(t.log))
  {
    hide Insert, MarkExecuted, Sns;
    var m := Sns(p.log);
    assert Trim(m) == m[1..];
    Incremented(p, 1, 1025);
    HandleRecords(p, 1, Request(1, Faa(0, 1)), 0);
    assert (m + [1])[0] == (m + [1])[1025];
  }

  /** After 1025 increments a duplicate of the first one is executed a second time. */
  lemma {:induction false} LateDuplicateRuns(cache: Cache<Reply>)
    ensures var run := CountUp(1025) + [Arrival(1, 0)];
            var t := After(Fresh(map[0 := 0], cache), Increments(1025), run);
            t.mem == map[0 := 1026] && !Distinct(Sns(t.log))
  {
    hide Handle, Sns, CountUp, Distinct;
    var run := CountUp(1025) + [Arrival(1, 0)];
    CountedUp(cache, 1025, 1025);
    CountUpAt(1025);
    assert run[..|run| - 1] == CountUp(1025);
    RunsAgain(After(Fresh(map[0 := 0], cache), Increments(1025), CountUp(1025)));
  }

  /** Every increment arrives twice in a row. */
  function Twice(n: nat): seq<Arrival> {
    if n == 0 then [] else Twice(n - 1) + [Arrival(n, 0)] + [Arrival(n, 0)]
  }

  lemma AfterPush(n: Node, plan: map<nat, Request>, run: seq<Arrival>, a: Arrival)
    ensures After(n, plan, run + [a])
              == if a.sn in plan then Handle(After(n, plan, run), a.sn, plan[a.sn], a.now) else After(n, plan, run)
  {
    hide Handle;
    assert (run + [a])[..|run|] == run;
  }

  lemma {:induction false} CountsOn(p: Node, n: nat)
    requires n >= 1 && n < U64 && Counted(p, n - 1)
    ensures Counted(Handle(p, n, Request(n, Faa(0, 1)), 0), n)
  {
    hide Trim, Sns, Handle;
    TrimWithin(Sns(p.log));
    assert n !in Sns(p.log);
    Incremented(p, n, n - 1);
    HandleRecords(p, n, Request(n, Faa(0, 1)), 0);
  }

  /** The immediate duplicate is answered from the cache, or not at all, and changes nothing else. */
  lemma {:induction false} CountsOnce(p: Node, n: nat)
    requires n >= 1 && Counted(p, n)
    ensures Counted(Handle(p, n, Request(n, Faa(0, 1)), 0), n)
  {
    hide Sns, Get;
    var m := Sns(p.log);
    assert m[n - 1] == n && Trim(m)[|Trim(m)| - 1] == n;
  }

  lemma {:induction false} CountedTwice(cache: Cache<Reply>, m: nat, n: nat)
    requires n <= m < U64
    ensures Counted(After(Fresh(map[0 := 0], cache), Increments(m), Twice(n)), n)
  {
    hide Handle, Counted;
    var f, plan := Fresh(map[0 := 0], cache), Increments(m);
    if n == 0 {
      CountedNone(cache, m);
    } else {
      CountedTwice(cache, m, n - 1);
      AfterPush(f, plan, Twice(n - 1), Arrival(n, 0));
      AfterPush(f, plan, Twice(n - 1) + [Arrival(n, 0)], Arrival(n, 0));
      CountsOn(After(f, plan, Twice(n - 1)), n);
      CountsOnce(After(f, plan, Twice(n - 1) + [Arrival(n, 0)]), n);
    }
  }

  lemma CountedNone(cache: Cache<Reply>, m: nat)
    ensures Counted(After(Fresh(map[0 := 0], cache), Increments(m), []), 0)
  {
    FreshRecorded(map[0 := 0], cache);
    SnsLength([]);
  }

  /** The same late duplicate where every increment also arrived a second time at once. */
  lemma {:induction false} LateDuplicateAfterTwice(cache: Cache<Reply>)
    ensures After(Fresh(map[0 := 0], cache), Increments(1025), Twice(1025) + [Arrival(1, 0)]).mem == map[0 := 1026]
  {
    hide Handle, After, Twice;
    CountedTwice(cache, 1025, 1025);
    AfterPush(Fresh(map[0 := 0], cache), Increments(1025), Twice(1025), Arrival(1, 0));
    RunsAgain(After(Fresh(map[0 := 0], cache), Increments(1025), Twice(1025)));
  }
}
