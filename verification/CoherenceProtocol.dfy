/** The single-writer multi-reader protocol for one region: a home with content, epoch, readers and writer lease, and
    any number of reader nodes joined to it by FIFO channels. The home and reader moves are those of the coherence
    manager and the fetch agent; who may do what when is the environment's part and stands in the guards of Apply. */
module CoherenceProtocol {
  import opened Bytes
  import opened CachePool
  import FetchAgent
  import opened Coherence

  datatype Line = Gone | Held(epoch: nat)

  /** `snap` is the epoch the requesting read saw at its miss; the answer is cached under it. */
  datatype Down = Inval(newEpoch: nat) | Resp(content: int, snap: nat)

  datatype Up = Fetch(snap: nat) | Ack

  /** `parked` are fetches that reached the home and wait there; `owed` counts invalidations sent to this node and not
      yet acknowledged. */
  datatype Reader = Reader(
    line: Line, epoch: nat, copy: int, down: seq<Down>, up: seq<Up>, parked: seq<nat>, owed: nat)

  datatype State = State(home: Home, content: int, nodes: map<nat, Reader>, leaseMs: nat)

  datatype Step =
    | Acquire(n: nat, now: int, newEpoch: nat)
    | Release(n: nat)
    | Sweep(now: int)
    | Write(n: nat, content: int)
    | SendFetch(n: nat)
    | ServeFetch(n: nat)
    | RecvUp(n: nat)
    | RecvDown(n: nat, cached: bool)
    | Evict(n: nat)

  /** What an INVALIDATE does to a reader's line and table epoch. */
  function OnInvalidate(line: Line, epoch: nat, newEpoch: nat): (Line, nat) {
    match line
    case Held(current) => if newEpoch >= current then (Gone, newEpoch) else (line, epoch)
    case Gone => (Gone, if newEpoch > epoch then newEpoch else epoch)
  }

  function Put(s: State, n: nat, x: Reader): State { s.(nodes := s.nodes[n := x]) }

  function Invalidated(nodes: map<nat, Reader>, readers: set<nat>, newEpoch: nat): map<nat, Reader> {
    map n | n in nodes :: if n in readers
      then nodes[n].(down := nodes[n].down + [Inval(newEpoch)], owed := nodes[n].owed + 1)
      else nodes[n]
  }

  /** The grant goes out at once; the readers of the moment are sent the invalidation. */
  function DoAcquire(s: State, n: nat, now: int, newEpoch: nat): State {
    s.(home := Taken(s.home, n, now + s.leaseMs), nodes := Invalidated(s.nodes, s.home.readers, newEpoch))
  }

  function DoServe(s: State, n: nat): State
    requires n in s.nodes && s.nodes[n].parked != []
  {
    var x := s.nodes[n];
    Put(s, n, x.(parked := x.parked[1..], down := x.down + [Resp(s.content, x.parked[0])]))
      .(home := s.home.(readers := s.home.readers + {n}))
  }

  function DoRecvUp(s: State, n: nat): State
    requires n in s.nodes && s.nodes[n].up != []
  {
    var x := s.nodes[n];
    match x.up[0]
    case Fetch(snap) => Put(s, n, x.(up := x.up[1..], parked := x.parked + [snap]))
    case Ack =>
      Put(s, n, x.(up := x.up[1..], owed := if x.owed > 0 then x.owed - 1 else 0))
        .(home := s.home.(readers := s.home.readers - {n}))
  }

  function Received(x: Reader, cached: bool): Reader
    requires x.down != []
  {
    match x.down[0]
    case Inval(newEpoch) =>
      var (line, epoch) := OnInvalidate(x.line, x.epoch, newEpoch);
      x.(line := line, epoch := epoch, down := x.down[1..], up := x.up + [Ack])
    case Resp(content, snap) =>
      if cached then x.(line := Held(snap), epoch := snap, copy := content, down := x.down[1..])
      else x.(down := x.down[1..])
  }

  predicate CanServe(s: State, n: nat) { n in s.nodes && s.nodes[n].parked != [] && s.home.writer.None? }

  /** A step that is not possible changes nothing. The guards are the environment's rules: an invalidation carries the
      home's epoch or the next one; only the lock holder writes, and only when no reader is left; a fetch waits until
      no writer holds the lock and, the rule the home needs to add, until the node owes no acknowledgement. */
  function Apply(s: State, step: Step): State {
    match step
    case Acquire(n, now, newEpoch) =>
      if HeldByOther(s.home, n, now) || !(s.home.epoch <= newEpoch <= s.home.epoch + 1) then s
      else DoAcquire(s, n, now, newEpoch)
    case Release(n) =>
      if s.home.writer.Some? && s.home.writer.value.node == n then s.(home := Ended(s.home)) else s
    case Sweep(now) => if Expired(s.home, now) then s.(home := Ended(s.home)) else s
    case Write(n, content) =>
      if s.home.writer.Some? && s.home.writer.value.node == n && s.home.readers == {} then s.(content := content)
      else s
    case SendFetch(n) =>
      if n in s.nodes && s.nodes[n].line.Gone? then
        Put(s, n, s.nodes[n].(up := s.nodes[n].up + [Fetch(s.nodes[n].epoch)]))
      else s
    case ServeFetch(n) => if CanServe(s, n) && s.nodes[n].owed == 0 then DoServe(s, n) else s
    case RecvUp(n) => if n in s.nodes && s.nodes[n].up != [] then DoRecvUp(s, n) else s
    case RecvDown(n, cached) =>
      if n in s.nodes && s.nodes[n].down != [] then Put(s, n, Received(s.nodes[n], cached)) else s
    case Evict(n) => if n in s.nodes then Put(s, n, s.nodes[n].(line := Gone)) else s
  }

  function Run(s: State, steps: seq<Step>): State {
    if steps == [] then s else Apply(Run(s, steps[..|steps| - 1]), steps[|steps| - 1])
  }

  /** A fresh region: nothing cached, nothing in flight, every node's table epoch at most the home's. */
  ghost predicate Fresh(s: State) {
    && s.home.readers == {} && s.home.writer.None?
    && forall n :: n in s.nodes ==>
         s.nodes[n] == Reader(Gone, s.nodes[n].epoch, s.nodes[n].copy, [], [], [], 0)
         && s.nodes[n].epoch <= s.home.epoch
  }

  // ---- the invariant ----

  /** No epoch a reader knows of exceeds this. */
  function Ceiling(h: Home): nat { h.epoch + if h.writer.Some? then 1 else 0 }

  function Invals(down: seq<Down>): nat {
    if down == [] then 0 else Invals(down[..|down| - 1]) + if down[|down| - 1].Inval? then 1 else 0
  }

  function Acks(up: seq<Up>): nat {
    if up == [] then 0 else Acks(up[..|up| - 1]) + if up[|up| - 1].Ack? then 1 else 0
  }

  /** A valid copy: registered at the home, current, and with no acknowledgement on its way. */
  ghost predicate Current(h: Home, content: int, n: nat, x: Reader, copy: int, epoch: nat) {
    n in h.readers && copy == content && epoch <= h.epoch && Ack !in x.up
  }

  ghost predicate Copies(h: Home, content: int, n: nat, x: Reader) {
    && (x.line.Held? ==> Current(h, content, n, x, x.copy, x.line.epoch))
    && (forall i :: 0 <= i < |x.down| && x.down[i].Resp? ==>
          Current(h, content, n, x, x.down[i].content, x.down[i].snap))
  }

  /** Answers come before invalidations in the channel, and no invalidation is older than a copy before it. */
  ghost predicate Channel(x: Reader) {
    && (forall i, j :: 0 <= i < j < |x.down| && x.down[j].Resp? ==> x.down[i].Resp?)
    && (forall i, j :: 0 <= i < |x.down| && 0 <= j < |x.down| && x.down[i].Resp? && x.down[j].Inval? ==>
          x.down[i].snap <= x.down[j].newEpoch)
    && (forall j :: 0 <= j < |x.down| && x.down[j].Inval? && x.line.Held? ==> x.line.epoch <= x.down[j].newEpoch)
  }

  ghost predicate Epochs(h: Home, x: Reader) {
    && x.epoch <= Ceiling(h)
    && (forall i :: 0 <= i < |x.down| && x.down[i].Inval? ==> x.down[i].newEpoch <= Ceiling(h))
    && (forall i :: 0 <= i < |x.up| && x.up[i].Fetch? ==> x.up[i].snap <= Ceiling(h))
    && (forall i :: 0 <= i < |x.parked| ==> x.parked[i] <= Ceiling(h))
  }

  ghost predicate Counted(x: Reader) { x.owed == Invals(x.down) + Acks(x.up) }

  ghost predicate NodeInv(h: Home, content: int, n: nat, x: Reader) {
    Copies(h, content, n, x) && Channel(x) && Epochs(h, x) && Counted(x)
  }

  ghost predicate Inv(s: State) { forall n :: n in s.nodes ==> NodeInv(s.home, s.content, n, s.nodes[n]) }

  // ---- counting messages ----

  lemma {:induction false} InvalsTail(down: seq<Down>)
    requires down != []
    ensures Invals(down) == Invals(down[1..]) + if down[0].Inval? then 1 else 0
  {
    if |down| > 1 {
      InvalsTail(down[..|down| - 1]);
      assert down[..|down| - 1][1..] == down[1..][..|down| - 2];
    }
  }

  lemma {:induction false} AcksTail(up: seq<Up>)
    requires up != []
    ensures Acks(up) == Acks(up[1..]) + if up[0].Ack? then 1 else 0
  {
    if |up| > 1 {
      AcksTail(up[..|up| - 1]);
      assert up[..|up| - 1][1..] == up[1..][..|up| - 2];
    }
  }

  lemma InvalsPush(down: seq<Down>, m: Down)
    ensures Invals(down + [m]) == Invals(down) + if m.Inval? then 1 else 0
  {
    assert (down + [m])[..|down|] == down;
  }

  lemma AcksPush(up: seq<Up>, m: Up)
    ensures Acks(up + [m]) == Acks(up) + if m.Ack? then 1 else 0
  {
    assert (up + [m])[..|up|] == up;
  }

  lemma {:induction false} NoInvals(down: seq<Down>)
    requires Invals(down) == 0
    ensures forall i :: 0 <= i < |down| ==> down[i].Resp?
  {
    if down != [] { NoInvals(down[..|down| - 1]); }
  }

  lemma {:induction false} NoAcks(up: seq<Up>)
    ensures Acks(up) == 0 <==> Ack !in up
  {
    if up != [] {
      NoAcks(up[..|up| - 1]);
      assert up == up[..|up| - 1] + [up[|up| - 1]];
    }
  }

  // ---- every step keeps it ----

  lemma AcquireKeeps(h: Home, content: int, n: nat, x: Reader, node: nat, deadline: int, newEpoch: nat)
    requires NodeInv(h, content, n, x) && h.epoch <= newEpoch <= h.epoch + 1
    ensures NodeInv(Taken(h, node, deadline), content, n, x)
    ensures n in h.readers ==>
              NodeInv(Taken(h, node, deadline), content, n, x.(down := x.down + [Inval(newEpoch)], owed := x.owed + 1))
  {
    hide Invals, Acks;
    InvalsPush(x.down, Inval(newEpoch));
  }

  lemma EndKeeps(h: Home, content: int, n: nat, x: Reader)
    requires NodeInv(h, content, n, x) && h.writer.Some?
    ensures NodeInv(Ended(h), content, n, x)
  {
    hide Invals, Acks;
  }

  /** With no readers left nobody holds or is about to receive a copy. */
  lemma WriteKeeps(h: Home, content: int, n: nat, x: Reader, fresh': int)
    requires NodeInv(h, content, n, x) && h.readers == {}
    ensures x.line.Gone? && NodeInv(h, fresh', n, x)
  {
    hide Invals, Acks;
  }

  lemma ServeKeeps(h: Home, content: int, n: nat, x: Reader)
    requires NodeInv(h, content, n, x) && h.writer.None? && x.parked != [] && x.owed == 0
    ensures NodeInv(h.(readers := h.readers + {n}), content, n,
                    x.(parked := x.parked[1..], down := x.down + [Resp(content, x.parked[0])]))
  {
    hide Invals, Acks, Copies, Channel, Epochs;
    var y := x.(parked := x.parked[1..], down := x.down + [Resp(content, x.parked[0])]);
    InvalsPush(x.down, Resp(content, x.parked[0]));
    NoInvals(x.down);
    NoAcks(x.up);
    AnswerSent(h, content, n, x);
  }

  lemma AnswerSent(h: Home, content: int, n: nat, x: Reader)
    requires Copies(h, content, n, x) && Channel(x) && Epochs(h, x) && h.writer.None? && x.parked != []
    requires Ack !in x.up && forall i :: 0 <= i < |x.down| ==> x.down[i].Resp?
    ensures var y := x.(parked := x.parked[1..], down := x.down + [Resp(content, x.parked[0])]);
            var h' := h.(readers := h.readers + {n});
            Copies(h', content, n, y) && Channel(y) && Epochs(h', y)
  {
    var y := x.(parked := x.parked[1..], down := x.down + [Resp(content, x.parked[0])]);
    assert forall i :: 0 <= i < |x.down| ==> y.down[i] == x.down[i];
    assert forall i :: 0 <= i < |y.down| ==> y.down[i].Resp?;
  }

  lemma MoreReaders(h: Home, content: int, n: nat, x: Reader, readers: set<nat>)
    requires NodeInv(h, content, n, x) && (n in h.readers ==> n in readers)
    ensures NodeInv(h.(readers := readers), content, n, x)
  {
    hide Invals, Acks;
  }

  lemma FetchArrives(h: Home, content: int, n: nat, x: Reader)
    requires NodeInv(h, content, n, x) && x.up != [] && x.up[0].Fetch?
    ensures NodeInv(h, content, n, x.(up := x.up[1..], parked := x.parked + [x.up[0].snap]))
  {
    AcksTail(x.up);
    hide Invals, Acks;
  }

  lemma AckArrives(h: Home, content: int, n: nat, x: Reader)
    requires NodeInv(h, content, n, x) && x.up != [] && x.up[0].Ack?
    ensures x.owed > 0
    ensures NodeInv(h.(readers := h.readers - {n}), content, n, x.(up := x.up[1..], owed := x.owed - 1))
  {
    AcksTail(x.up);
    assert Ack in x.up;
    hide Invals, Acks;
  }

  lemma InvalArrives(h: Home, content: int, n: nat, x: Reader, cached: bool)
    requires NodeInv(h, content, n, x) && x.down != [] && x.down[0].Inval?
    ensures NodeInv(h, content, n, Received(x, cached)) && Received(x, cached).line.Gone?
  {
    hide Invals, Acks, Copies, Channel, Epochs;
    InvalsTail(x.down);
    AcksPush(x.up, Ack);
    InvalTaken(h, content, n, x, cached);
  }

  lemma InvalTaken(h: Home, content: int, n: nat, x: Reader, cached: bool)
    requires Copies(h, content, n, x) && Channel(x) && Epochs(h, x) && x.down != [] && x.down[0].Inval?
    ensures var y := Received(x, cached);
            Copies(h, content, n, y) && Channel(y) && Epochs(h, y) && y.line.Gone?
  {
    var d := x.down[1..];
    assert forall i :: 0 <= i < |d| ==> d[i] == x.down[i + 1];
    assert forall i :: 0 <= i < |d| ==> d[i].Inval?;
  }

  lemma RespArrives(h: Home, content: int, n: nat, x: Reader, cached: bool)
    requires NodeInv(h, content, n, x) && x.down != [] && x.down[0].Resp?
    ensures NodeInv(h, content, n, Received(x, cached))
  {
    InvalsTail(x.down);
    hide Invals, Acks;
    var d := x.down[1..];
    assert forall i :: 0 <= i < |d| ==> d[i] == x.down[i + 1];
  }

  lemma FetchSent(h: Home, content: int, n: nat, x: Reader)
    requires NodeInv(h, content, n, x)
    ensures NodeInv(h, content, n, x.(up := x.up + [Fetch(x.epoch)]))
    ensures NodeInv(h, content, n, x.(line := Gone))
  {
    AcksPush(x.up, Fetch(x.epoch));
    hide Invals, Acks;
  }

  lemma {:induction false} HomeStep(s: State, step: Step)
    requires Inv(s) && (step.Acquire? || step.Release? || step.Sweep? || step.Write?)
    ensures Inv(Apply(s, step))
  {
    hide NodeInv;
    forall n | n in s.nodes
      ensures n in Apply(s, step).nodes
      ensures NodeInv(Apply(s, step).home, Apply(s, step).content, n, Apply(s, step).nodes[n])
    {
      var h, c, x := s.home, s.content, s.nodes[n];
      if step.Acquire? && h.epoch <= step.newEpoch <= h.epoch + 1 {
        AcquireKeeps(h, c, n, x, step.n, step.now + s.leaseMs, step.newEpoch);
      } else if step.Write? && h.readers == {} {
        WriteKeeps(h, c, n, x, step.content);
      } else if h.writer.Some? {
        EndKeeps(h, c, n, x);
      }
    }
  }

  lemma {:induction false} NodeStep(s: State, step: Step)
    requires Inv(s) && (step.SendFetch? || step.ServeFetch? || step.RecvUp? || step.RecvDown? || step.Evict?)
    ensures Inv(Apply(s, step))
  {
    hide NodeInv;
    var t := Apply(s, step);
    if t != s {
      var h, c, x := s.home, s.content, s.nodes[step.n];
      NodeMove(s, step);
      forall n | n in t.nodes
        ensures NodeInv(t.home, t.content, n, t.nodes[n])
      {
        if n != step.n { MoreReaders(h, c, n, s.nodes[n], t.home.readers); }
      }
    }
  }

  lemma {:induction false} NodeMove(s: State, step: Step)
    requires Inv(s) && (step.SendFetch? || step.ServeFetch? || step.RecvUp? || step.RecvDown? || step.Evict?)
    requires Apply(s, step) != s
    ensures step.n in s.nodes && NodeInv(Apply(s, step).home, s.content, step.n, Apply(s, step).nodes[step.n])
  {
    hide NodeInv, Received;
    var h, c, n := s.home, s.content, step.n;
    var x := s.nodes[n];
    match step {
      case SendFetch(_) => FetchSent(h, c, n, x);
      case Evict(_) => FetchSent(h, c, n, x);
      case ServeFetch(_) => ServeKeeps(h, c, n, x);
      case RecvUp(_) => if x.up[0].Ack? { AckArrives(h, c, n, x); } else { FetchArrives(h, c, n, x); }
      case RecvDown(_, cached) =>
        if x.down[0].Inval? { InvalArrives(h, c, n, x, cached); } else { RespArrives(h, c, n, x, cached); }
    }
  }

  lemma {:induction false} InvAlways(s: State, steps: seq<Step>)
    requires Fresh(s)
    ensures Inv(Run(s, steps))
  {
    InvStays(s, steps);
  }

  lemma {:induction false} InvStays(s: State, steps: seq<Step>)
    requires Inv(s)
    ensures Inv(Run(s, steps))
  {
    hide Apply, NodeInv;
    if steps != [] {
      var k := |steps| - 1;
      InvStays(s, steps[..k]);
      var t := Run(s, steps[..k]);
      if steps[k].Acquire? || steps[k].Release? || steps[k].Sweep? || steps[k].Write? {
        HomeStep(t, steps[k]);
      } else {
        NodeStep(t, steps[k]);
      }
    }
  }

  // ---- main results ----

  ghost predicate Coherent(s: State) {
    forall n :: n in s.nodes && s.nodes[n].line.Held? ==> n in s.home.readers && s.nodes[n].copy == s.content
  }

  /** In every run a node that holds the region holds exactly the home's content and is registered there, so every
      cache hit is fresh. */
  lemma {:induction false} HitsAreFresh(s: State, steps: seq<Step>)
    requires Fresh(s)
    ensures Coherent(Run(s, steps))
  {
    InvAlways(s, steps);
  }

  /** In every run an invalidation that reaches a node leaves it without a copy: none is rejected as old while a copy
      is held. */
  lemma {:induction false} NoInvalidationRejected(s: State, steps: seq<Step>, n: nat, cached: bool)
    requires Fresh(s) && n in Run(s, steps).nodes
    requires var x := Run(s, steps).nodes[n]; x.down != [] && x.down[0].Inval?
    ensures var x := Run(s, steps).nodes[n];
            Received(x, cached).line.Gone? && (x.line.Held? ==> x.down[0].newEpoch >= x.line.epoch)
  {
    hide Run, NodeInv;
    InvAlways(s, steps);
    var t := Run(s, steps);
    InvalArrives(t.home, t.content, n, t.nodes[n], cached);
    if t.nodes[n].line.Held? { HeldIsOlder(t.home, t.content, n, t.nodes[n]); }
  }

  lemma HeldIsOlder(h: Home, content: int, n: nat, x: Reader)
    requires NodeInv(h, content, n, x) && x.down != [] && x.down[0].Inval? && x.line.Held?
    ensures x.line.epoch <= x.down[0].newEpoch
  {
  }

  /** Single writer, no readers: in every run, when a write changes the content no node holds a copy. */
  lemma {:induction false} WriterIsAlone(s: State, steps: seq<Step>, n: nat, content: int)
    requires Fresh(s) && Apply(Run(s, steps), Write(n, content)) != Run(s, steps)
    ensures forall m :: m in Run(s, steps).nodes ==> Run(s, steps).nodes[m].line.Gone?
  {
    hide Run, NodeInv;
    InvAlways(s, steps);
    var t := Run(s, steps);
    forall m | m in t.nodes
      ensures t.nodes[m].line.Gone?
    {
      WriteKeeps(t.home, t.content, m, t.nodes[m], content);
    }
  }

  // ---- serving a fetch that still owes acknowledgements ----

  lemma {:induction false} RunConcat(s: State, a: seq<Step>, b: seq<Step>)
    ensures Run(s, a + b) == Run(Run(s, a), b)
  {
    hide Apply;
    if b == [] {
      assert a + b == a;
    } else {
      RunConcat(s, a, b[..|b| - 1]);
      assert (a + b)[..|a + b| - 1] == a + b[..|b| - 1];
    }
  }

  function Deliveries(n: nat, i: nat): seq<Step> { seq(i, _ => RecvDown(n, true)) }

  ghost predicate Delivered(s: State, n: nat, i: nat, t: State)
    requires n in s.nodes && i <= |s.nodes[n].down|
  {
    var d := s.nodes[n].down;
    && n in t.nodes && t.home == s.home && t.nodes[n].down == d[i..]
    && Acks(t.nodes[n].up) == Acks(s.nodes[n].up) + Invals(d[..i])
    && (i > 0 && d[i - 1].Resp? ==> t.nodes[n].line.Held?)
  }

  lemma ReceivedOne(x: Reader)
    requires x.down != []
    ensures var y := Received(x, true);
            && y.down == x.down[1..] && Acks(y.up) == Acks(x.up) + (if x.down[0].Inval? then 1 else 0)
            && (x.down[0].Resp? ==> y.line.Held?)
  {
    AcksPush(x.up, Ack);
    hide Acks;
  }

  lemma DeliverOne(s: State, n: nat, i: nat, t: State)
    requires n in s.nodes && i < |s.nodes[n].down| && Delivered(s, n, i, t)
    ensures Delivered(s, n, i + 1, Apply(t, RecvDown(n, true)))
  {
    hide Acks, Invals, Received;
    var d := s.nodes[n].down;
    ReceivedOne(t.nodes[n]);
    assert d[i..][0] == d[i] && d[i..][1..] == d[i + 1..];
    InvalsPush(d[..i], d[i]);
    assert d[..i + 1] == d[..i] + [d[i]];
  }

  lemma {:induction false} AfterDeliveries(s: State, n: nat, i: nat)
    requires n in s.nodes && i <= |s.nodes[n].down|
    ensures Delivered(s, n, i, Run(s, Deliveries(n, i)))
  {
    hide Apply;
    if i > 0 {
      AfterDeliveries(s, n, i - 1);
      assert Deliveries(n, i)[..i - 1] == Deliveries(n, i - 1);
      DeliverOne(s, n, i - 1, Run(s, Deliveries(n, i - 1)));
    }
  }

  /** The home works through the node's messages until it has taken one acknowledgement. */
  lemma {:induction false} TakeAck(s: State, n: nat) returns (steps: seq<Step>)
    requires n in s.nodes && s.nodes[n].line.Held? && Acks(s.nodes[n].up) > 0
    ensures var t := Run(s, steps); n in t.nodes && t.nodes[n].line.Held? && n !in t.home.readers
    decreases |s.nodes[n].up|
  {
    AcksTail(s.nodes[n].up);
    hide Acks;
    var t := Apply(s, RecvUp(n));
    steps := [RecvUp(n)];
    assert Run(s, steps) == t by { assert steps[..0] == []; }
    if s.nodes[n].up[0].Fetch? {
      var rest := TakeAck(t, n);
      RunConcat(s, steps, rest);
      steps := steps + rest;
    }
  }

  /** Serving a fetch while the node still owes an acknowledgement can always end with a node that holds a copy the home
      has forgotten. */
  lemma {:induction false} OwedServeBreaks(s: State, n: nat) returns (steps: seq<Step>)
    requires Inv(s) && CanServe(s, n) && s.nodes[n].owed > 0
    ensures !Coherent(Run(DoServe(s, n), steps))
  {
    var t := DoServe(s, n);
    var d := t.nodes[n].down;
    var first := Deliveries(n, |d|);
    AfterDeliveries(t, n, |d|);
    assert d[..|d|] == d;
    InvalsPush(s.nodes[n].down, d[|d| - 1]);
    assert Counted(s.nodes[n]) by { assert NodeInv(s.home, s.content, n, s.nodes[n]); }
    hide Run, Invals, Acks;
    var rest := TakeAck(Run(t, first), n);
    RunConcat(t, first, rest);
    steps := first + rest;
  }

  /** The exact rule for serving a fetch: in any reachable state with no writer, serving it keeps every later state
      coherent if and only if the node owes no acknowledgement. */
  lemma {:induction false} ServeIsSafeIff(s: State, steps: seq<Step>, n: nat)
    requires Fresh(s) && CanServe(Run(s, steps), n)
    ensures (forall rest :: Coherent(Run(DoServe(Run(s, steps), n), rest))) <==> Run(s, steps).nodes[n].owed == 0
  {
    InvAlways(s, steps);
    hide Run;
    var t := Run(s, steps);
    if t.nodes[n].owed == 0 {
      NodeStep(t, ServeFetch(n));
      assert Apply(t, ServeFetch(n)) == DoServe(t, n);
      forall rest
        ensures Coherent(Run(DoServe(t, n), rest))
      {
        InvStays(DoServe(t, n), rest);
      }
    } else {
      var rest := OwedServeBreaks(t, n);
      assert !Coherent(Run(DoServe(t, n), rest));
    }
  }

  // ---- the parts are the manager's and the fetch agent's ----

  function LineOf(r: RegionInfo): Line { match r.state case Shared(e) => Held(e) case _ => Gone }

  /** Receiving an INVALIDATE at the fetch agent moves the region's table entry as OnInvalidate says. */
  lemma InvalidateRefines(n: Local, k: nat, newEpoch: nat)
    requires k in n.table && n.table[k].state != RegionState.Home
    ensures var t := FetchAgent.ReceiveInvalidate(n, k, newEpoch).0;
            k in t.table && (LineOf(t.table[k]), t.table[k].epoch)
                            == OnInvalidate(LineOf(n.table[k]), n.table[k].epoch, newEpoch)
  {
  }

  lemma {:induction false} EvictAllLine(n: Local, vs: seq<nat>, k: nat)
    requires k in n.table && n.table[k].state != RegionState.Home
    ensures var t := EvictAll(n, vs);
            && k in t.table && t.table[k].epoch == n.table[k].epoch
            && (LineOf(t.table[k]) == LineOf(n.table[k]) || LineOf(t.table[k]) == Gone)
            && t.table[k].state != RegionState.Home
  {
    if vs != [] { EvictAllLine(n, vs[..|vs| - 1], k); }
  }

  /** Completing a fetch moves the table entry as receiving the answer does: Held under the given epoch when the pool
      took it, otherwise unchanged unless the region itself was evicted. */
  lemma {:induction false} FetchRefines(a: FetchAgent.Agent, k: nat, len: nat, epoch: nat, now: int, vs: seq<nat>)
    requires k in a.local.table && a.local.table[k].state != RegionState.Home
    ensures var (t, off) := FetchAgent.CompleteFetch(a, k, len, epoch, now, vs);
            && k in t.local.table
            && var r, r' := a.local.table[k], t.local.table[k];
               if off.Some? then LineOf(r') == Held(epoch) && r'.epoch == epoch
               else r'.epoch == r.epoch && (LineOf(r') == LineOf(r) || LineOf(r') == Gone)
  {
    hide EvictAll;
    EvictAllLine(a.local, vs, k);
  }

  /** The manager's calls on a region change its home record as the protocol's steps do. */
  lemma ManagerRefines(m: Manager, r: nat, s: State, node: nat, now: int, newEpoch: nat)
    requires r in m.homes && m.homes[r] == s.home && m.leaseMs == s.leaseMs
    requires s.home.epoch <= newEpoch <= s.home.epoch + 1
    ensures Next(m, Event(Op.Acquire(r, node), now)).homes[r] == Apply(s, Step.Acquire(node, now, newEpoch)).home
    ensures Next(m, Event(Op.Release(r, node), now)).homes[r] == Apply(s, Step.Release(node)).home
    ensures Next(m, Event(Op.Sweep, now)).homes[r] == Apply(s, Step.Sweep(now)).home
    ensures CanServe(s, node) ==> Next(m, Event(AddReader(r, node), now)).homes[r] == DoServe(s, node).home
    ensures node in s.nodes && s.nodes[node].up != [] && s.nodes[node].up[0].Ack? ==>
              Next(m, Event(InvalidateAck(r, node), now)).homes[r] == Apply(s, RecvUp(node)).home
  {
  }

  // ---- a stale hit ----

  lemma RunPush(s: State, steps: seq<Step>, step: Step)
    ensures Run(s, steps + [step]) == Apply(Run(s, steps), step)
  {
    assert (steps + [step])[..|steps|] == steps;
  }

  /** The state as node 1 and the home see it. */
  ghost predicate At(s: State, epoch: nat, readers: set<nat>, writer: Option<Lease>, content: int,
                     line: Line, known: nat, down: seq<Down>, up: seq<Up>, parked: seq<nat>, owed: nat) {
    && s.leaseMs == 10 && s.home.epoch == epoch && s.home.readers == readers && s.home.writer == writer
    && s.content == content && s.nodes.Keys == {1}
    && var x := s.nodes[1];
       && x.line == line && x.epoch == known && x.copy == 0
       && x.down == down && x.up == up && x.parked == parked && x.owed == owed
  }

  lemma FirstCopy(s: State) returns (steps: seq<Step>)
    requires At(s, 0, {}, None, 0, Gone, 0, [], [], [], 0)
    ensures At(Run(s, steps), 0, {1}, None, 0, Held(0), 0, [], [], [], 0)
  {
    hide Run;
    steps := [SendFetch(1), RecvUp(1), ServeFetch(1), RecvDown(1, true)];
    Run4(s, steps);
    var t := Apply(s, steps[0]);
    assert At(t, 0, {}, None, 0, Gone, 0, [], [Fetch(0)], [], 0);
    var u := Apply(t, steps[1]);
    assert At(u, 0, {}, None, 0, Gone, 0, [], [], [0], 0);
    assert At(Apply(u, steps[2]), 0, {1}, None, 0, Gone, 0, [Resp(0, 0)], [], [], 0);
  }

  lemma Run4(s: State, w: seq<Step>)
    requires |w| == 4
    ensures Run(s, w) == Apply(Apply(Apply(Apply(s, w[0]), w[1]), w[2]), w[3])
  {
    hide Apply;
    assert w == [] + [w[0]] + [w[1]] + [w[2]] + [w[3]];
    RunPush(s, [], w[0]);
    RunPush(s, [] + [w[0]], w[1]);
    RunPush(s, [] + [w[0]] + [w[1]], w[2]);
    RunPush(s, [] + [w[0]] + [w[1]] + [w[2]], w[3]);
  }

  lemma MissUnderWriter(s: State) returns (steps: seq<Step>)
    requires At(s, 0, {1}, None, 0, Held(0), 0, [], [], [], 0)
    ensures At(Run(s, steps), 0, {1}, Some(Lease(2, 10)), 0, Gone, 0, [Inval(1)], [], [0], 1)
  {
    hide Run;
    steps := [Step.Acquire(2, 0, 1), Evict(1), SendFetch(1), RecvUp(1)];
    Run4(s, steps);
    var t := Apply(s, steps[0]);
    assert At(t, 0, {1}, Some(Lease(2, 10)), 0, Held(0), 0, [Inval(1)], [], [], 1);
    var u := Apply(t, steps[1]);
    assert At(u, 0, {1}, Some(Lease(2, 10)), 0, Gone, 0, [Inval(1)], [], [], 1);
    assert At(Apply(u, steps[2]), 0, {1}, Some(Lease(2, 10)), 0, Gone, 0, [Inval(1)], [Fetch(0)], [], 1);
  }

  lemma AckTooLate(s: State) returns (steps: seq<Step>)
    requires At(s, 1, {1}, None, 0, Gone, 0, [Inval(1), Resp(0, 0)], [], [], 1)
    ensures At(Run(s, steps), 1, {}, Some(Lease(2, 10)), 0, Held(0), 0, [], [], [], 0)
  {
    hide Run;
    steps := [RecvDown(1, true), RecvDown(1, true), RecvUp(1), Step.Acquire(2, 0, 1)];
    Run4(s, steps);
    var t := Apply(s, steps[0]);
    assert At(t, 1, {1}, None, 0, Gone, 1, [Resp(0, 0)], [Ack], [], 1);
    var u := Apply(t, steps[1]);
    assert At(u, 1, {1}, None, 0, Held(0), 0, [], [Ack], [], 1);
    assert At(Apply(u, steps[2]), 1, {}, None, 0, Held(0), 0, [], [], [], 0);
  }

  /** Without the rule the protocol fails: node 1 misses while an invalidation is on its way, is served after the
      writer released, and its late acknowledgement then strikes it from the readers; the next write leaves node 1
      hitting on the old content. */
  lemma StaleHit() returns (s: State, before: seq<Step>, after: seq<Step>)
    ensures Fresh(s) && CanServe(Run(s, before), 1)
    ensures var t := Run(DoServe(Run(s, before), 1), after);
            1 in t.nodes && t.nodes[1].line.Held? && t.nodes[1].copy != t.content
  {
    hide Run;
    s := State(Coherence.Home.Home(0, {}, None), 0, map[1 := Reader(Gone, 0, 0, [], [], [], 0)], 10);
    var b1 := FirstCopy(s);
    var b2 := MissUnderWriter(Run(s, b1));
    RunConcat(s, b1, b2);
    RunPush(s, b1 + b2, Step.Release(2));
    before := b1 + b2 + [Step.Release(2)];
    assert At(Run(s, before), 1, {1}, None, 0, Gone, 0, [Inval(1)], [], [0], 1);
    var t := DoServe(Run(s, before), 1);
    assert At(t, 1, {1}, None, 0, Gone, 0, [Inval(1), Resp(0, 0)], [], [], 1);
    var a := AckTooLate(t);
    RunPush(t, a, Write(2, 7));
    after := a + [Write(2, 7)];
  }
}
