/** The home node's coherence manager: writer leases, epochs and reader sets, one step per manager call. The clock
    reading of a call is a parameter; readings never go back along a run. */
module Coherence {
  import opened Bytes

  datatype Lease = Lease(node: nat, deadline: int)

  datatype Home = Home(epoch: nat, readers: set<nat>, writer: Option<Lease>)

  /** `waiting` holds the queue of denied writers of each region. */
  datatype Manager = Manager(homes: map<nat, Home>, waiting: map<nat, seq<nat>>, leaseMs: nat)

  datatype Op =
    | Register(region: nat)
    | Unregister(region: nat)
    | Acquire(region: nat, node: nat)
    | Release(region: nat, node: nat)
    | AddReader(region: nat, node: nat)
    | InvalidateAck(region: nat, node: nat)
    | BumpEpoch(region: nat)
    | Sweep

  datatype Event = Event(op: Op, now: int)

  datatype Outcome = Granted(epoch: nat) | Denied(holder: nat) | NotFound | Done(found: bool)

  predicate Expired(h: Home, now: int) { h.writer.Some? && now > h.writer.value.deadline }

  predicate HeldByOther(h: Home, node: nat, now: int) {
    h.writer.Some? && now <= h.writer.value.deadline && h.writer.value.node != node
  }

  function Taken(h: Home, node: nat, deadline: int): Home { h.(writer := Some(Lease(node, deadline))) }

  function Ended(h: Home): Home { h.(writer := None, epoch := h.epoch + 1) }

  function Queue(m: Manager, r: nat): seq<nat> { if r in m.waiting then m.waiting[r] else [] }

  function Swept(homes: map<nat, Home>, now: int): map<nat, Home> {
    map r | r in homes :: if Expired(homes[r], now) then Ended(homes[r]) else homes[r]
  }

  function AcquireWriter(m: Manager, r: nat, node: nat, now: int): (Manager, Outcome) {
    if r !in m.homes then (m, NotFound)
    else if HeldByOther(m.homes[r], node, now) then
      (m.(waiting := m.waiting[r := Queue(m, r) + [node]]), Denied(m.homes[r].writer.value.node))
    else
      (m.(homes := m.homes[r := Taken(m.homes[r], node, now + m.leaseMs)]), Granted(m.homes[r].epoch))
  }

  predicate Holds(m: Manager, r: nat, node: nat) {
    r in m.homes && m.homes[r].writer.Some? && m.homes[r].writer.value.node == node
  }

  /** Only the holder releases; an empty wait queue is dropped. */
  function ReleaseWriter(m: Manager, r: nat, node: nat): (Manager, Outcome) {
    if !Holds(m, r, node) then (m, Done(false))
    else
      var waiting := if r in m.waiting && m.waiting[r] == [] then m.waiting - {r} else m.waiting;
      (m.(homes := m.homes[r := Ended(m.homes[r])], waiting := waiting), Done(true))
  }

  function Step(m: Manager, e: Event): (Manager, Outcome) {
    match e.op
    case Register(r) => (m.(homes := m.homes[r := Home(0, {}, None)]), Done(true))
    case Unregister(r) => (m.(homes := m.homes - {r}), Done(r in m.homes))
    case Acquire(r, node) => AcquireWriter(m, r, node, e.now)
    case Release(r, node) => ReleaseWriter(m, r, node)
    case AddReader(r, node) =>
      if r !in m.homes then (m, Done(false))
      else (m.(homes := m.homes[r := m.homes[r].(readers := m.homes[r].readers + {node})]), Done(true))
    case InvalidateAck(r, node) =>
      if r !in m.homes then (m, Done(false))
      else (m.(homes := m.homes[r := m.homes[r].(readers := m.homes[r].readers - {node})]), Done(true))
    case BumpEpoch(r) =>
      if r !in m.homes then (m, Done(false))
      else (m.(homes := m.homes[r := m.homes[r].(epoch := m.homes[r].epoch + 1)]), Done(true))
    case Sweep => (m.(homes := Swept(m.homes, e.now)), Done(true))
  }

  function Next(m: Manager, e: Event): Manager { Step(m, e).0 }

  function After(m: Manager, es: seq<Event>): Manager {
    if es == [] then m else Next(After(m, es[..|es| - 1]), es[|es| - 1])
  }

  ghost predicate Ordered(es: seq<Event>) { forall i, j :: 0 <= i <= j < |es| ==> es[i].now <= es[j].now }

  /** Call `i` of the run granted region `r` to `node`. */
  ghost predicate Grant(m: Manager, es: seq<Event>, i: nat, r: nat, node: nat) {
    i < |es| && es[i].op == Acquire(r, node) && Step(After(m, es[..i]), es[i]).1.Granted?
  }

  ghost function GrantEpoch(m: Manager, es: seq<Event>, i: nat, r: nat, node: nat): nat
    requires Grant(m, es, i, r, node)
  {
    Step(After(m, es[..i]), es[i]).1.epoch
  }

  /** The calls that change or drop the registration of `r`. */
  predicate Rebinds(op: Op, r: nat) { op == Register(r) || op == Unregister(r) }

  /** A's deadline as last refreshed in calls i..j-1. */
  function LastDeadline(m: Manager, es: seq<Event>, i: nat, j: nat, r: nat, a: nat): int
    requires i < j <= |es|
    decreases j
  {
    if j == i + 1 || es[j - 1].op == Acquire(r, a) then es[j - 1].now + m.leaseMs
    else LastDeadline(m, es, i, j - 1, r, a)
  }

  lemma {:induction false} LeaseConstant(m: Manager, es: seq<Event>)
    ensures After(m, es).leaseMs == m.leaseMs
  {
    if es != [] { LeaseConstant(m, es[..|es| - 1]); }
  }

  lemma AfterNext(m: Manager, es: seq<Event>, k: nat)
    requires k < |es|
    ensures After(m, es[..k + 1]) == Next(After(m, es[..k]), es[k])
  {
    assert es[..k + 1][..k] == es[..k];
  }

  /** Between A's grant and the first grant to another node, A holds the lock up to its last refreshed deadline, or
      the lock is free and that deadline has passed. */
  ghost predicate HoldsUntil(m: Manager, es: seq<Event>, i: nat, j: nat, r: nat, a: nat)
    requires i < j <= |es|
  {
    var s, d := After(m, es[..j]), LastDeadline(m, es, i, j, r, a);
    r in s.homes && (s.homes[r].writer == Some(Lease(a, d)) || (s.homes[r].writer == None && es[j - 1].now > d))
  }

  ghost predicate Undisturbed(m: Manager, es: seq<Event>, i: nat, j: nat, r: nat, a: nat) {
    && (forall k :: i < k < j && k < |es| ==> !Rebinds(es[k].op, r) && es[k].op != Release(r, a))
    && (forall k, b :: i < k < j && b != a ==> !Grant(m, es, k, r, b))
  }

  lemma StepHolds(s: Manager, e: Event, r: nat, a: nat, d: int, t: int)
    requires r in s.homes && t <= e.now
    requires s.homes[r].writer == Some(Lease(a, d)) || (s.homes[r].writer == None && t > d)
    requires !Rebinds(e.op, r) && e.op != Release(r, a)
    requires forall b :: e.op == Acquire(r, b) && b != a ==> !Step(s, e).1.Granted?
    ensures var s' := Next(s, e); var d' := if e.op == Acquire(r, a) then e.now + s.leaseMs else d;
            r in s'.homes && (s'.homes[r].writer == Some(Lease(a, d')) || (s'.homes[r].writer == None && e.now > d'))
  {
  }

  lemma {:induction false} HoldsAlways(m: Manager, es: seq<Event>, i: nat, j: nat, r: nat, a: nat)
    requires i < j <= |es| && Ordered(es) && Grant(m, es, i, r, a) && Undisturbed(m, es, i, j, r, a)
    ensures HoldsUntil(m, es, i, j, r, a)
    decreases j
  {
    hide After, Step;
    AfterNext(m, es, j - 1);
    LeaseConstant(m, es[..j - 1]);
    var s, e := After(m, es[..j - 1]), es[j - 1];
    if j == i + 1 {
      GrantSets(s, e);
    } else {
      HoldsAlways(m, es, i, j - 1, r, a);
      forall b | e.op == Acquire(r, b) && b != a
        ensures !Step(s, e).1.Granted?
      {
        assert !Grant(m, es, j - 1, r, b);
      }
      StepHolds(s, e, r, a, LastDeadline(m, es, i, j - 1, r, a), es[j - 2].now);
    }
  }

  lemma GrantSets(s: Manager, e: Event)
    requires e.op.Acquire? && Step(s, e).1.Granted?
    ensures var r := e.op.region;
            && r in s.homes && Step(s, e).1.epoch == s.homes[r].epoch && !HeldByOther(s.homes[r], e.op.node, e.now)
            && Next(s, e).homes == s.homes[r := s.homes[r].(writer := Some(Lease(e.op.node, e.now + s.leaseMs)))]
  {
  }

  /** Writer exclusion: the first grant to another node comes after A released, after the region was unregistered or
      registered again, or after A's last refreshed deadline. */
  lemma {:induction false} WriterExclusion(m: Manager, es: seq<Event>, i: nat, j: nat, r: nat, a: nat, b: nat)
    requires Ordered(es) && i < j && Grant(m, es, i, r, a) && Grant(m, es, j, r, b) && a != b
    requires forall k, c :: i < k < j && c != a ==> !Grant(m, es, k, r, c)
    ensures (exists k :: i < k < j && (Rebinds(es[k].op, r) || es[k].op == Release(r, a)))
            || es[j].now > LastDeadline(m, es, i, j, r, a)
  {
    hide After, Step;
    if forall k :: i < k < j ==> !Rebinds(es[k].op, r) && es[k].op != Release(r, a) {
      HoldsAlways(m, es, i, j, r, a);
      GrantSets(After(m, es[..j]), es[j]);
    }
  }

  lemma StepDenies(s: Manager, e: Event, r: nat, a: nat)
    requires Holds(s, r, a) && e.now <= s.homes[r].writer.value.deadline
    requires !Rebinds(e.op, r) && e.op != Release(r, a)
    ensures Holds(Next(s, e), r, a)
    ensures Next(s, e).homes[r].writer.value.deadline
              == if e.op == Acquire(r, a) then e.now + s.leaseMs else s.homes[r].writer.value.deadline
    ensures forall b :: e.op == Acquire(r, b) && b != a ==> Step(s, e).1 == Denied(a)
  {
  }

  ghost predicate InTime(m: Manager, es: seq<Event>, i: nat, j: nat, r: nat, a: nat)
    requires i < j <= |es|
  {
    forall k :: i < k < j ==>
      !Rebinds(es[k].op, r) && es[k].op != Release(r, a) && es[k].now <= LastDeadline(m, es, i, k, r, a)
  }

  lemma DeadlineNext(m: Manager, es: seq<Event>, i: nat, j: nat, r: nat, a: nat)
    requires i < j <= |es|
    ensures LastDeadline(m, es, i, j, r, a)
              == if j == i + 1 || es[j - 1].op == Acquire(r, a) then es[j - 1].now + m.leaseMs
                 else LastDeadline(m, es, i, j - 1, r, a)
  {
  }

  lemma InTimeNext(m: Manager, es: seq<Event>, i: nat, j: nat, r: nat, a: nat)
    requires i + 1 < j <= |es| && InTime(m, es, i, j, r, a)
    ensures InTime(m, es, i, j - 1, r, a)
    ensures !Rebinds(es[j - 1].op, r) && es[j - 1].op != Release(r, a)
    ensures es[j - 1].now <= LastDeadline(m, es, i, j - 1, r, a)
  {
    hide LastDeadline;
  }

  lemma {:induction false} KeepsLock(m: Manager, es: seq<Event>, i: nat, j: nat, r: nat, a: nat)
    requires i < j <= |es| && Grant(m, es, i, r, a) && InTime(m, es, i, j, r, a)
    ensures Holds(After(m, es[..j]), r, a)
    ensures After(m, es[..j]).homes[r].writer.value.deadline == LastDeadline(m, es, i, j, r, a)
    decreases j
  {
    hide After, Step, LastDeadline, InTime;
    AfterNext(m, es, j - 1);
    LeaseConstant(m, es[..j - 1]);
    DeadlineNext(m, es, i, j, r, a);
    if j == i + 1 {
      GrantSets(After(m, es[..i]), es[i]);
    } else {
      InTimeNext(m, es, i, j, r, a);
      KeepsLock(m, es, i, j - 1, r, a);
      StepDenies(After(m, es[..j - 1]), es[j - 1], r, a);
    }
  }

  /** As long as every call comes no later than A's deadline as refreshed so far, and A neither releases nor loses the
      registration, A keeps the lock and every other node is refused. */
  lemma {:induction false} RefusedUntilDeadline(m: Manager, es: seq<Event>, i: nat, j: nat, r: nat, a: nat)
    requires i < j <= |es| && Grant(m, es, i, r, a) && InTime(m, es, i, j, r, a)
    ensures Holds(After(m, es[..j]), r, a)
    ensures forall k, b :: i < k < j && es[k].op == Acquire(r, b) && b != a ==>
              Step(After(m, es[..k]), es[k]).1 == Denied(a)
  {
    hide After, Step;
    KeepsLock(m, es, i, j, r, a);
    forall k, b | i < k < j && es[k].op == Acquire(r, b) && b != a
      ensures Step(After(m, es[..k]), es[k]).1 == Denied(a)
    {
      KeepsLock(m, es, i, k, r, a);
      StepDenies(After(m, es[..k]), es[k], r, a);
    }
  }

  // ---- epochs ----

  lemma StepEpoch(s: Manager, e: Event, r: nat)
    requires r in s.homes && !Rebinds(e.op, r)
    ensures r in Next(s, e).homes && s.homes[r].epoch <= Next(s, e).homes[r].epoch
    ensures s.homes[r].writer.Some? && Next(s, e).homes[r].writer.None? ==>
              s.homes[r].epoch < Next(s, e).homes[r].epoch
  {
  }

  /** A registered region's epoch never decreases. */
  lemma {:induction false} EpochsNeverDecrease(m: Manager, es: seq<Event>, i: nat, j: nat, r: nat)
    requires i <= j <= |es| && r in After(m, es[..i]).homes
    requires forall k :: i <= k < j ==> !Rebinds(es[k].op, r)
    ensures r in After(m, es[..j]).homes
    ensures After(m, es[..i]).homes[r].epoch <= After(m, es[..j]).homes[r].epoch
    decreases j
  {
    hide After, Step;
    if i < j {
      EpochsNeverDecrease(m, es, i, j - 1, r);
      AfterNext(m, es, j - 1);
      StepEpoch(After(m, es[..j - 1]), es[j - 1], r);
    }
  }

  /** Call `k` takes the lock from A, whose lease has run out but was neither released nor swept. */
  ghost predicate Overtakes(m: Manager, es: seq<Event>, k: nat, r: nat, a: nat) {
    && k < |es| && es[k].op.Acquire? && es[k].op.region == r && es[k].op.node != a
    && Holds(After(m, es[..k]), r, a) && Expired(After(m, es[..k]).homes[r], es[k].now)
  }

  lemma StepOvertakes(s: Manager, e: Event, r: nat, a: nat)
    requires Holds(s, r, a) && !Rebinds(e.op, r) && Next(s, e).homes[r].epoch == s.homes[r].epoch
    ensures Holds(Next(s, e), r, a)
            || (e.op.Acquire? && e.op.region == r && e.op.node != a && Expired(s.homes[r], e.now))
  {
  }

  lemma {:induction false} HeldOrOvertaken(m: Manager, es: seq<Event>, i: nat, j: nat, r: nat, a: nat)
    requires i < j <= |es| && Grant(m, es, i, r, a)
    requires forall k :: i < k < j ==> !Rebinds(es[k].op, r)
    requires r in After(m, es[..j]).homes && r in After(m, es[..i]).homes
    requires After(m, es[..j]).homes[r].epoch == After(m, es[..i]).homes[r].epoch
    ensures Holds(After(m, es[..j]), r, a) || exists k :: i < k < j && Overtakes(m, es, k, r, a)
    decreases j
  {
    hide After, Step;
    AfterNext(m, es, j - 1);
    var s := After(m, es[..j - 1]);
    if j == i + 1 {
      GrantSets(s, es[i]);
    } else {
      EpochsNeverDecrease(m, es, i, j - 1, r);
      StepEpoch(s, es[j - 1], r);
      HeldOrOvertaken(m, es, i, j - 1, r, a);
      if Holds(s, r, a) {
        StepOvertakes(s, es[j - 1], r, a);
        assert Holds(After(m, es[..j]), r, a) || Overtakes(m, es, j - 1, r, a);
      }
    }
  }

  /** Two grants to different nodes carry the same epoch only if the earlier lease ran out and was overtaken before
      any sweep ended it. */
  lemma {:induction false} SharedEpochMeansOvertaken(
      m: Manager, es: seq<Event>, i: nat, j: nat, r: nat, a: nat, b: nat)
    requires i < j && Grant(m, es, i, r, a) && Grant(m, es, j, r, b) && a != b
    requires forall k :: i < k < j ==> !Rebinds(es[k].op, r)
    requires GrantEpoch(m, es, i, r, a) == GrantEpoch(m, es, j, r, b)
    ensures exists k :: i < k <= j && Overtakes(m, es, k, r, a)
  {
    hide After, Step;
    GrantSets(After(m, es[..i]), es[i]);
    GrantSets(After(m, es[..j]), es[j]);
    HeldOrOvertaken(m, es, i, j, r, a);
    if Holds(After(m, es[..j]), r, a) { assert Overtakes(m, es, j, r, a); }
  }

  /** The call raises the epoch of region `r`: an explicit bump, the holder's release, or a sweep past the deadline. */
  predicate RaisesIn(s: Manager, e: Event, r: nat) {
    && r in s.homes
    && match e.op
       case BumpEpoch(x) => x == r
       case Release(x, node) => x == r && Holds(s, r, node)
       case Sweep => Expired(s.homes[r], e.now)
       case _ => false
  }

  ghost predicate Raises(m: Manager, es: seq<Event>, k: nat, r: nat) {
    k < |es| && RaisesIn(After(m, es[..k]), es[k], r)
  }

  lemma StepRaises(s: Manager, e: Event, r: nat)
    requires r in s.homes && !Rebinds(e.op, r)
    ensures r in Next(s, e).homes
    ensures Next(s, e).homes[r].epoch == s.homes[r].epoch + if RaisesIn(s, e, r) then 1 else 0
  {
  }

  lemma {:induction false} SameEpochIff(m: Manager, es: seq<Event>, i: nat, j: nat, r: nat)
    requires i <= j <= |es| && r in After(m, es[..i]).homes && r in After(m, es[..j]).homes
    requires forall k :: i <= k < j ==> !Rebinds(es[k].op, r)
    ensures After(m, es[..i]).homes[r].epoch == After(m, es[..j]).homes[r].epoch
            <==> forall k :: i <= k < j ==> !Raises(m, es, k, r)
    decreases j
  {
    hide After, Step, RaisesIn;
    if i < j {
      EpochsNeverDecrease(m, es, i, j - 1, r);
      SameEpochIff(m, es, i, j - 1, r);
      AfterNext(m, es, j - 1);
      StepRaises(After(m, es[..j - 1]), es[j - 1], r);
      assert Raises(m, es, j - 1, r) <==> RaisesIn(After(m, es[..j - 1]), es[j - 1], r);
      hide Raises;
      assert (forall k :: i <= k < j ==> !Raises(m, es, k, r))
             <==> (forall k :: i <= k < j - 1 ==> !Raises(m, es, k, r)) && !Raises(m, es, j - 1, r);
    }
  }

  /** Exactly when two grants of a region carry the same epoch: no call between them raised it. In particular the epoch
      tells two writers apart if and only if something ended the earlier tenure, or bumped the epoch, in between. */
  lemma {:induction false} SharedEpochIff(m: Manager, es: seq<Event>, i: nat, j: nat, r: nat, a: nat, b: nat)
    requires i < j && Grant(m, es, i, r, a) && Grant(m, es, j, r, b)
    requires forall k :: i < k < j ==> !Rebinds(es[k].op, r)
    ensures GrantEpoch(m, es, i, r, a) == GrantEpoch(m, es, j, r, b)
            <==> forall k :: i < k < j ==> !Raises(m, es, k, r)
  {
    hide After, Step;
    GrantSets(After(m, es[..i]), es[i]);
    GrantSets(After(m, es[..j]), es[j]);
    assert !Raises(m, es, i, r);
    SameEpochIff(m, es, i, j, r);
  }

  /** Node 1 takes the lock and lets its lease run out; node 2 takes it before any sweep. */
  function OvertakingCalls(): seq<Event> {
    [Event(Register(0), 0), Event(Acquire(0, 1), 0), Event(Acquire(0, 2), 20)]
  }

  /** Both nodes are granted the region under epoch 0. */
  lemma {:induction false} TwoWritersOneEpoch()
    ensures var m, es := Manager(map[], map[], 10), OvertakingCalls();
            && Grant(m, es, 1, 0, 1) && Grant(m, es, 2, 0, 2)
            && GrantEpoch(m, es, 1, 0, 1) == GrantEpoch(m, es, 2, 0, 2) == 0
  {
    var m, es := Manager(map[], map[], 10), OvertakingCalls();
    assert es[..0] == [];
    AfterNext(m, es, 0);
    AfterNext(m, es, 1);
  }

  /** An overtaking grant repeats the epoch in force, so the epoch does not tell the two writers apart. */
  lemma OvertakingRepeatsEpoch(m: Manager, es: seq<Event>, k: nat, r: nat, a: nat)
    requires Overtakes(m, es, k, r, a)
    ensures Grant(m, es, k, r, es[k].op.node)
    ensures GrantEpoch(m, es, k, r, es[k].op.node) == After(m, es[..k]).homes[r].epoch
    ensures Holds(After(m, es[..k + 1]), r, es[k].op.node)
    ensures After(m, es[..k + 1]).homes[r].epoch == After(m, es[..k]).homes[r].epoch
  {
    AfterNext(m, es, k);
  }

  // ---- wait queue ----

  function DeniedNodes(m: Manager, es: seq<Event>, r: nat): seq<nat> {
    if es == [] then []
    else
      var pre, e := es[..|es| - 1], es[|es| - 1];
      DeniedNodes(m, pre, r)
      + if e.op.Acquire? && e.op.region == r && Step(After(m, pre), e).1.Denied? then [e.op.node] else []
  }

  /** The wait queue only grows: it is the list of all denials, and no later grant or release serves it. */
  lemma {:induction false} QueueIsAllDenials(m: Manager, es: seq<Event>, r: nat)
    ensures Queue(After(m, es), r) == Queue(m, r) + DeniedNodes(m, es, r)
  {
    if es != [] {
      var pre := es[..|es| - 1];
      QueueIsAllDenials(m, pre, r);
      QueueStep(After(m, pre), es[|es| - 1], r);
    }
  }

  lemma QueueStep(s: Manager, e: Event, r: nat)
    ensures Queue(Next(s, e), r) == Queue(s, r)
              + if e.op.Acquire? && e.op.region == r && Step(s, e).1.Denied? then [e.op.node] else []
  {
  }

  // ---- the manager object ----

  class CoherenceManager {
    var homes: map<nat, Home>
    var waiting: map<nat, seq<nat>>
    const leaseMs: nat

    ghost function View(): Manager
      reads this
    {
      Manager(homes, waiting, leaseMs)
    }

    constructor (leaseMs: nat)
      ensures View() == Manager(map[], map[], leaseMs)
    {
      homes, waiting, this.leaseMs := map[], map[], leaseMs;
    }

    method RegisterRegion(r: nat)
      modifies this
      ensures forall now :: View() == Next(old(View()), Event(Register(r), now))
    {
      homes := homes[r := Home(0, {}, None)];
    }

    method TryAcquire(r: nat, node: nat, now: int) returns (out: Outcome)
      modifies this
      ensures (View(), out) == Step(old(View()), Event(Acquire(r, node), now))
    {
      if r !in homes { return NotFound; }
      var h := homes[r];
      if h.writer.Some? && now <= h.writer.value.deadline && h.writer.value.node != node {
        var q := if r in waiting then waiting[r] else [];
        waiting := waiting[r := q + [node]];
        return Denied(h.writer.value.node);
      }
      homes := homes[r := h.(writer := Some(Lease(node, now + leaseMs)))];
      out := Granted(h.epoch);
    }

    method TryRelease(r: nat, node: nat) returns (ok: bool)
      modifies this
      ensures forall now :: (View(), Done(ok)) == Step(old(View()), Event(Release(r, node), now))
    {
      if r !in homes { return false; }
      var h := homes[r];
      if h.writer.None? || h.writer.value.node != node { return false; }
      homes := homes[r := h.(writer := None, epoch := h.epoch + 1)];
      if r in waiting && waiting[r] == [] { waiting := waiting - {r}; }
      ok := true;
    }

    method DropRegion(r: nat) returns (found: bool)
      modifies this
      ensures forall now :: (View(), Done(found)) == Step(old(View()), Event(Unregister(r), now))
    {
      found := r in homes;
      homes := homes - {r};
    }

    method AddReaderNode(r: nat, node: nat) returns (found: bool)
      modifies this
      ensures forall now :: (View(), Done(found)) == Step(old(View()), Event(AddReader(r, node), now))
    {
      found := r in homes;
      if found { homes := homes[r := homes[r].(readers := homes[r].readers + {node})]; }
    }

    method OnInvalidateAck(r: nat, node: nat) returns (found: bool)
      modifies this
      ensures forall now :: (View(), Done(found)) == Step(old(View()), Event(InvalidateAck(r, node), now))
    {
      found := r in homes;
      if found { homes := homes[r := homes[r].(readers := homes[r].readers - {node})]; }
    }

    /** Ends every expired lease; the reported pairs are exactly the expired holders, each once. */
    method CheckLeaseExpiry(now: int) returns (expired: seq<(nat, nat)>)
      modifies this
      ensures View() == Next(old(View()), Event(Sweep, now))
      ensures forall p :: p in expired <==>
                p.0 in old(homes) && Expired(old(homes)[p.0], now) && old(homes)[p.0].writer.value.node == p.1
      ensures forall i, j :: 0 <= i < j < |expired| ==> expired[i].0 != expired[j].0
    {
      expired := [];
      var was, todo := homes, homes.Keys;
      while todo != {}
        invariant todo <= was.Keys && homes.Keys == was.Keys && waiting == old(waiting)
        invariant forall r :: r in was ==> homes[r] == if r in todo then was[r] else Swept(was, now)[r]
        invariant forall p :: p in expired <==>
                    p.0 in was && p.0 !in todo && Expired(was[p.0], now) && was[p.0].writer.value.node == p.1
        invariant forall i, j :: 0 <= i < j < |expired| ==> expired[i].0 != expired[j].0
        decreases |todo|
      {
        var r :| r in todo;
        var h := homes[r];
        todo := todo - {r};
        if h.writer.Some? && now > h.writer.value.deadline {
          homes := homes[r := h.(writer := None, epoch := h.epoch + 1)];
          assert forall p :: p in expired ==> p.0 != r;
          expired := expired + [(r, h.writer.value.node)];
        }
      }
      assert homes == Swept(was, now);
    }
  }
}
