/** The life of one memory region under any interleaving of atomic steps: verb handlers that take and return in-flight
    references, and deregister calls that revoke the region and wait for the references to drain. */
module MrLifecycle {
  import opened Bytes

  datatype MrState = Active | Revoking | Released

  datatype Verb = Write | Read | Cas | Faa | WriteImm

  /** How many checks a handler passes through while it holds a reference: permissions and device access, for atomics
      also alignment and payload length, for WriteImm also the target queue. */
  function Stages(v: Verb): nat {
    match v
    case Write => 2
    case Read => 2
    case Cas => 4
    case Faa => 4
    case WriteImm => 3
  }

  /** Where a handler stands. Reading the state and taking the reference are two steps; so are returning the reference
      and waking the waiters. */
  datatype Handler =
    | Idle(verb: Verb)
    | Found(verb: Verb)
    | SawActive(verb: Verb)
    | Holding(verb: Verb, stage: nat)
    | Leaving
    | MustNotify
    | Finished
    | Refused

  datatype Outcome = Ok | Timeout | Busy | NotThere

  /** Where a deregister call stands; `wait` tells deregister_async from deregister. */
  datatype Dereg =
    | Start(wait: bool)
    | Has(wait: bool)
    | Won(wait: bool)
    | Announced(wait: bool)
    | Polling
    | Missed
    | Listening
    | Woken
    | TimedOut
    | Closed(drained: bool)
    | Returned(out: Outcome)

  datatype State = State(
    mr: MrState, refs: int, present: bool, revokes: nat, handlers: map<nat, Handler>, deregs: map<nat, Dereg>)

  datatype Step =
    | Lookup(h: nat) | ReadState(h: nat) | Inc(h: nat) | Check(h: nat, ok: bool) | Dec(h: nat) | Notify(h: nat)
    | Find(d: nat) | CasState(d: nat) | Announce(d: nat) | Load(d: nat) | Poll(d: nat) | Listen(d: nat)
    | Expire(d: nat) | Close(d: nat) | Drop(d: nat)

  function AwakeAll(ds: map<nat, Dereg>): map<nat, Dereg> {
    map d | d in ds :: if ds[d] == Listening then Woken else ds[d]
  }

  function SetH(s: State, h: nat, x: Handler): State { s.(handlers := s.handlers[h := x]) }

  function SetD(s: State, d: nat, x: Dereg): State { s.(deregs := s.deregs[d := x]) }

  function HandlerStep(s: State, step: Step): State
    requires step.Lookup? || step.ReadState? || step.Inc? || step.Check? || step.Dec? || step.Notify?
    requires step.h in s.handlers
  {
    var h, x := step.h, s.handlers[step.h];
    match (step, x)
    case (Lookup(_), Idle(v)) => SetH(s, h, if s.present then Found(v) else Refused)
    case (ReadState(_), Found(v)) => SetH(s, h, if s.mr == Active then SawActive(v) else Refused)
    case (Inc(_), SawActive(v)) => SetH(s, h, Holding(v, 0)).(refs := s.refs + 1)
    case (Check(_, ok), Holding(v, i)) => SetH(s, h, if ok && i + 1 < Stages(v) then Holding(v, i + 1) else Leaving)
    case (Dec(_), Leaving) => SetH(s, h, if s.refs == 1 then MustNotify else Finished).(refs := s.refs - 1)
    case (Notify(_), MustNotify) => SetH(s, h, Finished).(deregs := AwakeAll(s.deregs))
    case _ => s
  }

  function DeregStep(s: State, step: Step): State
    requires !(step.Lookup? || step.ReadState? || step.Inc? || step.Check? || step.Dec? || step.Notify?)
    requires step.d in s.deregs
  {
    var d, x := step.d, s.deregs[step.d];
    match (step, x)
    case (Find(_), Start(w)) => SetD(s, d, if s.present then Has(w) else Returned(NotThere))
    case (CasState(_), Has(w)) =>
      if s.mr == Active then SetD(s, d, Won(w)).(mr := Revoking) else SetD(s, d, Returned(Busy))
    case (Announce(_), Won(w)) => SetD(s, d, Announced(w)).(revokes := s.revokes + 1)
    case (Drop(_), Announced(w)) => if w then s else SetD(s, d, Returned(Ok)).(present := false)
    case (Load(_), Announced(w)) => if !w then s else SetD(s, d, if s.refs > 0 then Polling else Woken)
    case (Poll(_), Polling) => SetD(s, d, if s.refs == 0 then Woken else Missed)
    case (Listen(_), Missed) => SetD(s, d, Listening)
    case (Expire(_), _) => if x.Polling? || x.Missed? || x.Listening? then SetD(s, d, TimedOut) else s
    case (Close(_), Woken) => SetD(s, d, Closed(true)).(mr := Released)
    case (Close(_), TimedOut) => SetD(s, d, Closed(false)).(mr := Released)
    case (Drop(_), Closed(drained)) => SetD(s, d, Returned(if drained then Ok else Timeout)).(present := false)
    case _ => s
  }

  predicate IsHandlerStep(step: Step) {
    step.Lookup? || step.ReadState? || step.Inc? || step.Check? || step.Dec? || step.Notify?
  }

  function Apply(s: State, step: Step): State {
    if IsHandlerStep(step) then
      if step.h in s.handlers then HandlerStep(s, step) else s
    else if step.d in s.deregs then DeregStep(s, step)
    else s
  }

  function Run(s: State, steps: seq<Step>): State {
    if steps == [] then s else Apply(Run(s, steps[..|steps| - 1]), steps[|steps| - 1])
  }

  /** A registered region, any number of handlers about to start and of deregister calls about to be made. */
  ghost predicate Fresh(s: State) {
    && s.mr == Active && s.refs == 0 && s.present && s.revokes == 0
    && (forall h :: h in s.handlers ==> s.handlers[h].Idle?)
    && (forall d :: d in s.deregs ==> s.deregs[d].Start?)
  }

  // ---- what a step can change ----

  predicate Holds(x: Handler) { x.Holding? || x.Leaving? }

  predicate Admitted(x: Handler) { x.SawActive? || Holds(x) || x.MustNotify? || x.Finished? }

  predicate HasWon(x: Dereg) {
    !(x.Start? || x.Has? || x == Returned(Busy) || x == Returned(NotThere))
  }

  /** What a deregister call's own step changes. */
  lemma DeregEffect(s: State, step: Step)
    requires !IsHandlerStep(step) && step.d in s.deregs
    ensures var t, d := DeregStep(s, step), step.d;
            t == s.(deregs := s.deregs[d := t.deregs[d]], mr := t.mr, revokes := t.revokes, present := t.present)
    ensures var t, d := DeregStep(s, step), step.d;
            WinStep(s.deregs[d], t.deregs[d], s.mr, t.mr, t.revokes - s.revokes, s.present == t.present)
  {
    var d, x, t := step.d, s.deregs[step.d], DeregStep(s, step);
    assert s.deregs == s.deregs[d := x];
    if t != s {
      assert s.deregs[d := t.deregs[d]] == t.deregs;
    }
  }

  /** Only a successful CAS wins, only from Active; a winner stays one, and announces once, when it leaves Won. */
  ghost predicate WinStep(x: Dereg, y: Dereg, mr: MrState, mr': MrState, announced: int, stays: bool) {
    if HasWon(x) then
      && HasWon(y) && (mr' == mr || mr' == Released) && (y.Won? ==> x.Won?)
      && announced == (if x.Won? && !y.Won? then 1 else 0) && (x.Won? ==> stays)
    else if HasWon(y) then
      mr == Active && mr' == Revoking && y.Won? && announced == 0 && stays
    else
      mr' == mr && announced == 0 && stays
  }

  // ---- the counter ----

  function InFlight(s: State): set<nat> { set h | h in s.handlers && Holds(s.handlers[h]) }

  /** What a handler's own step changes: its place, the counter in step with it, and perhaps the sleeping callers. */
  lemma HandlerEffect(s: State, step: Step)
    requires IsHandlerStep(step) && step.h in s.handlers
    ensures var t, h := HandlerStep(s, step), step.h;
            && t == s.(handlers := s.handlers[h := t.handlers[h]], refs := t.refs, deregs := t.deregs)
            && (t.deregs == s.deregs || (s.handlers[h].MustNotify? && t.deregs == AwakeAll(s.deregs)))
            && t.refs - s.refs ==
                 (if Holds(t.handlers[h]) then 1 else 0) - (if Holds(s.handlers[h]) then 1 else 0)
            && (Admitted(t.handlers[h]) ==> Admitted(s.handlers[h]) || s.mr == Active)
            && (t.handlers[h].MustNotify? ==> s.handlers[h].MustNotify? || t.refs == 0)
            && (t.handlers[h].SawActive? ==> s.handlers[h].SawActive? || s.mr == Active)
            && (Holds(t.handlers[h]) ==> Holds(s.handlers[h]) || s.handlers[h].SawActive?)
  {
    var h, x, t := step.h, s.handlers[step.h], HandlerStep(s, step);
    assert s.handlers == s.handlers[h := x];
    if t != s {
      assert s.handlers[h := t.handlers[h]] == t.handlers;
    }
  }

  lemma CounterStep(s: State, step: Step)
    requires s.refs == |InFlight(s)|
    ensures Apply(s, step).refs == |InFlight(Apply(s, step))|
  {
    hide HandlerStep, DeregStep;
    var t := Apply(s, step);
    if IsHandlerStep(step) {
      if step.h in s.handlers {
        HandlerEffect(s, step);
        assert InFlight(t) == if Holds(t.handlers[step.h])
                              then InFlight(s) + {step.h} else InFlight(s) - {step.h};
      }
    } else if step.d in s.deregs {
      DeregEffect(s, step);
      assert InFlight(t) == InFlight(s);
    }
  }

  /** In every run the in-flight counter is exactly the number of handlers between taking and returning a reference. */
  lemma {:induction false} CounterExact(s: State, steps: seq<Step>)
    requires Fresh(s)
    ensures Run(s, steps).refs == |InFlight(Run(s, steps))|
  {
    if steps == [] {
      assert InFlight(s) == {};
    } else {
      CounterExact(s, steps[..|steps| - 1]);
      CounterStep(Run(s, steps[..|steps| - 1]), steps[|steps| - 1]);
    }
  }

  // ---- one winner, one revocation ----

  ghost predicate WinnerInv(s: State) {
    && (forall d, e :: d in s.deregs && e in s.deregs && HasWon(s.deregs[d]) && HasWon(s.deregs[e]) ==> d == e)
    && (s.mr == Active <==> forall d :: d in s.deregs ==> !HasWon(s.deregs[d]))
    && (s.mr == Active ==> s.revokes == 0 && s.present)
    && (forall d :: d in s.deregs && HasWon(s.deregs[d]) ==> s.revokes == if s.deregs[d].Won? then 0 else 1)
    && (!s.present ==> s.revokes == 1)
  }

  lemma WinnerAfterHandler(s: State, step: Step)
    requires WinnerInv(s) && IsHandlerStep(step) && step.h in s.handlers
    ensures WinnerInv(HandlerStep(s, step))
  {
    hide HandlerStep;
    HandlerEffect(s, step);
    var t := HandlerStep(s, step);
    assert t.deregs.Keys == s.deregs.Keys;
    assert forall d :: d in s.deregs ==> HasWon(t.deregs[d]) == HasWon(s.deregs[d]);
  }

  lemma WinnerAfterDereg(s: State, step: Step)
    requires WinnerInv(s) && !IsHandlerStep(step) && step.d in s.deregs
    ensures WinnerInv(DeregStep(s, step))
  {
    hide DeregStep, HasWon;
    DeregEffect(s, step);
    var t, d := DeregStep(s, step), step.d;
    assert HasWon(t.deregs[d]) ==> t.mr != Active;
    assert forall e :: e in s.deregs && e != d ==> t.deregs[e] == s.deregs[e];
  }

  lemma {:induction false} WinnerAlways(s: State, steps: seq<Step>)
    requires Fresh(s)
    ensures WinnerInv(Run(s, steps))
  {
    hide HandlerStep, DeregStep, WinnerInv;
    if steps == [] {
      WinnerFresh(s);
    } else {
      var t, step := Run(s, steps[..|steps| - 1]), steps[|steps| - 1];
      WinnerAlways(s, steps[..|steps| - 1]);
      if IsHandlerStep(step) {
        if step.h in t.handlers { WinnerAfterHandler(t, step); }
      } else if step.d in t.deregs {
        WinnerAfterDereg(t, step);
      }
    }
  }

  lemma WinnerFresh(s: State)
    requires Fresh(s)
    ensures WinnerInv(s)
  {
  }

  /** In every run at most one deregister call wins, it emits one revocation, and the region leaves the table only
      after that. */
  lemma {:induction false} OneWinnerOneRevoke(s: State, steps: seq<Step>)
    requires Fresh(s)
    ensures var t := Run(s, steps);
            && (forall d, e :: d in t.deregs && e in t.deregs && HasWon(t.deregs[d]) && HasWon(t.deregs[e]) ==> d == e)
            && t.revokes <= 1
            && (forall d :: d in t.deregs && (t.deregs[d] == Returned(Ok) || t.deregs[d] == Returned(Timeout)) ==>
                  t.revokes == 1 && t.mr != Active)
            && (!t.present ==> t.revokes == 1 && t.mr != Active)
            && (t.mr != Active ==> exists d :: d in t.deregs && HasWon(t.deregs[d]))
  {
    hide Run;
    WinnerAlways(s, steps);
  }

  // ---- nobody enters after the revocation ----

  lemma LateStep(s: State, step: Step, h: nat)
    requires h in s.handlers && s.mr != Active
    ensures var t := Apply(s, step);
            t.mr != Active && h in t.handlers && (Admitted(t.handlers[h]) ==> Admitted(s.handlers[h]))
  {
    hide HandlerStep, DeregStep, Admitted;
    if IsHandlerStep(step) {
      if step.h in s.handlers { HandlerEffect(s, step); }
    } else if step.d in s.deregs {
      DeregEffect(s, step);
    }
  }

  /** A handler that holds a reference, or ever will, once the region is revoked had read Active before. */
  lemma {:induction false} NoLateEntrants(s: State, steps: seq<Step>, i: nat, h: nat)
    requires i <= |steps| && h in Run(s, steps[..i]).handlers && Run(s, steps[..i]).mr != Active
    ensures h in Run(s, steps).handlers
    ensures Admitted(Run(s, steps).handlers[h]) ==> Admitted(Run(s, steps[..i]).handlers[h])
    ensures Run(s, steps).mr != Active
    decreases |steps|
  {
    hide Apply;
    if i == |steps| {
      assert steps[..i] == steps;
    } else {
      var k := |steps| - 1;
      assert steps[..k][..i] == steps[..i];
      NoLateEntrants(s, steps[..k], i, h);
      LateStep(Run(s, steps[..k]), steps[k], h);
    }
  }

  // ---- what Ok means ----

  ghost predicate NotifierPending(s: State) { exists h :: h in s.handlers && s.handlers[h].MustNotify? }

  /** The call is still waiting, or gave up. */
  predicate NotDrained(x: Dereg) {
    x == Won(true) || x == Announced(true) || x.Polling? || x.Missed? || x.Listening? || x.TimedOut?
    || x == Closed(false) || x == Returned(Timeout)
  }

  lemma BusyDereg(s: State, step: Step, d: nat)
    requires d in s.deregs && NotDrained(s.deregs[d]) && s.refs > 0
    requires !IsHandlerStep(step) && step.d in s.deregs
    ensures d in DeregStep(s, step).deregs && NotDrained(DeregStep(s, step).deregs[d])
  {
  }

  lemma BusyStep(s: State, step: Step, d: nat)
    requires d in s.deregs && NotDrained(s.deregs[d]) && s.refs > 0 && !NotifierPending(s)
    requires Apply(s, step).refs > 0
    ensures var t := Apply(s, step); d in t.deregs && NotDrained(t.deregs[d]) && !NotifierPending(t)
  {
    hide HandlerStep, DeregStep, NotDrained;
    if IsHandlerStep(step) {
      if step.h in s.handlers { HandlerEffect(s, step); }
    } else if step.d in s.deregs {
      DeregEffect(s, step);
      BusyDereg(s, step, d);
    }
  }

  /** With no notifier pending, a call that has not seen a zero counter is not drained. */
  lemma {:induction false} BusyAlways(s: State, steps: seq<Step>, d: nat)
    requires d in s.deregs && NotDrained(s.deregs[d]) && !NotifierPending(s)
    requires forall k :: 0 <= k <= |steps| ==> Run(s, steps[..k]).refs > 0
    ensures var t := Run(s, steps); d in t.deregs && NotDrained(t.deregs[d]) && !NotifierPending(t)
  {
    hide Apply, NotifierPending;
    assert steps[..|steps|] == steps;
    if steps != [] {
      var k := |steps| - 1;
      assert forall i :: 0 <= i <= k ==> steps[..k][..i] == steps[..i];
      BusyAlways(s, steps[..k], d);
      assert Run(s, steps[..k]).refs > 0;
      BusyStep(Run(s, steps[..k]), steps[k], d);
    }
  }

  /** From the CAS on, whenever the call has returned Ok the counter was zero at some instant. */
  ghost predicate OkMeansDrained(s: State, d: nat) {
    forall steps :: d in Run(s, steps).deregs && Run(s, steps).deregs[d] == Returned(Ok) ==>
      exists k :: 0 <= k <= |steps| && Run(s, steps[..k]).refs == 0
  }

  lemma {:induction false} DrainedIfQuiet(s: State, d: nat)
    requires d in s.deregs && s.deregs[d] == Won(true) && s.refs >= 0
    requires forall steps :: Run(s, steps).refs >= 0
    requires s.refs == 0 || !NotifierPending(s)
    ensures OkMeansDrained(s, d)
  {
    hide Apply;
    forall steps | d in Run(s, steps).deregs && Run(s, steps).deregs[d] == Returned(Ok)
      ensures exists k :: 0 <= k <= |steps| && Run(s, steps[..k]).refs == 0
    {
      if s.refs == 0 {
        assert Run(s, steps[..0]).refs == 0;
      } else if forall k :: 0 <= k <= |steps| ==> Run(s, steps[..k]).refs != 0 {
        BusyAlways(s, steps, d);
      }
    }
  }

  /** The run in which a notification that was already due at the CAS wakes the waiter. */
  function EarlyWake(d: nat, h: nat): seq<Step> {
    [Announce(d), Load(d), Poll(d), Listen(d), Notify(h), Close(d), Drop(d)]
  }

  lemma RunPush(s: State, steps: seq<Step>, step: Step)
    ensures Run(s, steps + [step]) == Apply(Run(s, steps), step)
  {
    assert (steps + [step])[..|steps|] == steps;
  }

  ghost predicate Stage(t: State, refs: int, d: nat, x: Dereg, h: nat, y: Handler) {
    t.refs == refs && d in t.deregs && t.deregs[d] == x && h in t.handlers && t.handlers[h] == y
  }

  function StageOf(i: nat): Dereg
    requires i <= 7
  {
    [Won(true), Announced(true), Polling, Missed, Listening, Woken, Closed(true), Returned(Ok)][i]
  }

  lemma {:induction false} EarlyWakeAt(s: State, d: nat, h: nat, i: nat)
    requires i <= 7 && s.refs > 0 && Stage(s, s.refs, d, Won(true), h, MustNotify)
    ensures Stage(Run(s, EarlyWake(d, h)[..i]), s.refs, d, StageOf(i), h, if i < 5 then MustNotify else Finished)
  {
    if i > 0 {
      EarlyWakeAt(s, d, h, i - 1);
      var w := EarlyWake(d, h);
      TakeNext(w, i);
      RunPush(s, w[..i - 1], w[i - 1]);
      hide Run;
      EarlyWakeNext(Run(s, w[..i - 1]), s.refs, d, h, i);
    }
  }

  lemma EarlyWakeNext(t: State, refs: int, d: nat, h: nat, i: nat)
    requires 1 <= i <= 7 && refs > 0 && Stage(t, refs, d, StageOf(i - 1), h, if i < 6 then MustNotify else Finished)
    ensures Stage(Apply(t, EarlyWake(d, h)[i - 1]), refs, d, StageOf(i), h, if i < 5 then MustNotify else Finished)
  {
  }

  /** The exact condition under which the promise of deregister_async holds: at the moment its CAS succeeds, either the
      counter is zero or no handler that dropped it to zero has yet to notify. */
  lemma {:induction false} OkMeansDrainedIff(s: State, steps: seq<Step>, d: nat)
    requires Fresh(s) && d in Run(s, steps).deregs && Run(s, steps).deregs[d] == Won(true)
    ensures OkMeansDrained(Run(s, steps), d) <==> Run(s, steps).refs == 0 || !NotifierPending(Run(s, steps))
  {
    var t := Run(s, steps);
    CounterExact(s, steps);
    if t.refs == 0 || !NotifierPending(t) {
      forall rest
        ensures Run(t, rest).refs >= 0
      {
        RunConcat(s, steps, rest);
        CounterExact(s, steps + rest);
      }
      DrainedIfQuiet(t, d);
    } else {
      var h :| h in t.handlers && t.handlers[h].MustNotify?;
      hide Run, Apply;
      var w := EarlyWake(d, h);
      forall i: nat | i <= 7
        ensures Run(t, w[..i]).refs == t.refs
      {
        EarlyWakeAt(t, d, h, i);
      }
      EarlyWakeAt(t, d, h, 7);
      assert w[..7] == w;
      assert Run(t, w).deregs[d] == Returned(Ok);
    }
  }

  lemma {:induction false} RunConcat(s: State, a: seq<Step>, b: seq<Step>)
    ensures Run(s, a + b) == Run(Run(s, a), b)
  {
    hide Apply;
    if b == [] {
      assert a + b == a;
    } else {
      RunConcat(s, a, b[..|b| - 1]);
      assert (a + b)[..|a + b| - 1] == a + b[..|b| - 1];
    }
  }

  // ---- when Ok means that nobody is left ----

  /** Whenever the call has returned Ok, no handler holds a reference. */
  ghost predicate OkMeansIdle(s: State, d: nat) {
    forall steps :: d in Run(s, steps).deregs && Run(s, steps).deregs[d] == Returned(Ok) ==>
      InFlight(Run(s, steps)) == {}
  }

  /** A handler that has read Active and not yet taken its reference. */
  ghost predicate EntryPending(s: State) { exists h :: h in s.handlers && s.handlers[h].SawActive? }

  lemma ClosedStep(s: State, step: Step)
    requires s.mr != Active && !EntryPending(s)
    ensures var t := Apply(s, step); t.mr != Active && !EntryPending(t)
    ensures InFlight(s) == {} ==> InFlight(Apply(s, step)) == {}
  {
    hide HandlerStep, DeregStep, Holds;
    if IsHandlerStep(step) {
      if step.h in s.handlers { HandlerEffect(s, step); }
    } else if step.d in s.deregs {
      DeregEffect(s, step);
    }
  }

  /** Once revoked with no entry pending, a region that was idle at some instant stays idle. */
  lemma {:induction false} StaysIdle(s: State, steps: seq<Step>, k: nat)
    requires s.mr != Active && !EntryPending(s) && k <= |steps| && InFlight(Run(s, steps[..k])) == {}
    ensures InFlight(Run(s, steps)) == {}
    decreases |steps|
  {
    hide Apply, EntryPending, InFlight;
    if k == |steps| {
      assert steps[..k] == steps;
    } else {
      var n := |steps| - 1;
      assert steps[..n][..k] == steps[..k];
      StaysIdle(s, steps[..n], k);
      StaysClosed(s, steps[..n]);
      ClosedStep(Run(s, steps[..n]), steps[n]);
    }
  }

  lemma {:induction false} StaysClosed(s: State, steps: seq<Step>)
    requires s.mr != Active && !EntryPending(s)
    ensures Run(s, steps).mr != Active && !EntryPending(Run(s, steps))
  {
    hide Apply, EntryPending;
    if steps != [] {
      StaysClosed(s, steps[..|steps| - 1]);
      ClosedStep(Run(s, steps[..|steps| - 1]), steps[|steps| - 1]);
    }
  }

  function AfterDec(s: State): Handler { if s.refs == 1 then MustNotify else Finished }

  lemma DecIs(s: State, g: nat)
    requires g in s.handlers && s.handlers[g].Leaving?
    ensures Apply(s, Dec(g)) == SetH(s, g, AfterDec(s)).(refs := s.refs - 1)
  {
  }

  lemma CheckFails(s: State, g: nat)
    requires g in s.handlers && s.handlers[g].Holding?
    ensures Apply(s, Check(g, false)) == SetH(s, g, Leaving)
  {
  }

  /** A holding handler gives its reference back. */
  lemma {:induction false} Depart(s: State, g: nat) returns (steps: seq<Step>)
    requires g in InFlight(s)
    ensures Run(s, steps) == SetH(s, g, AfterDec(s)).(refs := s.refs - 1)
  {
    hide Apply, Run;
    if s.handlers[g].Holding? {
      steps := [Check(g, false), Dec(g)];
      Run2(s, Check(g, false), Dec(g));
      CheckFails(s, g);
      DecIs(SetH(s, g, Leaving), g);
      assert s.handlers[g := Leaving][g := AfterDec(s)] == s.handlers[g := AfterDec(s)];
    } else {
      steps := [] + [Dec(g)];
      RunEmpty(s);
      RunPush(s, [], Dec(g));
      DecIs(s, g);
    }
  }

  lemma {:induction false} DrainAll(s: State) returns (steps: seq<Step>)
    requires s.refs == |InFlight(s)|
    ensures var t := Run(s, steps);
            && t.refs == 0 && t.mr == s.mr && t.deregs == s.deregs && t.handlers.Keys == s.handlers.Keys
            && forall h :: h in s.handlers && h !in InFlight(s) ==> t.handlers[h] == s.handlers[h]
    decreases |InFlight(s)|
  {
    hide Run;
    if InFlight(s) == {} {
      steps := [];
      RunEmpty(s);
    } else {
      var g :| g in InFlight(s);
      var first := Depart(s, g);
      var t := Run(s, first);
      assert InFlight(t) == InFlight(s) - {g};
      var rest := DrainAll(t);
      RunConcat(s, first, rest);
      steps := first + rest;
    }
  }

  lemma RunEmpty(s: State)
    ensures Run(s, []) == s
  {
  }

  /** With the counter at zero the call stops waiting, and the pending entry takes its reference before Ok comes
      back. */
  function LateEntry(d: nat, h: nat): seq<Step> { [Announce(d), Load(d), Inc(h), Close(d), Drop(d)] }

  lemma {:induction false} RunFive(s: State, w: seq<Step>)
    requires |w| == 5
    ensures Run(s, w) == Apply(Apply(Apply(Apply(Apply(s, w[0]), w[1]), w[2]), w[3]), w[4])
  {
    hide Apply;
    assert w == [w[0], w[1]] + [w[2]] + [w[3]] + [w[4]];
    Run2(s, w[0], w[1]);
    RunPush(s, [w[0], w[1]], w[2]);
    RunPush(s, [w[0], w[1]] + [w[2]], w[3]);
    RunPush(s, [w[0], w[1]] + [w[2]] + [w[3]], w[4]);
  }

  lemma {:induction false} LateEntryHolds(s: State, d: nat, h: nat, v: Verb)
    requires Stage(s, 0, d, Won(true), h, SawActive(v))
    ensures var t := Run(s, LateEntry(d, h));
            d in t.deregs && t.deregs[d] == Returned(Ok) && h in InFlight(t)
  {
    hide Run, Apply;
    RunFive(s, LateEntry(d, h));
    var t := Apply(Apply(s, Announce(d)), Load(d));
    SeesZero(s, d, h, SawActive(v));
    TakesLate(t, d, h, v);
    Returns(Apply(t, Inc(h)), d, h, Holding(v, 0));
  }

  lemma SeesZero(s: State, d: nat, h: nat, y: Handler)
    requires Stage(s, 0, d, Won(true), h, y)
    ensures Stage(Apply(Apply(s, Announce(d)), Load(d)), 0, d, Woken, h, y)
  {
    assert Stage(Apply(s, Announce(d)), 0, d, Announced(true), h, y);
  }

  lemma TakesLate(t: State, d: nat, h: nat, v: Verb)
    requires Stage(t, 0, d, Woken, h, SawActive(v))
    ensures Stage(Apply(t, Inc(h)), 1, d, Woken, h, Holding(v, 0))
  {
  }

  lemma Returns(t: State, d: nat, h: nat, y: Handler)
    requires Stage(t, 1, d, Woken, h, y)
    ensures Stage(Apply(Apply(t, Close(d)), Drop(d)), 1, d, Returned(Ok), h, y)
  {
    assert Stage(Apply(t, Close(d)), 1, d, Closed(true), h, y);
  }

  lemma {:induction false} EntryBreaksIdle(s: State, d: nat, h: nat)
    requires s.refs == |InFlight(s)| && d in s.deregs && s.deregs[d] == Won(true)
    requires h in s.handlers && s.handlers[h].SawActive?
    ensures !OkMeansIdle(s, d)
  {
    hide Run;
    var drain := DrainAll(s);
    var t := Run(s, drain);
    LateEntryHolds(t, d, h, s.handlers[h].verb);
    RunConcat(s, drain, LateEntry(d, h));
    assert h in InFlight(Run(s, drain + LateEntry(d, h)));
  }

  lemma {:induction false} WakeBreaksIdle(s: State, steps: seq<Step>, d: nat)
    requires Fresh(s) && d in Run(s, steps).deregs && Run(s, steps).deregs[d] == Won(true)
    requires Run(s, steps).refs > 0 && NotifierPending(Run(s, steps))
    ensures !OkMeansIdle(Run(s, steps), d)
  {
    hide Run, Apply;
    var t := Run(s, steps);
    var h :| h in t.handlers && t.handlers[h].MustNotify?;
    var w := EarlyWake(d, h);
    EarlyWakeAt(t, d, h, 7);
    assert w[..7] == w;
    RunConcat(s, steps, w);
    CounterExact(s, steps + w);
    assert InFlight(Run(t, w)) != {};
  }

  /** The exact condition under which Ok from deregister_async means that no operation is left: at the moment its CAS
      succeeds no handler is between reading Active and taking its reference, and either the counter is zero or no
      handler that dropped it to zero has yet to notify. */
  lemma {:induction false} OkMeansIdleIff(s: State, steps: seq<Step>, d: nat)
    requires Fresh(s) && d in Run(s, steps).deregs && Run(s, steps).deregs[d] == Won(true)
    ensures var t := Run(s, steps);
            OkMeansIdle(t, d) <==> !EntryPending(t) && (t.refs == 0 || !NotifierPending(t))
  {
    hide Run, Apply;
    var t := Run(s, steps);
    CounterExact(s, steps);
    if EntryPending(t) {
      var h :| h in t.handlers && t.handlers[h].SawActive?;
      EntryBreaksIdle(t, d, h);
    } else if t.refs > 0 && NotifierPending(t) {
      WakeBreaksIdle(s, steps, d);
    } else {
      OkMeansDrainedIff(s, steps, d);
      assert t.mr != Active by { WonMeansRevoked(s, steps, d); }
      forall rest | d in Run(t, rest).deregs && Run(t, rest).deregs[d] == Returned(Ok)
        ensures InFlight(Run(t, rest)) == {}
      {
        var k :| 0 <= k <= |rest| && Run(t, rest[..k]).refs == 0;
        RunConcat(s, steps, rest[..k]);
        CounterExact(s, steps + rest[..k]);
        StaysIdle(t, rest, k);
      }
    }
  }

  lemma {:induction false} WonMeansRevoked(s: State, steps: seq<Step>, d: nat)
    requires Fresh(s) && d in Run(s, steps).deregs && HasWon(Run(s, steps).deregs[d])
    ensures Run(s, steps).mr != Active
  {
    hide Run;
    WinnerAlways(s, steps);
  }

  // ---- the conditions can fail ----

  lemma Run2(s: State, a: Step, b: Step)
    ensures Run(s, [a, b]) == Apply(Apply(s, a), b)
  {
    hide Apply;
    assert [a, b] == [] + [a] + [b];
    RunPush(s, [], a);
    RunPush(s, [] + [a], b);
  }

  lemma Enter(s: State, h: nat, v: Verb)
    requires h in s.handlers && s.handlers[h] == Idle(v) && s.mr == Active && s.present
    ensures Run(s, [Lookup(h), ReadState(h)] + [Inc(h)])
              == s.(handlers := s.handlers[h := Holding(v, 0)], refs := s.refs + 1)
  {
    Run2(s, Lookup(h), ReadState(h));
    RunPush(s, [Lookup(h), ReadState(h)], Inc(h));
    hide Run;
    assert Apply(s, Lookup(h)) == SetH(s, h, Found(v));
    var t := SetH(s, h, SawActive(v));
    assert Apply(SetH(s, h, Found(v)), ReadState(h)).handlers == t.handlers;
    assert Apply(t, Inc(h)).handlers == s.handlers[h := Holding(v, 0)];
  }

  lemma Leave(s: State, h: nat)
    requires h in s.handlers && s.handlers[h].Holding? && s.refs == 1
    ensures Run(s, [Check(h, false), Dec(h)]) == s.(handlers := s.handlers[h := MustNotify], refs := 0)
  {
    hide Apply, Run;
    Run2(s, Check(h, false), Dec(h));
    CheckFails(s, h);
    DecIs(SetH(s, h, Leaving), h);
    assert s.handlers[h := Leaving][h := MustNotify] == s.handlers[h := MustNotify];
  }

  lemma Revoke(s: State, d: nat)
    requires d in s.deregs && s.deregs[d] == Start(true) && s.present && s.mr == Active
    ensures Run(s, [Find(d), CasState(d)]) == s.(deregs := s.deregs[d := Won(true)], mr := Revoking)
  {
    Run2(s, Find(d), CasState(d));
    hide Run;
    assert Apply(s, Find(d)) == SetD(s, d, Has(true));
    assert Apply(SetD(s, d, Has(true)), CasState(d)).deregs == s.deregs[d := Won(true)];
  }

  /** The promise does fail: one handler has dropped the counter to zero and not yet notified, a second one has entered,
      and the call that revokes now can return Ok although the counter never reaches zero again. */
  lemma {:induction false} OkBeforeDrained() returns (s: State, steps: seq<Step>)
    ensures Fresh(s) && 2 in Run(s, steps).deregs && Run(s, steps).deregs[2] == Won(true)
    ensures !OkMeansDrained(Run(s, steps), 2)
  {
    hide Run, Apply;
    s := State(Active, 0, true, 0, map[0 := Idle(Write), 1 := Idle(Write)], map[2 := Start(true)]);
    Enter(s, 0, Write);
    var a := [Lookup(0), ReadState(0)] + [Inc(0)];
    var b := [Check(0, false), Dec(0)];
    RunConcat(s, a, b);
    Leave(Run(s, a), 0);
    var c := [Lookup(1), ReadState(1)] + [Inc(1)];
    RunConcat(s, a + b, c);
    Enter(Run(s, a + b), 1, Write);
    RunConcat(s, a + b + c, [Find(2), CasState(2)]);
    Revoke(Run(s, a + b + c), 2);
    steps := a + b + c + [Find(2), CasState(2)];
    assert Run(s, steps).handlers[0].MustNotify?;
    OkMeansDrainedIff(s, steps, 2);
  }

  /** The stronger promise fails even where the counter was zero at the CAS: a handler that had read Active just before
      holds the region when Ok comes back. */
  lemma {:induction false} OkWhileEntering() returns (s: State, steps: seq<Step>)
    ensures Fresh(s) && 2 in Run(s, steps).deregs && Run(s, steps).deregs[2] == Won(true)
    ensures OkMeansDrained(Run(s, steps), 2) && !OkMeansIdle(Run(s, steps), 2)
  {
    hide Run, Apply;
    s := State(Active, 0, true, 0, map[0 := Idle(Write)], map[2 := Start(true)]);
    AboutToEnter(s, 0, Write);
    var a := [Lookup(0), ReadState(0)];
    RunConcat(s, a, [Find(2), CasState(2)]);
    Revoke(Run(s, a), 2);
    steps := a + [Find(2), CasState(2)];
    assert Run(s, steps).handlers[0].SawActive?;
    OkMeansDrainedIff(s, steps, 2);
    OkMeansIdleIff(s, steps, 2);
  }

  lemma AboutToEnter(s: State, h: nat, v: Verb)
    requires h in s.handlers && s.handlers[h] == Idle(v) && s.mr == Active && s.present
    ensures Run(s, [Lookup(h), ReadState(h)]) == s.(handlers := s.handlers[h := SawActive(v)])
  {
    Run2(s, Lookup(h), ReadState(h));
    hide Run;
    assert Apply(s, Lookup(h)) == SetH(s, h, Found(v));
    assert Apply(SetH(s, h, Found(v)), ReadState(h)).handlers == s.handlers[h := SawActive(v)];
  }

  /** Consecutive checks that all pass. */
  function Passes(h: nat, n: nat): seq<Step> { seq(n, _ => Check(h, true)) }

  /** A handler that passes every check gives its reference back after two checks for a read or write, three for a write
      with immediate and four for an atomic, and not before. */
  lemma {:induction false} HoldsThroughChecks(s: State, h: nat, v: Verb, n: nat)
    requires h in s.handlers && s.handlers[h] == Holding(v, 0)
    requires n <= match v case Write => 2 case Read => 2 case WriteImm => 3 case Cas => 4 case Faa => 4
    ensures var t := Run(s, Passes(h, n));
            && h in t.handlers && t.refs == s.refs
            && t.handlers[h] ==
               if n == (match v case Write => 2 case Read => 2 case WriteImm => 3 case Cas => 4 case Faa => 4)
               then Leaving else Holding(v, n)
  {
    if n > 0 {
      assert Passes(h, n)[..n - 1] == Passes(h, n - 1);
      HoldsThroughChecks(s, h, v, n - 1);
    }
  }

  /** A call that waits can always run out of time, whatever the handlers do: it then returns Timeout. */
  lemma {:induction false} WaitCanEnd(s: State, d: nat)
    requires d in s.deregs && (s.deregs[d].Polling? || s.deregs[d].Missed? || s.deregs[d].Listening?)
    ensures var t := Run(s, [Expire(d), Close(d), Drop(d)]);
            d in t.deregs && t.deregs[d] == Returned(Timeout) && !t.present && t.mr == Released
  {
    hide Run;
    var w := [Expire(d), Close(d), Drop(d)];
    RunPush(s, [], Expire(d));
    RunPush(s, [Expire(d)], Close(d));
    RunPush(s, [Expire(d), Close(d)], Drop(d));
    RunEmpty(s);
    assert [] + [Expire(d)] == [Expire(d)] && [Expire(d)] + [Close(d)] == [Expire(d), Close(d)];
    assert [Expire(d), Close(d)] + [Drop(d)] == w;
  }

  // ---- what a deregister call's answer says ----

  /** A winner's answer means the region is gone from the table, NotThere that it was gone before, Busy that another
      call had won. */
  ghost predicate AnswerTrue(s: State, x: Dereg) {
    && (x == Returned(Ok) || x == Returned(Timeout) || x == Returned(NotThere) ==> !s.present)
    && (x == Returned(Busy) ==> s.mr != Active)
    && (x.Closed? || x == Returned(Timeout) ==> s.mr == Released)
  }

  /** The call stopped waiting because its time ran out. */
  predicate Lapsed(x: Dereg) { x == TimedOut || x == Closed(false) || x == Returned(Timeout) }

  lemma OwnAnswer(s: State, step: Step)
    requires !IsHandlerStep(step) && step.d in s.deregs && AnswerTrue(s, s.deregs[step.d])
    ensures var t, d := DeregStep(s, step), step.d;
            && d in t.deregs && AnswerTrue(t, t.deregs[d])
            && (Lapsed(t.deregs[d]) ==> Lapsed(s.deregs[d]) || step == Expire(d))
  {
  }

  lemma NeverBack(s: State, step: Step)
    requires !IsHandlerStep(step) && step.d in s.deregs
    ensures var t := DeregStep(s, step);
            (t.present ==> s.present) && (t.mr == Active ==> s.mr == Active) && (s.mr == Released ==> t.mr == Released)
  {
  }

  lemma StepAnswers(s: State, step: Step, d: nat)
    requires d in s.deregs && AnswerTrue(s, s.deregs[d])
    ensures var t := Apply(s, step);
            && d in t.deregs && AnswerTrue(t, t.deregs[d])
            && (Lapsed(t.deregs[d]) ==> Lapsed(s.deregs[d]) || step == Expire(d))
  {
    hide HandlerStep, DeregStep;
    if IsHandlerStep(step) {
      if step.h in s.handlers { HandlerEffect(s, step); }
    } else if step.d in s.deregs {
      DeregEffect(s, step);
      NeverBack(s, step);
      if step.d == d { OwnAnswer(s, step); }
    }
  }

  lemma {:induction false} AnswersAlways(s: State, steps: seq<Step>, d: nat)
    requires Fresh(s) && d in s.deregs
    ensures d in Run(s, steps).deregs && AnswerTrue(Run(s, steps), Run(s, steps).deregs[d])
    ensures Lapsed(Run(s, steps).deregs[d]) ==> Expire(d) in steps
  {
    hide Apply;
    if steps != [] {
      AnswersAlways(s, steps[..|steps| - 1], d);
      StepAnswers(Run(s, steps[..|steps| - 1]), steps[|steps| - 1], d);
    }
  }

  /** In every run a deregister call's answer is true: Ok and Timeout mean that the region has left the table, NotThere
      that it was not there, Busy that it was no longer active; and Timeout is answered only when the time ran out. */
  lemma {:induction false} AnswersAreTrue(s: State, steps: seq<Step>, d: nat, out: Outcome)
    requires Fresh(s) && d in s.deregs && d in Run(s, steps).deregs && Run(s, steps).deregs[d] == Returned(out)
    ensures var t := Run(s, steps);
            match out
            case Ok => !t.present
            case Timeout => !t.present && t.mr == Released && Expire(d) in steps
            case NotThere => !t.present
            case Busy => t.mr != Active
  {
    hide Run;
    AnswersAlways(s, steps, d);
  }
}
