/** What a run of manager calls leaves on record: which regions are known and who reads them. */
module HomeRecords {
  import opened Bytes
  import opened Coherence

  /** The last call that bound or dropped the region bound it. */
  function Bound(es: seq<Event>, r: nat, initially: bool): bool {
    if es == [] then initially
    else
      match es[|es| - 1].op
      case Register(q) => q == r || Bound(es[..|es| - 1], r, initially)
      case Unregister(q) => q != r && Bound(es[..|es| - 1], r, initially)
      case _ => Bound(es[..|es| - 1], r, initially)
  }

  lemma {:induction false} KnownIffBound(m: Manager, es: seq<Event>, r: nat)
    ensures r in After(m, es).homes <==> Bound(es, r, r in m.homes)
  {
    if es != [] { KnownIffBound(m, es[..|es| - 1], r); }
  }

  /** In every run a call finds the region exactly when it was last registered and not unregistered since; an acquire
      answers NotFound otherwise. */
  lemma {:induction false} FoundIffBound(m: Manager, es: seq<Event>, r: nat, node: nat, now: int)
    ensures var s, known := After(m, es), Bound(es, r, r in m.homes);
            && (Step(s, Event(Acquire(r, node), now)).1 == NotFound <==> !known)
            && Step(s, Event(Unregister(r), now)).1 == Done(known)
            && Step(s, Event(AddReader(r, node), now)).1 == Done(known)
            && Step(s, Event(InvalidateAck(r, node), now)).1 == Done(known)
            && Step(s, Event(BumpEpoch(r), now)).1 == Done(known)
            && (Step(s, Event(Release(r, node), now)).1 == Done(true) ==> known)
  {
    hide After, Bound;
    KnownIffBound(m, es, r);
  }

  /** The last call about this reader added it, with no registration of the region since. */
  function Reads(es: seq<Event>, r: nat, node: nat, initially: bool): bool {
    if es == [] then initially
    else
      var before := Reads(es[..|es| - 1], r, node, initially);
      match es[|es| - 1].op
      case Register(q) => q != r && before
      case Unregister(q) => q != r && before
      case AddReader(q, n) => (q == r && n == node) || before
      case InvalidateAck(q, n) => !(q == r && n == node) && before
      case _ => before
  }

  /** In every run a node is a reader of a known region exactly when it was last added, and neither acknowledged an
      invalidation nor saw the region registered anew since. Acquires, releases and sweeps do not touch the readers. */
  lemma {:induction false} ReaderIffAdded(m: Manager, es: seq<Event>, r: nat, node: nat)
    ensures r in After(m, es).homes ==>
              (node in After(m, es).homes[r].readers <==>
               Reads(es, r, node, r in m.homes && node in m.homes[r].readers))
  {
    if es != [] {
      ReaderIffAdded(m, es[..|es| - 1], r, node);
      ReaderStep(After(m, es[..|es| - 1]), es[|es| - 1], r, node);
    }
  }

  lemma ReaderStep(s: Manager, e: Event, r: nat, node: nat)
    ensures var t := Next(s, e);
            r in t.homes ==>
              (r in s.homes || e.op == Register(r))
              && (node in t.homes[r].readers <==>
                  e.op == AddReader(r, node)
                  || (e.op != Register(r) && e.op != InvalidateAck(r, node)
                      && r in s.homes && node in s.homes[r].readers))
  {
  }

  /** A call about one region leaves every other region as it was; a sweep ends exactly the leases that ran out. */
  lemma OthersKept(s: Manager, e: Event, r: nat)
    requires r in s.homes && (e.op.Sweep? || e.op.region != r)
    ensures r in Next(s, e).homes
    ensures var h, lapsed := s.homes[r], s.homes[r].writer.Some? && s.homes[r].writer.value.deadline < e.now;
            Next(s, e).homes[r] == if e.op.Sweep? && lapsed then Home(h.epoch + 1, h.readers, None) else h
  {
  }

  /** Whatever was on record, a registration starts afresh: no readers, no writer, epoch 0. */
  lemma RegisterStartsAfresh(s: Manager, r: nat, node: nat, at: int, now: int)
    ensures var t := Next(s, Event(Register(r), at));
            r in t.homes && t.homes[r].readers == {} && Step(t, Event(Acquire(r, node), now)).1 == Granted(0)
  {
  }

  /** An acquire answers with the truth: a denial names another node whose lease still runs, a grant carries the epoch
      in force and leaves the caller holding the lock for the lease time. */
  lemma AcquireAnswersTruly(s: Manager, r: nat, node: nat, now: int)
    ensures var (t, out) := Step(s, Event(Acquire(r, node), now));
            match out
            case NotFound => r !in s.homes
            case Denied(holder) =>
              && r in s.homes && holder != node && t.homes == s.homes
              && s.homes[r].writer.Some? && s.homes[r].writer.value.node == holder
              && now <= s.homes[r].writer.value.deadline
            case Granted(epoch) =>
              && r in s.homes && r in t.homes && epoch == s.homes[r].epoch
              && t.homes[r] == s.homes[r].(writer := Some(Lease(node, now + s.leaseMs)))
            case Done(_) => false
  {
  }

  /** How many calls of a run raise the epoch of the region. */
  function CountRaises(m: Manager, es: seq<Event>, r: nat): nat {
    if es == [] then 0
    else
      CountRaises(m, es[..|es| - 1], r) + if RaisesIn(After(m, es[..|es| - 1]), es[|es| - 1], r) then 1 else 0
  }

  /** In every run without a new registration the epoch is the initial one plus the number of calls that raise it. */
  lemma {:induction false} EpochIsCount(m: Manager, es: seq<Event>, r: nat)
    requires r in m.homes && forall e :: e in es ==> !Rebinds(e.op, r)
    ensures r in After(m, es).homes && After(m, es).homes[r].epoch == m.homes[r].epoch + CountRaises(m, es, r)
  {
    hide Next, RaisesIn;
    if es != [] {
      EpochIsCount(m, es[..|es| - 1], r);
      StepRaises(After(m, es[..|es| - 1]), es[|es| - 1], r);
    }
  }
}
