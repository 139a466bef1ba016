/** The read-through cache of one node: region table, cache pool and in-flight list, driven by reads, fetch
    completions, invalidations and table inserts. */
module FetchAgent {
  import opened Bytes
  import opened SubAlloc
  import opened CachePool

  datatype Agent = Agent(local: Local, inFlight: seq<nat>)

  datatype ReadVaResult =
    | ReadHome(info: RegionInfo)
    | CacheHit(off: nat, info: RegionInfo)
    | CacheMiss(info: RegionInfo)
    | UnknownRegion

  function InvalidateLocal(n: Local, k: nat): Local {
    var m := Remove(n, k);
    m.(table := SetState(m.table, k, Invalid))
  }

  function ReadVa(n: Local, k: nat, now: int): (Local, ReadVaResult) {
    if k !in n.table then (n, UnknownRegion)
    else
      var r := n.table[k];
      match r.state
      case Home => (n, ReadHome(r))
      case Invalid => (n, CacheMiss(r))
      case Shared(epoch) =>
        var m := Touch(n, k, now);
        if k !in m.entries then (m, CacheMiss(r))
        else if m.entries[k].epoch < epoch then
          var i := InvalidateLocal(m, k);
          (i, CacheMiss(r.(state := Invalid)))
        else (m, CacheHit(m.entries[k].off, r))
  }

  function Without(q: seq<nat>, k: nat): seq<nat> {
    if q == [] then []
    else
      var p := Without(q[..|q| - 1], k);
      if q[|q| - 1] == k then p else p + [q[|q| - 1]]
  }

  function CompleteFetch(a: Agent, k: nat, len: nat, epoch: nat, now: int, vs: seq<nat>): (Agent, Option<nat>) {
    var (n, off) := Insert(a.local, k, len, epoch, now, vs);
    if off.None? then (a.(local := n), None)
    else
      (Agent(n.(table := SetEpoch(SetState(n.table, k, Shared(epoch)), k, epoch)), Without(a.inFlight, k)), off)
  }

  function ReceiveInvalidate(n: Local, k: nat, newEpoch: nat): (Local, bool) {
    if k !in n.table then (n, false)
    else
      var r := n.table[k];
      match r.state
      case Home => (n, false)
      case Invalid => (if newEpoch > r.epoch then n.(table := SetEpoch(n.table, k, newEpoch)) else n, false)
      case Shared(current) =>
        if newEpoch >= current then
          var m := InvalidateLocal(n, k);
          (m.(table := SetEpoch(m.table, k, newEpoch)), true)
        else (n, false)
  }

  // ---- runs ----

  datatype Step =
    | Read(k: nat, now: int)
    | Complete(k: nat, len: nat, epoch: nat, now: int, vs: seq<nat>)
    | Invalidate(k: nat)
    | Receive(k: nat, newEpoch: nat)
    | MarkInFlight(k: nat)
    | EvictLru(k: nat)
    | TableInsert(k: nat, info: RegionInfo)

  /** Inserts into the table are of Invalid entries or of Home regions that are not cached; a fetch is not completed
      on a Home region; evictions pick the least recently used. */
  ghost predicate Allowed(a: Agent, step: Step) {
    match step
    case Complete(k, len, _, _, vs) =>
      LoopDone(a.local, vs, len) && (k in a.local.table ==> a.local.table[k].state != Home)
    case EvictLru(k) => IsLru(a.local.entries, k)
    case TableInsert(k, info) => info.state == Invalid || (info.state == Home && k !in a.local.entries)
    case _ => true
  }

  function Next(a: Agent, step: Step): Agent {
    match step
    case Read(k, now) => a.(local := ReadVa(a.local, k, now).0)
    case Complete(k, len, epoch, now, vs) => CompleteFetch(a, k, len, epoch, now, vs).0
    case Invalidate(k) => a.(local := InvalidateLocal(a.local, k))
    case Receive(k, newEpoch) => a.(local := ReceiveInvalidate(a.local, k, newEpoch).0)
    case MarkInFlight(k) => if k in a.inFlight then a else a.(inFlight := a.inFlight + [k])
    case EvictLru(k) => a.(local := EvictOne(a.local, k))
    case TableInsert(k, info) => a.(local := a.local.(table := a.local.table[k := info]))
  }

  function Start(max: nat, bump: Pool): Agent { Agent(Local(map[], map[], 0, max, bump), []) }

  function Run(a: Agent, steps: seq<Step>): Agent {
    if steps == [] then a else Next(Run(a, steps[..|steps| - 1]), steps[|steps| - 1])
  }

  ghost predicate AllAllowed(a: Agent, steps: seq<Step>) {
    forall i :: 0 <= i < |steps| ==> Allowed(Run(a, steps[..i]), steps[i])
  }

  // ---- agreement of table and pool ----

  ghost predicate AgreeAt(n: Local, k: nat) {
    k in n.table ==>
      && (n.table[k].state.Shared? ==>
            k in n.entries && n.entries[k].epoch == n.table[k].state.epoch == n.table[k].epoch)
      && (n.table[k].state.Home? ==> k !in n.entries)
  }

  ghost predicate Agree(n: Local) { forall k :: AgreeAt(n, k) }

  lemma {:induction false} EvictOneAgrees(n: Local, k: nat)
    requires Agree(n)
    ensures Agree(EvictOne(n, k))
  {
    forall j
      ensures AgreeAt(EvictOne(n, k), j)
    {
      assert AgreeAt(n, j);
    }
  }

  lemma {:induction false} EvictAllAgrees(n: Local, vs: seq<nat>)
    requires Agree(n)
    ensures Agree(EvictAll(n, vs))
  {
    hide EvictOne, Agree;
    if vs != [] {
      EvictAllAgrees(n, vs[..|vs| - 1]);
      EvictOneAgrees(EvictAll(n, vs[..|vs| - 1]), vs[|vs| - 1]);
    }
  }

  /** Evictions change table states only to Invalid and only of cached regions. */
  lemma {:induction false} EvictAllTable(n: Local, vs: seq<nat>, len: nat, k: nat)
    requires Agree(n) && Victims(n, vs, len) && k in n.table
    ensures k in EvictAll(n, vs).table
    ensures n.table[k].state == Home ==> EvictAll(n, vs).table[k] == n.table[k]
    ensures n.table[k].state != Home ==> EvictAll(n, vs).table[k].state != Home
  {
    if vs != [] {
      var i := |vs| - 1;
      assert forall j :: 0 <= j < i ==> vs[..i][..j] == vs[..j];
      EvictAllTable(n, vs[..i], len, k);
      var m := EvictAll(n, vs[..i]);
      assert IsLru(m.entries, vs[i]);
      EvictAllAgrees(n, vs[..i]);
      hide EvictAll, Agree, IsLru;
      EvictOneTable(m, vs[i], k);
      assert EvictAll(n, vs) == EvictOne(m, vs[i]) by { EvictLast(n, vs); }
    }
  }

  lemma EvictLast(n: Local, vs: seq<nat>)
    requires vs != []
    ensures EvictAll(n, vs) == EvictOne(EvictAll(n, vs[..|vs| - 1]), vs[|vs| - 1])
  {
  }

  lemma EvictOneTable(m: Local, v: nat, k: nat)
    requires Agree(m) && IsLru(m.entries, v) && k in m.table
    ensures k in EvictOne(m, v).table
    ensures m.table[k].state == Home ==> EvictOne(m, v).table[k] == m.table[k]
    ensures m.table[k].state != Home ==> EvictOne(m, v).table[k].state != Home
  {
    assert AgreeAt(m, k);
  }

  lemma {:induction false} CompleteAgrees(a: Agent, k: nat, len: nat, epoch: nat, now: int, vs: seq<nat>)
    requires Agree(a.local) && Allowed(a, Complete(k, len, epoch, now, vs))
    ensures Agree(CompleteFetch(a, k, len, epoch, now, vs).0.local)
  {
    hide EvictAll;
    var m := EvictAll(a.local, vs);
    EvictAllAgrees(a.local, vs);
    if k in a.local.table { EvictAllTable(a.local, vs, len, k); }
    var t := CompleteFetch(a, k, len, epoch, now, vs).0.local;
    forall j
      ensures AgreeAt(t, j)
    {
      assert AgreeAt(m, j);
    }
  }

  lemma {:induction false} NextAgrees(a: Agent, step: Step)
    requires Agree(a.local) && Allowed(a, step)
    ensures Agree(Next(a, step).local)
  {
    if step.Complete? {
      CompleteAgrees(a, step.k, step.len, step.epoch, step.now, step.vs);
    } else {
      var n, t := a.local, Next(a, step).local;
      forall j
        ensures AgreeAt(t, j)
      {
        assert AgreeAt(n, j);
      }
    }
  }

  lemma {:induction false} NextSound(a: Agent, step: Step)
    requires Sound(a.local) && Agree(a.local) && Allowed(a, step)
    ensures Sound(Next(a, step).local)
  {
    hide LiveBytes, EvictAll, Sound;
    var n := a.local;
    match step
    case Read(k, now) =>
      TouchSound(n, k, now);
      RemoveSound(Touch(n, k, now), k);
      SoundIgnoresTable(Remove(Touch(n, k, now), k), InvalidateLocal(Touch(n, k, now), k).table);
    case Complete(k, len, epoch, now, vs) =>
      InsertSound(n, k, len, epoch, now, vs);
      SoundIgnoresTable(Insert(n, k, len, epoch, now, vs).0, CompleteFetch(a, k, len, epoch, now, vs).0.local.table);
    case Invalidate(k) =>
      RemoveSound(n, k);
      SoundIgnoresTable(Remove(n, k), InvalidateLocal(n, k).table);
    case Receive(k, newEpoch) =>
      RemoveSound(n, k);
      SoundIgnoresTable(Remove(n, k), ReceiveInvalidate(n, k, newEpoch).0.table);
      SoundIgnoresTable(n, ReceiveInvalidate(n, k, newEpoch).0.table);
    case MarkInFlight(k) =>
    case EvictLru(k) =>
      RemoveSound(n, k);
      SoundIgnoresTable(Remove(n, k), EvictOne(n, k).table);
    case TableInsert(k, info) => SoundIgnoresTable(n, n.table[k := info]);
  }

  // ---- exactness of the byte counter ----

  /** What a step adds to the counter's drift: only completing a fetch of a region that is still cached does. */
  function Drift(a: Agent, step: Step): nat {
    if step.Complete? then Overwritten(a.local, step.k, step.len, step.epoch, step.now, step.vs) else 0
  }

  lemma {:induction false} NextDrifts(a: Agent, step: Step)
    requires Sound(a.local)
    ensures Gap(Next(a, step).local) == Gap(a.local) + Drift(a, step)
  {
    hide LiveBytes, EvictAll, Sound;
    var n, t := a.local, Next(a, step).local;
    match step {
      case Read(k, now) =>
        TouchSound(n, k, now);
        RemoveSound(Touch(n, k, now), k);
      case Complete(k, len, epoch, now, vs) => InsertSound(n, k, len, epoch, now, vs);
      case Invalidate(k) => RemoveSound(n, k);
      case Receive(k, newEpoch) => RemoveSound(n, k);
      case MarkInFlight(k) =>
      case EvictLru(k) => RemoveSound(n, k);
      case TableInsert(k, info) =>
    }
  }

  function TotalDrift(a: Agent, steps: seq<Step>): nat {
    if steps == [] then 0
    else TotalDrift(a, steps[..|steps| - 1]) + Drift(Run(a, steps[..|steps| - 1]), steps[|steps| - 1])
  }

  /** In every allowed run the counter exceeds the live bytes by exactly the bytes overwritten so far; nothing takes
      them off again. */
  lemma {:induction false} DriftAccumulates(max: nat, bump: Pool, steps: seq<Step>)
    requires AllAllowed(Start(max, bump), steps)
    ensures Gap(Run(Start(max, bump), steps).local) == TotalDrift(Start(max, bump), steps)
  {
    hide Next, Sound, Allowed, Agree, Drift;
    var a := Start(max, bump);
    if steps != [] {
      hide Gap;
      var k := |steps| - 1;
      assert forall i :: 0 <= i < k ==> steps[..k][..i] == steps[..i];
      DriftAccumulates(max, bump, steps[..k]);
      AgreementAlways(max, bump, steps[..k]);
      NextDrifts(Run(a, steps[..k]), steps[k]);
    }
  }

  lemma {:induction false} NoDriftIff(a: Agent, steps: seq<Step>)
    ensures TotalDrift(a, steps) == 0 <==> forall i :: 0 <= i < |steps| ==> Drift(Run(a, steps[..i]), steps[i]) == 0
  {
    hide Drift, Run;
    if steps != [] {
      var k := |steps| - 1;
      assert forall i :: 0 <= i < k ==> steps[..k][..i] == steps[..i];
      NoDriftIff(a, steps[..k]);
    }
  }

  /** In every allowed run the counter equals the live bytes if and only if no completed fetch replaced a non-empty
      entry of a region that was still cached. */
  lemma {:induction false} ExactIffNoOverwrite(max: nat, bump: Pool, steps: seq<Step>)
    requires AllAllowed(Start(max, bump), steps)
    ensures var a := Start(max, bump);
            var n := Run(a, steps).local;
            n.used == LiveBytes(n.entries) <==>
              forall i :: 0 <= i < |steps| ==> Drift(Run(a, steps[..i]), steps[i]) == 0
  {
    hide Run, LiveBytes, Drift, AllAllowed;
    DriftAccumulates(max, bump, steps);
    NoDriftIff(Start(max, bump), steps);
  }

  /** Two reads that both missed complete the same fetch, one after the other. */
  function RacingMisses(info: RegionInfo): seq<Step> {
    [TableInsert(1, info), Complete(1, 8, 0, 0, []), Complete(1, 8, 0, 1, [])]
  }

  lemma NothingToEvict(n: Local, len: nat)
    requires n.used + len <= n.max
    ensures LoopDone(n, [], len) && EvictAll(n, []) == n
  {
  }

  lemma FetchInto(a: Agent, k: nat, now: int)
    requires a.local.used + 8 <= a.local.max && a.local.bump.taken + 8 <= a.local.bump.total
    ensures var b := Next(a, Complete(k, 8, 0, now, [])); var n, m := a.local, b.local;
            && m.used == n.used + 8 && m.max == n.max && m.bump == n.bump.(taken := n.bump.taken + 8)
            && m.entries == n.entries[k := CacheEntry(n.bump.base + n.bump.taken, 8, 0, now)]
            && m.table == SetEpoch(SetState(n.table, k, Shared(0)), k, 0)
  {
    NothingToEvict(a.local, 8);
    hide EvictAll;
  }

  lemma RunThree(a: Agent, w: seq<Step>)
    requires |w| == 3
    ensures Run(a, w[..0]) == a && Run(a, w[..1]) == Next(a, w[0]) && Run(a, w[..2]) == Next(Next(a, w[0]), w[1])
    ensures Run(a, w) == Next(Next(Next(a, w[0]), w[1]), w[2])
  {
    hide Next;
    assert w[..1][..0] == [] && w[..2][..1] == w[..1] && w[..2][1] == w[1];
  }

  /** The counter does drift: after two racing misses of an 8-byte region it stands at 16. */
  lemma {:induction false} RacingMissesLeak(max: nat, bump: Pool, info: RegionInfo)
    requires max >= 16 && bump.taken + 16 <= bump.total && info.state == Invalid
    ensures AllAllowed(Start(max, bump), RacingMisses(info))
    ensures var n := Run(Start(max, bump), RacingMisses(info)).local; n.used == 16 && LiveBytes(n.entries) == 8
  {
    hide Run, LiveBytes, EvictAll, LoopDone, Next;
    var a, w := Start(max, bump), RacingMisses(info);
    RunThree(a, w);
    var b := Next(a, w[0]);
    assert b == a.(local := a.local.(table := map[1 := info])) by { TableAdded(a, info); }
    FetchInto(b, 1, 0);
    var c := Next(b, w[1]);
    FetchInto(c, 1, 1);
    NothingToEvict(b.local, 8);
    NothingToEvict(c.local, 8);
    forall i | 0 <= i < 3
      ensures Allowed(Run(a, w[..i]), w[i])
    {
      assert i == 0 || i == 1 || i == 2;
    }
    assert LiveBytes(map[]) == 0 by { NoBytes(); }
    var e := CacheEntry(bump.base + bump.taken + 8, 8, 0, 1);
    BytesPut(map[], 1, e);
    assert Next(c, w[2]).local.entries == map[][1 := e];
  }

  lemma TableAdded(a: Agent, info: RegionInfo)
    requires a.local.table == map[]
    ensures Next(a, TableInsert(1, info)) == a.(local := a.local.(table := map[1 := info]))
  {
  }

  lemma NoBytes()
    ensures LiveBytes(map[]) == 0
  {
  }

  /** In every allowed run, table and pool agree and the pool's accounting is sound. */
  lemma {:induction false} AgreementAlways(max: nat, bump: Pool, steps: seq<Step>)
    requires AllAllowed(Start(max, bump), steps)
    ensures Agree(Run(Start(max, bump), steps).local) && Sound(Run(Start(max, bump), steps).local)
  {
    hide Next, Agree, Sound, Allowed;
    var a := Start(max, bump);
    if steps == [] {
      StartAgrees(max, bump);
    } else {
      var k := |steps| - 1;
      assert forall i :: 0 <= i < k ==> steps[..k][..i] == steps[..i];
      AgreementAlways(max, bump, steps[..k]);
      NextAgrees(Run(a, steps[..k]), steps[k]);
      NextSound(Run(a, steps[..k]), steps[k]);
    }
  }

  lemma {:induction false} StartAgrees(max: nat, bump: Pool)
    ensures Agree(Start(max, bump).local) && Sound(Start(max, bump).local)
  {}

  /** Hence in every allowed run a read hits exactly on Shared regions, and the hit is the entry of the table's
      epoch. */
  lemma {:induction false} HitIffShared(max: nat, bump: Pool, steps: seq<Step>, k: nat, now: int)
    requires AllAllowed(Start(max, bump), steps)
    ensures var n := Run(Start(max, bump), steps).local;
            var (_, r) := ReadVa(n, k, now);
            && (r.CacheHit? <==> k in n.table && n.table[k].state.Shared?)
            && (r.CacheHit? ==> n.entries[k].epoch == n.table[k].epoch && r.off == n.entries[k].off)
            && (r.ReadHome? <==> k in n.table && n.table[k].state.Home?)
            && (r.UnknownRegion? <==> k !in n.table)
  {
    hide Run;
    AgreementAlways(max, bump, steps);
    assert AgreeAt(Run(Start(max, bump), steps).local, k);
  }

  /** Filling the cache never demotes a Home region, whatever it has to evict. */
  lemma {:induction false} EvictionSparesHome(
    max: nat, bump: Pool, steps: seq<Step>, k: nat, len: nat, epoch: nat, now: int, vs: seq<nat>, h: nat)
    requires AllAllowed(Start(max, bump), steps)
    requires Allowed(Run(Start(max, bump), steps), Complete(k, len, epoch, now, vs))
    requires var n := Run(Start(max, bump), steps).local; h in n.table && n.table[h].state == Home
    ensures var a := Run(Start(max, bump), steps);
            var t := CompleteFetch(a, k, len, epoch, now, vs).0.local;
            h in t.table && t.table[h] == a.local.table[h]
  {
    hide Run, EvictAll;
    AgreementAlways(max, bump, steps);
    EvictAllTable(Run(Start(max, bump), steps).local, vs, len, h);
  }
}
