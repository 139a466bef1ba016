/** The bump allocator as a value and as the object the cache pool and the placer use. */
module SubAlloc {
  import opened Bytes

  datatype Pool = Pool(base: nat, total: nat, taken: nat)

  /** An uncontended allocation. */
  function Alloc(p: Pool, size: nat): (Pool, Option<nat>) {
    if p.taken + size > p.total then (p, None) else (p.(taken := p.taken + size), Some(p.base + p.taken))
  }

  datatype Range = Range(off: nat, len: nat)

  ghost predicate Disjoint(a: Range, b: Range) {
    a.off + a.len <= b.off || b.off + b.len <= a.off || a.len == 0 || b.len == 0
  }

  class SubAllocator {
    const base: nat
    const total: nat
    var taken: nat

    ghost function View(): Pool
      reads this
    {
      Pool(base, total, taken)
    }

    constructor (base: nat, total: nat)
      ensures View() == Pool(base, total, 0)
    {
      this.base, this.total, taken := base, total, 0;
    }

    method AllocBytes(size: nat) returns (off: Option<nat>)
      modifies this
      ensures (View(), off) == Alloc(old(View()), size)
    {
      var current := taken;
      if current + size > total { return None; }
      taken := current + size;
      off := Some(base + current);
    }
  }

}

/** The allocator's lock-free loop: threads interleave their loads and compare-exchanges in any order. */
module SubAllocThreads {
  import opened Bytes
  import opened SubAlloc

  /** Where a thread is in the allocation loop. `mark` remembers how many allocations had succeeded at the load. */
  datatype Pc = Idle | Wants(size: nat) | Loaded(size: nat, current: nat, mark: nat)

  datatype Shared = Shared(pool: Pool, threads: map<nat, Pc>, granted: seq<Range>, failures: nat)

  datatype Step = Call(t: nat, size: nat) | Load(t: nat) | Cas(t: nat)

  function PcOf(s: Shared, t: nat): Pc { if t in s.threads then s.threads[t] else Idle }

  function At(s: Shared, t: nat, pc: Pc): Shared { s.(threads := s.threads[t := pc]) }

  predicate CasSucceeds(s: Shared, t: nat) { PcOf(s, t).Loaded? && s.pool.taken == PcOf(s, t).current }

  function Next(s: Shared, step: Step): Shared {
    match step
    case Call(t, size) => if PcOf(s, t).Idle? then At(s, t, Wants(size)) else s
    case Load(t) =>
      if !PcOf(s, t).Wants? then s
      else
        var size := PcOf(s, t).size;
        if s.pool.taken + size > s.pool.total then At(s, t, Idle)
        else At(s, t, Loaded(size, s.pool.taken, |s.granted|))
    case Cas(t) =>
      if !PcOf(s, t).Loaded? then s
      else
        var pc := PcOf(s, t);
        if CasSucceeds(s, t) then
          At(s, t, Idle).(pool := s.pool.(taken := pc.current + pc.size),
                          granted := s.granted + [Range(s.pool.base + pc.current, pc.size)])
        else At(s, t, Wants(pc.size)).(failures := s.failures + 1)
  }

  function Run(base: nat, total: nat, steps: seq<Step>): Shared {
    if steps == [] then Shared(Pool(base, total, 0), map[], [], 0)
    else Next(Run(base, total, steps[..|steps| - 1]), steps[|steps| - 1])
  }

  function Sum(g: seq<Range>): nat {
    if g == [] then 0 else Sum(g[..|g| - 1]) + g[|g| - 1].len
  }

  /** Grants are laid end to end from the base, and a loaded value is the sum at its mark. */
  ghost predicate Inv(s: Shared) {
    && s.pool.taken == Sum(s.granted) <= s.pool.total
    && (forall i :: 0 <= i < |s.granted| ==> s.granted[i].off == s.pool.base + Sum(s.granted[..i]))
    && (forall t :: t in s.threads && s.threads[t].Loaded? ==> LoadedOk(s, s.threads[t]))
  }

  ghost predicate LoadedOk(s: Shared, pc: Pc)
    requires pc.Loaded?
  {
    pc.mark <= |s.granted| && pc.current == Sum(s.granted[..pc.mark]) && pc.current + pc.size <= s.pool.total
  }

  lemma {:induction false} NextKeeps(s: Shared, step: Step)
    requires Inv(s)
    ensures Inv(Next(s, step)) && Next(s, step).pool.base == s.pool.base && Next(s, step).pool.total == s.pool.total
    ensures s.granted <= Next(s, step).granted
  {
    hide Sum, LoadedOk;
    var n := Next(s, step);
    if step.Cas? && CasSucceeds(s, step.t) {
      var pc := PcOf(s, step.t);
      var r := Range(s.pool.base + pc.current, pc.size);
      assert LoadedOk(s, pc);
      LoadedFits(s, pc);
      GrantLaid(s.granted, r, s.pool.base);
    }
    forall t | t in n.threads && n.threads[t].Loaded?
      ensures LoadedOk(n, n.threads[t])
    {
      var pc := n.threads[t];
      if t !in s.threads || s.threads[t] != pc { JustLoaded(s, pc); }
      LoadedGrows(s, n, pc);
    }
  }

  lemma LoadedFits(s: Shared, pc: Pc)
    requires pc.Loaded? && LoadedOk(s, pc)
    ensures pc.current + pc.size <= s.pool.total
  {
  }

  /** A value loaded now is the sum of all grants. */
  lemma JustLoaded(s: Shared, pc: Pc)
    requires Inv(s) && pc.Loaded? && pc.current == s.pool.taken && pc.mark == |s.granted|
    requires pc.current + pc.size <= s.pool.total
    ensures LoadedOk(s, pc)
  {
    hide Sum;
    assert s.granted[..|s.granted|] == s.granted;
  }

  lemma LoadedGrows(s: Shared, n: Shared, pc: Pc)
    requires pc.Loaded? && LoadedOk(s, pc) && s.granted <= n.granted && n.pool.total == s.pool.total
    ensures LoadedOk(n, pc)
  {
    assert n.granted[..pc.mark] == s.granted[..pc.mark];
  }

  lemma GrantLaid(g: seq<Range>, r: Range, base: nat)
    requires r.off == base + Sum(g) && forall i :: 0 <= i < |g| ==> g[i].off == base + Sum(g[..i])
    ensures Sum(g + [r]) == Sum(g) + r.len
    ensures forall i :: 0 <= i < |g + [r]| ==> (g + [r])[i].off == base + Sum((g + [r])[..i])
  {
    hide Sum;
    SumSnoc(g, r);
    var h := g + [r];
    forall i | 0 <= i < |h|
      ensures h[i].off == base + Sum(h[..i])
    {
      if i < |g| { assert h[..i] == g[..i]; } else { assert h[..i] == g; }
    }
  }

  lemma {:induction false} SumSnoc(g: seq<Range>, r: Range)
    ensures Sum(g + [r]) == Sum(g) + r.len
  {
    assert (g + [r])[..|g + [r]| - 1] == g;
  }

  lemma {:induction false} RunKeeps(base: nat, total: nat, steps: seq<Step>)
    ensures var s := Run(base, total, steps); Inv(s) && s.pool.base == base && s.pool.total == total
  {
    hide Next, Inv;
    if steps != [] {
      RunKeeps(base, total, steps[..|steps| - 1]);
      NextKeeps(Run(base, total, steps[..|steps| - 1]), steps[|steps| - 1]);
    } else {
      assert Inv(Shared(Pool(base, total, 0), map[], [], 0)) by { InitInv(base, total); }
    }
  }

  lemma {:induction false} InitInv(base: nat, total: nat)
    ensures Inv(Shared(Pool(base, total, 0), map[], [], 0))
  {}

  lemma {:induction false} SumMonotone(g: seq<Range>, i: nat, j: nat)
    requires i <= j <= |g|
    ensures Sum(g[..i]) <= Sum(g[..j])
    decreases j
  {
    if i < j {
      assert g[..j][..j - 1] == g[..j - 1];
      SumMonotone(g, i, j - 1);
    }
  }

  lemma {:induction false} SumStep(g: seq<Range>, i: nat)
    requires i < |g|
    ensures Sum(g[..i + 1]) == Sum(g[..i]) + g[i].len
  {
    assert g[..i + 1][..i] == g[..i];
  }

  /** Under any interleaving every successful allocation lies inside the pool and ends before every later one begins,
      and the sizes sum to `allocated`. */
  lemma {:induction false} AllocationsDisjoint(base: nat, total: nat, steps: seq<Step>, i: nat)
    requires i < |Run(base, total, steps).granted|
    ensures var s := Run(base, total, steps);
            && base <= s.granted[i].off && s.granted[i].off + s.granted[i].len <= base + total
            && (forall j :: i < j < |s.granted| ==> s.granted[i].off + s.granted[i].len <= s.granted[j].off)
            && Sum(s.granted) == s.pool.taken
  {
    hide Run, Sum;
    RunKeeps(base, total, steps);
    var g := Run(base, total, steps).granted;
    SumStep(g, i);
    SumMonotone(g, i + 1, |g|);
    assert g[..|g|] == g;
    forall j | i < j < |g|
      ensures g[i].off + g[i].len <= g[j].off
    {
      SumMonotone(g, i + 1, j);
    }
  }

  /** The same allocations made one after the other. */
  function OneByOne(p: Pool, g: seq<Range>): (Pool, seq<Option<nat>>) {
    if g == [] then (p, [])
    else
      var (q, offs) := OneByOne(p, g[..|g| - 1]);
      var (q', off) := Alloc(q, g[|g| - 1].len);
      (q', offs + [off])
  }

  lemma OneMoreAlloc(p: Pool, g: seq<Range>, r: Range)
    ensures var (q, offs) := OneByOne(p, g);
            OneByOne(p, g + [r]) == (Alloc(q, r.len).0, offs + [Alloc(q, r.len).1])
  {
    hide Alloc;
    assert (g + [r])[..|g|] == g;
  }

  /** Ranges laid end to end from the base. */
  ghost predicate Laid(base: nat, g: seq<Range>) {
    forall i :: 0 <= i < |g| ==> g[i].off == base + Sum(g[..i])
  }

  lemma LaidLast(base: nat, g: seq<Range>, r: Range)
    requires Laid(base, g + [r])
    ensures Laid(base, g) && r.off == base + Sum(g)
  {
    hide Sum;
    var h := g + [r];
    assert h[|g|] == r && h[..|g|] == g;
    forall i | 0 <= i < |g|
      ensures g[i].off == base + Sum(g[..i])
    {
      assert h[i] == g[i] && h[..i] == g[..i];
    }
  }

  ghost predicate AtOffsets(offs: seq<Option<nat>>, g: seq<Range>) {
    |offs| == |g| && forall i :: 0 <= i < |g| ==> offs[i] == Some(g[i].off)
  }

  lemma {:induction false} LaidOneByOne(base: nat, total: nat, g: seq<Range>)
    requires Sum(g) <= total && Laid(base, g)
    ensures var (pool, offs) := OneByOne(Pool(base, total, 0), g);
            pool == Pool(base, total, Sum(g)) && AtOffsets(offs, g)
    decreases |g|
  {
    hide Sum, OneByOne, Laid, AtOffsets;
    if g == [] {
      NoneLaid(base, total);
    } else {
      var init, r := g[..|g| - 1], g[|g| - 1];
      assert g == init + [r];
      SumSnoc(init, r);
      LaidLast(base, init, r);
      LaidOneByOne(base, total, init);
      OneMoreAlloc(Pool(base, total, 0), init, r);
      OffsetsLast(OneByOne(Pool(base, total, 0), init).1, init, r);
    }
  }

  lemma NoneLaid(base: nat, total: nat)
    ensures OneByOne(Pool(base, total, 0), []) == (Pool(base, total, Sum([])), []) && AtOffsets([], [])
  {
  }

  lemma OffsetsLast(offs: seq<Option<nat>>, g: seq<Range>, r: Range)
    requires AtOffsets(offs, g)
    ensures AtOffsets(offs + [Some(r.off)], g + [r])
  {
  }

  /** Every interleaving is equivalent to making the successful allocations one after the other, in the order of their
      compare-exchanges: same offsets, same pool. */
  lemma {:induction false} AllocationsLinearise(base: nat, total: nat, steps: seq<Step>)
    ensures var s := Run(base, total, steps);
            var (pool, offs) := OneByOne(Pool(base, total, 0), s.granted);
            pool == s.pool && AtOffsets(offs, s.granted)
  {
    hide Run, Sum, OneByOne;
    RunKeeps(base, total, steps);
    LaidOneByOne(base, total, Run(base, total, steps).granted);
  }

  /** A thread left alone finishes its call: it gets the next free bytes exactly when they suffice. */
  lemma AloneFinishes(s: Shared, t: nat)
    requires PcOf(s, t).Wants?
    ensures var u, size := Next(Next(s, Load(t)), Cas(t)), PcOf(s, t).size;
            && PcOf(u, t).Idle?
            && u.granted == if s.pool.taken + size <= s.pool.total
                            then s.granted + [Range(s.pool.base + s.pool.taken, size)] else s.granted
  {
  }

  /** A call ends only with its bytes granted, or when they do not fit at a load; a lost compare-exchange goes round
      again with the same request. */
  lemma EndsOnlyAnswered(s: Shared, step: Step, t: nat)
    requires !PcOf(s, t).Idle?
    ensures var u, size := Next(s, step), PcOf(s, t).size;
            if PcOf(u, t).Idle? then
              || (step == Load(t) && s.pool.taken + size > s.pool.total && u.granted == s.granted)
              || (step == Cas(t) && u.granted == s.granted + [Range(s.pool.base + s.pool.taken, size)])
            else PcOf(u, t).size == size
  {
  }

  /** A compare-exchange fails only because another one succeeded since this thread's load. */
  lemma {:induction false} CasFailsOnlyIfOtherWon(base: nat, total: nat, steps: seq<Step>, t: nat)
    requires PcOf(Run(base, total, steps), t).Loaded? && !CasSucceeds(Run(base, total, steps), t)
    ensures |Run(base, total, steps).granted| > PcOf(Run(base, total, steps), t).mark
  {
    hide Run, Sum;
    RunKeeps(base, total, steps);
    var s := Run(base, total, steps);
    assert LoadedOk(s, s.threads[t]);
    assert s.granted[..|s.granted|] == s.granted;
  }
}
