/** What invalidation takes away, over single steps and whole runs of a reader. */
module Invalidation {
  import opened Bytes
  import opened SubAlloc
  import opened CachePool
  import opened FetchAgent

  /** Between `n` and `t` the entry of k went, with its bytes off the counter; every other entry stayed. */
  ghost predicate Dropped(n: Local, t: Local, k: nat) {
    && k !in t.entries
    && (forall j :: j != k ==> (j in t.entries <==> j in n.entries))
    && (forall j :: j in t.entries ==> j in n.entries && t.entries[j] == n.entries[j])
    && t.used == n.used - (if k in n.entries then n.entries[k].len else 0)
    && t.max == n.max && t.bump == n.bump
  }

  /** Between `n` and `t` no table row but that of k changed. */
  ghost predicate SameRows(n: Local, t: Local, k: nat) {
    t.table.Keys == n.table.Keys && forall j :: j in n.table && j != k ==> t.table[j] == n.table[j]
  }

  lemma InvalidateDrops(n: Local, k: nat)
    ensures var t := InvalidateLocal(n, k);
            && Dropped(n, t, k) && SameRows(n, t, k)
            && (k in n.table ==> t.table[k] == n.table[k].(state := Invalid))
  {
  }

  /** An invalidation is obeyed exactly when the region is Shared under no later epoch; then the entry goes and the row
      is Invalid under the new epoch. Otherwise the pool is untouched, and an Invalid row keeps the larger epoch. */
  lemma ReceiveDropsIff(n: Local, k: nat, newEpoch: nat)
    ensures var (t, obeyed) := ReceiveInvalidate(n, k, newEpoch);
            && (obeyed <==> k in n.table && n.table[k].state.Shared? && n.table[k].state.epoch <= newEpoch)
            && SameRows(n, t, k)
            && (obeyed ==> Dropped(n, t, k) && t.table[k] == n.table[k].(state := Invalid, epoch := newEpoch))
            && (!obeyed ==> t.entries == n.entries && t.used == n.used)
            && (!obeyed && k in n.table ==>
                  t.table[k] == if n.table[k].state == Invalid && newEpoch > n.table[k].epoch
                                then n.table[k].(epoch := newEpoch) else n.table[k])
  {
  }

  /** A read in any state, also where table and pool disagree: a hit exactly on a Shared row with an entry not older
      than the row; an older entry is dropped and the row made Invalid; nothing else removes anything. */
  lemma ReadCases(n: Local, k: nat, now: int)
    ensures var (t, r) := ReadVa(n, k, now);
            var shared := k in n.table && n.table[k].state.Shared?;
            var stale := shared && k in n.entries && n.entries[k].epoch < n.table[k].state.epoch;
            && (r.CacheHit? <==> shared && k in n.entries && !stale)
            && (r.CacheHit? ==> r.off == n.entries[k].off && r.info == n.table[k])
            && SameRows(n, t, k)
            && (stale ==> Dropped(n, t, k) && t.table[k] == n.table[k].(state := Invalid) && r == CacheMiss(t.table[k]))
            && (!stale ==> t.table == n.table && t.entries.Keys == n.entries.Keys && t.used == n.used)
            && (!stale && r.CacheMiss? ==> r.info == n.table[k] && t == n)
  {
    var (t, _) := ReadVa(n, k, now);
    assert k in n.entries ==> t.entries.Keys == n.entries.Keys || k !in t.entries;
  }

  // ---- an Invalid region is not cached, unless a table insert made it so ----

  ghost predicate InvalidButCached(n: Local, k: nat) {
    k in n.table && n.table[k].state == Invalid && k in n.entries
  }

  /** The step overwrites the row of a cached region with an Invalid one. */
  ghost predicate Shadows(n: Local, step: Step, k: nat) {
    step.TableInsert? && step.k == k && step.info.state == Invalid && k in n.entries
  }

  lemma {:induction false} EvictAllRow(n: Local, vs: seq<nat>, k: nat)
    requires k !in vs
    ensures k in EvictAll(n, vs).table <==> k in n.table
    ensures k in n.table ==> EvictAll(n, vs).table[k] == n.table[k]
  {
    if vs != [] { EvictAllRow(n, vs[..|vs| - 1], k); }
  }

  lemma {:induction false} CompleteShadows(a: Agent, step: Step, k: nat)
    requires step.Complete?
    ensures InvalidButCached(Next(a, step).local, k) ==> InvalidButCached(a.local, k)
  {
    hide EvictAll;
    var n, t := a.local, Next(a, step).local;
    EvictAllShrinks(n, step.vs);
    if InvalidButCached(t, k) && k !in step.vs { EvictAllRow(n, step.vs, k); }
  }

  lemma {:induction false} NextShadows(a: Agent, step: Step, k: nat)
    ensures InvalidButCached(Next(a, step).local, k) ==> InvalidButCached(a.local, k) || Shadows(a.local, step, k)
  {
    if step.Complete? { CompleteShadows(a, step, k); }
  }

  /** In every run a region that is Invalid and still has an entry was cached when a table insert made it Invalid. */
  lemma {:induction false} InvalidCachedIsShadowed(max: nat, bump: Pool, steps: seq<Step>, k: nat) returns (i: nat)
    requires InvalidButCached(Run(Start(max, bump), steps).local, k)
    ensures i < |steps| && Shadows(Run(Start(max, bump), steps[..i]).local, steps[i], k)
    decreases |steps|
  {
    hide Next, InvalidButCached, Shadows;
    if steps == [] {
      NotAtStart(max, bump, k);
    }
    var n := |steps| - 1;
    NextShadows(Run(Start(max, bump), steps[..n]), steps[n], k);
    if Shadows(Run(Start(max, bump), steps[..n]).local, steps[n], k) {
      i := n;
    } else {
      i := InvalidCachedIsShadowed(max, bump, steps[..n], k);
      assert steps[..n][..i] == steps[..i];
    }
  }

  lemma NotAtStart(max: nat, bump: Pool, k: nat)
    ensures !InvalidButCached(Start(max, bump).local, k)
  {
  }

  // ---- fetching again after an invalidation ----

  /** The step removes the entry of k. */
  ghost predicate Drops(n: Local, step: Step, k: nat) {
    step == Invalidate(k) || (step.Receive? && step.k == k && ReceiveInvalidate(n, k, step.newEpoch).1)
  }

  lemma {:induction false} CompleteGap(a: Agent, step: Step)
    requires Sound(a.local) && step.Complete?
    ensures Sound(Next(a, step).local)
    ensures step.k !in a.local.entries ==> Gap(Next(a, step).local) == Gap(a.local)
  {
    hide EvictAll, LiveBytes, Sound;
    var n, t := a.local, Next(a, step).local;
    InsertSound(n, step.k, step.len, step.epoch, step.now, step.vs);
    SoundIgnoresTable(Insert(n, step.k, step.len, step.epoch, step.now, step.vs).0, t.table);
    EvictAllShrinks(n, step.vs);
  }

  lemma {:induction false} DropGap(a: Agent, step: Step, k: nat)
    requires Sound(a.local) && Drops(a.local, step, k)
    ensures var t := Next(a, step).local; Sound(t) && Gap(t) == Gap(a.local) && k !in t.entries
  {
    hide LiveBytes, Sound;
    RemoveSound(a.local, k);
    SoundIgnoresTable(Remove(a.local, k), Next(a, step).local.table);
  }

  /** Fetching a region, invalidating it and fetching it again leaves the byte counter exact. */
  lemma {:induction false} RefetchStaysExact(a: Agent, fetch: Step, drop: Step, refetch: Step)
    requires Sound(a.local) && Gap(a.local) == 0
    requires fetch.Complete? && fetch.k !in a.local.entries && refetch.Complete? && refetch.k == fetch.k
    requires Drops(Next(a, fetch).local, drop, fetch.k)
    ensures var n := Next(Next(Next(a, fetch), drop), refetch).local; n.used == LiveBytes(n.entries)
  {
    hide Next, Sound, LiveBytes, Drops;
    CompleteGap(a, fetch);
    DropGap(Next(a, fetch), drop, fetch.k);
    CompleteGap(Next(Next(a, fetch), drop), refetch);
  }

  // ---- the in-flight list ----

  lemma {:induction false} WithoutDrops(q: seq<nat>, k: nat, x: nat)
    ensures x in Without(q, k) <==> x in q && x != k
    ensures multiset(Without(q, k))[x] <= multiset(q)[x]
  {
    if q != [] {
      WithoutDrops(q[..|q| - 1], k, x);
      assert q == q[..|q| - 1] + [q[|q| - 1]];
    }
  }

  /** A region enters the in-flight list when marked, leaves it when a fetch of it completes, and nothing else moves. */
  lemma {:induction false} InFlightStep(a: Agent, step: Step, x: nat)
    ensures var t := Next(a, step);
            x in t.inFlight <==>
              if step == MarkInFlight(x) then true
              else if step.Complete? && step.k == x then
                x in a.inFlight && CompleteFetch(a, x, step.len, step.epoch, step.now, step.vs).1.None?
              else x in a.inFlight
    ensures multiset(a.inFlight)[x] <= 1 ==> multiset(Next(a, step).inFlight)[x] <= 1
  {
    if step.Complete? { WithoutDrops(a.inFlight, step.k, x); }
  }

  /** In every run no region is in flight twice. */
  lemma {:induction false} InFlightOnce(max: nat, bump: Pool, steps: seq<Step>, x: nat)
    ensures multiset(Run(Start(max, bump), steps).inFlight)[x] <= 1
  {
    hide Next;
    if steps != [] {
      InFlightOnce(max, bump, steps[..|steps| - 1], x);
      InFlightStep(Run(Start(max, bump), steps[..|steps| - 1]), steps[|steps| - 1], x);
    }
  }

  // ---- recency ----

  /** An entry just read is not the next victim while another was last used before. */
  lemma ReadIsSpared(n: Local, k: nat, now: int, j: nat)
    requires j in n.entries && j != k && n.entries[j].lastAccess < now && ReadVa(n, k, now).1.CacheHit?
    ensures !IsLru(ReadVa(n, k, now).0.entries, k)
  {
    assert ReadVa(n, k, now).0.entries[j] == n.entries[j];
  }

  /** A stored entry is the one asked for, at the offset returned, and is not the next victim while another survives
      that was last used before. */
  lemma {:induction false} StoredIsSpared(
      n: Local, k: nat, len: nat, epoch: nat, now: int, vs: seq<nat>, j: nat)
    requires Insert(n, k, len, epoch, now, vs).1.Some?
    ensures var (t, off) := Insert(n, k, len, epoch, now, vs);
            && k in t.entries && t.entries[k] == CacheEntry(off.value, len, epoch, now)
            && (j in n.entries && j !in vs && j != k ==> j in t.entries && t.entries[j] == n.entries[j])
            && (j in n.entries && j !in vs && j != k && n.entries[j].lastAccess < now ==> !IsLru(t.entries, k))
  {
    hide EvictAll;
    EvictAllShrinks(n, vs);
  }
}
