/** A reader's local state: region table and cache pool with LRU eviction and byte accounting. Clock readings are
    parameters; entries accessed at the same instant may be evicted in either order, so a run names its victims. */
module CachePool {
  import opened Bytes
  import opened SubAlloc

  datatype RegionState = Invalid | Shared(epoch: nat) | Home

  datatype RegionInfo = RegionInfo(state: RegionState, epoch: nat, len: nat)

  datatype CacheEntry = CacheEntry(off: nat, len: nat, epoch: nat, lastAccess: int)

  /** `used` is the byte counter, `bump` the sub-allocator, `table` the attached region table. */
  datatype Local = Local(
    table: map<nat, RegionInfo>, entries: map<nat, CacheEntry>, used: int, max: nat, bump: Pool)

  function SetState(table: map<nat, RegionInfo>, k: nat, st: RegionState): map<nat, RegionInfo> {
    if k in table then table[k := table[k].(state := st)] else table
  }

  function SetEpoch(table: map<nat, RegionInfo>, k: nat, epoch: nat): map<nat, RegionInfo> {
    if k in table then table[k := table[k].(epoch := epoch)] else table
  }

  predicate IsLru(m: map<nat, CacheEntry>, k: nat) {
    k in m && forall j :: j in m ==> m[k].lastAccess <= m[j].lastAccess
  }

  function Remove(n: Local, k: nat): Local {
    if k in n.entries then n.(entries := n.entries - {k}, used := n.used - n.entries[k].len) else n
  }

  function EvictOne(n: Local, k: nat): Local { Remove(n, k).(table := SetState(n.table, k, Invalid)) }

  function EvictAll(n: Local, vs: seq<nat>): Local {
    if vs == [] then n else EvictOne(EvictAll(n, vs[..|vs| - 1]), vs[|vs| - 1])
  }

  /** Each victim is least recently used when evicted, and is evicted only while the new entry does not fit. */
  ghost predicate Victims(n: Local, vs: seq<nat>, len: nat) {
    forall i :: 0 <= i < |vs| ==>
      var m := EvictAll(n, vs[..i]); IsLru(m.entries, vs[i]) && m.used + len > m.max
  }

  /** The loop stops when the entry fits or nothing is left. */
  ghost predicate LoopDone(n: Local, vs: seq<nat>, len: nat) {
    Victims(n, vs, len) && (EvictAll(n, vs).used + len <= n.max || EvictAll(n, vs).entries == map[])
  }

  function Touch(n: Local, k: nat, now: int): Local {
    if k in n.entries then n.(entries := n.entries[k := n.entries[k].(lastAccess := now)]) else n
  }

  /** Insertion after the evictions: None when the entry still does not fit or the sub-allocator is exhausted. */
  function InsertAfter(n: Local, k: nat, len: nat, epoch: nat, now: int): (Local, Option<nat>) {
    if n.used + len > n.max then (n, None)
    else
      var (bump, off) := Alloc(n.bump, len);
      if off.None? then (n, None)
      else (n.(bump := bump, used := n.used + len,
               entries := n.entries[k := CacheEntry(off.value, len, epoch, now)]), off)
  }

  function Insert(n: Local, k: nat, len: nat, epoch: nat, now: int, vs: seq<nat>): (Local, Option<nat>) {
    InsertAfter(EvictAll(n, vs), k, len, epoch, now)
  }

  // ---- byte accounting ----

  ghost function LiveBytes(m: map<nat, CacheEntry>): nat
    decreases |m|
  {
    if m == map[] then 0
    else
      var k :| k in m;
      assert (m - {k}).Keys == m.Keys - {k};
      m[k].len + LiveBytes(m - {k})
  }

  lemma {:induction false} BytesRemove(m: map<nat, CacheEntry>, k: nat)
    requires k in m
    ensures LiveBytes(m) == m[k].len + LiveBytes(m - {k})
    decreases |m|
  {
    var j :| j in m && LiveBytes(m) == m[j].len + LiveBytes(m - {j});
    assert (m - {j}).Keys == m.Keys - {j};
    if j != k {
      BytesRemove(m - {j}, k);
      assert (m - {k}).Keys == m.Keys - {k};
      BytesRemove(m - {k}, j);
      assert m - {j} - {k} == m - {k} - {j};
    }
  }

  lemma {:induction false} BytesPut(m: map<nat, CacheEntry>, k: nat, e: CacheEntry)
    ensures LiveBytes(m[k := e]) == LiveBytes(m) + e.len - (if k in m then m[k].len else 0)
  {
    BytesRemove(m[k := e], k);
    assert m[k := e] - {k} == m - {k};
    if k in m { BytesRemove(m, k); } else { assert m - {k} == m; }
  }

  ghost predicate Inside(e: CacheEntry, p: Pool) { p.base <= e.off && e.off + e.len <= p.base + p.taken }

  ghost predicate Apart(a: CacheEntry, b: CacheEntry) { Disjoint(Range(a.off, a.len), Range(b.off, b.len)) }

  /** The counter covers the live bytes and stays within the limit; live entries occupy disjoint intervals. */
  ghost predicate Sound(n: Local) {
    && LiveBytes(n.entries) <= n.used <= n.max
    && (forall k :: k in n.entries ==> Inside(n.entries[k], n.bump))
    && (forall j, k :: j in n.entries && k in n.entries && j != k ==> Apart(n.entries[j], n.entries[k]))
  }

  lemma {:induction false} RemoveSound(n: Local, k: nat)
    requires Sound(n)
    ensures Sound(Remove(n, k))
    ensures n.used - LiveBytes(n.entries) == Remove(n, k).used - LiveBytes(Remove(n, k).entries)
  {
    if k in n.entries { BytesRemove(n.entries, k); }
  }

  lemma {:induction false} TouchSound(n: Local, k: nat, now: int)
    requires Sound(n)
    ensures Sound(Touch(n, k, now))
    ensures LiveBytes(Touch(n, k, now).entries) == LiveBytes(n.entries)
  {
    if k in n.entries { BytesPut(n.entries, k, n.entries[k].(lastAccess := now)); }
  }

  lemma {:induction false} EvictAllSound(n: Local, vs: seq<nat>)
    requires Sound(n)
    ensures Sound(EvictAll(n, vs)) && EvictAll(n, vs).max == n.max && EvictAll(n, vs).bump == n.bump
    ensures n.used - LiveBytes(n.entries) == EvictAll(n, vs).used - LiveBytes(EvictAll(n, vs).entries)
  {
    hide LiveBytes;
    if vs != [] {
      var m, k := EvictAll(n, vs[..|vs| - 1]), vs[|vs| - 1];
      EvictAllSound(n, vs[..|vs| - 1]);
      RemoveSound(m, k);
      assert Sound(EvictOne(m, k)) by { SoundIgnoresTable(Remove(m, k), SetState(m.table, k, Invalid)); }
    }
  }

  lemma {:induction false} SoundIgnoresTable(n: Local, table: map<nat, RegionInfo>)
    ensures Sound(n.(table := table)) <==> Sound(n)
  {}

  /** Bytes the counter holds beyond the live entries. */
  ghost function Gap(n: Local): int { n.used - LiveBytes(n.entries) }

  /** Bytes of a live entry that an insertion overwrites without taking them off the counter. */
  function Overwritten(n: Local, k: nat, len: nat, epoch: nat, now: int, vs: seq<nat>): nat {
    var m := EvictAll(n, vs);
    if Insert(n, k, len, epoch, now, vs).1.Some? && k in m.entries then m.entries[k].len else 0
  }

  /** Insertion keeps the accounting, and the counter drifts by exactly what it overwrites. */
  lemma {:induction false} InsertSound(n: Local, k: nat, len: nat, epoch: nat, now: int, vs: seq<nat>)
    requires Sound(n)
    ensures Sound(Insert(n, k, len, epoch, now, vs).0)
    ensures Gap(Insert(n, k, len, epoch, now, vs).0) == Gap(n) + Overwritten(n, k, len, epoch, now, vs)
  {
    hide LiveBytes;
    var m := EvictAll(n, vs);
    EvictAllSound(n, vs);
    EvictAllShrinks(n, vs);
    var (t, off) := Insert(n, k, len, epoch, now, vs);
    if off.Some? {
      BytesPut(m.entries, k, CacheEntry(off.value, len, epoch, now));
    }
  }

  /** From an exact counter, an insertion leaves it exact if and only if it fails, or the key is not live once room has
      been made, or the entry it replaces is empty. */
  lemma {:induction false} InsertExactIff(n: Local, k: nat, len: nat, epoch: nat, now: int, vs: seq<nat>)
    requires Sound(n) && n.used == LiveBytes(n.entries)
    ensures var (t, off) := Insert(n, k, len, epoch, now, vs);
            var m := EvictAll(n, vs);
            t.used == LiveBytes(t.entries) <==> off.None? || k !in m.entries || m.entries[k].len == 0
  {
    hide LiveBytes, EvictAll;
    InsertSound(n, k, len, epoch, now, vs);
  }

  /** Exactly when an insertion succeeds, given that the eviction loop has done its work: the drift and the new entry
      fit the limit, and the allocator, which takes nothing back, still has the bytes. */
  lemma {:induction false} InsertSucceedsIff(n: Local, k: nat, len: nat, epoch: nat, now: int, vs: seq<nat>)
    requires Sound(n) && LoopDone(n, vs, len)
    ensures Insert(n, k, len, epoch, now, vs).1.Some?
            <==> Gap(n) + len <= n.max && n.bump.taken + len <= n.bump.total
  {
    hide LiveBytes, EvictAll;
    EvictAllSound(n, vs);
    if EvictAll(n, vs).entries == map[] { NoLiveBytes(); }
  }

  lemma NoLiveBytes()
    ensures LiveBytes(map[]) == 0
  {
  }

  // ---- eviction ----

  lemma {:induction false} EvictAllShrinks(n: Local, vs: seq<nat>)
    ensures EvictAll(n, vs).entries.Keys <= n.entries.Keys
    ensures forall k :: k in EvictAll(n, vs).entries ==> k in n.entries && EvictAll(n, vs).entries[k] == n.entries[k]
    ensures forall k :: k in n.entries && k !in vs ==> k in EvictAll(n, vs).entries
    ensures forall k :: k in vs ==> k !in EvictAll(n, vs).entries
    ensures EvictAll(n, vs).max == n.max
  {
    if vs != [] { EvictAllShrinks(n, vs[..|vs| - 1]); }
  }

  /** Exactly a least-recently-used prefix goes: no survivor was used before a victim; and the last victim was
      necessary, because without it the new entry would not have fitted. */
  lemma {:induction false} EvictsLruPrefix(n: Local, vs: seq<nat>, len: nat, v: nat, k: nat)
    requires Victims(n, vs, len) && v in vs && k in EvictAll(n, vs).entries
    ensures v in n.entries && k in n.entries && n.entries[v].lastAccess <= n.entries[k].lastAccess
    ensures EvictAll(n, vs[..|vs| - 1]).used + len > n.max
  {
    hide EvictAll;
    var i :| 0 <= i < |vs| && vs[i] == v;
    EvictAllShrinks(n, vs);
    EvictAllShrinks(n, vs[..i]);
    EvictAllShrinks(n, vs[..|vs| - 1]);
    var m := EvictAll(n, vs[..i]);
    assert IsLru(m.entries, vs[i]);
    assert k !in vs;
    assert k !in vs[..i];
  }
}
