/** The reader-side objects: region table, cache pool and fetch agent, each updated in place and proved against the
    operations on values. */
module ReaderNode {
  import opened Bytes
  import opened SubAlloc
  import opened CachePool
  import opened FetchAgent

  class RegionTable {
    var entries: map<nat, RegionInfo>

    constructor ()
      ensures entries == map[]
    {
      entries := map[];
    }

    method Put(k: nat, info: RegionInfo)
      modifies this
      ensures entries == old(entries)[k := info]
    {
      entries := entries[k := info];
    }

    method SetRegionState(k: nat, st: RegionState) returns (found: bool)
      modifies this
      ensures entries == SetState(old(entries), k, st) && (found <==> k in old(entries))
    {
      found := k in entries;
      if found { entries := entries[k := entries[k].(state := st)]; }
    }

    method SetRegionEpoch(k: nat, epoch: nat) returns (found: bool)
      modifies this
      ensures entries == SetEpoch(old(entries), k, epoch) && (found <==> k in old(entries))
    {
      found := k in entries;
      if found { entries := entries[k := entries[k].(epoch := epoch)]; }
    }
  }

  class PoolObject {
    var entries: map<nat, CacheEntry>
    var usedBytes: int
    const maxBytes: nat
    const allocator: SubAllocator
    const table: RegionTable

    ghost function View(): Local
      reads this, allocator, table
    {
      Local(table.entries, entries, usedBytes, maxBytes, allocator.View())
    }

    constructor (allocator: SubAllocator, maxBytes: nat, table: RegionTable)
      ensures View() == Local(table.entries, map[], 0, maxBytes, allocator.View())
      ensures this.allocator == allocator && this.table == table
    {
      entries, usedBytes := map[], 0;
      this.maxBytes, this.allocator, this.table := maxBytes, allocator, table;
    }

    method Lookup(k: nat, now: int) returns (e: Option<CacheEntry>)
      modifies this`entries
      ensures View() == Touch(old(View()), k, now)
      ensures e == if k in entries then Some(entries[k]) else None
    {
      if k !in entries { return None; }
      entries := entries[k := entries[k].(lastAccess := now)];
      e := Some(entries[k]);
    }

    method RemoveEntry(k: nat) returns (e: Option<CacheEntry>)
      modifies this`entries, this`usedBytes
      ensures View() == Remove(old(View()), k)
      ensures e == if k in old(entries) then Some(old(entries)[k]) else None
    {
      if k !in entries { return None; }
      e := Some(entries[k]);
      usedBytes := usedBytes - entries[k].len;
      entries := entries - {k};
    }

    /** Linear search for the entry with the oldest access. */
    method FindLru() returns (lru: nat)
      requires entries != map[]
      ensures IsLru(entries, lru)
    {
      lru :| lru in entries;
      var todo := entries.Keys - {lru};
      while todo != {}
        invariant todo <= entries.Keys && lru in entries
        invariant forall j :: j in entries && j !in todo ==> entries[lru].lastAccess <= entries[j].lastAccess
        decreases |todo|
      {
        var k :| k in todo;
        if entries[k].lastAccess < entries[lru].lastAccess { lru := k; }
        todo := todo - {k};
      }
    }

    method EvictLru() returns (victim: Option<nat>)
      modifies this`entries, this`usedBytes, table
      ensures victim.None? <==> old(entries) == map[]
      ensures victim.None? ==> View() == old(View())
      ensures victim.Some? ==> IsLru(old(entries), victim.value) && View() == EvictOne(old(View()), victim.value)
    {
      if entries == map[] { return None; }
      var k := FindLru();
      var _ := RemoveEntry(k);
      var _ := table.SetRegionState(k, Invalid);
      victim := Some(k);
    }

    /** Evicts until `len` more bytes fit or nothing is left; `vs` are the victims in order. */
    method EvictUntilFits(len: nat) returns (fits: bool, ghost vs: seq<nat>)
      modifies this`entries, this`usedBytes, table
      ensures View() == EvictAll(old(View()), vs) && LoopDone(old(View()), vs, len)
      ensures fits <==> usedBytes + len <= maxBytes
    {
      hide EvictAll, IsLru, Victims;
      vs := [];
      ghost var n := View();
      assert EvictAll(n, vs) == n && Victims(n, vs, len) by { NoVictims(n, len); }
      while usedBytes + len > maxBytes
        invariant View() == EvictAll(n, vs) && Victims(n, vs, len)
        decreases |entries|
      {
        ghost var m := View();
        var victim := EvictLru();
        if victim.None? { return false, vs; }
        VictimsGrow(n, vs, victim.value, len);
        EvictShrinks(m, victim.value);
        vs := vs + [victim.value];
      }
      fits := true;
    }

    method InsertEntry(k: nat, len: nat, epoch: nat, now: int) returns (off: Option<nat>, ghost vs: seq<nat>)
      modifies this`entries, this`usedBytes, table, allocator
      ensures LoopDone(old(View()), vs, len)
      ensures (View(), off) == Insert(old(View()), k, len, epoch, now, vs)
    {
      hide EvictAll, LoopDone;
      var fits;
      fits, vs := EvictUntilFits(len);
      if !fits { return None, vs; }
      off := allocator.AllocBytes(len);
      if off.None? { return; }
      usedBytes := usedBytes + len;
      entries := entries[k := CacheEntry(off.value, len, epoch, now)];
    }
  }

  lemma NoVictims(n: Local, len: nat)
    ensures EvictAll(n, []) == n && Victims(n, [], len)
  {
  }

  lemma EvictShrinks(m: Local, v: nat)
    requires IsLru(m.entries, v)
    ensures |EvictOne(m, v).entries| < |m.entries|
  {
    var rest := EvictOne(m, v).entries;
    assert m.entries.Keys == rest.Keys + {v} && v !in rest;
    assert |m.entries.Keys| == |rest.Keys| + 1;
  }

  lemma {:induction false} VictimsGrow(n: Local, vs: seq<nat>, v: nat, len: nat)
    requires Victims(n, vs, len)
    requires var m := EvictAll(n, vs); IsLru(m.entries, v) && m.used + len > m.max
    ensures Victims(n, vs + [v], len)
    ensures EvictAll(n, vs + [v]) == EvictOne(EvictAll(n, vs), v)
  {
    var ws := vs + [v];
    assert ws[..|vs|] == vs;
    assert EvictAll(n, ws) == EvictOne(EvictAll(n, vs), v);
    hide EvictAll, IsLru;
    forall i | 0 <= i < |ws|
      ensures var m := EvictAll(n, ws[..i]); IsLru(m.entries, ws[i]) && m.used + len > m.max
    {
      assert ws[..i] == vs[..i];
      if i == |vs| { assert vs[..i] == vs; }
    }
  }

  class Fetcher {
    const table: RegionTable
    const pool: PoolObject
    var inFlight: seq<nat>

    ghost predicate Valid()
      reads this
    {
      pool.table == table
    }

    ghost function View(): Agent
      reads this, pool, pool.allocator, pool.table
    {
      Agent(pool.View(), inFlight)
    }

    constructor (pool: PoolObject)
      ensures Valid() && this.pool == pool && View() == Agent(pool.View(), [])
    {
      this.pool, this.table, inFlight := pool, pool.table, [];
    }

    method Invalidate(k: nat) returns (found: bool)
      requires Valid()
      modifies table, pool`entries, pool`usedBytes
      ensures View() == Next(old(View()), Step.Invalidate(k))
      ensures found <==> k in old(table.entries)
      ensures pool.entries == old(pool.entries) - {k}
      ensures pool.usedBytes == old(pool.usedBytes) - if k in old(pool.entries) then old(pool.entries)[k].len else 0
    {
      var _ := pool.RemoveEntry(k);
      found := table.SetRegionState(k, Invalid);
    }

    method ReadRegion(k: nat, now: int) returns (r: ReadVaResult)
      requires Valid()
      modifies table, pool`entries, pool`usedBytes
      ensures (View().local, r) == ReadVa(old(View()).local, k, now) && inFlight == old(inFlight)
    {
      if k !in table.entries { return UnknownRegion; }
      var region := table.entries[k];
      match region.state {
        case Home => r := ReadHome(region);
        case Invalid => r := CacheMiss(region);
        case Shared(epoch) =>
          var e := pool.Lookup(k, now);
          if e.None? {
            r := CacheMiss(region);
          } else if e.value.epoch < epoch {
            var _ := Invalidate(k);
            r := CacheMiss(table.entries[k]);
          } else {
            r := CacheHit(e.value.off, region);
          }
      }
    }

    method FinishFetch(k: nat, len: nat, epoch: nat, now: int) returns (off: Option<nat>, ghost vs: seq<nat>)
      requires Valid()
      modifies this`inFlight, table, pool`entries, pool`usedBytes, pool.allocator
      ensures LoopDone(old(View()).local, vs, len)
      ensures (View(), off) == CompleteFetch(old(View()), k, len, epoch, now, vs)
    {
      off, vs := pool.InsertEntry(k, len, epoch, now);
      if off.None? { return; }
      var _ := table.SetRegionState(k, Shared(epoch));
      var _ := table.SetRegionEpoch(k, epoch);
      RetainOthers(k);
    }

    /** `retain` on the in-flight list. */
    method RetainOthers(k: nat)
      modifies this`inFlight
      ensures inFlight == Without(old(inFlight), k)
    {
      var q, kept := inFlight, [];
      for i := 0 to |q|
        invariant kept == Without(q[..i], k)
      {
        assert q[..i + 1][..i] == q[..i];
        if q[i] != k { kept := kept + [q[i]]; }
      }
      assert q[..|q|] == q;
      inFlight := kept;
    }

    method OnInvalidate(k: nat, newEpoch: nat) returns (invalidated: bool)
      requires Valid()
      modifies table, pool`entries, pool`usedBytes
      ensures (View().local, invalidated) == ReceiveInvalidate(old(View()).local, k, newEpoch)
      ensures inFlight == old(inFlight)
      ensures invalidated <==>
                k in old(table.entries) && old(table.entries)[k].state.Shared?
                && old(table.entries)[k].state.epoch <= newEpoch
      ensures pool.entries == if invalidated then old(pool.entries) - {k} else old(pool.entries)
    {
      if k !in table.entries { return false; }
      var region := table.entries[k];
      match region.state {
        case Home => invalidated := false;
        case Invalid =>
          if newEpoch > region.epoch { var _ := table.SetRegionEpoch(k, newEpoch); }
          invalidated := false;
        case Shared(current) =>
          if newEpoch >= current {
            var _ := Invalidate(k);
            var _ := table.SetRegionEpoch(k, newEpoch);
            invalidated := true;
          } else {
            invalidated := false;
          }
      }
    }
  }
}
