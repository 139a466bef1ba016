/** The response cache over any sequence of stores and lookups, with a clock that does not run backwards. */
module ReadCacheRuns {
  import opened Bytes
  import opened ReadCache

  datatype CacheOp<V> = Put(key: nat, at: int, response: V) | Look(key: nat, at: int)

  ghost function Do<V>(c: Cache<V>, op: CacheOp<V>): Cache<V> {
    match op
    case Put(key, at, response) => Insert(c, key, response, at)
    case Look(key, at) => Get(c, key, at).0
  }

  ghost function CacheAfter<V>(c: Cache<V>, ops: seq<CacheOp<V>>): Cache<V> {
    if ops == [] then c else Do(CacheAfter(c, ops[..|ops| - 1]), ops[|ops| - 1])
  }

  ghost predicate Ordered<V>(ops: seq<CacheOp<V>>, now: int) {
    forall i, j :: 0 <= i <= j < |ops| ==> ops[i].at <= ops[j].at <= now
  }

  ghost predicate IsLastPut<V>(ops: seq<CacheOp<V>>, i: nat, key: nat) {
    && i < |ops| && ops[i].Put? && ops[i].key == key
    && forall j :: i < j < |ops| && ops[j].Put? ==> ops[j].key != key
  }

  /** Storing another key pushes this one out: it is the least recently used of as many live entries as fit. */
  ghost predicate Evicts<V>(c: Cache<V>, op: CacheOp<V>, key: nat) {
    && op.Put? && op.key != key
    && var live := Live(c.entries, op.at, c.ttl); |live| >= c.capacity && IsLru(live, key)
  }

  /** Some operation after the i-th evicted the key. */
  ghost predicate EvictedSince<V>(c: Cache<V>, ops: seq<CacheOp<V>>, i: nat, key: nat) {
    i + 1 < |ops| &&
    (EvictedSince(c, ops[..|ops| - 1], i, key) || Evicts(CacheAfter(c, ops[..|ops| - 1]), ops[|ops| - 1], key))
  }

  /** What is known of a key after its last store: an entry is that store's, and it is missing only when evicted or
      outlived. */
  ghost predicate Tracks<V>(c: Cache<V>, put: CacheOp<V>, evicted: bool, last: int)
    requires put.Put?
  {
    if put.key in c.entries then
      !evicted && c.entries[put.key].response == put.response && c.entries[put.key].insertedAt == put.at
    else evicted || last - put.at > c.ttl
  }

  lemma {:induction false} StepTracks<V>(
      c: Cache<V>, put: CacheOp<V>, evicted: bool, last: int, op: CacheOp<V>)
    requires Stamped(c) && put.Put? && Tracks(c, put, evicted, last) && last <= op.at
    requires op.Put? ==> op.key != put.key
    ensures Tracks(Do(c, op), put, evicted || Evicts(c, op, put.key), op.at)
  {
    hide Insert, IsLru, Stamped;
    if op.Put? {
      InsertEvictsLru(c, op.key, op.response, op.at, put.key);
      KeptParameters(c, op);
    }
  }

  lemma KeptParameters<V>(c: Cache<V>, op: CacheOp<V>)
    ensures Do(c, op).ttl == c.ttl && Do(c, op).capacity == c.capacity
  {
  }

  lemma DoStamped<V>(c: Cache<V>, op: CacheOp<V>)
    requires Stamped(c)
    ensures Stamped(Do(c, op))
  {
    if op.Put? {
      InsertStamped(c, op.key, op.response, op.at);
    } else {
      HitMovesLast(c, op.key, op.at);
    }
  }

  lemma {:induction false} RunStamped<V>(c: Cache<V>, ops: seq<CacheOp<V>>)
    requires Stamped(c)
    ensures Stamped(CacheAfter(c, ops)) && CacheAfter(c, ops).ttl == c.ttl && CacheAfter(c, ops).capacity == c.capacity
  {
    hide Do, Stamped;
    if ops != [] {
      var before, op := CacheAfter(c, ops[..|ops| - 1]), ops[|ops| - 1];
      RunStamped(c, ops[..|ops| - 1]);
      DoStamped(before, op);
      KeptParameters(before, op);
    }
  }

  lemma {:induction false} RunTracks<V>(c: Cache<V>, ops: seq<CacheOp<V>>, i: nat, key: nat, now: int)
    requires Stamped(c) && Ordered(ops, now) && IsLastPut(ops, i, key)
    ensures Tracks(CacheAfter(c, ops), ops[i], EvictedSince(c, ops, i, key), ops[|ops| - 1].at)
    decreases |ops|
  {
    hide Do, Evicts, Stamped;
    var k := |ops| - 1;
    var before := CacheAfter(c, ops[..k]);
    RunStamped(c, ops[..k]);
    if i == k {
      PutTracks(before, ops[k]);
    } else {
      RunTracks(c, ops[..k], i, key, now);
      StepTracks(before, ops[i], EvictedSince(c, ops[..k], i, key), ops[k - 1].at, ops[k]);
    }
  }

  lemma PutTracks<V>(c: Cache<V>, put: CacheOp<V>)
    requires put.Put?
    ensures Tracks(Do(c, put), put, false, put.at)
  {
  }

  /** After any operations a lookup returns the response last stored under the key, if that is at most `ttl` old and was
      not evicted since, and nothing otherwise. */
  lemma {:induction false} FoundIffKept<V>(c: Cache<V>, ops: seq<CacheOp<V>>, i: nat, key: nat, now: int)
    requires Stamped(c) && Ordered(ops, now) && IsLastPut(ops, i, key)
    ensures Get(CacheAfter(c, ops), key, now).1 ==
            if now - ops[i].at <= c.ttl && !EvictedSince(c, ops, i, key) then Some(ops[i].response) else None
  {
    hide Stamped, EvictedSince, CacheAfter;
    RunTracks(c, ops, i, key, now);
    RunStamped(c, ops);
  }

  /** A lookup under a key never stored returns nothing. */
  lemma {:induction false} NeverStored<V>(c: Cache<V>, ops: seq<CacheOp<V>>, key: nat, now: int)
    requires key !in c.entries && forall op :: op in ops && op.Put? ==> op.key != key
    ensures key !in CacheAfter(c, ops).entries && Get(CacheAfter(c, ops), key, now).1 == None
    decreases |ops|
  {
    hide Do;
    if ops != [] {
      NeverStored(c, ops[..|ops| - 1], key, now);
      StaysOut(CacheAfter(c, ops[..|ops| - 1]), ops[|ops| - 1], key);
    }
  }

  lemma StaysOut<V>(c: Cache<V>, op: CacheOp<V>, key: nat)
    requires key !in c.entries && (op.Put? ==> op.key != key)
    ensures key !in Do(c, op).entries
  {
    hide Lru, IsLru;
  }

  // ---- how long a response is safe from eviction ----

  /** The other keys named by the operations after the i-th. */
  ghost function OthersSince<V>(ops: seq<CacheOp<V>>, i: nat, key: nat): set<nat> {
    set k | i < k < |ops| && ops[k].key != key :: ops[k].key
  }

  ghost predicate YoungerNamed<V>(c: Cache<V>, key: nat, named: set<nat>) {
    key in c.entries ==>
      forall j :: j in c.entries && c.entries[j].order > c.entries[key].order ==> j in named
  }

  lemma StepNamed<V>(c: Cache<V>, op: CacheOp<V>, key: nat, named: set<nat>)
    requires Stamped(c) && YoungerNamed(c, key, named) && (op.Put? ==> op.key != key)
    ensures YoungerNamed(Do(c, op), key, named + if op.key == key then {} else {op.key})
  {
    hide Lru, IsLru;
  }

  lemma {:induction false} RunNamed<V>(c: Cache<V>, ops: seq<CacheOp<V>>, i: nat, key: nat)
    requires Stamped(c) && IsLastPut(ops, i, key)
    ensures YoungerNamed(CacheAfter(c, ops), key, OthersSince(ops, i, key))
    decreases |ops|
  {
    hide Do, YoungerNamed, Stamped;
    var k := |ops| - 1;
    var before := CacheAfter(c, ops[..k]);
    RunStamped(c, ops[..k]);
    if i == k {
      PutNamed(before, ops[k], OthersSince(ops, i, key));
    } else {
      RunNamed(c, ops[..k], i, key);
      StepNamed(before, ops[k], key, OthersSince(ops[..k], i, key));
      OthersSnoc(ops, i, key);
    }
  }

  lemma PutNamed<V>(c: Cache<V>, put: CacheOp<V>, named: set<nat>)
    requires Stamped(c) && put.Put?
    ensures YoungerNamed(Do(c, put), put.key, named)
  {
    hide Lru, IsLru;
  }

  lemma OthersSnoc<V>(ops: seq<CacheOp<V>>, i: nat, key: nat)
    requires i < |ops| - 1
    ensures OthersSince(ops, i, key) ==
            OthersSince(ops[..|ops| - 1], i, key) + if ops[|ops| - 1].key == key then {} else {ops[|ops| - 1].key}
  {
    var k := |ops| - 1;
    var before := ops[..k];
    forall x | x in OthersSince(ops, i, key)
      ensures x in OthersSince(before, i, key) + if ops[k].key == key then {} else {ops[k].key}
    {
      var j :| i < j < |ops| && ops[j].key != key && ops[j].key == x;
      assert j < k ==> before[j] == ops[j];
    }
    forall x | x in OthersSince(before, i, key)
      ensures x in OthersSince(ops, i, key)
    {
      var j :| i < j < k && before[j].key != key && before[j].key == x;
      assert before[j] == ops[j];
    }
  }

  /** A full cache evicts a key only when all its other live entries were named since. */
  lemma {:induction false} EvictionNeedsOthers<V>(c: Cache<V>, op: CacheOp<V>, key: nat, named: set<nat>)
    requires Stamped(c) && YoungerNamed(c, key, named) && Evicts(c, op, key)
    ensures c.capacity <= |named| + 1
  {
    var live := Live(c.entries, op.at, c.ttl);
    assert live.Keys - {key} <= named;
    SubsetSize(live.Keys - {key}, named);
  }

  /** Whatever happens, a stored response is not evicted while fewer than `capacity - 1` other keys have been named
      since. The last slot is not safe: storing a key again in a full cache evicts before it replaces. */
  lemma {:induction false} RecentIsSafe<V>(c: Cache<V>, ops: seq<CacheOp<V>>, i: nat, key: nat)
    requires Stamped(c) && IsLastPut(ops, i, key) && |OthersSince(ops, i, key)| + 1 < c.capacity
    ensures !EvictedSince(c, ops, i, key)
    decreases |ops|
  {
    hide Do, YoungerNamed, Evicts, Stamped;
    var k := |ops| - 1;
    if i < k {
      var before := CacheAfter(c, ops[..k]);
      OthersSnoc(ops, i, key);
      SubsetSize(OthersSince(ops[..k], i, key), OthersSince(ops, i, key));
      RecentIsSafe(c, ops[..k], i, key);
      RunStamped(c, ops[..k]);
      RunNamed(c, ops[..k], i, key);
      if Evicts(before, ops[k], key) { EvictionNeedsOthers(before, ops[k], key, OthersSince(ops[..k], i, key)); }
    }
  }

  /** In a full cache of two, storing one key again evicts the other although only one other key was named. */
  lemma StoringAgainEvicts<V>(a: V, b: V)
    ensures var c := Cache(map[], 2, 10, 0);
            var ops := [Put(1, 0, a), Put(2, 0, b), Put(2, 0, b)];
            |OthersSince(ops, 0, 1)| + 1 == c.capacity && EvictedSince(c, ops, 0, 1)
  {
    hide Insert, IsLru;
    var c: Cache<V> := Cache(map[], 2, 10, 0);
    var ops := [Put(1, 0, a), Put(2, 0, b), Put(2, 0, b)];
    assert OthersSince(ops, 0, 1) == {2} by { assert ops[1].key == 2; }
    InsertRoomy(c, 1, a, 0);
    var one := Insert(c, 1, a, 0);
    assert one.entries == map[1 := Cached(a, 0, 0)];
    InsertRoomy(one, 2, b, 0);
    var two := Insert(one, 2, b, 0);
    assert two.entries == map[1 := Cached(a, 0, 0), 2 := Cached(b, 0, 1)];
    assert ops[..2][..1] == [Put(1, 0, a)] && ops[..2] == [Put(1, 0, a), Put(2, 0, b)];
    assert CacheAfter(c, ops[..2]) == Do(CacheAfter(c, ops[..2][..1]), ops[1]) == two;
    EvictsOldest(two, a, b);
  }

  lemma InsertRoomy<V>(c: Cache<V>, key: nat, response: V, now: int)
    requires |c.entries| < c.capacity && forall k :: k in c.entries ==> !Expired(c.entries[k], now, c.ttl)
    ensures Insert(c, key, response, now) ==
            c.(entries := c.entries[key := Cached(response, now, c.nextOrder)], nextOrder := c.nextOrder + 1)
  {
    assert Live(c.entries, now, c.ttl) == c.entries;
  }

  lemma EvictsOldest<V>(c: Cache<V>, a: V, b: V)
    requires c == Cache(map[1 := Cached(a, 0, 0), 2 := Cached(b, 0, 1)], 2, 10, 2)
    ensures Evicts(c, Put(2, 0, b), 1)
  {
    assert Live(c.entries, 0, 10) == c.entries;
    assert c.entries.Keys == {1, 2};
  }
}
