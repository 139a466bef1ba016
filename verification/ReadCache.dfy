/** The response cache: an LRU map with a time to live. Clock readings are parameters. */
module ReadCache {
  import opened Bytes

  datatype Cached<V> = Cached(response: V, insertedAt: int, order: nat)

  datatype Cache<!V> = Cache(entries: map<nat, Cached<V>>, capacity: nat, ttl: nat, nextOrder: nat)

  predicate Expired<V>(e: Cached<V>, now: int, ttl: nat) { now - e.insertedAt > ttl }

  function Live<V>(m: map<nat, Cached<V>>, now: int, ttl: nat): map<nat, Cached<V>> {
    map k | k in m && !Expired(m[k], now, ttl) :: m[k]
  }

  predicate IsLru<V>(m: map<nat, Cached<V>>, k: nat) {
    k in m && forall j :: j in m ==> m[k].order <= m[j].order
  }

  /** Order stamps are unique and below the next one. */
  ghost predicate Stamped<V>(c: Cache<V>) {
    && (forall k :: k in c.entries ==> c.entries[k].order < c.nextOrder)
    && (forall j, k :: j in c.entries && k in c.entries && j != k ==> c.entries[j].order != c.entries[k].order)
  }

  lemma {:induction false} LruExists<V>(m: map<nat, Cached<V>>) returns (k: nat)
    requires m != map[]
    ensures IsLru(m, k)
    decreases |m|
  {
    var first :| first in m;
    k := first;
    var rest := m - {first};
    assert forall i :: i in m && i != first ==> i in rest && rest[i] == m[i];
    if rest != map[] {
      assert rest.Keys == m.Keys - {first};
      var j := LruExists(rest);
      if m[j].order < m[first].order { k := j; }
      forall i | i in m
        ensures m[k].order <= m[i].order
      {
        assert i == first || rest[j].order <= rest[i].order;
      }
    }
  }

  ghost function Lru<V>(m: map<nat, Cached<V>>): nat
    requires m != map[]
  {
    assert exists k :: IsLru(m, k) by { var k := LruExists(m); }
    var k :| IsLru(m, k);
    k
  }

  ghost function Evict<V>(m: map<nat, Cached<V>>, capacity: nat): map<nat, Cached<V>> {
    if |m| >= capacity && m != map[] then m - {Lru(m)} else m
  }

  ghost function Insert<V>(c: Cache<V>, key: nat, response: V, now: int): Cache<V> {
    c.(entries := Evict(Live(c.entries, now, c.ttl), c.capacity)[key := Cached(response, now, c.nextOrder)],
       nextOrder := c.nextOrder + 1)
  }

  function Get<V>(c: Cache<V>, key: nat, now: int): (Cache<V>, Option<V>) {
    if key !in c.entries || Expired(c.entries[key], now, c.ttl) then (c.(entries := c.entries - {key}), None)
    else
      (c.(entries := c.entries[key := c.entries[key].(order := c.nextOrder)], nextOrder := c.nextOrder + 1),
       Some(c.entries[key].response))
  }

  /** Inserting evicts at most one entry: the least recently used live one, and only when the live entries fill the
      capacity; every other live entry keeps its response. */
  lemma {:induction false} InsertEvictsLru<V>(c: Cache<V>, key: nat, response: V, now: int, k: nat)
    requires Stamped(c) && k != key
    ensures Stamped(Insert(c, key, response, now))
    ensures key in Insert(c, key, response, now).entries
            && Insert(c, key, response, now).entries[key].response == response
    ensures var live := Live(c.entries, now, c.ttl);
            var d := Insert(c, key, response, now).entries;
            && (k in d <==> k in live && !(|live| >= c.capacity && IsLru(live, k)))
            && (k in d ==> d[k] == c.entries[k])
  {
    hide Lru, IsLru, Stamped;
    InsertStamped(c, key, response, now);
    var live := Live(c.entries, now, c.ttl);
    if live != map[] {
      LruIs(live);
      if IsLru(live, k) { LruUnique(c, now, k); }
    } else {
      NoLru(live, k);
    }
  }

  lemma LruIs<V>(m: map<nat, Cached<V>>)
    requires m != map[]
    ensures IsLru(m, Lru(m))
  {
  }

  lemma NoLru<V>(m: map<nat, Cached<V>>, k: nat)
    requires m == map[]
    ensures !IsLru(m, k)
  {
  }

  /** The cache holds at most its capacity, or one entry where the capacity is zero. */
  lemma {:induction false} InsertBounded<V>(c: Cache<V>, key: nat, response: V, now: int)
    requires |c.entries| <= c.capacity || |c.entries| <= 1
    ensures var n := |Insert(c, key, response, now).entries|; n <= c.capacity || n <= 1
  {
    var live := Live(c.entries, now, c.ttl);
    assert live.Keys <= c.entries.Keys;
    SubsetSize(live.Keys, c.entries.Keys);
    var kept := Evict(live, c.capacity);
    if live != map[] && |live| >= c.capacity {
      assert kept.Keys == live.Keys - {Lru(live)};
    }
    assert kept[key := Cached(response, now, c.nextOrder)].Keys == kept.Keys + {key};
  }

  lemma {:induction false} SubsetSize(a: set<nat>, b: set<nat>)
    requires a <= b
    ensures |a| <= |b|
  {
    if a != {} {
      var x :| x in a;
      SubsetSize(a - {x}, b - {x});
    }
  }

  class ReadResponseCache<V> {
    var entries: map<nat, Cached<V>>
    const capacity: nat
    const ttl: nat
    var nextOrder: nat

    ghost predicate Valid()
      reads this
    {
      Stamped(View())
    }

    ghost function View(): Cache<V>
      reads this
    {
      Cache(entries, capacity, ttl, nextOrder)
    }

    constructor (capacity: nat, ttl: nat)
      ensures Valid() && View() == Cache(map[], capacity, ttl, 0)
    {
      entries, this.capacity, this.ttl, nextOrder := map[], capacity, ttl, 0;
    }

    method Lookup(key: nat, now: int) returns (r: Option<V>)
      requires Valid()
      modifies this`entries, this`nextOrder
      ensures Valid()
      ensures (View(), r) == Get(old(View()), key, now)
      ensures r.Some? <==> key in old(entries) && now - old(entries)[key].insertedAt <= ttl
      ensures r.Some? ==> r.value == old(entries)[key].response
    {
      var isExpired := if key in entries then now - entries[key].insertedAt > ttl else true;
      if isExpired {
        entries := entries - {key};
        return None;
      }
      entries := entries[key := entries[key].(order := nextOrder)];
      nextOrder := nextOrder + 1;
      r := Some(entries[key].response);
    }

    /** Linear search for the smallest order stamp. */
    method FindLruKey(m: map<nat, Cached<V>>) returns (lru: nat)
      requires m != map[]
      ensures IsLru(m, lru)
    {
      lru :| lru in m;
      var todo := m.Keys - {lru};
      while todo != {}
        invariant todo <= m.Keys && lru in m
        invariant forall j :: j in m && j !in todo ==> m[lru].order <= m[j].order
        decreases |todo|
      {
        var k :| k in todo;
        if m[k].order < m[lru].order { lru := k; }
        todo := todo - {k};
      }
    }

    method Store(key: nat, response: V, now: int)
      requires Valid()
      modifies this`entries, this`nextOrder
      ensures Valid()
      ensures View() == Insert(old(View()), key, response, now)
      ensures key in entries && entries[key].response == response && entries[key].insertedAt == now
    {
      hide Lru, IsLru;
      ghost var c := View();
      entries := map k | k in entries && now - entries[k].insertedAt <= ttl :: entries[k];
      assert entries == Live(c.entries, now, ttl);
      if |entries| >= capacity && entries != map[] {
        var lru := FindLruKey(entries);
        LruUnique(c, now, lru);
        entries := entries - {lru};
      }
      entries := entries[key := Cached(response, now, nextOrder)];
      nextOrder := nextOrder + 1;
      assert View() == Insert(c, key, response, now);
      InsertStamped(c, key, response, now);
    }
  }

  /** A stored response is found while it is at most `ttl` old, and not after. */
  lemma StoredIsFound<V>(c: Cache<V>, key: nat, response: V, at: int, now: int)
    ensures Get(Insert(c, key, response, at), key, now).1 == if now - at <= c.ttl then Some(response) else None
  {
    hide Lru, IsLru;
  }

  /** A hit leaves the response, its age and every other entry as they were, and makes the key the last one to be
      evicted. A miss leaves no entry under the key. */
  lemma HitMovesLast<V>(c: Cache<V>, key: nat, now: int)
    requires Stamped(c)
    ensures var (d, r) := Get(c, key, now);
            && Stamped(d) && d.capacity == c.capacity && d.ttl == c.ttl
            && (r.None? ==> key !in d.entries)
            && (r.Some? ==> key in c.entries && key in d.entries && now - c.entries[key].insertedAt <= c.ttl
                            && d.entries[key].response == r.value == c.entries[key].response
                            && d.entries[key].insertedAt == c.entries[key].insertedAt)
            && (forall k :: k != key ==> (k in d.entries <==> k in c.entries))
            && (forall k :: k != key && k in d.entries ==> d.entries[k] == c.entries[k])
            && (forall k :: r.Some? && k != key && k in d.entries ==> d.entries[k].order < d.entries[key].order)
  {
  }

  /** Order stamps are unique, so any search for the least one finds the same key. */
  lemma LruUnique<V>(c: Cache<V>, now: int, k: nat)
    requires Stamped(c) && Live(c.entries, now, c.ttl) != map[] && IsLru(Live(c.entries, now, c.ttl), k)
    ensures k == Lru(Live(c.entries, now, c.ttl))
  {
    assert IsLru(Live(c.entries, now, c.ttl), Lru(Live(c.entries, now, c.ttl)));
  }

  lemma InsertStamped<V>(c: Cache<V>, key: nat, response: V, now: int)
    requires Stamped(c)
    ensures Stamped(Insert(c, key, response, now))
  {
    hide Lru, IsLru;
  }
}
