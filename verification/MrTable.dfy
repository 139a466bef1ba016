/** The local memory-region table: aligned bump allocation of device offsets, lookup by address, and the synchronous
    verbs over the devices' bytes. */
module MrTable {
  import opened Bytes
  import opened UbAddress

  // ---- the mask that aligns ----

  /** x with the bits of m cleared. */
  function AndNot(x: nat, m: nat): nat {
    if x == 0 then 0 else 2 * AndNot(x / 2, m / 2) + if m % 2 == 1 then 0 else x % 2
  }

  function Halved(x: nat, k: nat): nat { if k == 0 then x else Halved(x / 2, k - 1) }

  lemma {:induction false} AndNotZero(x: nat)
    ensures AndNot(x, 0) == x
  {
    if x > 0 { AndNotZero(x / 2); }
  }

  lemma Double(q: int, p: int)
    ensures q * (2 * p) == 2 * (q * p)
  {
  }

  /** Clearing the low k bits rounds down to a multiple of 2^k. */
  lemma {:induction false} MaskRoundsDown(x: nat, k: nat)
    ensures AndNot(x, Pow2(k) - 1) == Halved(x, k) * Pow2(k) <= x < Halved(x, k) * Pow2(k) + Pow2(k)
  {
    if k == 0 {
      AndNotZero(x);
    } else {
      MaskRoundsDown(x / 2, k - 1);
      Double(Halved(x / 2, k - 1), Pow2(k - 1));
      assert (Pow2(k) - 1) / 2 == Pow2(k - 1) - 1 && (Pow2(k) - 1) % 2 == 1;
      assert AndNot(x, Pow2(k) - 1) == 2 * AndNot(x / 2, Pow2(k - 1) - 1);
    }
  }

  function AlignUp(next: nat, k: nat): nat { AndNot(next + Pow2(k) - 1, Pow2(k) - 1) }

  /** The aligned offset is the least multiple of the alignment at or above the cursor, for every power of two. */
  lemma {:induction false} AlignUpIsLeastMultiple(next: nat, k: nat)
    ensures AlignUp(next, k) % Pow2(k) == 0 && next <= AlignUp(next, k)
    ensures forall m: nat :: next <= m * Pow2(k) ==> AlignUp(next, k) <= m * Pow2(k)
  {
    var a, q := Pow2(k), Halved(next + Pow2(k) - 1, k);
    MaskRoundsDown(next + a - 1, k);
    hide Pow2, AndNot, Halved;
    Split(q, 0, a);
    forall m: nat | next <= m * Pow2(k)
      ensures AlignUp(next, k) <= m * Pow2(k)
    {
      LeastMultiple(q, m, a, next);
    }
  }

  lemma LeastMultiple(q: nat, m: nat, a: nat, next: nat)
    requires q * a <= next + a - 1 && next <= m * a
    ensures q * a <= m * a
  {
    if m < q {
      MulAtLeast(q - m, a);
      MulSub(q, m, a);
    }
  }

  lemma MulSub(q: int, m: int, a: int)
    ensures (q - m) * a == q * a - m * a
  {
  }

  // ---- the table ----

  datatype Perms = Perms(read: bool, write: bool, atomic: bool)

  datatype Mr = Mr(dev: nat, base: nat, len: nat, perms: Perms, addr: nat)

  /** `cursor` is the bump allocator of each device; handles count up from 1. */
  datatype Table = Table(entries: map<nat, Mr>, nextHandle: nat, cursor: map<nat, nat>, pod: nat, node: nat)

  function CursorOf(t: Table, dev: nat): nat { if dev in t.cursor then t.cursor[dev] else 0 }

  function PlaceFor(t: Table, dev: nat): nat { AlignUp(CursorOf(t, dev), 3) }

  function Register(t: Table, dev: nat, len: nat, perms: Perms): (Table, Option<nat>) {
    if len == 0 then (t, None)
    else
      var off := PlaceFor(t, dev);
      var mr := Mr(dev, off, len, perms, New(t.pod, t.node, dev, off, 0));
      (t.(entries := t.entries[t.nextHandle := mr], nextHandle := t.nextHandle + 1,
          cursor := t.cursor[dev := off + len]),
       Some(t.nextHandle))
  }

  function Deregister(t: Table, h: nat): Table { t.(entries := t.entries - {h}) }

  function Empty(pod: nat, node: nat): Table { Table(map[], 1, map[0 := 0], pod, node) }

  datatype Step = Add(dev: nat, len: nat, perms: Perms) | Remove(h: nat)

  /** Offsets are 64 bits wide; a registration that would run past them is not taken. */
  predicate Fits64(t: Table, dev: nat, len: nat) { dev < U16 && PlaceFor(t, dev) + len < U64 }

  function Apply(t: Table, step: Step): Table {
    match step
    case Add(dev, len, perms) => if Fits64(t, dev, len) then Register(t, dev, len, perms).0 else t
    case Remove(h) => Deregister(t, h)
  }

  function Run(t: Table, steps: seq<Step>): Table {
    if steps == [] then t else Apply(Run(t, steps[..|steps| - 1]), steps[|steps| - 1])
  }

  // ---- disjoint ranges ----

  ghost predicate Apart(a: Mr, b: Mr) { a.dev != b.dev || a.base + a.len <= b.base || b.base + b.len <= a.base }

  ghost predicate WellPlaced(t: Table, mr: Mr) {
    && mr.base % 8 == 0 && mr.len > 0 && mr.dev < U16 && mr.base + mr.len <= CursorOf(t, mr.dev)
    && CursorOf(t, mr.dev) < U64 && mr.addr == New(t.pod, t.node, mr.dev, mr.base, 0)
  }

  ghost predicate Inv(t: Table) {
    && t.pod < U16 && t.node < U16
    && (forall h :: h in t.entries ==> h < t.nextHandle && WellPlaced(t, t.entries[h]))
    && (forall g, h :: g in t.entries && h in t.entries && g != h ==> Apart(t.entries[g], t.entries[h]))
  }

  lemma AlignedBy8(next: nat)
    ensures AlignUp(next, 3) % 8 == 0 && next <= AlignUp(next, 3)
  {
    AlignUpIsLeastMultiple(next, 3);
    assert Pow2(3) == 8 by { assert Pow2(1) == 2 && Pow2(2) == 4; }
  }

  lemma {:induction false} AddKeeps(t: Table, dev: nat, len: nat, perms: Perms)
    requires Inv(t) && Fits64(t, dev, len)
    ensures Inv(Register(t, dev, len, perms).0)
  {
    AlignedBy8(CursorOf(t, dev));
    hide AlignUp, New;
    var u := Register(t, dev, len, perms).0;
    if len > 0 {
      var n := t.nextHandle;
      forall h | h in u.entries
        ensures h < u.nextHandle && WellPlaced(u, u.entries[h])
        ensures h != n ==> Apart(u.entries[h], u.entries[n]) && Apart(u.entries[n], u.entries[h])
      {
        if h != n { assert WellPlaced(t, t.entries[h]); }
      }
    }
  }

  lemma {:induction false} InvAlways(pod: nat, node: nat, steps: seq<Step>)
    requires pod < U16 && node < U16
    ensures Inv(Run(Empty(pod, node), steps))
  {
    hide Register, Inv;
    if steps == [] {
      assert Inv(Empty(pod, node)) by { EmptyInv(pod, node); }
    } else {
      var t, step := Run(Empty(pod, node), steps[..|steps| - 1]), steps[|steps| - 1];
      InvAlways(pod, node, steps[..|steps| - 1]);
      match step {
        case Add(dev, len, perms) => if Fits64(t, dev, len) { AddKeeps(t, dev, len, perms); }
        case Remove(h) => RemoveKeeps(t, h);
      }
    }
  }

  lemma EmptyInv(pod: nat, node: nat)
    requires pod < U16 && node < U16
    ensures Inv(Empty(pod, node))
  {
  }

  lemma RemoveKeeps(t: Table, h: nat)
    requires Inv(t)
    ensures Inv(Deregister(t, h))
  {
    forall g | g in Deregister(t, h).entries
      ensures WellPlaced(Deregister(t, h), t.entries[g])
    {
      assert WellPlaced(t, t.entries[g]);
    }
  }

  /** In every run of registrations and deregistrations, the live regions of a device have 8-aligned, pairwise disjoint
      ranges. */
  lemma {:induction false} RegionsDisjoint(pod: nat, node: nat, steps: seq<Step>, g: nat, h: nat)
    requires pod < U16 && node < U16
    requires var e := Run(Empty(pod, node), steps).entries; g in e && h in e && g != h
    ensures var e := Run(Empty(pod, node), steps).entries;
            && e[g].base % 8 == 0 && e[h].base % 8 == 0
            && (e[g].dev == e[h].dev ==> e[g].base + e[g].len <= e[h].base || e[h].base + e[h].len <= e[g].base)
  {
    hide Run;
    InvAlways(pod, node, steps);
    var t := Run(Empty(pod, node), steps);
    assert WellPlaced(t, t.entries[g]) && WellPlaced(t, t.entries[h]) && Apart(t.entries[g], t.entries[h]);
  }

  // ---- lookup by address ----

  /** The test of the lookup loop. */
  predicate Hits(mr: Mr, a: nat) {
    && NodeOf(mr.addr) == NodeOf(a) && DeviceOf(mr.addr) == DeviceOf(a)
    && OffsetOf(mr.addr) <= OffsetOf(a) < OffsetOf(mr.addr) + mr.len
  }

  lemma HitMeans(t: Table, h: nat, a: nat)
    requires Inv(t) && h in t.entries
    ensures var mr := t.entries[h];
            Hits(mr, a) <==> t.node == NodeOf(a) && mr.dev == DeviceOf(a) && mr.base <= OffsetOf(a) < mr.base + mr.len
  {
    var mr := t.entries[h];
    assert WellPlaced(t, mr);
    FieldsReadBack(t.pod, t.node, mr.dev, mr.base, 0);
    hide New, NodeOf, DeviceOf, OffsetOf;
  }

  /** A new region answers exactly the addresses of its bytes, on its node and device, with the length and permissions
      it was registered with. */
  lemma {:induction false} RegisteredAnswers(t: Table, dev: nat, len: nat, perms: Perms, a: nat)
    requires Inv(t) && Fits64(t, dev, len) && len > 0
    ensures var (u, h) := Register(t, dev, len, perms);
            && h.Some? && h.value !in t.entries && h.value in u.entries
            && u.entries[h.value].len == len && u.entries[h.value].perms == perms
            && (Hits(u.entries[h.value], a) <==>
                  && NodeOf(a) == t.node && DeviceOf(a) == dev
                  && u.entries[h.value].base <= OffsetOf(a) < u.entries[h.value].base + len)
            && forall g :: g in t.entries ==> g in u.entries && u.entries[g] == t.entries[g]
  {
    var (u, h) := Register(t, dev, len, perms);
    AddKeeps(t, dev, len, perms);
    HitMeans(u, h.value, a);
    hide PlaceFor, New, Hits, NodeOf, DeviceOf, OffsetOf;
  }

  /** A deregistered region answers nothing; the others stay, and no later registration takes over its handle. */
  lemma DeregisteredIsGone(t: Table, h: nat, dev: nat, len: nat, perms: Perms)
    requires Inv(t) && h in t.entries
    ensures var u := Deregister(t, h);
            && h !in u.entries && (forall g :: g in t.entries && g != h ==> g in u.entries)
            && (forall g :: g in u.entries ==> g in t.entries && u.entries[g] == t.entries[g])
            && h !in Register(u, dev, len, perms).0.entries
  {
    hide PlaceFor, New;
  }

  /** At most one live region answers an address, so the order in which the table is searched does not matter. */
  lemma {:induction false} HitIsUnique(t: Table, g: nat, h: nat, a: nat)
    requires Inv(t) && g in t.entries && h in t.entries
    ensures Hits(t.entries[g], a) && Hits(t.entries[h], a) ==> g == h
  {
    hide Hits, New, NodeOf, DeviceOf, OffsetOf;
    HitMeans(t, g, a);
    HitMeans(t, h, a);
    assert g == h || Apart(t.entries[g], t.entries[h]);
  }

  // ---- bytes ----

  datatype Status = Ok | AddrInvalid | PermDenied

  function Store(m: seq<byte>, off: nat, buf: seq<byte>): (r: seq<byte>)
    requires off + |buf| <= |m|
    ensures |r| == |m|
    ensures forall i :: 0 <= i < |m| ==> r[i] == if off <= i < off + |buf| then buf[i - off] else m[i]
  {
    m[..off] + buf + m[off + |buf|..]
  }

  predicate In(mr: Mr, i: nat) { mr.base <= i < mr.base + mr.len }

  /** Every byte of another region of the device is as before, as far as the device reaches. */
  ghost predicate OthersKeep(t: Table, h: nat, m: seq<byte>, m': seq<byte>)
    requires h in t.entries && |m'| == |m|
  {
    forall g, i: nat :: g in t.entries && g != h && t.entries[g].dev == t.entries[h].dev
                        && In(t.entries[g], i) && i < |m| ==>
      m'[i] == m[i]
  }

  /** The write ends before the next live region of the device begins. */
  ghost predicate EndsBeforeNext(t: Table, h: nat, off: nat, n: nat)
    requires h in t.entries
  {
    forall g :: g in t.entries && t.entries[g].dev == t.entries[h].dev && t.entries[g].base > t.entries[h].base
      ==> off + n <= t.entries[g].base
  }

  lemma {:induction false} EndsBeforeKeeps(t: Table, h: nat, off: nat, m: seq<byte>, buf: seq<byte>)
    requires Inv(t) && h in t.entries && t.entries[h].base <= off < t.entries[h].base + t.entries[h].len
    requires off + |buf| <= |m| && EndsBeforeNext(t, h, off, |buf|)
    ensures OthersKeep(t, h, m, Store(m, off, buf))
  {
    var mh := t.entries[h];
    forall g, i: nat | g in t.entries && g != h && t.entries[g].dev == mh.dev && In(t.entries[g], i) && i < |m|
      ensures Store(m, off, buf)[i] == m[i]
    {
      var mg := t.entries[g];
      assert Apart(mg, mh) && WellPlaced(t, mg) && WellPlaced(t, mh);
    }
  }

  /** A write that fits its region leaves every other region of the device unchanged. */
  lemma {:induction false} FittingWriteIsLocal(t: Table, h: nat, off: nat, m: seq<byte>, buf: seq<byte>)
    requires Inv(t) && h in t.entries && t.entries[h].base <= off < t.entries[h].base + t.entries[h].len
    requires off + |buf| <= |m| && off + |buf| <= t.entries[h].base + t.entries[h].len
    ensures OthersKeep(t, h, m, Store(m, off, buf))
  {
    forall g | g in t.entries && t.entries[g].dev == t.entries[h].dev && t.entries[g].base > t.entries[h].base
      ensures off + |buf| <= t.entries[g].base
    {
      assert Apart(t.entries[g], t.entries[h]) && WellPlaced(t, t.entries[g]) && WellPlaced(t, t.entries[h]);
    }
    EndsBeforeKeeps(t, h, off, m, buf);
  }

  /** The verbs do not check the length against the region, only against the device. A write of n bytes at `off` inside
      region h leaves the other regions alone, whatever the bytes, if and only if it ends before the next live
      region. */
  lemma {:induction false} WriteSparesOthersIff(t: Table, h: nat, off: nat, n: nat, size: nat)
    requires Inv(t) && h in t.entries && t.entries[h].base <= off < t.entries[h].base + t.entries[h].len
    requires off + n <= size
    ensures (forall m, buf :: |m| == size && |buf| == n ==> OthersKeep(t, h, m, Store(m, off, buf)))
            <==> EndsBeforeNext(t, h, off, n)
  {
    if EndsBeforeNext(t, h, off, n) {
      forall m: seq<byte>, buf: seq<byte> | |m| == size && |buf| == n
        ensures OthersKeep(t, h, m, Store(m, off, buf))
      {
        EndsBeforeKeeps(t, h, off, m, buf);
      }
    } else {
      var g :| g in t.entries && t.entries[g].dev == t.entries[h].dev && t.entries[g].base > t.entries[h].base
               && off + n > t.entries[g].base;
      Overruns(t, h, g, off, n, size);
    }
  }

  lemma {:induction false} Overruns(t: Table, h: nat, g: nat, off: nat, n: nat, size: nat)
    requires Inv(t) && h in t.entries && t.entries[h].base <= off < t.entries[h].base + t.entries[h].len
    requires g in t.entries && t.entries[g].dev == t.entries[h].dev && t.entries[g].base > t.entries[h].base
    requires t.entries[g].base < off + n <= size
    ensures exists m, buf :: |m| == size && |buf| == n && !OthersKeep(t, h, m, Store(m, off, buf))
  {
    var mg := t.entries[g];
    assert Apart(mg, t.entries[h]) && WellPlaced(t, mg);
    var m: seq<byte>, buf: seq<byte> := seq(size, _ => 0), seq(n, _ => 1);
    var m' := Store(m, off, buf);
    assert In(mg, mg.base) && m[mg.base] == 0 && m'[mg.base] == 1;
    assert !OthersKeep(t, h, m, m');
  }

  /** Such an overrun exists: two 8-byte regions registered in a row are neighbours, and a 16-byte write to the first
      that the device has room for reaches the second. */
  lemma {:induction false} NeighbourOverrun(perms: Perms)
    ensures var t := Run(Empty(0, 0), [Add(0, 8, perms), Add(0, 8, perms)]);
            && t.entries.Keys == {1, 2} && t.entries[1].base == 0 && t.entries[1].len == 8
            && !EndsBeforeNext(t, 1, 0, 16)
  {
    hide Run, Apply;
    var a, t := Add(0, 8, perms), Empty(0, 0);
    RunTwo(t, a, a);
    AlignAt(0);
    AddedAt(t, 0, 8, perms, 0);
    AlignAt(1);
    AddedAt(Apply(t, a), 0, 8, perms, 8);
    var u := Apply(Apply(t, a), a);
    assert u.entries == map[1 := u.entries[1], 2 := u.entries[2]];
  }

  lemma AddedAt(t: Table, dev: nat, len: nat, perms: Perms, off: nat)
    requires len > 0 && dev < U16 && off + len < U64 && AlignUp(CursorOf(t, dev), 3) == off
    ensures Apply(t, Add(dev, len, perms)) == t.(
              entries := t.entries[t.nextHandle := Mr(dev, off, len, perms, New(t.pod, t.node, dev, off, 0))],
              nextHandle := t.nextHandle + 1, cursor := t.cursor[dev := off + len])
  {
    hide AlignUp, New;
  }

  lemma RunTwo(t: Table, a: Step, b: Step)
    ensures Run(t, [a, b]) == Apply(Apply(t, a), b)
  {
    hide Apply;
    assert [a, b][..1] == [a];
    assert Run(t, [a]) == Apply(t, a);
  }

  lemma AlignAt(n: nat)
    ensures AlignUp(8 * n, 3) == 8 * n
  {
    AlignUpIsLeastMultiple(8 * n, 3);
    assert Pow2(3) == 8 by { assert Pow2(1) == 2 && Pow2(2) == 4; }
    assert 8 * n <= n * Pow2(3);
  }
}

/** The table and its devices as objects, with the synchronous verbs. */
module MrVerbs {
  import opened Bytes
  import opened UbAddress
  import opened MrTable

  class Device {
    const id: nat
    const data: array<byte>

    constructor (id: nat, size: nat)
      ensures this.id == id && fresh(data) && data.Length == size && data[..] == seq(size, _ => 0)
    {
      this.id := id;
      data := new byte[size](_ => 0);
    }

    method ReadInto(off: nat, buf: array<byte>) returns (st: Status)
      requires buf != data
      modifies buf
      ensures st == if off + buf.Length <= data.Length then Ok else AddrInvalid
      ensures st == Ok ==> buf[..] == data[off..off + buf.Length]
      ensures st != Ok ==> buf[..] == old(buf[..])
    {
      var end := off + buf.Length;
      if off > data.Length || end > data.Length { return AddrInvalid; }
      forall i | 0 <= i < buf.Length { buf[i] := data[off + i]; }
      st := Ok;
    }

    method WriteFrom(off: nat, buf: seq<byte>) returns (st: Status)
      modifies data
      ensures st == if off + |buf| <= data.Length then Ok else AddrInvalid
      ensures data[..] == if st == Ok then Store(old(data[..]), off, buf) else old(data[..])
    {
      var end := off + |buf|;
      if off > data.Length || end > data.Length { return AddrInvalid; }
      forall i | 0 <= i < |buf| { data[off + i] := buf[i]; }
      st := Ok;
    }
  }

  class MrTableObject {
    var entries: map<nat, Mr>
    var devices: map<nat, Device>
    var nextHandle: nat
    var cursor: map<nat, nat>
    const pod: nat
    const node: nat

    ghost function View(): Table
      reads this
    {
      Table(entries, nextHandle, cursor, pod, node)
    }

    ghost predicate Valid()
      reads this
    {
      && Inv(View()) && devices.Keys == entries.Keys
      && (forall h :: h in devices ==> devices[h].id == entries[h].dev)
    }

    constructor (pod: nat, node: nat)
      requires pod < U16 && node < U16
      ensures Valid() && View() == Empty(pod, node)
    {
      entries, devices, nextHandle, cursor := map[], map[], 1, map[0 := 0];
      this.pod, this.node := pod, node;
    }

    /** Bumps the device's allocator past an 8-aligned block of `len` bytes. */
    method AllocOffset(dev: nat, len: nat) returns (off: nat)
      modifies this`cursor
      ensures off == PlaceFor(old(View()), dev) && cursor == old(cursor)[dev := off + len]
    {
      off := AlignUp(if dev in cursor then cursor[dev] else 0, 3);
      cursor := cursor[dev := off + len];
    }

    method RegisterMr(d: Device, len: nat, perms: Perms) returns (h: Option<nat>)
      requires Valid() && Fits64(View(), d.id, len)
      modifies this
      ensures Valid() && (View(), h) == Register(old(View()), d.id, len, perms)
      ensures devices == if h.Some? then old(devices)[h.value := d] else old(devices)
    {
      ghost var t := View();
      hide PlaceFor, New, Fits64, Inv;
      if len == 0 { return None; }
      var off := AllocOffset(d.id, len);
      assert nextHandle !in entries by { HandleIsNew(t); }
      entries := entries[nextHandle := Mr(d.id, off, len, perms, New(pod, node, d.id, off, 0))];
      devices := devices[nextHandle := d];
      h := Some(nextHandle);
      nextHandle := nextHandle + 1;
      assert (View(), h) == Register(t, d.id, len, perms);
      AddKeeps(t, d.id, len, perms);
    }

    method DropMr(h: nat) returns (found: bool)
      requires Valid()
      modifies this
      ensures Valid() && View() == Deregister(old(View()), h) && found == (h in old(entries))
    {
      RemoveKeeps(View(), h);
      hide Inv;
      found := h in entries;
      entries, devices := entries - {h}, devices - {h};
    }

    /** Searches the entries in whatever order they come; the answer does not depend on it. */
    method LookupByAddr(a: nat) returns (r: Option<(nat, nat)>)
      requires Valid()
      ensures r.Some? ==> r.value.0 in entries && Hits(entries[r.value.0], a)
      ensures forall h :: h in entries && Hits(entries[h], a) ==> r == Some((h, OffsetOf(a) - entries[h].base))
    {
      hide Hits, Inv, New, NodeOf, DeviceOf;
      var todo := entries.Keys;
      while todo != {}
        invariant todo <= entries.Keys
        invariant forall h :: h in entries && Hits(entries[h], a) ==> h in todo
        decreases |todo|
      {
        var h :| h in todo;
        if Hits(entries[h], a) {
          assert entries[h].base == OffsetOf(entries[h].addr) <= OffsetOf(a) by { BaseIsOffset(View(), h, a); }
          forall g | g in entries && Hits(entries[g], a)
            ensures g == h
          {
            HitIsUnique(View(), g, h, a);
          }
          return Some((h, OffsetOf(a) - OffsetOf(entries[h].addr)));
        }
        todo := todo - {h};
      }
      r := None;
    }

    /** A read at an address is a read of the device's bytes at the address's offset. */
    method ReadSync(a: nat, buf: array<byte>) returns (st: Status, ghost hit: Option<nat>)
      requires Valid() && forall h :: h in devices ==> devices[h].data != buf
      modifies buf
      ensures Answers(hit, a)
      ensures hit.None? ==> st == AddrInvalid && buf[..] == old(buf[..])
      ensures hit.Some? ==>
                WasRead(devices[hit.value].data[..], old(buf[..]), buf[..], entries[hit.value].perms.read,
                        OffsetOf(a), st)
    {
      hide Hits, Inv, New, OffsetOf;
      var r := LookupByAddr(a);
      if r.None? { return AddrInvalid, None; }
      var (h, offsetInMr) := r.value;
      hit := Some(h);
      if !entries[h].perms.read { return PermDenied, hit; }
      st := devices[h].ReadInto(entries[h].base + offsetInMr, buf);
    }

    /** A write at an address is a store into the device's bytes at the address's offset; no other device changes. */
    method WriteSync(a: nat, buf: seq<byte>) returns (st: Status, ghost hit: Option<nat>)
      requires Valid()
      modifies set h | h in devices :: devices[h].data
      ensures Answers(hit, a)
      ensures hit.None? ==> st == AddrInvalid && forall g :: g in devices ==> unchanged(devices[g].data)
      ensures hit.Some? ==>
                && WasWritten(old(devices[hit.value].data[..]), devices[hit.value].data[..],
                              entries[hit.value].perms.write, OffsetOf(a), buf, st)
                && forall g :: g in devices && devices[g].data != devices[hit.value].data ==> unchanged(devices[g].data)
    {
      hide Hits, Inv, New, OffsetOf;
      var r := LookupByAddr(a);
      if r.None? { return AddrInvalid, None; }
      var (h, offsetInMr) := r.value;
      hit := Some(h);
      if !entries[h].perms.write { return PermDenied, hit; }
      st := devices[h].WriteFrom(entries[h].base + offsetInMr, buf);
    }

    /** `hit` is the region that answers address `a`, if any. */
    ghost predicate Answers(hit: Option<nat>, a: nat)
      reads this
    {
      match hit
      case Some(h) => h in entries && h in devices && Hits(entries[h], a)
      case None => forall h :: h in entries ==> !Hits(entries[h], a)
    }
  }

  /** Permission first, then the device's bounds, then the bytes. */
  ghost predicate WasRead(
      data: seq<byte>, before: seq<byte>, after: seq<byte>, permitted: bool, off: nat, st: Status) {
    if !permitted then st == PermDenied && after == before
    else if off + |before| > |data| then st == AddrInvalid && after == before
    else st == Ok && after == data[off..off + |before|]
  }

  ghost predicate WasWritten(
      before: seq<byte>, after: seq<byte>, permitted: bool, off: nat, buf: seq<byte>, st: Status) {
    if !permitted then st == PermDenied && after == before
    else if off + |buf| > |before| then st == AddrInvalid && after == before
    else st == Ok && after == Store(before, off, buf)
  }

  lemma HandleIsNew(t: Table)
    requires Inv(t)
    ensures t.nextHandle !in t.entries
  {
  }

  lemma BaseIsOffset(t: Table, h: nat, a: nat)
    requires Inv(t) && h in t.entries && Hits(t.entries[h], a)
    ensures t.entries[h].base == OffsetOf(t.entries[h].addr) <= OffsetOf(a)
  {
    var mr := t.entries[h];
    assert WellPlaced(t, mr);
    FieldsReadBack(t.pod, t.node, mr.dev, mr.base, 0);
    hide New, NodeOf, DeviceOf, OffsetOf;
  }
}
