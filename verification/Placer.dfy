/** Region placement: interval and id bookkeeping. Which device the cost function picks is a parameter. */
module Placement {
  import opened Bytes
  import opened SubAlloc

  type Device = (nat, nat)

  datatype RegionPlacement = RegionPlacement(
    id: nat, device: Device, mrHandle: nat, range: Range, requester: nat)

  /** `placed` is every placement ever returned, `issued` the ids handed out by `place`. */
  datatype Placements = Placements(
    pools: map<Device, Pool>, regions: map<nat, RegionPlacement>, nextId: nat,
    placed: seq<RegionPlacement>, issued: seq<nat>)

  datatype Step =
    | Register(device: Device, base: nat, total: nat)
    | Place(choice: Option<Device>, size: nat, requester: nat)
    | PlaceWithId(id: nat, choice: Option<Device>, size: nat, requester: nat, mrHandle: nat)
    | Free(id: nat)

  /** Sub-allocation on the chosen device; None when there is no device, no pool for it, or no space. */
  function Carve(s: Placements, device: Option<Device>, size: nat): Option<(Pool, nat)> {
    if device.None? || device.value !in s.pools then None
    else
      var (pool, off) := Alloc(s.pools[device.value], size);
      if off.None? then None else Some((pool, off.value))
  }

  function Put(s: Placements, pool: Pool, p: RegionPlacement): Placements {
    s.(pools := s.pools[p.device := pool], regions := s.regions[p.id := p], placed := s.placed + [p])
  }

  function Next(s: Placements, step: Step): Placements {
    match step
    case Register(device, base, total) => s.(pools := s.pools[device := Pool(base, total, 0)])
    case Place(device, size, requester) =>
      (match Carve(s, device, size)
       case None => s
       case Some((pool, off)) =>
         Put(s, pool, RegionPlacement(s.nextId, device.value, 0, Range(off, size), requester))
           .(nextId := s.nextId + 1, issued := s.issued + [s.nextId]))
    case PlaceWithId(id, device, size, requester, mrHandle) =>
      (match Carve(s, device, size)
       case None => s
       case Some((pool, off)) => Put(s, pool, RegionPlacement(id, device.value, mrHandle, Range(off, size), requester)))
    case Free(id) => s.(regions := s.regions - {id})
  }

  function Empty(): Placements { Placements(map[], map[], 1, [], []) }

  function Run(steps: seq<Step>): Placements {
    if steps == [] then Empty() else Next(Run(steps[..|steps| - 1]), steps[|steps| - 1])
  }

  /** The part of a pool that has not been given out. */
  function Rest(p: Pool): Range { Range(p.base + p.taken, if p.taken <= p.total then p.total - p.taken else 0) }

  ghost predicate Clear(s: Placements, device: Device, r: Range) {
    forall i :: 0 <= i < |s.placed| && s.placed[i].device == device ==> Disjoint(s.placed[i].range, r)
  }

  ghost predicate Apart(s: Placements) {
    forall i, j :: 0 <= i < j < |s.placed| && s.placed[i].device == s.placed[j].device ==>
      Disjoint(s.placed[i].range, s.placed[j].range)
  }

  ghost predicate Inv(s: Placements) {
    Apart(s) && forall d :: d in s.pools ==> Clear(s, d, Rest(s.pools[d]))
  }

  lemma {:induction false} PutKeeps(s: Placements, device: Device, size: nat, p: RegionPlacement)
    requires Inv(s) && device in s.pools && s.pools[device].taken + size <= s.pools[device].total
    requires p.device == device && p.range == Range(s.pools[device].base + s.pools[device].taken, size)
    ensures Inv(Put(s, s.pools[device].(taken := s.pools[device].taken + size), p))
  {
    var pool := s.pools[device];
    var t := Put(s, pool.(taken := pool.taken + size), p);
    var n := |s.placed|;
    assert Clear(s, device, Rest(pool));
    forall i, j | 0 <= i < j < |t.placed| && t.placed[i].device == t.placed[j].device
      ensures Disjoint(t.placed[i].range, t.placed[j].range)
    {
      assert t.placed[i] == s.placed[i];
      if j == n { assert Disjoint(s.placed[i].range, Rest(pool)); }
    }
    forall d | d in t.pools
      ensures Clear(t, d, Rest(t.pools[d]))
    {
      assert d in s.pools && Clear(s, d, Rest(s.pools[d]));
      forall i | 0 <= i < |t.placed| && t.placed[i].device == d
        ensures Disjoint(t.placed[i].range, Rest(t.pools[d]))
      {
        if i < n { assert Disjoint(s.placed[i].range, Rest(s.pools[d])); }
      }
    }
  }

  /** A registration is safe when its range touches nothing placed on the device before. */
  ghost predicate SafeStep(s: Placements, step: Step) {
    step.Register? ==> Clear(s, step.device, Range(step.base, step.total))
  }

  lemma {:induction false} NextKeeps(s: Placements, step: Step)
    requires Inv(s) && SafeStep(s, step)
    ensures Inv(Next(s, step))
  {
    hide Disjoint;
    var t := Next(s, step);
    match step
    case Register(device, base, total) =>
      forall d | d in t.pools
        ensures Clear(t, d, Rest(t.pools[d]))
      {
        if d != device { assert Clear(s, d, Rest(s.pools[d])); }
      }
    case Place(device, size, requester) =>
      if t != s {
        PutKeeps(s, device.value, size,
                 RegionPlacement(s.nextId, device.value, 0, Range(Carve(s, device, size).value.1, size), requester));
      }
    case PlaceWithId(id, device, size, requester, mrHandle) =>
      if t != s {
        PutKeeps(s, device.value, size,
                 RegionPlacement(id, device.value, mrHandle, Range(Carve(s, device, size).value.1, size), requester));
      }
    case Free(_) =>
      forall d | d in t.pools
        ensures Clear(t, d, Rest(t.pools[d]))
      {
        assert Clear(s, d, Rest(s.pools[d]));
      }
  }

  ghost predicate Safe(steps: seq<Step>) {
    forall i :: 0 <= i < |steps| ==> SafeStep(Run(steps[..i]), steps[i])
  }

  /** In every run with safe registrations, all placements ever returned for a device are disjoint, even after
      `free`. */
  lemma {:induction false} PlacementsDisjoint(steps: seq<Step>)
    requires Safe(steps)
    ensures Inv(Run(steps))
  {
    hide Next, Inv;
    if steps != [] {
      var k := |steps| - 1;
      assert forall i :: 0 <= i < k ==> steps[..k][..i] == steps[..i];
      PlacementsDisjoint(steps[..k]);
      NextKeeps(Run(steps[..k]), steps[k]);
    } else {
      assert Inv(Empty()) by { EmptyInv(); }
    }
  }

  lemma {:induction false} EmptyInv()
    ensures Inv(Empty())
  {}

  ghost predicate RegistersOnce(steps: seq<Step>) {
    forall i, j :: 0 <= i < j < |steps| && steps[i].Register? && steps[j].Register? ==>
      steps[i].device != steps[j].device
  }

  /** Nothing is placed on a device before its allocator is registered. */
  lemma {:induction false} PlacedNeedsRegister(steps: seq<Step>, d: Device)
    requires forall k :: 0 <= k < |steps| && steps[k].Register? ==> steps[k].device != d
    ensures d !in Run(steps).pools
    ensures forall i :: 0 <= i < |Run(steps).placed| ==> Run(steps).placed[i].device != d
  {
    if steps != [] { PlacedNeedsRegister(steps[..|steps| - 1], d); }
  }

  /** Registering each allocator once is enough. */
  lemma {:induction false} OnceIsSafe(steps: seq<Step>)
    requires RegistersOnce(steps)
    ensures Safe(steps)
  {
    hide Run, Disjoint;
    forall i | 0 <= i < |steps|
      ensures SafeStep(Run(steps[..i]), steps[i])
    {
      if steps[i].Register? {
        PlacedNeedsRegister(steps[..i], steps[i].device);
      }
    }
  }

  /** An unsafe registration leads to overlapping placements at the next full-size request. */
  lemma {:induction false} UnsafeRegistrationOverlaps(
      s: Placements, device: Device, base: nat, total: nat, requester: nat)
    requires !Clear(s, device, Range(base, total))
    ensures var t := Next(Next(s, Register(device, base, total)), Place(Some(device), total, requester));
            !Apart(t)
  {
    var u := Next(s, Register(device, base, total));
    var t := Next(u, Place(Some(device), total, requester));
    var i :| 0 <= i < |s.placed| && s.placed[i].device == device && !Disjoint(s.placed[i].range, Range(base, total));
    var n := |s.placed|;
    assert t.placed[n].range == Range(base, total) && t.placed[i] == s.placed[i];
  }

  ghost predicate NoRegisters(steps: seq<Step>) { forall i :: 0 <= i < |steps| ==> !steps[i].Register? }

  lemma {:induction false} SafeExtends(steps: seq<Step>, step: Step, more: seq<Step>)
    requires Safe(steps) && SafeStep(Run(steps), step) && NoRegisters(more)
    ensures Safe(steps + [step] + more)
  {
    hide Run, Clear;
    var all, n := steps + [step] + more, |steps|;
    forall i | 0 <= i < |all|
      ensures SafeStep(Run(all[..i]), all[i])
    {
      if i < n {
        assert all[..i] == steps[..i];
      } else if i == n {
        assert all[..i] == steps;
      } else {
        assert all[i] == more[i - n - 1];
      }
    }
  }

  /** After safe registrations, one more registration keeps all placements apart, whatever is placed and freed
      afterwards, if and only if its range touches nothing placed on the device before. */
  lemma {:induction false} RegistrationSafeIff(steps: seq<Step>, device: Device, base: nat, total: nat)
    requires Safe(steps)
    ensures (forall more :: NoRegisters(more) ==> Apart(Run(steps + [Register(device, base, total)] + more)))
            <==> Clear(Run(steps), device, Range(base, total))
  {
    hide Run, Apart, Clear, Next;
    var step := Register(device, base, total);
    if Clear(Run(steps), device, Range(base, total)) {
      forall more | NoRegisters(more)
        ensures Apart(Run(steps + [step] + more))
      {
        SafeExtends(steps, step, more);
        PlacementsDisjoint(steps + [step] + more);
      }
    } else {
      var more := [Place(Some(device), total, 0)];
      UnsafeRegistrationOverlaps(Run(steps), device, base, total, 0);
      RunSnoc(steps, step);
      RunSnoc(steps + [step], more[0]);
      assert NoRegisters(more) && !Apart(Run(steps + [step] + more));
    }
  }

  lemma RunSnoc(steps: seq<Step>, step: Step)
    ensures Run(steps + [step]) == Next(Run(steps), step)
  {
    hide Next;
    assert (steps + [step])[..|steps|] == steps;
  }

  /** A concrete run: an allocator registered, used up, registered again and used again. */
  lemma {:induction false} RegisteredTwice(device: Device)
    ensures var reg, use := Register(device, 0, 8), Place(Some(device), 8, 0);
            !Apart(Run([reg, use, reg, use]))
  {
    hide Run, Apart;
    var reg, use := Register(device, 0, 8), Place(Some(device), 8, 0);
    assert [reg, use, reg, use] == [] + [reg] + [use] + [reg] + [use];
    RunSnoc([], reg);
    RunSnoc([] + [reg], use);
    RunSnoc([] + [reg] + [use], reg);
    RunSnoc([] + [reg] + [use] + [reg], use);
    var s := Run([] + [reg] + [use]);
    assert s.placed[|s.placed| - 1].device == device && s.placed[|s.placed| - 1].range == Range(0, 8);
    UnsafeRegistrationOverlaps(s, device, 0, 8, 0);
  }

  /** Ids issued by `place` are distinct. */
  lemma {:induction false} IdsDistinct(steps: seq<Step>)
    ensures var s := Run(steps);
            && (forall i :: 0 <= i < |s.issued| ==> 1 <= s.issued[i] < s.nextId)
            && (forall i, j :: 0 <= i < j < |s.issued| ==> s.issued[i] < s.issued[j])
            && s.nextId >= 1
  {
    if steps != [] { IdsDistinct(steps[..|steps| - 1]); }
  }

  /** A request is met exactly when the chosen device has a pool with room, by a placement as asked for on that device,
      at the pool's next free byte. */
  lemma PlacedAsAsked(s: Placements, device: Device, size: nat, requester: nat, mrHandle: nat, id: nat)
    ensures var fits := device in s.pools && s.pools[device].taken + size <= s.pools[device].total;
            var t, u := Next(s, Place(Some(device), size, requester)),
                        Next(s, PlaceWithId(id, Some(device), size, requester, mrHandle));
            && (!fits ==> t == s && u == s)
            && (fits ==>
                  var at := Range(s.pools[device].base + s.pools[device].taken, size);
                  && t.placed == s.placed + [RegionPlacement(s.nextId, device, 0, at, requester)]
                  && u.placed == s.placed + [RegionPlacement(id, device, mrHandle, at, requester)])
  {
  }

  /** The last placement returned under an id, unless the id was freed since. */
  function Latest(steps: seq<Step>, id: nat): Option<RegionPlacement> {
    if steps == [] then None
    else
      var k := |steps| - 1;
      var before, after := Run(steps[..k]).placed, Run(steps).placed;
      if steps[k] == Free(id) then None
      else if |after| > |before| && after[|after| - 1].id == id then Some(after[|after| - 1])
      else Latest(steps[..k], id)
  }

  /** In every run the record under an id is the last placement returned under it, unless it was freed since. */
  lemma {:induction false} RecordIsLatest(steps: seq<Step>, id: nat)
    ensures var regions := Run(steps).regions;
            Latest(steps, id) == if id in regions then Some(regions[id]) else None
  {
    if steps != [] {
      var k := |steps| - 1;
      RecordIsLatest(steps[..k], id);
      RecordStep(Run(steps[..k]), steps[k], id);
    }
  }

  lemma RecordStep(s: Placements, step: Step, id: nat)
    ensures var t := Next(s, step);
            && |s.placed| <= |t.placed| <= |s.placed| + 1
            && (step == Free(id) ==> id !in t.regions)
            && (|t.placed| > |s.placed| && t.placed[|s.placed|].id == id ==>
                  step != Free(id) && id in t.regions && t.regions[id] == t.placed[|s.placed|])
            && (step != Free(id) && (|t.placed| == |s.placed| || t.placed[|s.placed|].id != id) ==>
                  && (id in t.regions <==> id in s.regions)
                  && (id in s.regions ==> t.regions[id] == s.regions[id]))
  {
  }

  /** The placer object. */
  class Placer {
    var subAllocators: map<Device, Pool>
    var regions: map<nat, RegionPlacement>
    var nextRegionId: nat
    ghost var placed: seq<RegionPlacement>
    ghost var issued: seq<nat>

    ghost function View(): Placements
      reads this
    {
      Placements(subAllocators, regions, nextRegionId, placed, issued)
    }

    constructor ()
      ensures View() == Empty()
    {
      subAllocators, regions, nextRegionId, placed, issued := map[], map[], 1, [], [];
    }

    method RegisterSubAllocator(device: Device, base: nat, total: nat)
      modifies this
      ensures View() == Next(old(View()), Register(device, base, total))
    {
      subAllocators := subAllocators[device := Pool(base, total, 0)];
    }

    method PlaceRegion(device: Option<Device>, size: nat, requester: nat) returns (p: Option<RegionPlacement>)
      modifies this
      ensures View() == Next(old(View()), Place(device, size, requester))
      ensures placed == old(placed) + (if p.Some? then [p.value] else [])
      ensures p.Some? ==> p.value.id in regions && regions[p.value.id] == p.value && p.value.range.len == size
    {
      p := None;
      if device.None? || device.value !in subAllocators { return; }
      var (pool, off) := Alloc(subAllocators[device.value], size);
      if off.None? { return; }
      subAllocators := subAllocators[device.value := pool];
      var id := nextRegionId;
      nextRegionId := nextRegionId + 1;
      p := Some(RegionPlacement(id, device.value, 0, Range(off.value, size), requester));
      regions := regions[id := p.value];
      placed, issued := placed + [p.value], issued + [id];
    }

    method PlaceRegionWithId(id: nat, device: Option<Device>, size: nat, requester: nat, mrHandle: nat)
      returns (p: Option<RegionPlacement>)
      modifies this
      ensures View() == Next(old(View()), PlaceWithId(id, device, size, requester, mrHandle))
      ensures placed == old(placed) + (if p.Some? then [p.value] else [])
      ensures p.Some? ==> id in regions && regions[id] == p.value && p.value.range.len == size
    {
      p := None;
      if device.None? || device.value !in subAllocators { return; }
      var (pool, off) := Alloc(subAllocators[device.value], size);
      if off.None? { return; }
      subAllocators := subAllocators[device.value := pool];
      p := Some(RegionPlacement(id, device.value, mrHandle, Range(off.value, size), requester));
      regions := regions[id := p.value];
      placed := placed + [p.value];
    }

    /** The bump allocator reclaims nothing, so freeing only forgets the record. */
    method FreeRegion(id: nat) returns (p: Option<RegionPlacement>)
      modifies this`regions
      ensures View() == Next(old(View()), Free(id))
      ensures p == if id in old(regions) then Some(old(regions)[id]) else None
    {
      if id !in regions {
        assert regions - {id} == regions;
        return None;
      }
      p := Some(regions[id]);
      regions := regions - {id};
    }
  }
}
