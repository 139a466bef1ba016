/** Whole runs of registrations, deregistrations and synchronous verbs. Regions with one device id share one device, so
    the memory is one flat byte array for each device id. */
module MrRuns {
  import opened Bytes
  import opened UbAddress
  import opened MrTable
  import opened MrVerbs

  datatype Machine = Machine(table: Table, mem: map<nat, seq<byte>>)

  datatype Op =
    | RegisterOn(dev: nat, len: nat, perms: Perms)
    | Drop(h: nat)
    | ReadAt(addr: nat, n: nat)
    | WriteAt(addr: nat, buf: seq<byte>)

  ghost predicate Answers(t: Table, h: nat, a: nat) { h in t.entries && Hits(t.entries[h], a) }

  /** The region that answers an address; there is at most one. */
  ghost function Target(t: Table, a: nat): Option<nat> {
    if exists h :: Answers(t, h, a) then var h :| Answers(t, h, a); Some(h) else None
  }

  /** What a verb on `n` bytes answers: lookup, permission, then the device's bounds. */
  ghost function StatusOf(m: Machine, a: nat, n: nat, writing: bool): Status {
    var h := Target(m.table, a);
    if h.None? || m.table.entries[h.value].dev !in m.mem then AddrInvalid
    else
      var mr := m.table.entries[h.value];
      if !(if writing then mr.perms.write else mr.perms.read) then PermDenied
      else if OffsetOf(a) + n > |m.mem[mr.dev]| then AddrInvalid
      else Ok
  }

  ghost function Next(m: Machine, op: Op): Machine {
    match op
    case RegisterOn(dev, len, perms) =>
      if dev in m.mem then m.(table := Apply(m.table, Add(dev, len, perms))) else m
    case Drop(h) => m.(table := Deregister(m.table, h))
    case ReadAt(_, _) => m
    case WriteAt(a, buf) =>
      if StatusOf(m, a, |buf|, true) != Ok then m
      else
        var dev := m.table.entries[Target(m.table, a).value].dev;
        m.(mem := m.mem[dev := Store(m.mem[dev], OffsetOf(a), buf)])
  }

  ghost function After(m: Machine, ops: seq<Op>): Machine {
    if ops == [] then m else Next(After(m, ops[..|ops| - 1]), ops[|ops| - 1])
  }

  ghost predicate Fresh(m: Machine) {
    exists pod: nat, node: nat :: pod < U16 && node < U16 && m.table == Empty(pod, node)
  }

  /** What a successful read of `n` bytes returns. */
  ghost function Data(m: Machine, a: nat, n: nat): seq<byte>
    requires StatusOf(m, a, n, false) == Ok
  {
    m.mem[m.table.entries[Target(m.table, a).value].dev][OffsetOf(a)..OffsetOf(a) + n]
  }

  // ---- the table stays well placed, the memory keeps its shape ----

  lemma {:induction false} TableAlways(m: Machine, ops: seq<Op>)
    requires Fresh(m)
    ensures Inv(After(m, ops).table)
  {
    hide Inv, StatusOf;
    if ops == [] {
      var pod: nat, node: nat :| pod < U16 && node < U16 && m.table == Empty(pod, node);
      EmptyInv(pod, node);
    } else {
      var t, op := After(m, ops[..|ops| - 1]).table, ops[|ops| - 1];
      TableAlways(m, ops[..|ops| - 1]);
      if op.RegisterOn? && Fits64(t, op.dev, op.len) { AddKeeps(t, op.dev, op.len, op.perms); }
      if op.Drop? { RemoveKeeps(t, op.h); }
    }
  }

  lemma {:induction false} ShapeAlways(m: Machine, ops: seq<Op>)
    ensures After(m, ops).mem.Keys == m.mem.Keys
    ensures forall dev :: dev in m.mem ==> |After(m, ops).mem[dev]| == |m.mem[dev]|
  {
    if ops != [] { ShapeAlways(m, ops[..|ops| - 1]); }
  }

  /** The device of the region that answers an address is the one the address names. */
  lemma {:induction false} TargetDevice(t: Table, a: nat)
    requires Inv(t) && Target(t, a).Some?
    ensures Target(t, a).value in t.entries && t.entries[Target(t, a).value].dev == DeviceOf(a)
  {
    hide Inv, Hits, DeviceOf, NodeOf, OffsetOf;
    HitMeans(t, Target(t, a).value, a);
  }

  // ---- the last write wins ----

  /** Call `k` is a write that succeeded and covers byte `i` of the device. */
  ghost predicate Wrote(m: Machine, ops: seq<Op>, k: nat, dev: nat, i: nat) {
    && k < |ops| && ops[k].WriteAt? && StatusOf(After(m, ops[..k]), ops[k].addr, |ops[k].buf|, true) == Ok
    && DeviceOf(ops[k].addr) == dev && OffsetOf(ops[k].addr) <= i < OffsetOf(ops[k].addr) + |ops[k].buf|
  }

  /** What one call does to one byte. */
  lemma {:induction false} StepByte(m: Machine, ops: seq<Op>, dev: nat, i: nat)
    requires Fresh(m) && ops != [] && dev in m.mem && i < |m.mem[dev]|
    ensures var k := |ops| - 1; var s, t := After(m, ops[..k]), After(m, ops);
            && dev in s.mem && dev in t.mem && i < |s.mem[dev]| == |t.mem[dev]|
            && t.mem[dev][i]
                 == if Wrote(m, ops, k, dev, i) then ops[k].buf[i - OffsetOf(ops[k].addr)] else s.mem[dev][i]
  {
    var k := |ops| - 1;
    ShapeAlways(m, ops[..k]);
    ShapeAlways(m, ops);
    TableAlways(m, ops[..k]);
    hide Inv, Hits, DeviceOf, NodeOf, OffsetOf, Target;
    var s := After(m, ops[..k]);
    if ops[k].WriteAt? && StatusOf(s, ops[k].addr, |ops[k].buf|, true) == Ok { TargetDevice(s.table, ops[k].addr); }
  }

  lemma WrotePrefix(m: Machine, ops: seq<Op>, n: nat, k: nat, dev: nat, i: nat)
    requires k < n <= |ops|
    ensures Wrote(m, ops[..n], k, dev, i) <==> Wrote(m, ops, k, dev, i)
  {
    hide StatusOf, DeviceOf, OffsetOf, After;
    assert ops[..n][..k] == ops[..k];
  }

  /** In every run a byte of a device is the one put there by the last successful write that covers it. */
  lemma {:induction false} LastWriteWins(m: Machine, ops: seq<Op>, dev: nat, i: nat, k: nat)
    requires Fresh(m) && dev in m.mem && i < |m.mem[dev]| && Wrote(m, ops, k, dev, i)
    requires forall j :: k < j < |ops| ==> !Wrote(m, ops, j, dev, i)
    ensures dev in After(m, ops).mem && i < |After(m, ops).mem[dev]|
    ensures After(m, ops).mem[dev][i] == ops[k].buf[i - OffsetOf(ops[k].addr)]
    decreases |ops|
  {
    var n := |ops| - 1;
    StepByte(m, ops, dev, i);
    if k < n {
      forall j | k <= j < n
        ensures Wrote(m, ops[..n], j, dev, i) <==> Wrote(m, ops, j, dev, i)
      {
        WrotePrefix(m, ops, n, j, dev, i);
      }
      hide Wrote, After, OffsetOf, Fresh;
      WroteIsWrite(m, ops, k, dev, i);
      LastWriteWins(m, ops[..n], dev, i, k);
    }
  }

  lemma WroteIsWrite(m: Machine, ops: seq<Op>, k: nat, dev: nat, i: nat)
    requires Wrote(m, ops, k, dev, i)
    ensures k < |ops| && ops[k].WriteAt? && OffsetOf(ops[k].addr) <= i < OffsetOf(ops[k].addr) + |ops[k].buf|
  {
    hide StatusOf, DeviceOf, OffsetOf, After;
  }

  /** In every run a byte that no successful write covered is the initial one. */
  lemma {:induction false} UnwrittenStays(m: Machine, ops: seq<Op>, dev: nat, i: nat)
    requires Fresh(m) && dev in m.mem && i < |m.mem[dev]| && forall j :: 0 <= j < |ops| ==> !Wrote(m, ops, j, dev, i)
    ensures dev in After(m, ops).mem && i < |After(m, ops).mem[dev]| && After(m, ops).mem[dev][i] == m.mem[dev][i]
    decreases |ops|
  {
    if ops != [] {
      var n := |ops| - 1;
      StepByte(m, ops, dev, i);
      forall j | 0 <= j < n
        ensures !Wrote(m, ops[..n], j, dev, i)
      {
        WrotePrefix(m, ops, n, j, dev, i);
      }
      hide Wrote, OffsetOf, Fresh;
      UnwrittenStays(m, ops[..n], dev, i);
    }
  }

  /** The call after which byte `i` of the device was not written again. */
  ghost predicate LastWriter(m: Machine, ops: seq<Op>, k: nat, dev: nat, i: nat) {
    Wrote(m, ops, k, dev, i) && forall j :: k < j < |ops| ==> !Wrote(m, ops, j, dev, i)
  }

  lemma {:induction false} ReadHere(s: Machine, a: nat, n: nat, j: nat)
    requires Inv(s.table) && j < n && StatusOf(s, a, n, false) == Ok
    ensures DeviceOf(a) in s.mem && OffsetOf(a) + n <= |s.mem[DeviceOf(a)]|
    ensures Data(s, a, n)[j] == s.mem[DeviceOf(a)][OffsetOf(a) + j]
  {
    hide Inv, Target, OffsetOf, DeviceOf;
    TargetDevice(s.table, a);
  }

  /** A successful read returns the device's bytes at the address. */
  lemma {:induction false} ReadByte(m: Machine, ops: seq<Op>, a: nat, n: nat, j: nat)
    requires Fresh(m) && j < n && StatusOf(After(m, ops), a, n, false) == Ok
    ensures DeviceOf(a) in m.mem && OffsetOf(a) + n <= |m.mem[DeviceOf(a)]|
    ensures DeviceOf(a) in After(m, ops).mem && OffsetOf(a) + j < |After(m, ops).mem[DeviceOf(a)]|
    ensures Data(After(m, ops), a, n)[j] == After(m, ops).mem[DeviceOf(a)][OffsetOf(a) + j]
  {
    hide After, Fresh, Inv, Target, OffsetOf, DeviceOf, StatusOf, Data;
    TableAlways(m, ops);
    ReadHere(After(m, ops), a, n, j);
    ShapeAlways(m, ops);
  }

  /** In every run of registrations, deregistrations, reads and writes, with all their failures, a read that succeeds
      returns at every position what the last successful write to that address put there. */
  lemma {:induction false} ReadsReturnLastWrite(m: Machine, ops: seq<Op>, a: nat, n: nat, j: nat, k: nat)
    requires Fresh(m) && j < n && StatusOf(After(m, ops), a, n, false) == Ok
    requires LastWriter(m, ops, k, DeviceOf(a), OffsetOf(a) + j)
    ensures ops[k].WriteAt? && 0 <= OffsetOf(a) + j - OffsetOf(ops[k].addr) < |ops[k].buf|
    ensures Data(After(m, ops), a, n)[j] == ops[k].buf[OffsetOf(a) + j - OffsetOf(ops[k].addr)]
  {
    ReadByte(m, ops, a, n, j);
    hide After, Fresh, StatusOf, Data, Wrote, OffsetOf, DeviceOf;
    WroteIsWrite(m, ops, k, DeviceOf(a), OffsetOf(a) + j);
    LastWriteWins(m, ops, DeviceOf(a), OffsetOf(a) + j, k);
  }

  /** And the initial byte where no write has succeeded. */
  lemma {:induction false} ReadsReturnInitial(m: Machine, ops: seq<Op>, a: nat, n: nat, j: nat, i: nat)
    requires Fresh(m) && j < n && StatusOf(After(m, ops), a, n, false) == Ok && i == OffsetOf(a) + j
    requires forall k :: 0 <= k < |ops| ==> !Wrote(m, ops, k, DeviceOf(a), i)
    ensures DeviceOf(a) in m.mem && i < |m.mem[DeviceOf(a)]|
    ensures Data(After(m, ops), a, n)[j] == m.mem[DeviceOf(a)][i]
  {
    ReadByte(m, ops, a, n, j);
    hide After, Fresh, StatusOf, Data, Wrote, OffsetOf, DeviceOf;
    UnwrittenStays(m, ops, DeviceOf(a), i);
  }

  /** What the objects' write does to the device it hits is what the run's write does to that device's bytes. */
  lemma WriteSyncIsStep(m: Machine, a: nat, buf: seq<byte>, h: nat, after: seq<byte>, st: Status)
    requires Inv(m.table) && Answers(m.table, h, a) && m.table.entries[h].dev in m.mem
    requires var mr := m.table.entries[h]; WasWritten(m.mem[mr.dev], after, mr.perms.write, OffsetOf(a), buf, st)
    ensures st == StatusOf(m, a, |buf|, true)
    ensures var dev := m.table.entries[h].dev;
            dev in Next(m, WriteAt(a, buf)).mem && Next(m, WriteAt(a, buf)).mem[dev] == after
  {
    assert Target(m.table, a) == Some(h) by { HitIsUnique(m.table, Target(m.table, a).value, h, a); }
    hide Inv, Hits, OffsetOf, Target;
  }
}
