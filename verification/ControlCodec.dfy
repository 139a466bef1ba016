/** Control-plane messages: field layouts of every message type, length-prefixed framing, and the reader that cuts a
    TCP byte stream into messages. */
module ControlCodec {
  import opened Bytes

  /** A payload field: a big-endian integer, an enum byte below a limit, the permission bits, a length-prefixed UTF-8
      string, or a length-prefixed byte string. */
  datatype Kind = Fixed(width: nat) | OneOf(limit: nat) | Perms | Text | Blob

  datatype Val = Num(n: nat) | Data(bytes: seq<byte>)

  /** A payload is one record, or a count followed by records, each behind its own length when `prefixed`. */
  datatype Layout = One(fields: seq<Kind>) | Many(fields: seq<Kind>, prefixed: bool)

  datatype Body = Single(vals: seq<Val>) | Batch(records: seq<seq<Val>>)

  datatype Msg = Msg(tag: byte, body: Body)

  // node_id, version, local_epoch, initial_credits, data_addr
  const HELLO := One([Fixed(2), Fixed(2), Fixed(4), Fixed(4), Text])

  // node_id, timestamp
  const HEARTBEAT := One([Fixed(2), Fixed(8)])

  // region_id, node_id
  const REGION_AND_NODE := One([Fixed(8), Fixed(2)])

  // node_id, state, epoch, data_addr, control_addr
  const SNAPSHOT_NODE := [Fixed(2), Fixed(1), Fixed(4), Text, Text]

  // node_id, device_id, kind, tier, capacity, read and write bandwidth, read and write latency, used bytes, rps
  const PROFILE :=
    [Fixed(2), Fixed(2), OneOf(2), OneOf(3), Fixed(8), Fixed(4), Fixed(4), Fixed(4), Fixed(4), Fixed(8), Fixed(4)]

  /** The message types and their payloads; None for an unknown type byte. */
  function LayoutOf(tag: byte): Option<Layout> {
    if tag == 0x01 || tag == 0x02 || tag == 0x03 then Some(HELLO)
    else if tag == 0x04 then Some(One([Fixed(2), Fixed(1)]))
    else if tag == 0x05 then Some(Many(SNAPSHOT_NODE, false))
    else if tag == 0x06 then Some(One([Fixed(2), Fixed(4), Fixed(16), Fixed(8), Perms, OneOf(2)]))
    else if tag == 0x07 then Some(One([Fixed(2), Fixed(4)]))
    else if tag == 0x08 || tag == 0x09 then Some(HEARTBEAT)
    else if tag == 0x10 then Some(One([Fixed(2), Fixed(4), Text, Text, Fixed(4)]))
    else if tag == 0x11 then Some(Many(PROFILE, true))
    else if tag == 0x12 then
      Some(One([Fixed(8), Fixed(8), OneOf(3), OneOf(3), OneOf(3), Fixed(1), Fixed(4), Fixed(2)]))
    else if tag == 0x13 then Some(One([Fixed(8), Fixed(16), Fixed(2), Fixed(2), Fixed(4), Fixed(8), Fixed(4)]))
    else if tag == 0x14 then Some(One([Fixed(8), Fixed(8), OneOf(2)]))
    else if tag == 0x15 then Some(One([Fixed(8), Fixed(4), Fixed(8), Fixed(2)]))
    else if tag == 0x16 || tag == 0x1D then Some(One([Fixed(8)]))
    else if tag == 0x17 then Some(One([Fixed(8), Fixed(8), Fixed(4), Fixed(2)]))
    else if tag == 0x18 then Some(One([Fixed(8), Fixed(8), Blob, Fixed(4)]))
    else if tag == 0x19 || tag == 0x1B then Some(REGION_AND_NODE)
    else if tag == 0x1A then Some(One([Fixed(8), Fixed(8), Fixed(4)]))
    else if tag == 0x1C then Some(One([Fixed(8), Fixed(8)]))
    else None
  }

  // ---- UTF-8 (section 4 of RFC 3629) ----

  predicate Tail(b: byte) { 0x80 <= b <= 0xBF }

  /** Bytes of the well-formed character at the front, or 0. */
  function CharLen(s: seq<byte>): (n: nat)
    ensures n <= |s|
  {
    if |s| >= 1 && s[0] <= 0x7F then 1
    else if |s| >= 2 && 0xC2 <= s[0] <= 0xDF && Tail(s[1]) then 2
    else if |s| >= 3 && Tail(s[2])
            && (if s[0] == 0xE0 then 0xA0 <= s[1] <= 0xBF
                else if s[0] == 0xED then 0x80 <= s[1] <= 0x9F
                else 0xE1 <= s[0] <= 0xEF && Tail(s[1])) then 3
    else if |s| >= 4 && Tail(s[2]) && Tail(s[3])
            && (if s[0] == 0xF0 then 0x90 <= s[1] <= 0xBF
                else if s[0] == 0xF4 then 0x80 <= s[1] <= 0x8F
                else 0xF1 <= s[0] <= 0xF3 && Tail(s[1])) then 4
    else 0
  }

  predicate ValidUtf8(s: seq<byte>)
    decreases |s|
  {
    s == [] || (CharLen(s) > 0 && ValidUtf8(s[CharLen(s)..]))
  }

  /** A Unicode scalar value: anything but the surrogates. */
  predicate Scalar(c: nat) { c <= 0x10FFFF && !(0xD800 <= c <= 0xDFFF) }

  /** Its encoding (section 3 of RFC 3629). */
  function Utf8(c: nat): seq<byte>
    requires Scalar(c)
  {
    if c <= 0x7F then [c]
    else if c <= 0x7FF then [0xC0 + c / 64, 0x80 + c % 64]
    else if c <= 0xFFFF then [0xE0 + c / 64 / 64, 0x80 + c / 64 % 64, 0x80 + c % 64]
    else [0xF0 + c / 64 / 64 / 64, 0x80 + c / 64 / 64 % 64, 0x80 + c / 64 % 64, 0x80 + c % 64]
  }

  ghost predicate AllScalar(cs: seq<nat>) { forall i :: 0 <= i < |cs| ==> Scalar(cs[i]) }

  function Utf8All(cs: seq<nat>): seq<byte>
    requires AllScalar(cs)
  {
    if cs == [] then [] else Utf8(cs[0]) + Utf8All(cs[1..])
  }

  function Low(b: byte): nat { b % 64 }

  /** The code point of the character at the front. */
  function CodePoint(s: seq<byte>): nat
    requires CharLen(s) > 0
  {
    if CharLen(s) == 1 then s[0]
    else if CharLen(s) == 2 then Low(s[0]) * 64 + Low(s[1])
    else if CharLen(s) == 3 then (Low(s[0]) % 16 * 64 + Low(s[1])) * 64 + Low(s[2])
    else ((Low(s[0]) % 8 * 64 + Low(s[1])) * 64 + Low(s[2])) * 64 + Low(s[3])
  }

  lemma Digit(hi: nat, lo: nat)
    requires lo < 64
    ensures (hi * 64 + lo) / 64 == hi && (hi * 64 + lo) % 64 == lo
  {
  }

  lemma {:induction false} TwoBytes(a: byte, b: byte)
    requires 0xC2 <= a <= 0xDF && Tail(b)
    ensures var c := Low(a) * 64 + Low(b); 0x80 <= c <= 0x7FF && Utf8(c) == [a, b]
  {
    Digit(a - 0xC0, b - 0x80);
  }

  lemma LowTail(b: byte)
    requires Tail(b)
    ensures Low(b) == b - 0x80
  {
  }

  lemma LowLead(a: byte)
    ensures 0xE0 <= a <= 0xEF ==> Low(a) % 16 == a - 0xE0
    ensures 0xF0 <= a <= 0xF4 ==> Low(a) % 8 == a - 0xF0
  {
  }

  lemma {:induction false} ThreeBytes(a: byte, b: byte, d: byte)
    requires 0xE0 <= a <= 0xEF && Tail(b) && Tail(d) && (a == 0xE0 ==> b >= 0xA0) && (a == 0xED ==> b <= 0x9F)
    ensures var c := (Low(a) % 16 * 64 + Low(b)) * 64 + Low(d); Scalar(c) && Utf8(c) == [a, b, d]
  {
    var x: nat, y: nat, z: nat := a - 0xE0, b - 0x80, d - 0x80;
    hide Low;
    LowLead(a);
    LowTail(b);
    LowTail(d);
    ThreeDigits(x, y, z);
  }

  lemma {:induction false} ThreeDigits(x: nat, y: nat, z: nat)
    requires x < 16 && y < 64 && z < 64 && (x == 0 ==> y >= 32) && (x == 13 ==> y <= 31)
    ensures var c := (x * 64 + y) * 64 + z;
            && 0x800 <= c <= 0xFFFF && Scalar(c) && c % 64 == z && c / 64 % 64 == y && c / 64 / 64 == x
  {
    Digit(x, y);
    Digit(x * 64 + y, z);
    var p := x * 64 + y;
    assert 32 <= p <= 1023 && !(864 <= p <= 895);
  }

  lemma {:induction false} FourBytes(a: byte, b: byte, d: byte, e: byte)
    requires 0xF0 <= a <= 0xF4 && Tail(b) && Tail(d) && Tail(e)
    requires (a == 0xF0 ==> b >= 0x90) && (a == 0xF4 ==> b <= 0x8F)
    ensures var c := ((Low(a) % 8 * 64 + Low(b)) * 64 + Low(d)) * 64 + Low(e); Scalar(c) && Utf8(c) == [a, b, d, e]
  {
    var x: nat, y: nat, z: nat, w: nat := a - 0xF0, b - 0x80, d - 0x80, e - 0x80;
    hide Low;
    LowLead(a);
    LowTail(b);
    LowTail(d);
    LowTail(e);
    FourDigits(x, y, z, w);
  }

  lemma {:induction false} FourDigits(x: nat, y: nat, z: nat, w: nat)
    requires x <= 4 && y < 64 && z < 64 && w < 64 && (x == 0 ==> y >= 16) && (x == 4 ==> y <= 15)
    ensures var c := ((x * 64 + y) * 64 + z) * 64 + w;
            && 0x10000 <= c <= 0x10FFFF
            && c % 64 == w && c / 64 % 64 == z && c / 64 / 64 % 64 == y && c / 64 / 64 / 64 == x
  {
    Digit(x, y);
    Digit(x * 64 + y, z);
    Digit((x * 64 + y) * 64 + z, w);
    var p := x * 64 + y;
    assert 16 <= p <= 271;
    var q := p * 64 + z;
    assert 1024 <= q <= 17407;
  }

  lemma {:induction false} FrontIsScalar(s: seq<byte>)
    requires CharLen(s) > 0
    ensures Scalar(CodePoint(s)) && Utf8(CodePoint(s)) == s[..CharLen(s)]
  {
    hide Utf8, Low;
    var n := CharLen(s);
    if n == 1 {
      OneScalar(s[0]);
      assert s[..1] == [s[0]];
    } else if n == 2 {
      TwoBytes(s[0], s[1]);
      assert s[..2] == [s[0], s[1]];
    } else if n == 3 {
      ThreeBytes(s[0], s[1], s[2]);
      assert s[..3] == [s[0], s[1], s[2]];
    } else {
      FourBytes(s[0], s[1], s[2], s[3]);
      assert s[..4] == [s[0], s[1], s[2], s[3]];
    }
  }

  lemma OneScalar(b: byte)
    requires b <= 0x7F
    ensures Scalar(b) && Utf8(b) == [b]
  {
  }

  lemma {:induction false} ScalarIsFront(c: nat, rest: seq<byte>)
    requires Scalar(c)
    ensures CharLen(Utf8(c) + rest) == |Utf8(c)| > 0
  {
  }

  lemma {:induction false} Utf8AllValid(cs: seq<nat>)
    requires AllScalar(cs)
    ensures ValidUtf8(Utf8All(cs))
  {
    if cs != [] {
      Utf8AllValid(cs[1..]);
      hide CharLen, Utf8;
      var rest := Utf8All(cs[1..]);
      ScalarIsFront(cs[0], rest);
      assert (Utf8(cs[0]) + rest)[|Utf8(cs[0])|..] == rest;
    }
  }

  lemma {:induction false} ValidIsUtf8All(s: seq<byte>) returns (cs: seq<nat>)
    requires ValidUtf8(s)
    ensures AllScalar(cs) && Utf8All(cs) == s
    decreases |s|
  {
    if s == [] {
      cs := [];
    } else {
      hide CharLen, Utf8, Scalar, CodePoint;
      var n := CharLen(s);
      FrontIsScalar(s);
      var rest := ValidIsUtf8All(s[n..]);
      cs := [CodePoint(s)] + rest;
      Utf8Cons(CodePoint(s), rest);
      assert s == s[..n] + s[n..];
    }
  }

  lemma Utf8Cons(c: nat, cs: seq<nat>)
    requires Scalar(c) && AllScalar(cs)
    ensures AllScalar([c] + cs) && Utf8All([c] + cs) == Utf8(c) + Utf8All(cs)
  {
    hide Utf8, Scalar;
    assert ([c] + cs)[1..] == cs;
  }

  /** Text is valid exactly when it is the encoding of a sequence of Unicode scalar values. */
  lemma {:induction false} ValidUtf8Iff(s: seq<byte>)
    ensures ValidUtf8(s) <==> exists cs :: AllScalar(cs) && Utf8All(cs) == s
  {
    if ValidUtf8(s) { var cs := ValidIsUtf8All(s); }
    forall cs | AllScalar(cs) && Utf8All(cs) == s
      ensures ValidUtf8(s)
    {
      Utf8AllValid(cs);
    }
  }

  // ---- fields ----

  /** What a payload struct can hold in a field of this kind. */
  predicate Fits(k: Kind, v: Val) {
    match k
    case Fixed(w) => v.Num? && v.n < Pow256(w)
    case OneOf(limit) => v.Num? && v.n < limit && v.n < 256
    case Perms => v.Num? && v.n < 8
    case Text => v.Data? && |v.bytes| < Pow256(4) && ValidUtf8(v.bytes)
    case Blob => v.Data? && |v.bytes| < Pow256(4)
  }

  function EncodeField(k: Kind, v: Val): seq<byte> {
    match v
    case Num(n) => BE(if k.Fixed? then k.width else 1, n)
    case Data(b) => BE(4, |b|) + b
  }

  datatype Read<T> = Fail | Got(val: T, rest: seq<byte>)

  function ReadBytes(s: seq<byte>, n: nat): (r: Read<seq<byte>>)
    ensures r.Got? ==> s == r.val + r.rest && |r.val| == n
  {
    if |s| < n then Fail else Got(s[..n], s[n..])
  }

  function ReadData(s: seq<byte>): Read<seq<byte>> {
    var len := ReadBytes(s, 4);
    if len.Fail? then Fail else ReadBytes(len.rest, FromBE(len.val))
  }

  function DecodeField(k: Kind, s: seq<byte>): Read<Val> {
    match k
    case Fixed(w) => var r := ReadBytes(s, w); if r.Fail? then Fail else Got(Num(FromBE(r.val)), r.rest)
    case OneOf(limit) => if s == [] || s[0] >= limit then Fail else Got(Num(s[0]), s[1..])
    case Perms => if s == [] then Fail else Got(Num(s[0] % 8), s[1..])
    case Text =>
      var r := ReadData(s);
      if r.Fail? || !ValidUtf8(r.val) then Fail else Got(Data(r.val), r.rest)
    case Blob => var r := ReadData(s); if r.Fail? then Fail else Got(Data(r.val), r.rest)
  }

  lemma ReadBack(a: seq<byte>, rest: seq<byte>)
    ensures ReadBytes(a + rest, |a|) == Got(a, rest)
  {
    assert (a + rest)[..|a|] == a && (a + rest)[|a|..] == rest;
  }

  lemma {:induction false} DataReadBack(b: seq<byte>, rest: seq<byte>)
    requires |b| < Pow256(4)
    ensures ReadData(BE(4, |b|) + b + rest) == Got(b, rest)
  {
    hide BE, FromBE, Pow256, ReadBytes;
    assert BE(4, |b|) + b + rest == BE(4, |b|) + (b + rest);
    ReadBack(BE(4, |b|), b + rest);
    FromBEofBE(4, |b|);
    ReadBack(b, rest);
  }

  lemma OneByte(n: nat)
    requires n < 256
    ensures BE(1, n) == [n]
  {
    assert BE(0, n / 256) == [];
  }

  lemma {:induction false} FieldReadBack(k: Kind, v: Val, rest: seq<byte>)
    requires Fits(k, v)
    ensures DecodeField(k, EncodeField(k, v) + rest) == Got(v, rest)
  {
    hide BE, FromBE, Pow256, ReadBytes, ReadData, ValidUtf8;
    match k {
      case Fixed(w) =>
        ReadBack(BE(w, v.n), rest);
        FromBEofBE(w, v.n);
      case OneOf(_) => OneByte(v.n);
      case Perms => OneByte(v.n);
      case Text => DataReadBack(v.bytes, rest);
      case Blob => DataReadBack(v.bytes, rest);
    }
  }

  // ---- records ----

  predicate RecordFits(ks: seq<Kind>, vs: seq<Val>) {
    |ks| == |vs| && forall i :: 0 <= i < |ks| ==> Fits(ks[i], vs[i])
  }

  function EncodeRecord(ks: seq<Kind>, vs: seq<Val>): seq<byte>
    requires |ks| == |vs|
  {
    if ks == [] then [] else EncodeField(ks[0], vs[0]) + EncodeRecord(ks[1..], vs[1..])
  }

  function DecodeRecord(ks: seq<Kind>, s: seq<byte>): Read<seq<Val>> {
    if ks == [] then Got([], s)
    else
      var f := DecodeField(ks[0], s);
      if f.Fail? then Fail
      else
        var r := DecodeRecord(ks[1..], f.rest);
        if r.Fail? then Fail else Got([f.val] + r.val, r.rest)
  }

  lemma {:induction false} RecordReadBack(ks: seq<Kind>, vs: seq<Val>, rest: seq<byte>)
    requires RecordFits(ks, vs)
    ensures DecodeRecord(ks, EncodeRecord(ks, vs) + rest) == Got(vs, rest)
    decreases |ks|
  {
    if ks == [] {
      assert EncodeRecord(ks, vs) + rest == rest;
    } else {
      hide Fits, EncodeField, DecodeField;
      var tail := EncodeRecord(ks[1..], vs[1..]) + rest;
      assert EncodeRecord(ks, vs) + rest == EncodeField(ks[0], vs[0]) + tail;
      FieldReadBack(ks[0], vs[0], tail);
      RecordReadBack(ks[1..], vs[1..], rest);
      assert [vs[0]] + vs[1..] == vs;
    }
  }

  // ---- lists of records ----

  function EncodeEntry(ks: seq<Kind>, prefixed: bool, vs: seq<Val>): seq<byte>
    requires |ks| == |vs|
  {
    var r := EncodeRecord(ks, vs);
    if prefixed then BE(4, |r|) + r else r
  }

  /** A prefixed entry is cut out by its length and decoded alone; bytes left over in it are ignored. */
  function DecodeEntry(ks: seq<Kind>, prefixed: bool, s: seq<byte>): Read<seq<Val>> {
    if !prefixed then DecodeRecord(ks, s)
    else
      var d := ReadData(s);
      if d.Fail? then Fail
      else
        var r := DecodeRecord(ks, d.val);
        if r.Fail? then Fail else Got(r.val, d.rest)
  }

  predicate EntryFits(ks: seq<Kind>, vs: seq<Val>) {
    RecordFits(ks, vs) && |EncodeRecord(ks, vs)| < Pow256(4)
  }

  lemma {:induction false} EntryReadBack(ks: seq<Kind>, prefixed: bool, vs: seq<Val>, rest: seq<byte>)
    requires EntryFits(ks, vs)
    ensures DecodeEntry(ks, prefixed, EncodeEntry(ks, prefixed, vs) + rest) == Got(vs, rest)
  {
    hide BE, Pow256, Fits, ReadData, EncodeRecord, DecodeRecord;
    var r := EncodeRecord(ks, vs);
    if prefixed {
      DataReadBack(r, rest);
      RecordReadBack(ks, vs, []);
      assert r + [] == r;
    } else {
      RecordReadBack(ks, vs, rest);
    }
  }

  function EncodeEntries(ks: seq<Kind>, prefixed: bool, recs: seq<seq<Val>>): seq<byte>
    requires forall i :: 0 <= i < |recs| ==> |recs[i]| == |ks|
  {
    if recs == [] then [] else EncodeEntry(ks, prefixed, recs[0]) + EncodeEntries(ks, prefixed, recs[1..])
  }

  function DecodeEntries(ks: seq<Kind>, prefixed: bool, count: nat, s: seq<byte>): Read<seq<seq<Val>>> {
    if count == 0 then Got([], s)
    else
      var e := DecodeEntry(ks, prefixed, s);
      if e.Fail? then Fail
      else
        var r := DecodeEntries(ks, prefixed, count - 1, e.rest);
        if r.Fail? then Fail else Got([e.val] + r.val, r.rest)
  }

  lemma {:induction false} EntriesCons(
      ks: seq<Kind>, prefixed: bool, rec: seq<Val>, recs: seq<seq<Val>>, s: seq<byte>, rest: seq<byte>)
    requires EntryFits(ks, rec) && DecodeEntries(ks, prefixed, |recs|, s) == Got(recs, rest)
    ensures DecodeEntries(ks, prefixed, |recs| + 1, EncodeEntry(ks, prefixed, rec) + s) == Got([rec] + recs, rest)
  {
    EntryReadBack(ks, prefixed, rec, s);
    hide EncodeEntry, DecodeEntry, EntryFits, RecordFits;
  }

  lemma {:induction false} EntriesReadBack(ks: seq<Kind>, prefixed: bool, recs: seq<seq<Val>>, rest: seq<byte>)
    requires forall i :: 0 <= i < |recs| ==> |recs[i]| == |ks| && EntryFits(ks, recs[i])
    ensures DecodeEntries(ks, prefixed, |recs|, EncodeEntries(ks, prefixed, recs) + rest) == Got(recs, rest)
    decreases |recs|
  {
    hide EncodeEntry, EntryFits;
    if recs == [] {
      assert EncodeEntries(ks, prefixed, recs) + rest == rest;
    } else {
      EntriesReadBack(ks, prefixed, recs[1..], rest);
      hide DecodeEntries;
      var tail := EncodeEntries(ks, prefixed, recs[1..]);
      EntriesCons(ks, prefixed, recs[0], recs[1..], tail + rest, rest);
      assert [recs[0]] + recs[1..] == recs;
      assert EncodeEntry(ks, prefixed, recs[0]) + tail + rest == EncodeEntry(ks, prefixed, recs[0]) + (tail + rest);
    }
  }

  // ---- payloads and frames ----

  /** A message the sender can build: a known type, fields that fit, list counts within u32. */
  predicate WellFormed(m: Msg) {
    match LayoutOf(m.tag)
    case None => false
    case Some(One(ks)) => m.body.Single? && RecordFits(ks, m.body.vals)
    case Some(Many(ks, _)) =>
      && m.body.Batch? && |m.body.records| < Pow256(4)
      && forall i :: 0 <= i < |m.body.records| ==> EntryFits(ks, m.body.records[i])
  }

  function Payload(m: Msg): seq<byte>
    requires WellFormed(m)
  {
    match LayoutOf(m.tag).value
    case One(ks) => EncodeRecord(ks, m.body.vals)
    case Many(ks, prefixed) => BE(4, |m.body.records|) + EncodeEntries(ks, prefixed, m.body.records)
  }

  /** Bytes after the last field are ignored. */
  function DecodePayload(tag: byte, s: seq<byte>): Option<Msg> {
    match LayoutOf(tag)
    case None => None
    case Some(One(ks)) =>
      var r := DecodeRecord(ks, s);
      if r.Fail? then None else Some(Msg(tag, Single(r.val)))
    case Some(Many(ks, prefixed)) =>
      var n := ReadBytes(s, 4);
      if n.Fail? then None
      else
        var r := DecodeEntries(ks, prefixed, FromBE(n.val), n.rest);
        if r.Fail? then None else Some(Msg(tag, Batch(r.val)))
  }

  lemma {:induction false} PayloadReadBack(m: Msg)
    requires WellFormed(m)
    ensures DecodePayload(m.tag, Payload(m)) == Some(m)
  {
    hide LayoutOf, BE, FromBE, Pow256, Fits, EncodeRecord, DecodeRecord, EncodeEntries, DecodeEntries, ReadBytes;
    match LayoutOf(m.tag).value {
      case One(ks) =>
        RecordReadBack(ks, m.body.vals, []);
        assert Payload(m) + [] == Payload(m);
      case Many(ks, prefixed) =>
        var es := EncodeEntries(ks, prefixed, m.body.records);
        ReadBack(BE(4, |m.body.records|), es);
        FromBEofBE(4, |m.body.records|);
        EntriesReadBack(ks, prefixed, m.body.records, []);
        assert es + [] == es;
    }
  }

  lemma {:induction false} FieldFits(k: Kind, s: seq<byte>)
    requires DecodeField(k, s).Got?
    ensures Fits(k, DecodeField(k, s).val)
  {
    hide Pow256;
  }

  lemma {:induction false} DecodedRecordFits(ks: seq<Kind>, s: seq<byte>)
    requires DecodeRecord(ks, s).Got?
    ensures RecordFits(ks, DecodeRecord(ks, s).val)
    decreases |ks|
  {
    hide DecodeField, Fits;
    if ks != [] {
      FieldFits(ks[0], s);
      DecodedRecordFits(ks[1..], DecodeField(ks[0], s).rest);
    }
  }

  lemma {:induction false} DecodedEntriesFit(ks: seq<Kind>, prefixed: bool, count: nat, s: seq<byte>, i: nat)
    requires DecodeEntries(ks, prefixed, count, s).Got?
    ensures |DecodeEntries(ks, prefixed, count, s).val| == count
    ensures i < count ==> RecordFits(ks, DecodeEntries(ks, prefixed, count, s).val[i])
    decreases count
  {
    hide ReadData, DecodeRecord, RecordFits;
    if count > 0 {
      var e := DecodeEntry(ks, prefixed, s);
      DecodedRecordFits(ks, if prefixed then ReadData(s).val else s);
      DecodedEntriesFit(ks, prefixed, count - 1, e.rest, if i > 0 then i - 1 else 0);
    }
  }

  /** Whatever decodes has a known type and fields within their ranges: enum bytes below their limits, three permission
      bits, UTF-8 text; a list has as many records as its count says. */
  lemma {:induction false} DecodedIsInRange(tag: byte, s: seq<byte>, i: nat)
    requires DecodePayload(tag, s).Some?
    ensures var m, layout := DecodePayload(tag, s).value, LayoutOf(tag);
            && m.tag == tag && layout.Some?
            && match layout.value
               case One(ks) => m.body.Single? && RecordFits(ks, m.body.vals)
               case Many(ks, _) =>
                 && m.body.Batch? && |s| >= 4 && |m.body.records| == FromBE(s[..4])
                 && (i < |m.body.records| ==> RecordFits(ks, m.body.records[i]))
  {
    hide LayoutOf, DecodeRecord, DecodeEntries, RecordFits, FromBE;
    match LayoutOf(tag).value {
      case One(ks) => DecodedRecordFits(ks, s);
      case Many(ks, prefixed) => DecodedEntriesFit(ks, prefixed, FromBE(s[..4]), s[4..], i);
    }
  }

  /** Length, type byte, payload. */
  function Frame(tag: byte, payload: seq<byte>): seq<byte> { BE(4, |payload|) + [tag] + payload }

  function DecodeFrame(buf: seq<byte>): Option<Msg> {
    if |buf| < 5 then None
    else
      var len := FromBE(buf[..4]);
      if |buf| < 5 + len then None else DecodePayload(buf[4], buf[5..5 + len])
  }

  function Encode(m: Msg): seq<byte>
    requires WellFormed(m)
  {
    Frame(m.tag, Payload(m))
  }

  lemma {:induction false} FrameParts(tag: byte, payload: seq<byte>, tail: seq<byte>)
    requires |payload| < Pow256(4)
    ensures var s := Frame(tag, payload) + tail;
            && |s| == 5 + |payload| + |tail| && FromBE(s[..4]) == |payload| && s[4] == tag
            && s[5..5 + |payload|] == payload && s[..5 + |payload|] == Frame(tag, payload)
            && s[5 + |payload|..] == tail
  {
    FromBEofBE(4, |payload|);
    hide BE, FromBE, Pow256;
    var s := Frame(tag, payload) + tail;
    assert s[..4] == BE(4, |payload|);
  }

  /** Every message that can be built decodes to itself. */
  lemma {:induction false} MessageRoundTrip(m: Msg)
    requires WellFormed(m) && |Payload(m)| < Pow256(4)
    ensures DecodeFrame(Encode(m)) == Some(m)
  {
    hide WellFormed, Payload, DecodePayload, Pow256, FromBE, Frame;
    FrameParts(m.tag, Payload(m), []);
    assert Frame(m.tag, Payload(m)) + [] == Frame(m.tag, Payload(m));
    PayloadReadBack(m);
  }

  // ---- the stream ----

  const MAX_PAYLOAD: nat := 1_000_000

  /** The reader: stops at the end of the stream, at a cut-off message and at a length above the limit; a message that
      does not decode is skipped. */
  function Segment(s: seq<byte>): seq<Msg>
    decreases |s|
  {
    if |s| < 4 then []
    else
      var len := FromBE(s[..4]);
      if len > MAX_PAYLOAD || |s| < 5 + len then []
      else
        var m := DecodeFrame(s[..5 + len]);
        (if m.Some? then [m.value] else []) + Segment(s[5 + len..])
  }

  lemma MaxFitsU32()
    ensures MAX_PAYLOAD < Pow256(4)
  {
    assert Pow256(1) == 256 && Pow256(2) == 65536 && Pow256(3) == 16777216;
  }

  /** Whatever the type byte and payload, a frame within the limit yields its message, or nothing, and the reader goes
      on right behind it. */
  lemma {:induction false} SegmentFrame(tag: byte, payload: seq<byte>, tail: seq<byte>)
    requires |payload| <= MAX_PAYLOAD
    ensures var m := DecodePayload(tag, payload);
            Segment(Frame(tag, payload) + tail) == (if m.Some? then [m.value] else []) + Segment(tail)
  {
    MaxFitsU32();
    FrameParts(tag, payload, tail);
    FrameParts(tag, payload, []);
    assert Frame(tag, payload) + [] == Frame(tag, payload);
    hide Frame, DecodePayload, Pow256, FromBE;
  }

  lemma {:induction false} SegmentOversized(tag: byte, payload: seq<byte>, tail: seq<byte>)
    requires MAX_PAYLOAD < |payload| < Pow256(4)
    ensures Segment(Frame(tag, payload) + tail) == []
  {
    FrameParts(tag, payload, tail);
    hide Frame, DecodePayload, Pow256, FromBE;
  }

  ghost predicate Sendable(ms: seq<Msg>) {
    forall i :: 0 <= i < |ms| ==> WellFormed(ms[i]) && |Payload(ms[i])| < Pow256(4)
  }

  function Stream(ms: seq<Msg>): seq<byte>
    requires forall i :: 0 <= i < |ms| ==> WellFormed(ms[i])
  {
    if ms == [] then [] else Encode(ms[0]) + Stream(ms[1..])
  }

  ghost predicate Small(ms: seq<Msg>)
    requires forall i :: 0 <= i < |ms| ==> WellFormed(ms[i])
  {
    forall i :: 0 <= i < |ms| ==> |Payload(ms[i])| <= 1_000_000
  }

  lemma {:induction false} StreamCons(m: Msg, s: seq<byte>)
    requires WellFormed(m) && |Payload(m)| <= MAX_PAYLOAD
    ensures Segment(Encode(m) + s) == [m] + Segment(s)
  {
    SegmentFrame(m.tag, Payload(m), s);
    PayloadReadBack(m);
    hide WellFormed, Payload, DecodePayload, Frame, Segment;
  }

  /** Reading back a stream of messages within the limit gives those messages, then whatever follows them. */
  lemma {:induction false} StreamReadBack(ms: seq<Msg>, tail: seq<byte>)
    requires Sendable(ms) && Small(ms)
    ensures Segment(Stream(ms) + tail) == ms + Segment(tail)
    decreases |ms|
  {
    hide WellFormed, Payload, Encode, Segment, Pow256;
    if ms == [] {
      assert Stream(ms) + tail == tail;
    } else {
      StreamReadBack(ms[1..], tail);
      var more := Stream(ms[1..]);
      StreamCons(ms[0], more + tail);
      assert Encode(ms[0]) + more + tail == Encode(ms[0]) + (more + tail);
      assert ms + Segment(tail) == [ms[0]] + (ms[1..] + Segment(tail));
    }
  }

  /** A stream cut off inside a message yields exactly the messages before it. */
  lemma {:induction false} CutStream(ms: seq<Msg>, m: Msg, n: nat)
    requires Sendable(ms) && Small(ms) && WellFormed(m) && |Payload(m)| < Pow256(4) && n < |Encode(m)|
    ensures Segment(Stream(ms) + Encode(m)[..n]) == ms
  {
    StreamReadBack(ms, Encode(m)[..n]);
    FrameParts(m.tag, Payload(m), []);
    assert Frame(m.tag, Payload(m)) + [] == Frame(m.tag, Payload(m));
    hide WellFormed, Payload, DecodePayload, Frame, Pow256, FromBE;
    var s := Encode(m)[..n];
    if n >= 4 { assert s[..4] == Encode(m)[..4]; }
  }

  /** The reader returns exactly the messages sent if and only if every payload is within the limit: a larger one ends
      the connection's reading. */
  lemma {:induction false} StreamExactIff(ms: seq<Msg>)
    requires Sendable(ms)
    ensures Segment(Stream(ms)) == ms <==> Small(ms)
  {
    assert Stream(ms) + [] == Stream(ms);
    if Small(ms) {
      StreamReadBack(ms, []);
      assert ms + [] == ms;
    } else {
      StopsAtLarge(ms);
    }
  }

  /** A FETCH_RESP that carries one byte too many. */
  function LargeResponse(): Msg {
    Msg(0x18, Single([Num(0), Num(0), Data(seq(MAX_PAYLOAD + 1, _ => 0)), Num(0)]))
  }

  /** Such a message is well-formed, and the reader that meets it yields nothing from there on. */
  lemma {:induction false} LargeResponseStops(tail: seq<byte>)
    ensures WellFormed(LargeResponse()) && Segment(Encode(LargeResponse()) + tail) == []
  {
    var vs := LargeResponse().body.vals;
    var ks := [Fixed(8), Fixed(8), Blob, Fixed(4)];
    assert LayoutOf(0x18) == Some(One(ks));
    LargeFits();
    assert RecordFits(ks, vs);
    hide EncodeField, BE, Fits, Segment;
    LargeSize(ks, vs);
    SegmentOversized(0x18, Payload(LargeResponse()), tail);
  }

  lemma LargeFits()
    ensures Pow256(4) == 0x1_0000_0000 && Pow256(8) > 0
  {
    assert Pow256(1) == 256 && Pow256(2) == 65536 && Pow256(3) == 16777216;
  }

  lemma {:induction false} LargeSize(ks: seq<Kind>, vs: seq<Val>)
    requires ks == [Fixed(8), Fixed(8), Blob, Fixed(4)]
    requires vs == [Num(0), Num(0), Data(seq(MAX_PAYLOAD + 1, _ => 0)), Num(0)]
    ensures MAX_PAYLOAD < |EncodeRecord(ks, vs)| < Pow256(4)
  {
    LargeFits();
    hide BE, Pow256, EncodeRecord;
    OneMoreField(ks, vs);
    OneMoreField(ks[1..], vs[1..]);
    OneMoreField(ks[2..], vs[2..]);
    OneMoreField(ks[3..], vs[3..]);
    assert ks[1..][1..] == ks[2..] && vs[1..][1..] == vs[2..];
    assert ks[2..][1..] == ks[3..] && vs[2..][1..] == vs[3..];
    assert EncodeRecord(ks[3..][1..], vs[3..][1..]) == [] by { NoFields(ks[3..][1..], vs[3..][1..]); }
  }

  lemma OneMoreField(ks: seq<Kind>, vs: seq<Val>)
    requires |ks| == |vs| > 0
    ensures |EncodeRecord(ks, vs)| == |EncodeField(ks[0], vs[0])| + |EncodeRecord(ks[1..], vs[1..])|
  {
    hide EncodeField;
  }

  lemma NoFields(ks: seq<Kind>, vs: seq<Val>)
    requires ks == [] && vs == []
    ensures EncodeRecord(ks, vs) == []
  {
  }

  lemma {:induction false} StopsAtLarge(ms: seq<Msg>)
    requires Sendable(ms) && !Small(ms)
    ensures |Segment(Stream(ms))| < |ms|
    decreases |ms|
  {
    hide WellFormed, Payload, DecodePayload, Frame, Segment, Pow256;
    var rest := Stream(ms[1..]);
    assert Stream(ms) == Frame(ms[0].tag, Payload(ms[0])) + rest;
    if |Payload(ms[0])| > MAX_PAYLOAD {
      SegmentOversized(ms[0].tag, Payload(ms[0]), rest);
    } else {
      SegmentFrame(ms[0].tag, Payload(ms[0]), rest);
      var i :| 0 <= i < |ms| && |Payload(ms[i])| > MAX_PAYLOAD;
      assert ms[1..][i - 1] == ms[i];
      StopsAtLarge(ms[1..]);
    }
  }

  // ---- the loops ----

  /** The reader: takes length, type and payload off the stream until it has to stop. */
  method ReadLoop(stream: seq<byte>) returns (msgs: seq<Msg>)
    ensures msgs == Segment(stream)
  {
    hide DecodeFrame, FromBE;
    msgs := [];
    var s := stream;
    while |s| >= 4
      invariant Segment(stream) == msgs + Segment(s)
      decreases |s|
    {
      var len := FromBE(s[..4]);
      if len > MAX_PAYLOAD { return; }
      if |s| < 5 + len { return; }
      var m := DecodeFrame(s[..5 + len]);
      if m.Some? { msgs := msgs + [m.value]; }
      s := s[5 + len..];
    }
  }

  /** Encodes a list payload entry by entry into a growing buffer. */
  method EncodeList(ks: seq<Kind>, prefixed: bool, recs: seq<seq<Val>>) returns (buf: seq<byte>)
    requires forall i :: 0 <= i < |recs| ==> |recs[i]| == |ks|
    ensures buf == BE(4, |recs|) + EncodeEntries(ks, prefixed, recs)
  {
    hide EncodeEntry, BE;
    ghost var all := BE(4, |recs|) + EncodeEntries(ks, prefixed, recs);
    buf := BE(4, |recs|);
    for i := 0 to |recs|
      invariant buf + EncodeEntries(ks, prefixed, recs[i..]) == all
    {
      assert recs[i..][1..] == recs[i + 1..];
      buf := buf + EncodeEntry(ks, prefixed, recs[i]);
    }
  }

  /** Decodes a list payload with a count loop over a moving cursor. */
  method DecodeList(ks: seq<Kind>, prefixed: bool, s: seq<byte>) returns (r: Option<seq<seq<Val>>>)
    ensures var n := ReadBytes(s, 4);
            var d := if n.Fail? then Fail else DecodeEntries(ks, prefixed, FromBE(n.val), n.rest);
            r == if d.Fail? then None else Some(d.val)
  {
    hide DecodeEntry, FromBE;
    if |s| < 4 { return None; }
    var count := FromBE(s[..4]);
    var cur, recs := s[4..], [];
    ghost var d := DecodeEntries(ks, prefixed, count, cur);
    for i := 0 to count
      invariant d.Fail? == DecodeEntries(ks, prefixed, count - i, cur).Fail?
      invariant d.Got? ==> d.val == recs + DecodeEntries(ks, prefixed, count - i, cur).val
    {
      var e := DecodeEntry(ks, prefixed, cur);
      if e.Fail? { return None; }
      recs, cur := recs + [e.val], e.rest;
    }
    assert recs + [] == recs;
    r := Some(recs);
  }
}
