/** Data-plane frame format: the 32-byte header, the DATA extension header and the ACK payload,
    and the in-place patch by which the transport stamps a sequence number on an encoded frame. */
module FrameCodec {
  import opened Bytes

  const MAGIC: nat := 0x5542_5459
  const VERSION: nat := 1
  const FRAME_HEADER_SIZE: nat := 32
  const DATA_EXT_HEADER_SIZE: nat := 48
  const DATA_EXT_HEADER_IMM_SIZE: nat := 56

  // FrameFlags has seven defined bits (mask 0x7f), ExtFlags three (mask 0x7).
  const FLAG_LIMIT: nat := 128
  const EXT_FLAG_LIMIT: nat := 8
  const HAS_SACK: nat := 32

  datatype FrameType = Data | Ack | Credit

  datatype Verb =
    ReadReq | ReadResp | Write | AtomicCas | AtomicFaa | Send | WriteImm | AtomicCasResp | AtomicFaaResp

  datatype FrameHeader = FrameHeader(
    magic: nat, version: nat, ftype: FrameType, flags: nat, src: nat, dst: nat,
    reserved: nat, streamSeq: nat, payloadLen: nat, crc: nat)

  datatype ExtHeader = ExtHeader(
    verb: Verb, extFlags: nat, mrHandle: nat, jettySrc: nat, jettyDst: nat, reqId: nat,
    fragId: nat, fragIndex: nat, fragTotal: nat, ubAddr: nat, imm: Option<nat>)

  datatype Frame = Frame(header: FrameHeader, ext: Option<ExtHeader>, payload: seq<byte>)

  datatype Error = TooShort | BadMagic | BadVersion | BadType | ExtTooShort | BadVerb | ShortRead | AckTooShort

  datatype Result<+T> = Ok(value: T) | Err(error: Error)

  function TypeByte(t: FrameType): (b: byte)
    ensures TypeOf(b) == Some(t)
  {
    match t
    case Data => 1
    case Ack => 2
    case Credit => 3
  }

  function TypeOf(b: nat): (t: Option<FrameType>)
    ensures t.Some? <==> 1 <= b <= 3
  {
    if b == 1 then Some(Data) else if b == 2 then Some(Ack) else if b == 3 then Some(Credit) else None
  }

  function VerbByte(v: Verb): (b: byte)
    ensures VerbOf(b) == Some(v)
  {
    match v
    case ReadReq => 1
    case ReadResp => 2
    case Write => 3
    case AtomicCas => 4
    case AtomicFaa => 5
    case Send => 6
    case WriteImm => 7
    case AtomicCasResp => 8
    case AtomicFaaResp => 9
  }

  function VerbOf(b: nat): (v: Option<Verb>)
    ensures v.Some? <==> 1 <= b <= 9
  {
    match b
    case 1 => Some(ReadReq)
    case 2 => Some(ReadResp)
    case 3 => Some(Write)
    case 4 => Some(AtomicCas)
    case 5 => Some(AtomicFaa)
    case 6 => Some(Send)
    case 7 => Some(WriteImm)
    case 8 => Some(AtomicCasResp)
    case 9 => Some(AtomicFaaResp)
    case _ => None
  }

  predicate HasImm(extFlags: nat) { extFlags % 2 == 1 }

  /** `flags | ACK_REQ`, ACK_REQ being bit 0. */
  function SetAckReq(flags: nat): nat { if flags % 2 == 1 then flags else flags + 1 }

  // ---- encoding ----

  function HeaderFields(h: FrameHeader): seq<Field> {
    [Field(4, h.magic), Field(1, h.version), Field(1, TypeByte(h.ftype)), Field(2, h.flags), Field(2, h.src),
     Field(2, h.dst), Field(4, h.reserved), Field(8, h.streamSeq), Field(4, h.payloadLen), Field(4, h.crc)]
  }

  function ExtFields(e: ExtHeader): seq<Field> {
    [Field(1, VerbByte(e.verb)), Field(1, e.extFlags), Field(2, 0), Field(4, e.mrHandle), Field(4, e.jettySrc),
     Field(4, e.jettyDst), Field(8, e.reqId), Field(4, e.fragId), Field(2, e.fragIndex), Field(2, e.fragTotal),
     Field(16, e.ubAddr)]
  }

  function EncodeImm(imm: Option<nat>): seq<byte> {
    match imm
    case Some(v) => BE(8, v)
    case None => []
  }

  function EncodeExt(ext: Option<ExtHeader>): seq<byte> {
    match ext
    case Some(e) => Pack(ExtFields(e)) + EncodeImm(e.imm)
    case None => []
  }

  function Encode(f: Frame): seq<byte> {
    Pack(HeaderFields(f.header)) + EncodeExt(f.ext) + f.payload
  }

  // ---- decoding: total on every byte string ----

  /** The `w` bytes at cursor position `pos`. */
  function U(b: seq<byte>, pos: nat, w: nat): nat
    requires pos + w <= |b|
  {
    FromBE(b[pos..pos + w])
  }

  function Decode(b: seq<byte>): Result<Frame> {
    match DecodeHeader(b)
    case Err(e) => Err(e)
    case Ok(h) => DecodeBody(h, b[FRAME_HEADER_SIZE..])
  }

  function DecodeHeader(b: seq<byte>): (r: Result<FrameHeader>)
    ensures r.Ok? ==> |b| >= FRAME_HEADER_SIZE
  {
    if |b| < FRAME_HEADER_SIZE then Err(TooShort)
    else if U(b, 0, 4) != MAGIC then Err(BadMagic)
    else if U(b, 4, 1) != VERSION then Err(BadVersion)
    else
      match TypeOf(U(b, 5, 1))
      case None => Err(BadType)
      case Some(t) =>
        Ok(FrameHeader(U(b, 0, 4), U(b, 4, 1), t, U(b, 6, 2) % FLAG_LIMIT, U(b, 8, 2), U(b, 10, 2),
                       U(b, 12, 4), U(b, 16, 8), U(b, 24, 4), U(b, 28, 4)))
  }

  /** What follows the generic header: an extension header on DATA frames, then the payload. */
  function DecodeBody(h: FrameHeader, rest: seq<byte>): Result<Frame> {
    if h.ftype != Data then Ok(Frame(h, None, rest))
    else
      match DecodeExt(rest)
      case Err(e) => Err(e)
      case Ok(x) => Ok(Frame(h, Some(x), rest[ExtSize(x)..]))
  }

  function ExtSize(x: ExtHeader): nat {
    if x.imm.Some? then DATA_EXT_HEADER_IMM_SIZE else DATA_EXT_HEADER_SIZE
  }

  function DecodeExt(b: seq<byte>): (r: Result<ExtHeader>)
    ensures r.Ok? ==> ExtSize(r.value) <= |b| && (r.value.imm.Some? <==> HasImm(r.value.extFlags))
  {
    if |b| < DATA_EXT_HEADER_SIZE then Err(ExtTooShort)
    else
      match VerbOf(U(b, 0, 1))
      case None => Err(BadVerb)
      case Some(v) =>
        var fl := U(b, 1, 1) % EXT_FLAG_LIMIT;
        if HasImm(fl) && |b| < DATA_EXT_HEADER_IMM_SIZE then Err(ShortRead)
        else
          var imm := if HasImm(fl) then Some(U(b, 48, 8)) else None;
          Ok(ExtHeader(v, fl, U(b, 4, 4), U(b, 8, 4), U(b, 12, 4), U(b, 16, 8), U(b, 24, 4), U(b, 28, 2),
                       U(b, 30, 2), U(b, 32, 16), imm))
  }

  // ---- which frames survive the round trip ----

  /** Every field fits its width (the source's field types) and only defined flag bits are set. */
  predicate Sized(f: Frame) {
    var h := f.header;
    && h.magic < Pow256(4) && h.version < Pow256(1) && h.flags < FLAG_LIMIT && h.src < Pow256(2)
    && h.dst < Pow256(2) && h.reserved < Pow256(4) && h.streamSeq < Pow256(8) && h.payloadLen < Pow256(4)
    && h.crc < Pow256(4)
    && (f.ext.Some? ==> SizedExt(f.ext.value))
  }

  predicate SizedExt(e: ExtHeader) {
    && e.extFlags < EXT_FLAG_LIMIT && e.mrHandle < Pow256(4) && e.jettySrc < Pow256(4) && e.jettyDst < Pow256(4)
    && e.reqId < Pow256(8) && e.fragId < Pow256(4) && e.fragIndex < Pow256(2) && e.fragTotal < Pow256(2)
    && e.ubAddr < Pow256(16) && (e.imm.Some? ==> e.imm.value < Pow256(8))
  }

  /** Current magic and version, an extension header exactly on DATA frames, `imm` exactly under HAS_IMM. */
  predicate Consistent(f: Frame) {
    && f.header.magic == MAGIC && f.header.version == VERSION
    && (f.ext.Some? <==> f.header.ftype == Data)
    && (f.ext.Some? ==> (f.ext.value.imm.Some? <==> HasImm(f.ext.value.extFlags)))
  }

  lemma {:induction false} FieldReads(fs: seq<Field>, rest: seq<byte>, i: nat, o: nat, w: nat)
    requires i < |fs| && o == Off(fs, i) && w == fs[i].w && fs[i].v < Pow256(w)
    ensures o + w <= |Pack(fs) + rest|
    ensures U(Pack(fs) + rest, o, w) == fs[i].v
  {
    PackAt(fs, i);
    FromBEofBE(w, fs[i].v);
    assert (Pack(fs) + rest)[o..o + w] == Pack(fs)[o..o + w];
  }

  lemma {:induction false} HeaderReads(h: FrameHeader, rest: seq<byte>)
    requires Sized(Frame(h, None, []))
    ensures var b := Pack(HeaderFields(h)) + rest;
            && |b| == 32 + |rest| && b[32..] == rest
            && U(b, 0, 4) == h.magic && U(b, 4, 1) == h.version && U(b, 5, 1) == TypeByte(h.ftype)
            && U(b, 6, 2) == h.flags && U(b, 8, 2) == h.src && U(b, 10, 2) == h.dst && U(b, 12, 4) == h.reserved
            && U(b, 16, 8) == h.streamSeq && U(b, 24, 4) == h.payloadLen && U(b, 28, 4) == h.crc
  {
    var fs := HeaderFields(h);
    assert Off(fs, 10) == 32;
    FieldReads(fs, rest, 0, 0, 4);
    FieldReads(fs, rest, 1, 4, 1);
    FieldReads(fs, rest, 2, 5, 1);
    FieldReads(fs, rest, 3, 6, 2);
    FieldReads(fs, rest, 4, 8, 2);
    FieldReads(fs, rest, 5, 10, 2);
    FieldReads(fs, rest, 6, 12, 4);
    FieldReads(fs, rest, 7, 16, 8);
    FieldReads(fs, rest, 8, 24, 4);
    FieldReads(fs, rest, 9, 28, 4);
  }

  lemma {:induction false} ExtReads(e: ExtHeader, rest: seq<byte>)
    requires SizedExt(e)
    ensures var b := Pack(ExtFields(e)) + rest;
            && |b| == 48 + |rest| && b[48..] == rest
            && U(b, 0, 1) == VerbByte(e.verb) && U(b, 1, 1) == e.extFlags && U(b, 4, 4) == e.mrHandle
            && U(b, 8, 4) == e.jettySrc && U(b, 12, 4) == e.jettyDst && U(b, 16, 8) == e.reqId
            && U(b, 24, 4) == e.fragId && U(b, 28, 2) == e.fragIndex && U(b, 30, 2) == e.fragTotal
            && U(b, 32, 16) == e.ubAddr
  {
    var fs := ExtFields(e);
    assert Off(fs, 11) == 48;
    FieldReads(fs, rest, 0, 0, 1);
    FieldReads(fs, rest, 1, 1, 1);
    FieldReads(fs, rest, 3, 4, 4);
    FieldReads(fs, rest, 4, 8, 4);
    FieldReads(fs, rest, 5, 12, 4);
    FieldReads(fs, rest, 6, 16, 8);
    FieldReads(fs, rest, 7, 24, 4);
    FieldReads(fs, rest, 8, 28, 2);
    FieldReads(fs, rest, 9, 30, 2);
    FieldReads(fs, rest, 10, 32, 16);
  }

  /** Decoding an encoded extension header: exact when `imm` agrees with the flag, never equal otherwise. */
  lemma {:induction false} ExtRoundTrip(e: ExtHeader, rest: seq<byte>)
    requires SizedExt(e)
    ensures var r := DecodeExt(EncodeExt(Some(e)) + rest);
            if e.imm.Some? <==> HasImm(e.extFlags)
            then r == Ok(e) && (EncodeExt(Some(e)) + rest)[ExtSize(e)..] == rest
            else r != Ok(e)
  {
    hide Pack, FromBE, BE, Pow256, ExtFields;
    var tail := EncodeImm(e.imm) + rest;
    assert EncodeExt(Some(e)) + rest == Pack(ExtFields(e)) + tail;
    ExtReads(e, tail);
    ImmReads(Pack(ExtFields(e)), e.imm, rest);
  }

  lemma {:induction false} ImmReads(x: seq<byte>, imm: Option<nat>, rest: seq<byte>)
    requires |x| == 48 && (imm.Some? ==> imm.value < Pow256(8))
    ensures var b := x + (EncodeImm(imm) + rest);
            if imm.Some? then |b| >= 56 && U(b, 48, 8) == imm.value && b[56..] == rest else b[48..] == rest
  {
    hide BE, FromBE, Pow256;
    if imm.Some? {
      FromBEofBE(8, imm.value);
      MiddleOf(x, BE(8, imm.value), rest);
    } else {
      MiddleOf(x, [], rest);
    }
  }

  lemma MiddleOf(x: seq<byte>, e: seq<byte>, rest: seq<byte>)
    ensures var b := x + (e + rest);
            |b| == |x| + |e| + |rest| && b[|x|..|x| + |e|] == e && b[|x| + |e|..] == rest
  {
  }

  lemma {:induction false} HeaderRoundTrip(h: FrameHeader, rest: seq<byte>)
    requires Sized(Frame(h, None, []))
    ensures var b := Pack(HeaderFields(h)) + rest;
            && |b| == 32 + |rest| && b[32..] == rest
            && (DecodeHeader(b) == Ok(h) <==> h.magic == MAGIC && h.version == VERSION)
            && (DecodeHeader(b).Ok? ==> DecodeHeader(b) == Ok(h))
  {
    HeaderReads(h, rest);
  }

  lemma {:induction false} BodyRoundTrip(f: Frame)
    requires f.ext.Some? ==> SizedExt(f.ext.value)
    requires f.header.magic == MAGIC && f.header.version == VERSION
    ensures DecodeBody(f.header, EncodeExt(f.ext) + f.payload) == Ok(f) <==> Consistent(f)
  {
    if f.ext.Some? {
      ExtRoundTrip(f.ext.value, f.payload);
    } else {
      assert EncodeExt(f.ext) + f.payload == f.payload;
    }
  }

  /** A sized frame decodes back to itself exactly when it is consistent. */
  lemma {:induction false} RoundTrip(f: Frame)
    requires Sized(f)
    ensures Decode(Encode(f)) == Ok(f) <==> Consistent(f)
  {
    var tail := EncodeExt(f.ext) + f.payload;
    assert Encode(f) == Pack(HeaderFields(f.header)) + tail;
    HeaderRoundTrip(f.header, tail);
    if f.header.magic == MAGIC && f.header.version == VERSION {
      BodyRoundTrip(f);
    }
  }

  /** No undefined flag bit and no reserved byte is set. */
  predicate Canonical(b: seq<byte>)
    requires Decode(b).Ok?
  {
    && U(b, 6, 2) < FLAG_LIMIT
    && (Decode(b).value.ext.Some? ==> CanonicalExt(b[32..]))
  }

  predicate CanonicalExt(b: seq<byte>)
    requires |b| >= DATA_EXT_HEADER_SIZE
  {
    U(b, 1, 1) < EXT_FLAG_LIMIT && U(b, 2, 2) == 0
  }

  lemma HeaderOffsets(h: FrameHeader)
    ensures var fs := HeaderFields(h);
            && Off(fs, 0) == 0 && Off(fs, 1) == 4 && Off(fs, 2) == 5 && Off(fs, 3) == 6 && Off(fs, 4) == 8
            && Off(fs, 5) == 10 && Off(fs, 6) == 12 && Off(fs, 7) == 16 && Off(fs, 8) == 24 && Off(fs, 9) == 28
            && Off(fs, 10) == 32
  {
  }

  lemma ExtOffsets(e: ExtHeader)
    ensures var fs := ExtFields(e);
            && Off(fs, 0) == 0 && Off(fs, 1) == 1 && Off(fs, 2) == 2 && Off(fs, 3) == 4 && Off(fs, 4) == 8
            && Off(fs, 5) == 12 && Off(fs, 6) == 16 && Off(fs, 7) == 24 && Off(fs, 8) == 28 && Off(fs, 9) == 30
            && Off(fs, 10) == 32 && Off(fs, 11) == 48
  {
  }

  lemma {:induction false} HeaderBytes(b: seq<byte>)
    requires DecodeHeader(b).Ok?
    ensures Pack(HeaderFields(DecodeHeader(b).value)) == b[..32] <==> U(b, 6, 2) < FLAG_LIMIT
  {
    hide Pack, FromBE, Off;
    var h := DecodeHeader(b).value;
    var fs := HeaderFields(h);
    if U(b, 6, 2) < FLAG_LIMIT {
      HeaderOffsets(h);
      PackOfReads(fs, b);
    } else {
      HeaderReads(h, []);
      assert Pack(fs) + [] == Pack(fs);
      assert b[6..8] == b[..32][6..8];
    }
  }

  lemma {:induction false} ExtBytesCanonical(b: seq<byte>)
    requires DecodeExt(b).Ok? && CanonicalExt(b)
    ensures Pack(ExtFields(DecodeExt(b).value)) == b[..48]
  {
    hide Pack, FromBE, Off;
    var fs := ExtFields(DecodeExt(b).value);
    ExtOffsets(DecodeExt(b).value);
    PackOfReads(fs, b);
  }

  lemma {:induction false} ExtBytes(b: seq<byte>)
    requires DecodeExt(b).Ok?
    ensures EncodeExt(Some(DecodeExt(b).value)) == b[..ExtSize(DecodeExt(b).value)] <==> CanonicalExt(b)
  {
    hide Pack, FromBE;
    var e := DecodeExt(b).value;
    if CanonicalExt(b) {
      ExtBytesCanonical(b);
      if e.imm.Some? {
        BEofFromBE(b[48..56]);
        assert b[..48] + b[48..56] == b[..56];
      }
    } else {
      ExtReads(e, EncodeImm(e.imm));
      FieldReads(ExtFields(e), EncodeImm(e.imm), 2, 2, 2);
      Sub(b, 0, ExtSize(e), 1, 2);
      Sub(b, 0, ExtSize(e), 2, 4);
    }
  }

  lemma {:induction false} DecodedIsSized(b: seq<byte>)
    requires Decode(b).Ok?
    ensures Sized(Decode(b).value) && Consistent(Decode(b).value)
  {}

  /** Every decoded frame is sized and consistent, and re-encoding it gives the same bytes exactly when
      they were canonical. */
  lemma {:induction false} DecodeThenEncode(b: seq<byte>)
    requires Decode(b).Ok?
    ensures Sized(Decode(b).value) && Consistent(Decode(b).value)
    ensures Encode(Decode(b).value) == b <==> Canonical(b)
  {
    hide Pack, FromBE, Pow256;
    var f := Decode(b).value;
    var hb, xb := Pack(HeaderFields(f.header)), EncodeExt(f.ext);
    DecodedIsSized(b);
    HeaderBytes(b);
    HeaderReads(f.header, []);
    assert Pack(HeaderFields(f.header)) + [] == hb;
    if f.ext.Some? {
      var n := ExtSize(f.ext.value);
      ExtBytes(b[32..]);
      ExtReads(f.ext.value, EncodeImm(f.ext.value.imm));
      SameParts(b, hb, xb, f.payload, n);
    } else {
      SameParts(b, hb, xb, f.payload, 0);
    }
  }

  lemma {:induction false} SameParts(b: seq<byte>, h: seq<byte>, x: seq<byte>, p: seq<byte>, n: nat)
    requires |h| == 32 && |x| == n && 32 + n <= |b| && p == b[32..][n..]
    ensures h + x + p == b <==> h == b[..32] && x == b[32..][..n]
  {
    if h + x + p == b {
      assert b[..32] == h;
      assert b[32..][..n] == x;
    }
  }

  // ---- the sequence-number patch ----

  /** What `assign_seq` does to the frame bytes, on frames of any length. */
  function Patch(b: seq<byte>, s: nat): (p: seq<byte>)
    ensures |p| == |b|
  {
    var stamped := if |b| >= 24 then b[..16] + BE(8, s) + b[24..] else b;
    if |stamped| >= 8 then stamped[..6] + BE(2, SetAckReq(U(stamped, 6, 2))) + stamped[8..] else stamped
  }

  function WithSeq(f: Frame, s: nat): Frame {
    f.(header := f.header.(streamSeq := s, flags := SetAckReq(f.header.flags)))
  }

  lemma {:induction false} PatchReads(b: seq<byte>, s: nat)
    requires |b| >= 32 && s < Pow256(8)
    ensures var p := Patch(b, s);
            && U(p, 16, 8) == s && U(p, 6, 2) == SetAckReq(U(b, 6, 2))
            && p[..6] == b[..6] && p[8..16] == b[8..16] && p[24..] == b[24..]
  {
    var stamped := b[..16] + BE(8, s) + b[24..];
    assert stamped[6..8] == b[6..8];
    assert Pow256(2) == 65536;
    FromBEofBE(8, s);
    FromBEofBE(2, SetAckReq(U(b, 6, 2)));
    Splice(stamped, 6, BE(2, SetAckReq(U(b, 6, 2))));
    Splice(b, 16, BE(8, s));
    assert Patch(b, s)[16..24] == stamped[16..24];
  }

  /** Overwriting `|w|` bytes at `o`. */
  lemma {:induction false} Splice(b: seq<byte>, o: nat, w: seq<byte>)
    requires o + |w| <= |b|
    ensures var p := b[..o] + w + b[o + |w|..];
            && |p| == |b| && p[o..o + |w|] == w && p[..o] == b[..o] && p[o + |w|..] == b[o + |w|..]
            && forall i :: 0 <= i < |b| && !(o <= i < o + |w|) ==> p[i] == b[i]
  {}

  lemma {:induction false} AckReqUnderMask(x: nat)
    ensures SetAckReq(x) % FLAG_LIMIT == SetAckReq(x % FLAG_LIMIT)
  {
    var q, r := x / 128, x % 128;
    assert x == 128 * q + r == 2 * (64 * q) + r;
    assert x % 2 == r % 2;
    assert SetAckReq(x) == 128 * q + SetAckReq(r) && SetAckReq(r) < 128;
  }

  lemma {:induction false} SameRead(p: seq<byte>, b: seq<byte>, lo: nat, hi: nat, pos: nat, w: nat)
    requires lo <= pos && pos + w <= hi <= |b| == |p| && p[lo..hi] == b[lo..hi]
    ensures U(p, pos, w) == U(b, pos, w)
  {
    Sub(p, lo, hi, pos - lo, pos + w - lo);
    Sub(b, lo, hi, pos - lo, pos + w - lo);
  }

  lemma {:induction false} HeaderPatched(b: seq<byte>, s: nat)
    requires s < Pow256(8) && |b| >= 32
    ensures match DecodeHeader(b)
            case Ok(h) => DecodeHeader(Patch(b, s)) == Ok(h.(streamSeq := s, flags := SetAckReq(h.flags)))
            case Err(e) => DecodeHeader(Patch(b, s)) == Err(e)
  {
    PatchReads(b, s);
    AckReqUnderMask(U(b, 6, 2));
    var p := Patch(b, s);
    assert p[0..6] == b[0..6] && p[24..|b|] == b[24..|b|];
    SameRead(p, b, 0, 6, 0, 4);
    SameRead(p, b, 0, 6, 4, 1);
    SameRead(p, b, 0, 6, 5, 1);
    SameRead(p, b, 8, 16, 8, 2);
    SameRead(p, b, 8, 16, 10, 2);
    SameRead(p, b, 8, 16, 12, 4);
    SameRead(p, b, 24, |b|, 24, 4);
    SameRead(p, b, 24, |b|, 28, 4);
  }

  /** On every byte string, patching commutes with decoding: only the sequence number and ACK_REQ change,
      and a string that does not decode fails in the same way after the patch. */
  lemma {:induction false} PatchCommutes(b: seq<byte>, s: nat)
    requires s < Pow256(8)
    ensures match Decode(b)
            case Ok(f) => Decode(Patch(b, s)) == Ok(WithSeq(f, s))
            case Err(e) => Decode(Patch(b, s)) == Err(e)
  {
    if |b| >= 32 {
      HeaderPatched(b, s);
      PatchReads(b, s);
      Sub(Patch(b, s), 24, |b|, 8, |b| - 24);
      Sub(b, 24, |b|, 8, |b| - 24);
      assert Patch(b, s)[32..] == b[32..];
    }
  }

  /** A patched frame that decodes carries the number, asks for an ACK and is otherwise the frame it was. */
  lemma {:induction false} PatchAsksForAck(b: seq<byte>, s: nat)
    requires s < Pow256(8) && Decode(b).Ok?
    ensures Decode(Patch(b, s)).Ok?
    ensures var f, g := Decode(b).value, Decode(Patch(b, s)).value;
            && g.header.streamSeq == s && g.header.flags % 2 == 1 && g.header.flags / 2 == f.header.flags / 2
            && g == f.(header := f.header.(streamSeq := s, flags := g.header.flags))
  {
    hide Patch, Pow256, Decode;
    PatchCommutes(b, s);
  }

  // ---- ACK payload ----

  datatype AckPayload = AckPayload(ackSeq: nat, grant: nat, reserved: nat, sack: Option<seq<byte>>)

  predicate SizedAck(a: AckPayload) {
    && a.ackSeq < Pow256(8) && a.grant < Pow256(4) && a.reserved < Pow256(4)
    && (a.sack.Some? ==> |a.sack.value| == 32)
  }

  function EncodeAck(a: AckPayload): seq<byte> {
    Pack([Field(8, a.ackSeq), Field(4, a.grant), Field(4, a.reserved)])
    + (if a.sack.Some? then a.sack.value else [])
  }

  function DecodeAck(b: seq<byte>, hasSack: bool): Result<AckPayload> {
    if |b| < 16 then Err(AckTooShort)
    else if hasSack && |b| < 48 then Err(AckTooShort)
    else Ok(AckPayload(U(b, 0, 8), U(b, 8, 4), U(b, 12, 4), if hasSack then Some(b[16..48]) else None))
  }

  /** The frame `build_ack_frame` emits. */
  function AckFrame(src: nat, dst: nat, a: AckPayload): seq<byte> {
    Encode(Frame(FrameHeader(MAGIC, VERSION, Ack, if a.sack.Some? then HAS_SACK else 0, src, dst, 0, 0, 0, 0),
                 None, EncodeAck(a)))
  }

  /** What `handle_ack_frame` extracts from raw bytes: None unless they decode to an ACK frame. */
  function AckOfBytes(b: seq<byte>): Option<AckPayload> {
    match Decode(b)
    case Err(_) => None
    case Ok(f) =>
      if f.header.ftype != Ack then None
      else match DecodeAck(f.payload, f.header.flags / HAS_SACK % 2 == 1)
           case Err(_) => None
           case Ok(a) => Some(a)
  }

  lemma {:induction false} AckPayloadReads(a: AckPayload)
    requires SizedAck(a)
    ensures DecodeAck(EncodeAck(a), a.sack.Some?) == Ok(a)
  {
    var fs := [Field(8, a.ackSeq), Field(4, a.grant), Field(4, a.reserved)];
    var rest := if a.sack.Some? then a.sack.value else [];
    assert Off(fs, 3) == 16;
    FieldReads(fs, rest, 0, 0, 8);
    FieldReads(fs, rest, 1, 8, 4);
    FieldReads(fs, rest, 2, 12, 4);
    SliceAfter(Pack(fs), rest);
  }

  lemma AckHeaderSized(h: FrameHeader, payload: seq<byte>)
    requires h.magic == MAGIC && h.version == VERSION && h.ftype == Ack && (h.flags == HAS_SACK || h.flags == 0)
    requires h.src < Pow256(2) && h.dst < Pow256(2)
    requires h.reserved == h.streamSeq == h.payloadLen == h.crc == 0
    ensures Sized(Frame(h, None, payload)) && Consistent(Frame(h, None, payload))
  {
    assert Pow256(4) == 0x1_0000_0000 && Pow256(1) == 256;
  }

  /** The peer decodes from the wire exactly the payload the receiver built. */
  lemma {:induction false} AckRoundTrip(src: nat, dst: nat, a: AckPayload)
    requires SizedAck(a) && src < Pow256(2) && dst < Pow256(2)
    ensures AckOfBytes(AckFrame(src, dst, a)) == Some(a)
  {
    hide Encode, Decode, Pow256, Sized, Consistent, EncodeAck, DecodeAck, SizedAck;
    var h := FrameHeader(MAGIC, VERSION, Ack, if a.sack.Some? then HAS_SACK else 0, src, dst, 0, 0, 0, 0);
    AckHeaderSized(h, EncodeAck(a));
    RoundTrip(Frame(h, None, EncodeAck(a)));
    AckPayloadReads(a);
  }

  /** The codes on the wire, as the protocol assigns them: the magic number's four bytes, version and frame type in the
      header, the verb in the first byte after it. */
  lemma {:induction false} CodesOnWire(f: Frame)
    requires Sized(f) && Consistent(f)
    ensures var b := Encode(f);
            && |b| >= 32 && b[..5] == [0x55, 0x42, 0x54, 0x59, 1]
            && b[5] == (match f.header.ftype case Data => 1 case Ack => 2 case Credit => 3)
            && (f.ext.Some? ==>
                  && |b| >= 80
                  && var code := b[32];
                     match f.ext.value.verb
                     case ReadReq => code == 1
                     case ReadResp => code == 2
                     case Write => code == 3
                     case AtomicCas => code == 4
                     case AtomicFaa => code == 5
                     case Send => code == 6
                     case WriteImm => code == 7
                     case AtomicCasResp => code == 8
                     case AtomicFaaResp => code == 9)
  {
    hide Pack, HeaderFields, ExtFields, EncodeImm, Pow256, SizedExt;
    var rest := EncodeExt(f.ext) + f.payload;
    assert Encode(f) == Pack(HeaderFields(f.header)) + rest;
    HeaderCodes(f.header, rest);
    if f.ext.Some? {
      var more := EncodeImm(f.ext.value.imm) + f.payload;
      assert rest == Pack(ExtFields(f.ext.value)) + more;
      VerbCode(f.ext.value, more);
      assert Encode(f)[32..][0] == Encode(f)[32];
    }
  }

  lemma {:induction false} HeaderCodes(h: FrameHeader, rest: seq<byte>)
    requires Sized(Frame(h, None, [])) && h.magic == MAGIC && h.version == VERSION
    ensures var b := Pack(HeaderFields(h)) + rest;
            |b| == 32 + |rest| && b[32..] == rest && b[..5] == [0x55, 0x42, 0x54, 0x59, 1] && b[5] == TypeByte(h.ftype)
  {
    HeaderReads(h, rest);
    var b := Pack(HeaderFields(h)) + rest;
    hide HeaderFields, Pack, FromBE, Pow256, TypeByte;
    ByteReads(b, 4);
    ByteReads(b, 5);
    MagicBytes(b);
    assert b[..5] == b[..4] + [b[4]];
  }

  lemma {:induction false} VerbCode(e: ExtHeader, rest: seq<byte>)
    requires SizedExt(e)
    ensures var b := Pack(ExtFields(e)) + rest; |b| >= 48 && b[0] == VerbByte(e.verb)
  {
    ExtReads(e, rest);
    hide ExtFields, Pack, FromBE, Pow256, VerbByte, SizedExt;
    ByteReads(Pack(ExtFields(e)) + rest, 0);
  }

  lemma ByteReads(b: seq<byte>, i: nat)
    requires i < |b|
    ensures U(b, i, 1) == b[i]
  {
    assert b[i..i + 1] == [b[i]];
  }

  lemma {:induction false} MagicBytes(b: seq<byte>)
    requires |b| >= 5 && U(b, 0, 4) == 0x5542_5459
    ensures b[..4] == [0x55, 0x42, 0x54, 0x59]
  {
    var m := b[0..4];
    var w: nat, x: nat, y: nat, z: nat := m[0], m[1], m[2], m[3];
    assert m[..3] == [m[0], m[1], m[2]] && m[..2] == [m[0], m[1]] && m[..1] == [m[0]];
    assert FromBE([m[0]]) == w;
    assert FromBE([m[0], m[1]]) == w * 256 + x by { assert [m[0], m[1]][..1] == [m[0]]; }
    assert FromBE([m[0], m[1], m[2]]) == (w * 256 + x) * 256 + y by { assert [m[0], m[1], m[2]][..2] == [m[0], m[1]]; }
    assert FromBE(m) == ((w * 256 + x) * 256 + y) * 256 + z;
    assert b[..4] == m;
  }
}
