/** Bytes, big-endian integers and packed field lists: what the `put_u*` and `read_u*`
    calls of the wire and control codecs do. */
module Bytes {

  type byte = b: int | 0 <= b < 256

  datatype Option<+T> = None | Some(value: T)

  const U16: nat := 0x1_0000
  const U32: nat := 0x1_0000_0000
  const U64: nat := 0x1_0000_0000_0000_0000

  function Pow2(n: nat): (p: nat)
    ensures p > 0
  {
    if n == 0 then 1 else 2 * Pow2(n - 1)
  }

  function Pow256(n: nat): (p: nat)
    ensures p > 0
  {
    if n == 0 then 1 else 256 * Pow256(n - 1)
  }

  /** Big-endian encoding of the low `n` bytes of `v` (an `as u32` cast drops the rest). */
  function BE(n: nat, v: nat): (s: seq<byte>)
    ensures |s| == n
  {
    if n == 0 then [] else BE(n - 1, v / 256) + [v % 256]
  }

  function FromBE(s: seq<byte>): (v: nat)
    ensures v < Pow256(|s|)
  {
    if s == [] then 0 else FromBE(s[..|s| - 1]) * 256 + s[|s| - 1]
  }

  lemma {:induction false} FromBEofBE(n: nat, v: nat)
    requires v < Pow256(n)
    ensures FromBE(BE(n, v)) == v
  {
    if n > 0 {
      FromBEofBE(n - 1, v / 256);
      assert BE(n, v)[..n - 1] == BE(n - 1, v / 256);
    }
  }

  lemma {:induction false} BEofFromBE(s: seq<byte>)
    ensures BE(|s|, FromBE(s)) == s
  {
    if s != [] {
      BEofFromBE(s[..|s| - 1]);
      assert FromBE(s) / 256 == FromBE(s[..|s| - 1]);
    }
  }

  /** A field of `w` bytes holding `v`. */
  datatype Field = Field(w: nat, v: nat)

  function Pack(fs: seq<Field>): (s: seq<byte>)
    ensures |s| == Off(fs, |fs|)
    decreases |fs|
  {
    if fs == [] then []
    else
      var k := |fs| - 1;
      assert Off(fs[..k], k) == Off(fs, k) by { OffPrefix(fs, k, k); }
      Pack(fs[..k]) + BE(fs[k].w, fs[k].v)
  }

  /** Byte offset of field `i`. */
  function Off(fs: seq<Field>, i: nat): (o: nat)
    requires i <= |fs|
    decreases i
  {
    if i == 0 then 0 else Off(fs, i - 1) + fs[i - 1].w
  }

  lemma {:induction false} OffPrefix(fs: seq<Field>, k: nat, i: nat)
    requires i <= k <= |fs|
    ensures Off(fs[..k], i) == Off(fs, i)
    decreases i
  {
    if i > 0 { OffPrefix(fs, k, i - 1); }
  }

  lemma {:induction false} OffMonotone(fs: seq<Field>, i: nat, j: nat)
    requires i <= j <= |fs|
    ensures Off(fs, i) <= Off(fs, j)
    decreases j
  {
    if i < j { OffMonotone(fs, i, j - 1); }
  }

  /** Reading field `i` back gives what was packed there. */
  lemma {:induction false} PackAt(fs: seq<Field>, i: nat)
    requires i < |fs|
    ensures Off(fs, i) + fs[i].w <= |Pack(fs)|
    ensures Pack(fs)[Off(fs, i)..Off(fs, i) + fs[i].w] == BE(fs[i].w, fs[i].v)
    decreases |fs|
  {
    var k := |fs| - 1;
    OffPrefix(fs, k, k);
    OffMonotone(fs, i + 1, |fs|);
    if i < k {
      PackAt(fs[..k], i);
      OffPrefix(fs, k, i);
      OffMonotone(fs, i + 1, k);
    }
  }

  /** Packing what was read field by field gives the bytes back. */
  lemma {:induction false} PackOfReads(fs: seq<Field>, b: seq<byte>)
    requires Off(fs, |fs|) <= |b|
    requires forall i :: 0 <= i < |fs| ==> ReadsAs(fs, i, b)
    ensures Pack(fs) == b[..Off(fs, |fs|)]
    decreases |fs|
  {
    if fs != [] {
      var k := |fs| - 1;
      ReadsAsPrefix(fs, k, b);
      OffPrefix(fs, k, k);
      PackOfReads(fs[..k], b);
      assert ReadsAs(fs, k, b);
      PackLast(fs, b, Off(fs, k), Off(fs, |fs|));
    }
  }

  lemma {:induction false} PackLast(fs: seq<Field>, b: seq<byte>, o: nat, p: nat)
    requires fs != [] && o <= p <= |b|
    requires p == o + fs[|fs| - 1].w
    requires fs[|fs| - 1].v == FromBE(b[o..p])
    requires Pack(fs[..|fs| - 1]) == b[..o]
    ensures Pack(fs) == b[..p]
  {
    BEofFromBE(b[o..p]);
    assert b[..o] + b[o..p] == b[..p];
  }

  lemma {:induction false} ReadsAsPrefix(fs: seq<Field>, k: nat, b: seq<byte>)
    requires k <= |fs|
    requires forall i :: 0 <= i < |fs| ==> ReadsAs(fs, i, b)
    ensures forall i :: 0 <= i < k ==> ReadsAs(fs[..k], i, b)
  {
    forall i | 0 <= i < k
      ensures ReadsAs(fs[..k], i, b)
    {
      assert ReadsAs(fs, i, b);
      OffPrefix(fs, k, i);
    }
  }

  ghost predicate ReadsAs(fs: seq<Field>, i: nat, b: seq<byte>)
    requires i < |fs|
  {
    && Off(fs, i) + fs[i].w <= |b|
    && fs[i].v == FromBE(b[Off(fs, i)..Off(fs, i) + fs[i].w])
  }

  /** What follows a prefix. */
  lemma {:induction false} SliceAfter<T>(a: seq<T>, b: seq<T>)
    ensures (a + b)[|a|..|a| + |b|] == b
  {}

  /** One more element of a prefix. */
  lemma {:induction false} TakeNext<T>(w: seq<T>, i: nat)
    requires 0 < i <= |w|
    ensures w[..i] == w[..i - 1] + [w[i - 1]]
  {}

  /** A slice of a slice. */
  lemma {:induction false} Sub<T>(s: seq<T>, a: nat, b: nat, c: nat, d: nat)
    requires a <= b <= |s| && c <= d <= b - a
    ensures s[a..b][c..d] == s[a + c..a + d]
  {
    forall i | 0 <= i < d - c
      ensures s[a..b][c..d][i] == s[a + c..a + d][i]
    {}
  }
}
