/** The 128-bit address, most significant field first: pod 16, node 16, device 16, offset 64, reserved 16 bits. */
module UbAddress {
  import opened Bytes

  /** Shifting the fields together; they do not overlap, so or-ing them is adding them. */
  function New(pod: nat, node: nat, dev: nat, off: nat, res: nat): nat {
    (((pod * U16 + node) * U16 + dev) * U64 + off) * U16 + res
  }

  function ReservedOf(a: nat): nat { a % U16 }

  function OffsetOf(a: nat): nat { a / U16 % U64 }

  function DeviceOf(a: nat): nat { a / U16 / U64 % U16 }

  function NodeOf(a: nat): nat { a / U16 / U64 / U16 % U16 }

  function PodOf(a: nat): nat { a / U16 / U64 / U16 / U16 % U16 }

  /** Masks the old offset out and puts the new one in. */
  function WithOffset(a: nat, off: nat): nat { (a / U16 / U64 * U64 + off) * U16 + a % U16 }

  lemma Split(hi: nat, lo: nat, k: nat)
    requires lo < k
    ensures (hi * k + lo) / k == hi && (hi * k + lo) % k == lo
  {
    var q, r := (hi * k + lo) / k, (hi * k + lo) % k;
    assert q * k + r == hi * k + lo;
    if q < hi { assert (hi - q) * k >= k by { MulAtLeast(hi - q, k); } }
    if q > hi { assert (q - hi) * k >= k by { MulAtLeast(q - hi, k); } }
  }

  lemma MulAtLeast(a: nat, k: nat)
    requires a >= 1
    ensures a * k >= k
  {
  }

  /** Every field reads back as it was put in. */
  lemma {:induction false} FieldsReadBack(pod: nat, node: nat, dev: nat, off: nat, res: nat)
    requires pod < U16 && node < U16 && dev < U16 && off < U64 && res < U16
    ensures var a := New(pod, node, dev, off, res);
            && PodOf(a) == pod && NodeOf(a) == node && DeviceOf(a) == dev && OffsetOf(a) == off && ReservedOf(a) == res
  {
    var b := pod * U16 + node;
    var c := b * U16 + dev;
    var d := c * U64 + off;
    Split(d, res, U16);
    Split(c, off, U64);
    Split(b, dev, U16);
    Split(pod, node, U16);
  }

  /** Replacing the offset keeps every other field. */
  lemma {:induction false} WithOffsetKeepsRest(pod: nat, node: nat, dev: nat, off: nat, res: nat, off': nat)
    requires pod < U16 && node < U16 && dev < U16 && off < U64 && res < U16 && off' < U64
    ensures WithOffset(New(pod, node, dev, off, res), off') == New(pod, node, dev, off', res)
  {
    var c := (pod * U16 + node) * U16 + dev;
    Split(c * U64 + off, res, U16);
    Split(c, off, U64);
  }

  /** The numeric layout: pod at bit 112, node at bit 96, device at bit 80, offset at bit 16. */
  lemma Layout(pod: nat, node: nat, dev: nat, off: nat, res: nat)
    ensures New(pod, node, dev, off, res) ==
            pod * 0x1_0000_0000_0000_0000_0000_0000_0000 + node * 0x1_0000_0000_0000_0000_0000_0000
            + dev * 0x1_0000_0000_0000_0000_0000 + off * 0x1_0000 + res
  {
  }
}
