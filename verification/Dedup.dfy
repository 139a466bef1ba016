/** The receiver's sliding dedup window. `Window` is the plain set-of-numbers view and `DedupWindow` the
    16-word bitset that the session keeps; every operation of the class is proved to be the operation on sets. */
module Dedup {
  import opened Bytes

  // ---- bits of a word ----

  /** `(w >> i) & 1 == 1` */
  predicate Bit(w: nat, i: nat)
    decreases i
  {
    if i == 0 then w % 2 == 1 else Bit(w / 2, i - 1)
  }

  /** `w | (1 << i)` */
  function OrBit(w: nat, i: nat): nat
    decreases i
  {
    if i == 0 then (if w % 2 == 1 then w else w + 1) else 2 * OrBit(w / 2, i - 1) + w % 2
  }

  lemma {:induction false} OrBitAt(w: nat, i: nat, j: nat)
    ensures Bit(OrBit(w, i), j) <==> j == i || Bit(w, j)
    decreases i
  {
    if i > 0 && j > 0 { OrBitAt(w / 2, i - 1, j - 1); }
  }

  lemma {:induction false} OrBitFits(w: nat, i: nat, k: nat)
    requires w < Pow2(k) && i < k
    ensures OrBit(w, i) < Pow2(k)
    decreases i
  {
    if i > 0 {
      assert w / 2 < Pow2(k - 1);
      OrBitFits(w / 2, i - 1, k - 1);
    } else {
      assert Pow2(k) == 2 * Pow2(k - 1);
    }
  }

  /** A carry added above `x` becomes bit `k` and leaves the lower bits alone. */
  lemma {:induction false} CarryAt(x: nat, k: nat, c: nat, j: nat)
    requires x < Pow2(k) && c < 2 && j <= k
    ensures Bit(x + c * Pow2(k), j) <==> if j == k then c == 1 else Bit(x, j)
    decreases k
  {
    if k > 0 {
      assert c * Pow2(k) == 2 * (c * Pow2(k - 1));
      if j > 0 {
        assert (x + c * Pow2(k)) / 2 == x / 2 + c * Pow2(k - 1);
        CarryAt(x / 2, k - 1, c, j - 1);
      }
    }
  }

  // ---- the bitset ----

  const WORDS: nat := 16
  const TOP: nat := 0x8000_0000_0000_0000

  lemma {:induction false} Pow2Add(a: nat, b: nat)
    ensures Pow2(a + b) == Pow2(a) * Pow2(b)
  {
    if a > 0 {
      Pow2Add(a - 1, b);
      MulAssoc(2, Pow2(a - 1), Pow2(b));
    }
  }

  lemma MulAssoc(x: int, y: int, z: int)
    ensures x * y * z == x * (y * z)
  {
  }

  lemma {:induction false} TopIsPow2()
    ensures Pow2(63) == TOP && Pow2(64) == 2 * TOP
  {
    assert Pow2(16) == 65536 && Pow2(15) == 32768;
    Pow2Add(16, 16);
    Pow2Add(16, 32);
    Pow2Add(15, 48);
  }

  predicate At(words: seq<nat>, off: nat)
    requires off < 64 * |words|
  {
    Bit(words[off / 64], off % 64)
  }

  /** One word of the bitset shifted down by one, taking the low bit of the next word. */
  function ShiftedWord(words: seq<nat>, i: nat): nat
    requires i < |words|
  {
    words[i] / 2 + (if i + 1 < |words| then words[i + 1] % 2 else 0) * TOP
  }

  function Shifted(words: seq<nat>): (after: seq<nat>)
    ensures |after| == |words|
  {
    seq(|words|, i requires 0 <= i < |words| => ShiftedWord(words, i))
  }

  ghost predicate Fit(words: seq<nat>) { forall i :: 0 <= i < |words| ==> words[i] < 2 * TOP }

  /** The per-word shift with its cross-word carry is a shift of the whole bitset. */
  lemma {:induction false} ShiftAt(words: seq<nat>, off: nat)
    requires Fit(words) && off < 64 * |words|
    ensures At(Shifted(words), off) <==> off + 1 < 64 * |words| && At(words, off + 1)
  {
    var i, j := off / 64, off % 64;
    TopIsPow2();
    CarryAt(words[i] / 2, 63, if i + 1 < |words| then words[i + 1] % 2 else 0, j);
    if j < 63 {
      assert (off + 1) / 64 == i && (off + 1) % 64 == j + 1;
    } else {
      assert (off + 1) / 64 == i + 1 && (off + 1) % 64 == 0;
    }
  }

  // ---- the plain view ----

  /** Numbers below `next` are seen; `ahead` are the seen numbers past the first gap. */
  datatype Window = Window(next: nat, ahead: set<nat>, size: nat)

  ghost predicate Settled(w: Window) {
    && w.next !in w.ahead
    && forall a :: a in w.ahead ==> w.next < a < w.next + w.size
  }

  predicate Seen(w: Window, s: nat) { s < w.next || s in w.ahead }

  datatype DedupResult = AlreadySeen | InOrder | OutOfOrder | BeyondWindow

  function Check(w: Window, s: nat): DedupResult {
    if s < w.next then AlreadySeen
    else if s == w.next then InOrder
    else if s - w.next >= w.size then BeyondWindow
    else if s in w.ahead then AlreadySeen
    else OutOfOrder
  }

  function Mark(w: Window, s: nat): Window {
    if s < w.next || s - w.next >= w.size then w else Advance(w.(ahead := w.ahead + {s}))
  }

  function Advance(w: Window): Window
    decreases |w.ahead|
  {
    if w.next in w.ahead then Advance(w.(next := w.next + 1, ahead := w.ahead - {w.next})) else w
  }

  lemma AdvanceSlides(w: Window)
    ensures Advance(w)
              == if w.next in w.ahead then Advance(w.(next := w.next + 1, ahead := w.ahead - {w.next})) else w
  {
  }

  lemma {:induction false} AdvanceKeepsSeen(w: Window)
    requires forall a :: a in w.ahead ==> w.next <= a < w.next + w.size
    ensures Settled(Advance(w)) && Advance(w).size == w.size && Advance(w).next >= w.next
    ensures forall x: nat :: Seen(Advance(w), x) <==> Seen(w, x)
    decreases |w.ahead|
  {
    if w.next in w.ahead {
      var v := w.(next := w.next + 1, ahead := w.ahead - {w.next});
      AdvanceKeepsSeen(v);
      forall x: nat
        ensures Seen(v, x) <==> Seen(w, x)
      {}
    }
  }

  /** Marking adds exactly `s`, when it lies below the window's end, and never moves `next` back. */
  lemma {:induction false} MarkAddsExactly(w: Window, s: nat)
    requires Settled(w)
    ensures Settled(Mark(w, s)) && Mark(w, s).size == w.size && Mark(w, s).next >= w.next
    ensures forall x: nat :: Seen(Mark(w, s), x) <==> Seen(w, x) || (x == s && s < w.next + w.size)
  {
    if w.next <= s < w.next + w.size {
      AdvanceKeepsSeen(w.(ahead := w.ahead + {s}));
    }
  }

  /** `next` is the least unseen number, and there is no other candidate. */
  lemma {:induction false} NextIsLeastUnseen(w: Window, n: nat)
    requires Settled(w)
    ensures n == w.next <==> !Seen(w, n) && forall x: nat :: x < n ==> Seen(w, x)
  {
    if n < w.next {
      assert Seen(w, n);
    } else if n > w.next {
      assert !Seen(w, w.next);
    }
  }

  /** `check` classifies every number, whatever the window size. */
  lemma CheckClassifies(w: Window, s: nat)
    requires Settled(w)
    ensures Check(w, s) == AlreadySeen <==> Seen(w, s)
    ensures Check(w, s) == InOrder <==> !Seen(w, s) && forall x: nat :: x < s ==> Seen(w, x)
    ensures Check(w, s) == OutOfOrder <==>
              !Seen(w, s) && Seen(Mark(w, s), s) && !forall x: nat :: x < s ==> Seen(w, x)
    ensures Check(w, s) == BeyondWindow <==>
              !Seen(w, s) && !Seen(Mark(w, s), s) && !forall x: nat :: x < s ==> Seen(w, x)
  {
    NextIsLeastUnseen(w, s);
    MarkAddsExactly(w, s);
  }

  /** With an empty window `check` still says InOrder, but marking records nothing. */
  lemma {:induction false} InOrderIsRecorded(w: Window)
    requires Settled(w)
    ensures Check(w, w.next) == InOrder
    ensures Seen(Mark(w, w.next), w.next) <==> w.size > 0
  {
    MarkAddsExactly(w, w.next);
  }

  lemma {:induction false} OutOfOrderKeepsNext(w: Window, s: nat)
    requires Settled(w) && Check(w, s) == OutOfOrder
    ensures Mark(w, s) == w.(ahead := w.ahead + {s})
  {}

  // ---- the bitset implements the plain view ----

  ghost predicate Holds(next: nat, words: seq<nat>, s: nat) {
    next <= s < next + 64 * |words| && At(words, s - next)
  }

  /** Bit `i` is set exactly for the member `next + i` of `ahead`. */
  ghost predicate Represents(next: nat, words: seq<nat>, ahead: set<nat>) {
    Fit(words) && forall s: nat :: s in ahead <==> Holds(next, words, s)
  }

  /** Sliding drops `next` and keeps every other number. */
  lemma {:induction false} SlideDropsNext(next: nat, words: seq<nat>, ahead: set<nat>)
    requires Represents(next, words, ahead)
    ensures Represents(next + 1, Shifted(words), ahead - {next})
  {
    forall s: nat
      ensures s in ahead - {next} <==> Holds(next + 1, Shifted(words), s)
    {
      if next + 1 <= s < next + 1 + 64 * |words| {
        ShiftAt(words, s - (next + 1));
      }
    }
  }

  lemma {:induction false} SetBitAddsOne(next: nat, words: seq<nat>, ahead: set<nat>, off: nat)
    requires Represents(next, words, ahead) && off < 64 * |words|
    ensures Represents(next, words[off / 64 := OrBit(words[off / 64], off % 64)], ahead + {next + off})
  {
    var i, j := off / 64, off % 64;
    var after := words[i := OrBit(words[i], j)];
    TopIsPow2();
    OrBitFits(words[i], j, 64);
    hide OrBit, Bit, Pow2;
    forall s: nat
      ensures s in ahead + {next + off} <==> Holds(next, after, s)
    {
      if next <= s < next + 64 * |words| {
        OrBitAt(words[i], j, (s - next) % 64);
        assert (s - next) / 64 == i && (s - next) % 64 == j ==> s == next + off;
      }
    }
  }

  lemma {:induction false} ZeroBits(i: nat)
    ensures !Bit(0, i)
  {
    if i > 0 { ZeroBits(i - 1); }
  }

  lemma {:induction false} ZeroWords(next: nat, words: seq<nat>)
    requires forall i :: 0 <= i < |words| ==> words[i] == 0
    ensures Represents(next, words, {})
  {
    forall s: nat
      ensures !Holds(next, words, s)
    {
      if next <= s < next + 64 * |words| {
        ZeroBits((s - next) % 64);
      }
    }
  }

  class DedupWindow {
    var nextExpected: nat
    const seen: array<nat>
    const windowSize: nat
    ghost var ahead: set<nat>

    ghost predicate Shape()
      reads this, seen
    {
      && seen.Length == WORDS && windowSize <= 1024
      && Represents(nextExpected, seen[..], ahead)
      && forall a :: a in ahead ==> a < nextExpected + windowSize
    }

    /** Between calls bit 0 is clear as well. */
    ghost predicate Valid()
      reads this, seen
    {
      Shape() && Settled(View())
    }

    ghost function View(): Window
      reads this
    {
      Window(nextExpected, ahead, windowSize)
    }

    constructor (initialSeq: nat, windowSize: nat)
      requires windowSize <= 1024
      ensures Valid() && fresh(seen)
      ensures View() == Window(initialSeq, {}, windowSize)
    {
      nextExpected := initialSeq;
      this.windowSize := windowSize;
      seen := new nat[WORDS](_ => 0);
      ahead := {};
      new;
      ZeroWords(nextExpected, seen[..]);
    }

    method IsBitSet(offset: nat) returns (isSet: bool)
      requires Shape()
      ensures isSet <==> nextExpected + offset in ahead
    {
      if offset >= windowSize {
        return false;
      }
      assert Holds(nextExpected, seen[..], nextExpected + offset) <==> At(seen[..], offset);
      isSet := Bit(seen[offset / 64], offset % 64);
    }

    method CheckSeq(s: nat) returns (r: DedupResult)
      requires Valid()
      ensures r == Check(View(), s)
    {
      if s < nextExpected { return AlreadySeen; }
      if s == nextExpected { return InOrder; }
      var offset := s - nextExpected;
      if offset >= windowSize { return BeyondWindow; }
      var b := IsBitSet(offset);
      r := if b then AlreadySeen else OutOfOrder;
    }

    method IsSeen(s: nat) returns (r: bool)
      requires Valid()
      ensures r <==> Seen(View(), s)
    {
      if s < nextExpected { return true; }
      var offset := s - nextExpected;
      if offset >= windowSize { return false; }
      r := IsBitSet(offset);
    }

    method SetBit(offset: nat)
      requires Shape()
      modifies this`ahead, seen
      ensures Shape()
      ensures ahead == if offset < windowSize then old(ahead) + {nextExpected + offset} else old(ahead)
    {
      hide Represents, OrBit;
      if offset >= windowSize { return; }
      ghost var after := seen[..][offset / 64 := OrBit(seen[offset / 64], offset % 64)];
      SetBitAddsOne(nextExpected, seen[..], ahead, offset);
      seen[offset / 64] := OrBit(seen[offset / 64], offset % 64);
      assert seen[..] == after;
      ahead := ahead + {nextExpected + offset};
    }

    /** Shift all words down by one bit, in place, carrying across word boundaries. */
    method ShiftWords()
      modifies seen
      ensures seen[..] == Shifted(old(seen[..]))
    {
      for i := 0 to seen.Length
        invariant forall k :: 0 <= k < i ==> seen[k] == ShiftedWord(old(seen[..]), k)
        invariant forall k :: i <= k < seen.Length ==> seen[k] == old(seen[k])
      {
        var lowBitOfNext := if i + 1 < seen.Length then seen[i + 1] % 2 * TOP else 0;
        seen[i] := seen[i] / 2 + lowBitOfNext;
      }
    }

    method SlideOne()
      requires Shape()
      modifies this`nextExpected, this`ahead, seen
      ensures Shape()
      ensures nextExpected == old(nextExpected) + 1 && ahead == old(ahead) - {old(nextExpected)}
    {
      hide Represents;
      ghost var was, n, had := seen[..], nextExpected, ahead;
      SlideDropsNext(n, was, had);
      ahead := ahead - {nextExpected};
      nextExpected := nextExpected + 1;
      ShiftWords();
    }

    method MarkAndAdvance(s: nat) returns (next: nat)
      requires Valid()
      modifies this`nextExpected, this`ahead, seen
      ensures Valid()
      ensures View() == Mark(old(View()), s) && next == nextExpected
    {
      hide Represents, Advance;
      if s < nextExpected { return nextExpected; }
      var offset := s - nextExpected;
      if offset >= windowSize { return nextExpected; }
      SetBit(offset);
      var lead := IsBitSet(0);
      while lead
        invariant Shape() && forall a :: a in ahead ==> nextExpected <= a
        invariant lead <==> nextExpected in ahead
        invariant Advance(View()) == Mark(old(View()), s)
        decreases |ahead|
      {
        AdvanceSlides(View());
        SlideOne();
        lead := IsBitSet(0);
      }
      AdvanceSlides(View());
      next := nextExpected;
    }
  }
}
