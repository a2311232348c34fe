/**
 The 32-bit words and bytes the driver works with, and how a word is laid
 out in memory.  The driver writes its header as four host-order words and
 then swaps the bytes of each word on a little-endian host.
 */
module Words {

  /** The bytes of `v`, most significant first: the order on the wire. */
  function BigEndian(v: bv32): (b: seq<bv8>)
    ensures |b| == 4
  {
    [((v >> 24) & 0xFF) as bv8, ((v >> 16) & 0xFF) as bv8, ((v >> 8) & 0xFF) as bv8, (v & 0xFF) as bv8]
  }

  /** Four bytes as a host of the given byte order sees them: reversed, or as they are. */
  function HostOrder(b: seq<bv8>, little: bool): (r: seq<bv8>)
    requires |b| == 4
    ensures |r| == 4
  {
    if little then [b[3], b[2], b[1], b[0]] else b
  }

  lemma HostOrderTwice(b: seq<bv8>, little: bool)
    requires |b| == 4
    ensures HostOrder(HostOrder(b, little), little) == b
  {
  }

  /** The value of two bytes, most significant first. */
  function Pair(hi: bv8, lo: bv8): bv32 {
    ((hi as bv32) << 8) | (lo as bv32)
  }

  /** The value of four bytes, most significant first, as the driver accumulates it. */
  function Quad(b0: bv8, b1: bv8, b2: bv8, b3: bv8): bv32 {
    var two := ((b0 as bv32) << 8) | (b1 as bv32);
    var three := (two << 8) | (b2 as bv32);
    (three << 8) | (b3 as bv32)
  }

  function Low16(v: bv32): bv32 {
    v & 0xFFFF
  }

  /** A word made of the low half of `hi` and the high half of `lo`. */
  function UpperPacked(hi: bv32, lo: bv32): bv32 {
    (hi << 16) | (lo >> 16)
  }

  /** A word made of the low half of `lo` and a 16-bit value. */
  function LowerPacked(lo: bv32, t: bv32): bv32 {
    (lo << 16) | t
  }

  lemma UpperHalf(hi: bv32, lo: bv32)
    ensures var b := BigEndian(UpperPacked(hi, lo)); Pair(b[0], b[1]) == Low16(hi)
  {
  }

  lemma MiddleWord(hi: bv32, lo: bv32, t: bv32)
    requires Low16(t) == t
    ensures var a, b := BigEndian(UpperPacked(hi, lo)), BigEndian(LowerPacked(lo, t));
            Quad(a[2], a[3], b[0], b[1]) == lo
  {
  }

  lemma LowerHalf(lo: bv32, t: bv32)
    requires Low16(t) == t
    ensures var b := BigEndian(LowerPacked(lo, t)); Pair(b[2], b[3]) == t
  {
  }

  lemma PairOfWord(v: bv32)
    ensures var b := BigEndian(v); Pair(b[2], b[3]) == Low16(v) && Pair(b[0], b[1]) == v >> 16
  {
  }

  lemma QuadOfWord(v: bv32)
    ensures var b := BigEndian(v); Quad(b[0], b[1], b[2], b[3]) == v
  {
  }

  /** Most significant byte first, and nothing lost. */
  lemma BigEndianValue(v: bv32)
    ensures var b := BigEndian(v);
            v == ((b[0] as bv32) << 24) | ((b[1] as bv32) << 16) | ((b[2] as bv32) << 8) | (b[3] as bv32)
  {
  }

  lemma UpperBytes(hi: bv32, lo: bv32)
    ensures var b, h, l := BigEndian(UpperPacked(hi, lo)), BigEndian(hi), BigEndian(lo);
            b[0] == h[2] && b[1] == h[3] && b[2] == l[0] && b[3] == l[1]
  {
  }

  lemma LowerBytes(lo: bv32, t: bv32)
    requires Low16(t) == t
    ensures var b, l, u := BigEndian(LowerPacked(lo, t)), BigEndian(lo), BigEndian(t);
            b[0] == l[2] && b[1] == l[3] && b[2] == u[2] && b[3] == u[3]
  {
  }

  function ShiftIn(x: bv32, odd: bool): bv32 {
    (x << 1) | (if odd then 1 else 0)
  }

  /** The unsigned 32-bit value of an index, bit by bit. */
  function IndexWord(i: nat): bv32 {
    if i == 0 then 0 else ShiftIn(IndexWord(i / 2), i % 2 == 1)
  }

  function Pow2(w: nat): nat {
    if w == 0 then 1 else 2 * Pow2(w - 1)
  }

  /** The word whose low `w` bits are set. */
  function LowBits(w: nat): bv32 {
    if w == 0 then 0 else (LowBits(w - 1) << 1) | 1
  }

  lemma ShiftInMask(x: bv32, m: bv32, odd: bool)
    requires x & !m == 0
    ensures ShiftIn(x, odd) & !((m << 1) | 1) == 0
  {
  }

  lemma {:induction false} IndexWordFits(i: nat, w: nat)
    requires i < Pow2(w)
    ensures IndexWord(i) & !LowBits(w) == 0
    decreases w
  {
    if w == 0 {
    } else if i == 0 {
    } else {
      IndexWordFits(i / 2, w - 1);
      ShiftInMask(IndexWord(i / 2), LowBits(w - 1), i % 2 == 1);
    }
  }

  lemma ShiftCancels(x: bv32, y: bv32, b: bool, c: bool)
    requires x & 0x8000_0000 == 0 && y & 0x8000_0000 == 0
    requires ShiftIn(x, b) == ShiftIn(y, c)
    ensures x == y && b == c
  {
  }

  lemma Pow2Of31()
    ensures Pow2(31) == 0x8000_0000
  {
    assert Pow2(8) == 0x100;
    assert Pow2(16) == 0x1_0000;
    assert Pow2(24) == 0x100_0000;
  }

  lemma LowBitsOf31()
    ensures LowBits(31) == 0x7FFF_FFFF
  {
    assert LowBits(8) == 0xFF;
    assert LowBits(16) == 0xFFFF;
    assert LowBits(24) == 0xFF_FFFF;
  }

  lemma HighBitClear(i: nat)
    requires i < 0x8000_0000
    ensures IndexWord(i) & 0x8000_0000 == 0
  {
    Pow2Of31();
    LowBitsOf31();
    IndexWordFits(i, 31);
  }

  lemma IndexWordUnfold(i: nat)
    ensures IndexWord(i) == ShiftIn(IndexWord(i / 2), i % 2 == 1)
  {
  }

  lemma HalvesAgree(i: nat, j: nat)
    requires i < 0x1_0000_0000 && j < 0x1_0000_0000
    requires ShiftIn(IndexWord(i / 2), i % 2 == 1) == ShiftIn(IndexWord(j / 2), j % 2 == 1)
    ensures IndexWord(i / 2) == IndexWord(j / 2) && (i % 2 == 1) == (j % 2 == 1)
  {
    HighBitClear(i / 2);
    HighBitClear(j / 2);
    ShiftCancels(IndexWord(i / 2), IndexWord(j / 2), i % 2 == 1, j % 2 == 1);
  }

  /** Distinct 32-bit indices have distinct words. */
  lemma {:induction false} IndexWordInjective(i: nat, j: nat)
    requires i < 0x1_0000_0000 && j < 0x1_0000_0000
    requires IndexWord(i) == IndexWord(j)
    ensures i == j
  {
    if i == 0 && j == 0 {
    } else {
      IndexWordUnfold(i);
      IndexWordUnfold(j);
      HalvesAgree(i, j);
      IndexWordInjective(i / 2, j / 2);
    }
  }

  function Next(x: bv32): bv32 {
    x + 1
  }

  lemma NextShiftedIn(x: bv32)
    ensures ShiftIn(x, true) == Next(ShiftIn(x, false)) && ShiftIn(Next(x), false) == Next(ShiftIn(x, true))
  {
  }

  lemma {:induction false} IndexWordSteps(i: nat)
    ensures IndexWord(i + 1) == Next(IndexWord(i))
  {
    hide ShiftIn, IndexWord, Next;
    IndexWordUnfold(i);
    IndexWordUnfold(i + 1);
    NextShiftedIn(IndexWord(i / 2));
    HalfOfSuccessor(i);
    if i % 2 == 0 {
    } else {
      IndexWordSteps(i / 2);
    }
  }

  /** `IndexWord` counts: it starts at 0, and adding one to the index adds one to the word. */
  lemma IndexWordCounts(i: nat)
    ensures IndexWord(0) == 0 && IndexWord(i + 1) == IndexWord(i) + 1
  {
    IndexWordSteps(i);
  }

  lemma HalfOfSuccessor(i: nat)
    ensures (i + 1) % 2 == 1 - i % 2 && (i + 1) / 2 == i / 2 + i % 2
  {
  }

  /** `s` with the bytes from `at` on replaced by `b`. */
  function Patch(s: seq<bv8>, at: nat, b: seq<bv8>): (r: seq<bv8>)
    requires at + |b| <= |s|
    ensures |r| == |s|
  {
    s[..at] + b + s[at + |b|..]
  }

  /** Two adjacent patches are one. */
  lemma PatchTwice(s: seq<bv8>, at: nat, b: seq<bv8>, c: seq<bv8>)
    requires at + |b| + |c| <= |s|
    ensures Patch(Patch(s, at, b), at + |b|, c) == Patch(s, at, b + c)
  {
    assert Patch(s, at, b)[..at + |b|] == s[..at] + b;
    assert Patch(s, at, b)[at + |b| + |c|..] == s[at + |b| + |c|..];
    assert s[..at] + b + c + s[at + |b| + |c|..] == s[..at] + (b + c) + s[at + |b| + |c|..];
  }

  /** Patching over part of a patch. */
  lemma PatchInside(s: seq<bv8>, at: nat, b: seq<bv8>, c: seq<bv8>, d: seq<bv8>, e: seq<bv8>)
    requires at + |b| + |c| + |d| <= |s| && |e| == |c|
    ensures var t := Patch(s, at, b + c + d);
            t[at + |b|..at + |b| + |c|] == c && Patch(t, at + |b|, e) == Patch(s, at, b + e + d)
  {
    var t := Patch(s, at, b + c + d);
    assert t[..at + |b|] == s[..at] + b;
    assert t[at + |b|..] == c + d + s[at + |b| + |c| + |d|..];
    assert t[at + |b| + |c|..] == d + s[at + |b| + |c| + |d|..];
    assert s[..at] + b + e + (d + s[at + |b| + |c| + |d|..]) == s[..at] + (b + e + d) + s[at + |b| + |c| + |d|..];
  }

  /** Store one word at byte offset `at`, in the host's byte order. */
  method StoreWord(a: array<bv8>, at: nat, v: bv32, little: bool)
    requires at + 4 <= a.Length
    modifies a
    ensures a[..] == Patch(old(a[..]), at, HostOrder(BigEndian(v), little))
  {
    hide BigEndian, HostOrder;
    var b := HostOrder(BigEndian(v), little);
    a[at], a[at + 1], a[at + 2], a[at + 3] := b[0], b[1], b[2], b[3];
  }

  /** Reverse the bytes of the word at `at` on a little-endian host, and leave it alone on any other. */
  method ChangeEndian(a: array<bv8>, at: nat, little: bool)
    requires at + 4 <= a.Length
    modifies a
    ensures a[..] == Patch(old(a[..]), at, HostOrder(old(a[at..at + 4]), little))
  {
    if little {
      a[at], a[at + 1], a[at + 2], a[at + 3] := a[at + 3], a[at + 2], a[at + 1], a[at];
    }
  }

  /** Four words at `at`, most significant byte first whatever the host: four stores, then four swaps. */
  method WriteWords(a: array<bv8>, at: nat, w0: bv32, w1: bv32, w2: bv32, w3: bv32, little: bool)
    requires at + 16 <= a.Length
    modifies a
    ensures a[..] == Patch(old(a[..]), at, BigEndian(w0) + BigEndian(w1) + BigEndian(w2) + BigEndian(w3))
  {
    hide BigEndian, HostOrder, Patch;
    ghost var s := a[..];
    ghost var b0, b1, b2, b3 := BigEndian(w0), BigEndian(w1), BigEndian(w2), BigEndian(w3);
    ghost var h0, h1, h2, h3 := HostOrder(b0, little), HostOrder(b1, little), HostOrder(b2, little), HostOrder(b3, little);
    StoreWord(a, at, w0, little);
    StoreWord(a, at + 4, w1, little);
    StoreWord(a, at + 8, w2, little);
    StoreWord(a, at + 12, w3, little);
    PatchTwice(s, at, h0, h1);
    PatchTwice(s, at, h0 + h1, h2);
    PatchTwice(s, at, h0 + h1 + h2, h3);
    SwapWords(a, at, s, b0, b1, b2, b3, little);
  }

  method SwapWords(a: array<bv8>, at: nat, ghost s: seq<bv8>, ghost b0: seq<bv8>, ghost b1: seq<bv8>,
                   ghost b2: seq<bv8>, ghost b3: seq<bv8>, little: bool)
    requires |b0| == |b1| == |b2| == |b3| == 4 && at + 16 <= |s| == a.Length
    requires a[..] == Patch(s, at, HostOrder(b0, little) + HostOrder(b1, little)
                                   + HostOrder(b2, little) + HostOrder(b3, little))
    modifies a
    ensures a[..] == Patch(s, at, b0 + b1 + b2 + b3)
  {
    hide HostOrder, Patch;
    ghost var h0, h1, h2, h3 := HostOrder(b0, little), HostOrder(b1, little), HostOrder(b2, little), HostOrder(b3, little);
    HostOrderTwice(b0, little);
    HostOrderTwice(b1, little);
    HostOrderTwice(b2, little);
    HostOrderTwice(b3, little);
    assert h0 + h1 + h2 + h3 == [] + h0 + (h1 + h2 + h3);
    PatchInside(s, at, [], h0, h1 + h2 + h3, b0);
    ChangeEndian(a, at, little);
    assert [] + b0 + (h1 + h2 + h3) == b0 + h1 + (h2 + h3);
    PatchInside(s, at, b0, h1, h2 + h3, b1);
    ChangeEndian(a, at + 4, little);
    assert b0 + b1 + (h2 + h3) == b0 + b1 + h2 + h3;
    PatchInside(s, at, b0 + b1, h2, h3, b2);
    ChangeEndian(a, at + 8, little);
    assert b0 + b1 + b2 + h3 == b0 + b1 + b2 + h3 + [];
    PatchInside(s, at, b0 + b1 + b2, h3, [], b3);
    ChangeEndian(a, at + 12, little);
    assert b0 + b1 + b2 + b3 + [] == b0 + b1 + b2 + b3;
  }
}
