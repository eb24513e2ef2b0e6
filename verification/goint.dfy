/**
  Go's fixed-width unsigned and signed integers, as ranges of `int`, and the
  operators the timestamp codec uses on `uint64`: wrapping conversion,
  shifts by 32 and the bitwise `|` and `&`.  The bitwise operators are defined
  bit by bit, so that the facts the codec relies on (an OR of disjoint bit
  ranges is an addition, an AND with a low mask is a remainder) are proved
  rather than assumed.
 */
module GoInt {

  const TWO_32: int := 0x1_0000_0000
  const TWO_63: int := 0x8000_0000_0000_0000
  const TWO_64: int := 0x1_0000_0000_0000_0000

  type uint8 = x: int | 0 <= x < 0x100
  type uint16 = x: int | 0 <= x < 0x1_0000
  type uint32 = x: int | 0 <= x < 0x1_0000_0000
  type uint64 = x: int | 0 <= x < 0x1_0000_0000_0000_0000
  type int64 = x: int | -0x8000_0000_0000_0000 <= x < 0x8000_0000_0000_0000

  /** 2 to the power k. */
  function Pow2(k: nat): (r: nat)
    ensures r >= 1
  {
    if k == 0 then 1 else 2 * Pow2(k - 1)
  }

  /** Go's conversion to (and wrapping arithmetic in) `uint64`: reduction modulo 2^64. */
  function Wrap64(x: int): (r: uint64)
    ensures (r - x) % TWO_64 == 0
  {
    x % TWO_64
  }

  /** Go's conversion `int64(x)` of a `uint64`: the two's-complement reading of its bits. */
  function ToInt64(x: uint64): (r: int64)
    ensures (r - x) % TWO_64 == 0
    ensures r < 0 <==> x >= TWO_63
  {
    if x < TWO_63 then x else x - TWO_64
  }

  /** `x << 32` on a `uint64`: bits shifted past bit 63 are discarded. */
  function Shl32(x: uint64): (r: uint64)
    ensures r % TWO_32 == 0
    ensures r / TWO_32 == x % TWO_32
  {
    var q := x / TWO_32;
    var low := x % TWO_32;
    assert x * TWO_32 == q * TWO_64 + low * TWO_32;
    (x * TWO_32) % TWO_64
  }

  /** `x >> 32` on a `uint64`: the high 32 bits. */
  function Shr32(x: uint64): (r: uint32)
    ensures r * TWO_32 <= x < (r + 1) * TWO_32
  {
    x / TWO_32
  }

  /** Bitwise OR of two naturals, least significant bit first. */
  function BitOr(a: nat, b: nat): (r: nat)
    ensures a <= r && b <= r
    ensures r <= a + b
    decreases a + b
  {
    if a == 0 then b
    else if b == 0 then a
    else 2 * BitOr(a / 2, b / 2) + (if a % 2 == 1 || b % 2 == 1 then 1 else 0)
  }

  /** Bitwise AND of two naturals, least significant bit first. */
  function BitAnd(a: nat, b: nat): (r: nat)
    ensures r <= a && r <= b
    decreases a
  {
    if a == 0 || b == 0 then 0
    else 2 * BitAnd(a / 2, b / 2) + (if a % 2 == 1 && b % 2 == 1 then 1 else 0)
  }

  /** OR-ing a value below 2^k into a multiple of 2^k sets disjoint bits: it is an addition. */
  lemma {:induction false} OrOfDisjointIsSum(c: nat, b: nat, k: nat)
    requires b < Pow2(k)
    ensures BitOr(c * Pow2(k), b) == c * Pow2(k) + b
  {
    if k == 0 {
      assert b == 0;
    } else if c == 0 || b == 0 {
    } else {
      var half := Pow2(k - 1);
      assert c * Pow2(k) == 2 * (c * half);
      OrOfDisjointIsSum(c, b / 2, k - 1);
    }
  }

  /** AND with the mask 2^k - 1 gives a value below 2^k. */
  lemma {:induction false} AndWithLowMaskBound(a: nat, k: nat)
    ensures BitAnd(a, Pow2(k) - 1) < Pow2(k)
  {
    if k > 0 && a > 0 {
      var half := Pow2(k - 1);
      var m := Pow2(k) - 1;
      assert m != 0 && m / 2 == half - 1 && m % 2 == 1;
      AndWithLowMaskBound(a / 2, k - 1);
    }
  }

  /**
    AND with the mask 2^k - 1 keeps the low k bits: it differs from `a` by the
    returned multiple `c` of 2^k.
   */
  lemma {:induction false} AndWithLowMask(a: nat, k: nat) returns (c: nat)
    ensures a == c * Pow2(k) + BitAnd(a, Pow2(k) - 1)
  {
    if k == 0 {
      c := a;
    } else if a == 0 {
      c := 0;
    } else {
      var half := Pow2(k - 1);
      var low := BitAnd(a / 2, half - 1);
      AndLowMaskStep(a, k);
      c := AndWithLowMask(a / 2, k - 1);
      assert a / 2 == c * half + low;
      ProductOfDouble(c, half, Pow2(k));
      assert a == 2 * (a / 2) + a % 2;
    }
  }

  /** One bit of AND with a low mask: the mask's lowest bit is set, and its upper bits are a smaller low mask. */
  lemma AndLowMaskStep(a: nat, k: nat)
    requires a > 0 && k > 0
    ensures BitAnd(a, Pow2(k) - 1) == 2 * BitAnd(a / 2, Pow2(k - 1) - 1) + a % 2
  {
    var m := Pow2(k) - 1;
    assert m != 0 && m / 2 == Pow2(k - 1) - 1 && m % 2 == 1;
  }

  lemma ProductOfDouble(c: int, h: int, f: int)
    requires f == 2 * h
    ensures c * f == 2 * (c * h)
  {
  }

  lemma Pow2Is32()
    ensures Pow2(32) == TWO_32
  {
    assert Pow2(4) == 16;
    assert Pow2(8) == 256;
    assert Pow2(12) == 4096;
    assert Pow2(16) == 65536;
    assert Pow2(20) == 0x10_0000;
    assert Pow2(24) == 0x100_0000;
    assert Pow2(28) == 0x1000_0000;
  }

  /** `x | y` of a shifted high word and a value below 2^32 is their sum. */
  lemma OrIntoLowWord(hi: uint64, lo: nat)
    requires hi % TWO_32 == 0
    requires lo < TWO_32
    ensures BitOr(hi, lo) == hi + lo
  {
    Pow2Is32();
    var c := hi / TWO_32;
    assert hi == c * Pow2(32);
    OrOfDisjointIsSum(c, lo, 32);
  }

  /** `x & 0xFFFFFFFF` is the low 32 bits of x. */
  lemma AndLowWord(x: nat)
    ensures BitAnd(x, 0xFFFF_FFFF) == x % TWO_32
  {
    Pow2Is32();
    AndWithLowMaskBound(x, 32);
    var c := AndWithLowMask(x, 32);
    var r := BitAnd(x, Pow2(32) - 1);
    assert Pow2(32) - 1 == 0xFFFF_FFFF;
    LowWordOfShift(r, c);
    LowWordOfSmall(r);
  }

  /** A value built from a high word and a low word below 2^32 splits back into them. */
  lemma SplitWords(hi: int, lo: int)
    requires hi % TWO_32 == 0
    requires 0 <= lo < TWO_32
    ensures (hi + lo) / TWO_32 == hi / TWO_32
    ensures (hi + lo) % TWO_32 == lo
  {
    var c := hi / TWO_32;
    assert hi + lo == c * TWO_32 + lo;
  }

  /** A word whose low 32 bits are zero, plus a value below 2^32, still fits in a `uint64`. */
  lemma AlignedPlusLowFits(hi: uint64, lo: int)
    requires hi % TWO_32 == 0
    requires 0 <= lo < TWO_32
    ensures hi + lo < TWO_64
  {
    var c := hi / TWO_32;
    assert hi == c * TWO_32;
    assert c < TWO_32;
    assert c * TWO_32 <= (TWO_32 - 1) * TWO_32;
  }

  /** Adding k times 2^32 adds k to the high part and leaves the low 32 bits alone. */
  lemma LowWordOfShift(y: int, k: int)
    ensures (y + k * TWO_32) % TWO_32 == y % TWO_32
    ensures (y + k * TWO_32) / TWO_32 == y / TWO_32 + k
  {
    var d := y / TWO_32;
    assert y + k * TWO_32 == (d + k) * TWO_32 + y % TWO_32;
  }

  /** `uint64(a) + b` in `uint64` has the low 32 bits of the exact sum. */
  lemma LowWordOfWrappedSum(a: int, b: int)
    ensures Wrap64(Wrap64(a) + b) % TWO_32 == (a + b) % TWO_32
  {
    var q1 := a / TWO_64;
    var q2 := (Wrap64(a) + b) / TWO_64;
    assert Wrap64(Wrap64(a) + b) == (a + b) + (-(q1 + q2) * 0x1_0000_0000) * TWO_32;
    LowWordOfShift(a + b, -(q1 + q2) * 0x1_0000_0000);
  }

  /** A value below 2^32 is its own low word. */
  lemma LowWordOfSmall(v: int)
    requires 0 <= v < TWO_32
    ensures v % TWO_32 == v
  {
  }
}
