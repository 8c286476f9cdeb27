/**
 The 1-based bit test on unsigned 64-bit integers. Integers are unbounded
 here, so a uint64 is a natural number below 2^64, and the bitwise AND is
 defined digit by digit in base 2.
 */
module Bits {

  const TwoTo64: nat := 0x1_0000_0000_0000_0000

  type Uint64 = n: nat | n < 0x1_0000_0000_0000_0000

  /** A value, or the message of a panic. */
  datatype Result<T> = Ok(value: T) | Panic(message: string)

  function Pow2(k: nat): (r: nat)
    ensures r > 0
  {
    if k == 0 then 1 else 2 * Pow2(k - 1)
  }

  /** Bit `k` of `n`, counting from 0 at the least significant end. */
  function Bit(n: nat, k: nat): (b: nat)
    ensures b < 2
  {
    if k == 0 then n % 2 else Bit(n / 2, k - 1)
  }

  /** Bitwise AND of two unsigned integers. */
  function BitAnd(a: nat, b: nat): (r: nat)
    ensures r <= a && r <= b
  {
    if a == 0 || b == 0 then 0
    else 2 * BitAnd(a / 2, b / 2) + (if a % 2 == 1 && b % 2 == 1 then 1 else 0)
  }

  /** `n` with bit `j` inverted. */
  function FlipBit(n: nat, j: nat): (r: nat)
  {
    if j == 0 then (if n % 2 == 1 then n - 1 else n + 1) else 2 * FlipBit(n / 2, j - 1) + n % 2
  }

  /**
   IsBitOne(number, bitPosition): whether bit `bitPosition` of `number` is 1,
   counting from 1 at the least significant end; a position outside 1..64
   panics with "index out of range".
   */
  function IsBitOne(number: Uint64, bitPosition: nat): (r: Result<bool>)
    ensures r.Panic? <==> bitPosition < 1 || bitPosition > 64
    ensures r.Panic? ==> r.message == "index out of range"
    ensures r.Ok? ==> (r.value <==> (number / Pow2(bitPosition - 1)) % 2 == 1)
  {
    if bitPosition < 1 || bitPosition > 64 then
      Panic("index out of range")
    else
      MaskSelectsBit(number, bitPosition - 1);
      BitIsQuotientParity(number, bitPosition - 1);
      Ok(BitAnd(number, Pow2(bitPosition - 1)) != 0)
  }

  /** Each bit of an AND is set exactly when that bit is set in both operands. */
  lemma {:induction false} BitOfBitAnd(a: nat, b: nat, k: nat)
    ensures Bit(BitAnd(a, b), k) == if Bit(a, k) == 1 && Bit(b, k) == 1 then 1 else 0
  {
    if a == 0 || b == 0 {
      BitOfZero(k);
    } else {
      var r := BitAnd(a / 2, b / 2);
      var low := if a % 2 == 1 && b % 2 == 1 then 1 else 0;
      assert BitAnd(a, b) == 2 * r + low;
      if k > 0 {
        assert (2 * r + low) / 2 == r;
        BitOfBitAnd(a / 2, b / 2, k - 1);
      }
    }
  }

  lemma {:induction false} BitOfZero(k: nat)
    ensures Bit(0, k) == 0
  {
    if k > 0 { BitOfZero(k - 1); }
  }

  /** Bit `k` of `n` is the parity of `n` divided by 2^k. */
  lemma {:induction false} BitIsQuotientParity(n: nat, k: nat)
    ensures Bit(n, k) == (n / Pow2(k)) % 2
  {
    if k > 0 {
      BitIsQuotientParity(n / 2, k - 1);
      HalveThenDivide(n, Pow2(k - 1));
    }
  }

  lemma HalveThenDivide(n: nat, p: nat)
    requires p > 0
    ensures (n / 2) / p == n / (2 * p)
  {
    var q, r := n / (2 * p), n % (2 * p);
    DoubleTimes(p, q);
    HalveSum(n, p * q, r);
    QuotientUnique(n / 2, p, q, r / 2);
  }

  lemma DoubleTimes(p: int, q: int)
    ensures (2 * p) * q == 2 * (p * q)
  {
  }

  /** Halving `2m + r` gives `m + r / 2`. */
  lemma HalveSum(n: int, m: int, r: int)
    requires 0 <= r && n == 2 * m + r
    ensures n / 2 == m + r / 2
  {
  }

  lemma QuotientUnique(a: int, d: int, q: int, r: int)
    requires d > 0 && 0 <= r < d && a == d * q + r
    ensures a / d == q
  {
    var q', r' := a / d, a % d;
    assert a == d * q' + r';
    if q' < q {
      MulGap(d, q', q);
    } else if q' > q {
      MulGap(d, q, q');
    }
  }

  lemma MulGap(d: int, x: int, y: int)
    requires d >= 0 && x < y
    ensures d * x + d <= d * y
  {
    var k := y - x;
    assert d * y == d * x + d * k;
    assert d * k == d + d * (k - 1);
  }

  /** The mask 2^k keeps exactly bit `k` of `n`. */
  lemma {:induction false} MaskSelectsBit(n: nat, k: nat)
    ensures BitAnd(n, Pow2(k)) == if Bit(n, k) == 1 then Pow2(k) else 0
  {
    if n == 0 {
      BitOfZero(k);
    } else if k > 0 {
      var half := Pow2(k - 1);
      assert Pow2(k) == 2 * half && Pow2(k) / 2 == half && Pow2(k) % 2 == 0;
      assert BitAnd(n, Pow2(k)) == 2 * BitAnd(n / 2, half);
      MaskSelectsBit(n / 2, k - 1);
    }
  }

  /** Inverting bit `j` changes bit `j` and no other. */
  lemma {:induction false} BitOfFlipBit(n: nat, j: nat, k: nat)
    ensures Bit(FlipBit(n, j), k) == if k == j then 1 - Bit(n, k) else Bit(n, k)
  {
    if j == 0 {
      if k > 0 {
        assert FlipBit(n, j) / 2 == n / 2;
      }
    } else {
      var r := FlipBit(n / 2, j - 1);
      assert FlipBit(n, j) / 2 == r && FlipBit(n, j) % 2 == n % 2;
      if k > 0 {
        BitOfFlipBit(n / 2, j - 1, k - 1);
      }
    }
  }

  /** Inverting a bit below position `w` keeps a number below 2^w. */
  lemma {:induction false} FlipBitBound(n: nat, j: nat, w: nat)
    requires n < Pow2(w) && j < w
    ensures FlipBit(n, j) < Pow2(w)
  {
    var half := Pow2(w - 1);
    assert Pow2(w) == 2 * half;
    assert n / 2 < half;
    if j > 0 {
      FlipBitBound(n / 2, j - 1, w - 1);
      assert FlipBit(n, j) == 2 * FlipBit(n / 2, j - 1) + n % 2;
    }
  }

  lemma {:induction false} Pow2Add(a: nat, b: nat)
    ensures Pow2(a + b) == Pow2(a) * Pow2(b)
  {
    if a > 0 {
      Pow2Add(a - 1, b);
    }
  }

  lemma Pow2Of64()
    ensures Pow2(64) == TwoTo64
  {
    assert Pow2(8) == 256;
    Pow2Add(8, 8);
    Pow2Add(16, 16);
    Pow2Add(32, 32);
  }

  /** The answer depends on bit bitPosition-1 alone: inverting any other bit leaves it unchanged. */
  lemma IsBitOneIgnoresOtherBits(number: Uint64, bitPosition: nat, j: nat)
    requires 1 <= bitPosition <= 64 && j < 64 && j != bitPosition - 1
    ensures FlipBit(number, j) < TwoTo64
    ensures IsBitOne(FlipBit(number, j), bitPosition) == IsBitOne(number, bitPosition)
  {
    Pow2Of64();
    FlipBitBound(number, j, 64);
    BitOfFlipBit(number, j, bitPosition - 1);
    BitIsQuotientParity(number, bitPosition - 1);
    BitIsQuotientParity(FlipBit(number, j), bitPosition - 1);
  }

  /** The answer depends on bit bitPosition-1 alone: numbers that agree on it get the same answer. */
  lemma IsBitOneDependsOnlyOnItsBit(a: Uint64, b: Uint64, bitPosition: nat)
    requires 1 <= bitPosition <= 64 && Bit(a, bitPosition - 1) == Bit(b, bitPosition - 1)
    ensures IsBitOne(a, bitPosition) == IsBitOne(b, bitPosition)
  {
    BitIsQuotientParity(a, bitPosition - 1);
    BitIsQuotientParity(b, bitPosition - 1);
  }

  /** The answer for bit bitPosition-1 flips when that very bit is inverted. */
  lemma IsBitOneSeesItsBit(number: Uint64, bitPosition: nat)
    requires 1 <= bitPosition <= 64
    ensures FlipBit(number, bitPosition - 1) < TwoTo64
    ensures IsBitOne(FlipBit(number, bitPosition - 1), bitPosition).value == !IsBitOne(number, bitPosition).value
  {
    Pow2Of64();
    FlipBitBound(number, bitPosition - 1, 64);
    BitOfFlipBit(number, bitPosition - 1, bitPosition - 1);
    BitIsQuotientParity(number, bitPosition - 1);
    BitIsQuotientParity(FlipBit(number, bitPosition - 1), bitPosition - 1);
  }

  /** No bit of zero is set. */
  lemma IsBitOneOfZero(bitPosition: nat)
    requires 1 <= bitPosition <= 64
    ensures IsBitOne(0, bitPosition) == Ok(false)
  {
  }

  /** 5 is 101 in binary: bits 1 and 3 are set, bit 2 is not, and position 65 panics. */
  lemma IsBitOneOfFive()
    ensures IsBitOne(5, 1) == Ok(true)
    ensures IsBitOne(5, 2) == Ok(false)
    ensures IsBitOne(5, 3) == Ok(true)
    ensures IsBitOne(5, 65) == Panic("index out of range")
    ensures IsBitOne(5, 0) == Panic("index out of range")
  {
  }
}
