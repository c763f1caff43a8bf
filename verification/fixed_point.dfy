/** Signed 32-bit integers as the rotation kernel uses them: the arithmetic
    right shift and the low-bit mask, defined on the two's-complement bit
    pattern and shown to be floor division and the Euclidean remainder. */
module FixedPoint {
  import Arith

  /** 2^32, the number of 32-bit patterns. */
  const Word: int := 0x1_0000_0000
  /** 2^31, the weight of the sign bit. */
  const SignBit: int := 0x8000_0000

  function Pow2(k: nat): (p: nat)
    ensures p > 0
  {
    if k == 0 then 1 else 2 * Pow2(k - 1)
  }

  lemma {:induction false} Pow2Add(a: nat, b: nat)
    ensures Pow2(a + b) == Pow2(a) * Pow2(b)
    decreases b
  {
    if b > 0 {
      Pow2Add(a, b - 1);
      assert Pow2(a) * Pow2(b) == Pow2(a) * (2 * Pow2(b - 1)) == 2 * (Pow2(a) * Pow2(b - 1));
    }
  }

  lemma Pow2Word()
    ensures Pow2(8) == 256
    ensures Pow2(16) == 0x1_0000
    ensures Pow2(32) == Word
  {
    assert Pow2(8) == 256;
    Pow2Add(8, 8);
    Pow2Add(16, 16);
  }

  predicate IsInt32(x: int)
  {
    -SignBit <= x < SignBit
  }

  /** The two's-complement bit pattern of `x`, read as an unsigned number. */
  function Bits(x: int): nat
    requires IsInt32(x)
  {
    if x >= 0 then x else x + Word
  }

  /** The signed value of a 32-bit pattern. */
  function FromBits(u: nat): int
    requires u < Word
  {
    if u < SignBit then u else u - Word
  }

  /** The quotient of a pattern by 2^k, related to the quotient of the
      signed value: the pattern of a negative `x` exceeds it by 2^32, which
      is 2^(32-k) times 2^k. */
  lemma ShiftQuotient(x: int, k: nat)
    requires IsInt32(x) && 0 < k < 32
    ensures Pow2(k) * Pow2(32 - k) == Word
    ensures Bits(x) / Pow2(k) == x / Pow2(k) + (if x < 0 then Pow2(32 - k) else 0)
    ensures Bits(x) % Pow2(k) == x % Pow2(k)
    ensures x < 0 ==> -SignBit <= x / Pow2(k) < 0
    ensures x >= 0 ==> 0 <= x / Pow2(k) <= x
  {
    Pow2Word();
    Pow2Add(k, 32 - k);
    assert Pow2(k) == 2 * Pow2(k - 1);
    if x < 0 {
      NegativeQuotient(x, Pow2(k), Pow2(32 - k));
    } else {
      NonNegativeQuotient(x, Pow2(k));
    }
  }

  lemma NegativeQuotient(x: int, m: int, p: int)
    requires -SignBit <= x < 0 && 2 <= m && m * p == Word
    ensures (x + Word) / m == x / m + p
    ensures (x + Word) % m == x % m
    ensures -SignBit <= x / m < 0
  {
    var q, r := x / m, x % m;
    assert x == q * m + r;
    assert x + Word == (q + p) * m + r;
    Arith.DivModUnique(x + Word, q + p, r, m);
    if q >= 0 {
      Arith.MulMono(0, q, m);
    }
    if q < -SignBit {
      Arith.MulStrictMono(q, -SignBit, m);
      Arith.MulMono(1, m, SignBit);
    }
  }

  lemma NonNegativeQuotient(x: int, m: int)
    requires 0 <= x && 1 <= m
    ensures 0 <= x / m <= x
  {
    var q, r := x / m, x % m;
    assert x == q * m + r;
    if q < 0 {
      Arith.MulMono(q, -1, m);
    } else {
      Arith.MulMono(1, m, q);
    }
  }

  /** `x >> k` on a signed 32-bit `int`: the bit pattern shifted right by
      `k`, with copies of the sign bit shifted in at the top. It is floor
      division by 2^k, so it rounds towards minus infinity. */
  function ShiftRight(x: int, k: nat): (r: int)
    requires IsInt32(x) && 0 < k < 32
    ensures r == x / Pow2(k)
    ensures IsInt32(r)
  {
    ShiftQuotient(x, k);
    var u := Bits(x);
    var fill := if u >= SignBit then Word - Pow2(32 - k) else 0;
    FromBits(u / Pow2(k) + fill)
  }

  /** `x & (2^k - 1)` on a signed 32-bit `int`: the low `k` bits of the
      pattern. It is the remainder of the floor division, never negative. */
  function LowBits(x: int, k: nat): (r: int)
    requires IsInt32(x) && 0 < k < 32
    ensures r == x % Pow2(k)
    ensures 0 <= r < Pow2(k)
  {
    ShiftQuotient(x, k);
    Bits(x) % Pow2(k)
  }

  /** A fixed-point number splits into its shifted integer part and its
      masked fraction: x == (x >> k) * 2^k + (x & (2^k - 1)). */
  lemma SplitFixed(x: int, k: nat)
    requires IsInt32(x) && 0 < k < 32
    ensures x == ShiftRight(x, k) * Pow2(k) + LowBits(x, k)
  {
    var m := Pow2(k);
    assert x == (x / m) * m + x % m;
  }
}
