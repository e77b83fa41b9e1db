/** C integer arithmetic on mathematical integers: wrapping, truncation and bitwise AND. */
module Machine {
  const TWO16: nat := 0x1_0000
  const TWO32: nat := 0x1_0000_0000

  type byte = b: nat | b < 256

  function U16(x: int): (r: nat)
    ensures r < TWO16
  {
    if 0 <= x < TWO16 then x else x % TWO16
  }

  function U32(x: int): (r: nat)
    ensures r < TWO32
  {
    if 0 <= x < TWO32 then x else x % TWO32
  }

  /** The value a 16-bit two's complement variable holds after `x` is stored in it. */
  function I16(x: int): (r: int)
    ensures -0x8000 <= r < 0x8000
  {
    if -0x8000 <= x < 0x8000 then x else (x + 0x8000) % TWO16 - 0x8000
  }

  /** The value a 32-bit two's complement variable holds after `x` is stored in it. */
  function I32(x: int): (r: int)
    ensures -0x8000_0000 <= r < 0x8000_0000
  {
    if -0x8000_0000 <= x < 0x8000_0000 then x else (x + 0x8000_0000) % TWO32 - 0x8000_0000
  }

  function Min(a: int, b: int): int {
    if a < b then a else b
  }

  function Max(a: int, b: int): int {
    if a < b then b else a
  }

  /** Division of C: the quotient is truncated toward zero. */
  function CDiv(x: int, d: int): int
    requires d > 0
  {
    if x >= 0 then x / d else -((-x) / d)
  }

  /** Truncated: the quotient has the sign of `x`, and its magnitude is that of the quotient rounded down. */
  lemma CDivTruncates(x: int, d: int)
    requires d > 0
    ensures var q := CDiv(x, d);
      if x >= 0 then d * q <= x < d * q + d else d * q - d < x <= d * q
    ensures x >= 0 ==> CDiv(x, d) >= 0
    ensures x <= 0 ==> CDiv(x, d) <= 0
  {
    if x < 0 {
      assert -x == d * ((-x) / d) + (-x) % d;
    }
  }

  function Pow2(n: nat): (p: nat)
    ensures p > 0
  {
    if n == 0 then 1 else 2 * Pow2(n - 1)
  }

  lemma {:induction false} Pow2Less(a: nat, b: nat)
    requires a < b
    ensures Pow2(a) < Pow2(b)
  {
    if a + 1 < b { Pow2Less(a, b - 1); }
  }

  /** Bitwise AND of two unsigned integers. */
  function And(x: nat, y: nat): nat {
    if x == 0 || y == 0 then 0 else 2 * And(x / 2, y / 2) + (if x % 2 == 1 && y % 2 == 1 then 1 else 0)
  }

  lemma AndStep(x: nat, y: nat)
    ensures And(x, y) == 2 * And(x / 2, y / 2) + (if x % 2 == 1 && y % 2 == 1 then 1 else 0)
  {
  }

  /** A mask of `k` low ones keeps the remainder modulo 2^k. */
  lemma {:induction false} AndMask(x: nat, k: nat)
    ensures And(x, Pow2(k) - 1) == x % Pow2(k)
  {
    if k == 0 {
      ModUnique(x, 1, x, 0);
    } else if x == 0 {
      ModUnique(0, Pow2(k), 0, 0);
    } else {
      var p := Pow2(k - 1);
      calc {
        And(x, Pow2(k) - 1);
        { AndOddMask(x, p); }
        2 * And(x / 2, p - 1) + x % 2;
        { AndMask(x / 2, k - 1); }
        2 * ((x / 2) % p) + x % 2;
        { ModHalves(x, p); }
        x % Pow2(k);
      }
    }
  }

  /** A mask of `k` low ones keeps every number of `k` bits. */
  lemma AndOnes(x: nat, k: nat, ones: nat)
    requires x <= ones && ones + 1 == Pow2(k)
    ensures And(x, ones) == x
  {
    AndMask(x, k);
    ModUnique(x, ones + 1, 0, x);
  }

  lemma AndOddMask(x: nat, p: nat)
    requires x > 0 && p > 0
    ensures And(x, 2 * p - 1) == 2 * And(x / 2, p - 1) + x % 2
  {
    assert (2 * p - 1) / 2 == p - 1;
  }

  lemma ModHalves(x: nat, p: nat)
    requires p > 0
    ensures x % (2 * p) == 2 * ((x / 2) % p) + x % 2
  {
    var q, r := x / 2 / p, x / 2 % p;
    assert x / 2 == p * q + r;
    assert x == (2 * p) * q + (2 * r + x % 2);
    ModUnique(x, 2 * p, q, 2 * r + x % 2);
  }

  lemma ModUnique(x: int, d: nat, q: int, r: int)
    requires d > 0 && 0 <= r < d && x == d * q + r
    ensures x % d == r && x / d == q
  {
    var q', r' := x / d, x % d;
    assert d * (q - q') == r' - r;
    if q > q' {
      MulMono(d, q - q', 1);
    } else if q < q' {
      MulMono(d, q' - q, 1);
    }
  }

  lemma MulMono(d: nat, a: int, b: int)
    requires a >= b
    ensures d * a >= d * b
  {
  }

  /** `size & (size - 1)` of a positive size is zero exactly for the powers of two. */
  lemma PowerOfTwoTest(size: nat)
    requires size > 0
    ensures And(size, size - 1) == 0 <==> exists k: nat :: size == Pow2(k)
  {
    if And(size, size - 1) == 0 {
      var k := TestFindsPower(size);
    }
    forall k: nat | size == Pow2(k) ensures And(size, size - 1) == 0 {
      PowerPassesTest(k);
    }
  }

  lemma {:induction false} PowerPassesTest(k: nat)
    ensures And(Pow2(k), Pow2(k) - 1) == 0
  {
    if k > 0 {
      PowerPassesTest(k - 1);
      assert (Pow2(k) - 1) / 2 == Pow2(k - 1) - 1;
    }
  }

  lemma {:induction false} TestFindsPower(size: nat) returns (k: nat)
    requires size > 0 && And(size, size - 1) == 0
    ensures size == Pow2(k)
  {
    if size == 1 {
      k := 0;
    } else if size % 2 == 1 {
      assert (size - 1) / 2 == size / 2;
      AndSelf(size / 2);
      assert false;
    } else {
      assert (size - 1) / 2 == size / 2 - 1;
      var j := TestFindsPower(size / 2);
      k := j + 1;
    }
  }

  lemma {:induction false} AndSelf(x: nat)
    ensures And(x, x) == x
  {
    if x > 0 {
      AndSelf(x / 2);
    }
  }
}
