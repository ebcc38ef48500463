/** Optional values and results, used wherever the program returns a nil pointer or an error. */
module Wrappers {

  datatype Option<+T> = None | Some(value: T)

  datatype Result<+T, +E> = Ok(value: T) | Err(error: E)
}

/** Powers of two, as the shifts `1 << k` of the program. */
module Powers {

  function Pow2(k: nat): (p: nat)
    ensures p >= 1
  {
    if k == 0 then 1 else 2 * Pow2(k - 1)
  }

  lemma {:induction false} Pow2Monotone(j: nat, k: nat)
    requires j <= k
    ensures Pow2(j) <= Pow2(k)
    ensures j < k ==> Pow2(j) < Pow2(k)
    decreases k
  {
    if j < k {
      Pow2Monotone(j, k - 1);
    }
  }

  // The floor of the base-2 logarithm.
  function FloorLog2(n: nat): (d: nat)
    requires n > 0
    ensures Pow2(d) <= n < Pow2(d + 1)
  {
    if n == 1 then 0 else 1 + FloorLog2(n / 2)
  }

  lemma {:induction false} Pow2Add(j: nat, k: nat)
    ensures Pow2(j + k) == Pow2(j) * Pow2(k)
    decreases k
  {
    if k == 0 {
      assert Pow2(0) == 1;
    } else {
      Pow2Add(j, k - 1);
      assert Pow2(j + k) == 2 * Pow2(j + (k - 1));
    }
  }

  lemma Pow2Plus4(k: nat)
    ensures Pow2(k + 4) == 16 * Pow2(k)
  {
    assert Pow2(k + 2) == 4 * Pow2(k);
  }

  lemma Pow2Plus16(k: nat)
    ensures Pow2(k + 16) == 0x1_0000 * Pow2(k)
  {
    Pow2Plus4(k);
    Pow2Plus4(k + 4);
    Pow2Plus4(k + 8);
    Pow2Plus4(k + 12);
  }

  lemma Pow2Plus62(k: nat)
    ensures Pow2(k + 62) == 0x4000_0000_0000_0000 * Pow2(k)
  {
    Pow2Plus16(k);
    Pow2Plus16(k + 16);
    Pow2Plus16(k + 32);
    Pow2Plus4(k + 48);
    Pow2Plus4(k + 52);
    Pow2Plus4(k + 56);
    assert Pow2(k + 62) == 4 * Pow2(k + 60);
  }

  lemma Pow2UpTo62(k: nat)
    requires k <= 62
    ensures 1 <= Pow2(k) <= 0x4000_0000_0000_0000
  {
    var rest := 62 - k;
    Pow2Plus62(0);
    Pow2Monotone(k, k + rest);
  }
}

/** Products. */
module Arithmetic {

  lemma MulMonotone(a: int, b: int, d: nat)
    requires a <= b
    ensures a * d <= b * d
  {
  }

  lemma IntRealMul(a: int, d: nat)
    ensures (a * d) as real == a as real * d as real
  {
  }

  lemma RealMulMonotone(x: real, y: real, r: real)
    requires r > 0.0
    ensures x < y <==> x * r < y * r
  {
    assert (y - x) * r == y * r - x * r;
    assert y - x > 0.0 <==> (y - x) * r > 0.0;
  }

  lemma HalfThenDivide(v: nat, d: nat)
    requires d > 0
    ensures v / 2 / d == v / (2 * d)
  {
    var q := v / 2 / d;
    var rest := v / 2 % d;
    assert v / 2 == q * d + rest;
    assert v == q * (2 * d) + (2 * rest + v % 2);
    QuotientUnique(v, 2 * d, q, 2 * rest + v % 2);
  }

  lemma QuotientUnique(v: nat, d: nat, q: nat, r: nat)
    requires v == q * d + r && r < d
    ensures v / d == q
  {
    var p := v / d;
    assert v == p * d + v % d;
    if p < q {
      MulMonotone(p + 1, q, d);
    } else if q < p {
      MulMonotone(q + 1, p, d);
    }
  }
}

/** Cardinalities. */
module FiniteSets {

  lemma SubsetSize<T>(a: set<T>, b: set<T>)
    requires a <= b
    ensures |a| <= |b|
    ensures |a| == |b| ==> a == b
  {
    assert b == a + (b - a);
    assert |b| == |a| + |b - a|;
  }
}

/** Two's complement 64-bit arithmetic. */
module Int64 {

  const MAX: int := 0x7fff_ffff_ffff_ffff
  const MIN: int := -0x8000_0000_0000_0000
  const MODULUS: int := 0x1_0000_0000_0000_0000

  predicate Fits(x: int) {
    MIN <= x <= MAX
  }

  // The value a 64-bit register holds after an operation whose exact result is x.
  function Wrap(x: int): (r: int)
    ensures Fits(r)
    ensures Fits(x) ==> r == x
    ensures (r - x) % MODULUS == 0
  {
    var low := x % MODULUS;
    if low > MAX then low - MODULUS else low
  }

  // Division of the host language, which truncates toward zero.
  function Quot(x: int, d: int): int
    requires d > 0
  {
    if x >= 0 then x / d else -((-x) / d)
  }

  // The remainder is smaller than the divisor and has the sign of the dividend.
  lemma QuotTruncates(x: int, d: int)
    requires d > 0
    ensures x >= 0 ==> 0 <= x - Quot(x, d) * d < d
    ensures x <= 0 ==> -d < x - Quot(x, d) * d <= 0
  {
    var a := if x >= 0 then x else -x;
    assert a == a / d * d + a % d;
    assert x < 0 ==> Quot(x, d) * d == -(a / d * d);
  }
}
