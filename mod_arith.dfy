/** Natural powers and the modular-arithmetic facts the field layer is proved with.
    Dafny's `%` on `int` is Euclidean, which for a positive modulus is the
    mathematical residue in [0, m). */
module ModArith {

  /** b^e on the naturals. */
  function NatPow(b: nat, e: nat): nat
  {
    if e == 0 then 1 else b * NatPow(b, e - 1)
  }

  /** 2^e. */
  function Pow2(e: nat): (p: nat)
    ensures p > 0
  {
    NatPowPositive(2, e);
    NatPow(2, e)
  }

  lemma MulAtLeast(d: int, m: int)
    requires d >= 1 && m > 0
    ensures d * m >= m
  {
  }

  /** A decomposition x = q*m + r with 0 <= r < m determines x % m. */
  lemma ModUnique(x: int, q: int, r: int, m: int)
    requires m > 0 && 0 <= r < m && x == q * m + r
    ensures x % m == r && x / m == q
  {
    var q0, r0 := x / m, x % m;
    assert x == q0 * m + r0;
    if q > q0 {
      MulAtLeast(q - q0, m);
      assert false;
    } else if q < q0 {
      MulAtLeast(q0 - q, m);
      assert false;
    }
  }

  lemma ModSmall(x: int, m: int)
    requires 0 <= x < m
    ensures x % m == x
  {
    ModUnique(x, 0, x, m);
  }

  lemma ModAddMultiple(a: int, k: int, m: int)
    requires m > 0
    ensures (a + k * m) % m == a % m
  {
    var q, r := a / m, a % m;
    assert a + k * m == (q + k) * m + r;
    ModUnique(a + k * m, q + k, r, m);
  }

  lemma ModOfMod(x: int, m: int)
    requires m > 0
    ensures (x % m) % m == x % m
  {
    ModSmall(x % m, m);
  }

  /** Reducing the left summand first does not change the residue. */
  lemma ModAddLeft(a: int, b: int, m: int)
    requires m > 0
    ensures (a % m + b) % m == (a + b) % m
  {
    assert a + b == (a % m + b) + (a / m) * m;
    ModAddMultiple(a % m + b, a / m, m);
  }

  lemma ModAddBoth(a: int, b: int, m: int)
    requires m > 0
    ensures (a % m + b % m) % m == (a + b) % m
  {
    ModAddLeft(a, b % m, m);
    ModAddLeft(b, a, m);
    assert a + b % m == b % m + a;
  }

  lemma ModSubBoth(a: int, b: int, m: int)
    requires m > 0
    ensures (a % m - b % m) % m == (a - b) % m
  {
    ModAddLeft(a, -(b % m), m);
    assert a - b == (a - b % m) - (b / m) * m;
    ModAddMultiple(a - b, b / m, m);
  }

  /** Reducing the left factor first does not change the residue. */
  lemma ModMulLeft(a: int, b: int, m: int)
    requires m > 0
    ensures ((a % m) * b) % m == (a * b) % m
  {
    var q, r := a / m, a % m;
    assert a == q * m + r;
    calc {
      a * b;
      (q * m + r) * b;
      r * b + (q * b) * m;
    }
    ModAddMultiple(r * b, q * b, m);
  }

  lemma ModMulRight(a: int, b: int, m: int)
    requires m > 0
    ensures (a * (b % m)) % m == (a * b) % m
  {
    ModMulLeft(b, a, m);
    assert a * (b % m) == (b % m) * a;
  }

  lemma ModMulBoth(a: int, b: int, m: int)
    requires m > 0
    ensures ((a % m) * (b % m)) % m == (a * b) % m
  {
    ModMulLeft(a, b % m, m);
    ModMulRight(a, b, m);
  }

  /** Re-associating a product under the modulus. */
  lemma ModMulAssoc(x: int, y: int, z: int, m: int)
    requires m > 0
    ensures (((x * y) % m) * z) % m == (x * ((y * z) % m)) % m
  {
    ModMulLeft(x * y, z, m);
    ModMulRight(x, y * z, m);
    assert (x * y) * z == x * (y * z);
  }

  lemma ModDistributive(x: int, y: int, z: int, m: int)
    requires m > 0
    ensures (x * ((y + z) % m)) % m == ((x * y) % m + (x * z) % m) % m
  {
    ModMulRight(x, y + z, m);
    assert x * (y + z) == x * y + x * z;
    ModAddBoth(x * y, x * z, m);
  }

  /** x + (-x) vanishes modulo m. */
  lemma ModAddNegation(x: int, m: int)
    requires m > 0
    ensures (x + (0 - x) % m) % m == 0
  {
    ModAddBoth(x, 0 - x, m);
    ModAddLeft(x, (0 - x) % m, m);
    ModOfMod(0 - x, m);
    ModSmall(0, m);
  }

  lemma ModNegNeg(x: int, m: int)
    requires 0 <= x < m
    ensures (0 - (0 - x) % m) % m == x
  {
    ModSubBoth(0, 0 - x, m);
    ModSmall(0, m);
    ModSmall(x, m);
  }

  lemma ModNegSquare(x: int, m: int)
    requires m > 0
    ensures (((0 - x) % m) * ((0 - x) % m)) % m == (x * x) % m
  {
    ModMulBoth(0 - x, 0 - x, m);
    assert (0 - x) * (0 - x) == x * x;
  }

  lemma ModSubIsAddNeg(x: int, y: int, m: int)
    requires 0 <= x < m
    ensures (x - y) % m == (x + (0 - y) % m) % m
  {
    ModAddBoth(x, 0 - y, m);
    ModSmall(x, m);
  }

  /** Adding the same residue on the left cancels. */
  lemma ModCancelLeft(x: int, y: int, z: int, m: int)
    requires 0 <= y < m && 0 <= z < m && (x + y) % m == (x + z) % m
    ensures y == z
  {
    ModSubBoth(x + y, x + z, m);
    assert (x + y) - (x + z) == y - z;
    ModSmall(0, m);
    if y > z {
      ModSmall(y - z, m);
      assert false;
    } else if y < z {
      ModAddMultiple(y - z, 1, m);
      ModSmall(y - z + m, m);
      assert false;
    }
  }

  lemma ModAddAssoc(x: int, y: int, z: int, m: int)
    requires m > 0
    ensures ((x + y) % m + z) % m == (x + (y + z) % m) % m
  {
    var s1, s2 := x + y, y + z;
    ModAddLeft(s1, z, m);
    ModAddLeft(s2, x, m);
    assert s1 + z == s2 + x;
    var r2 := s2 % m;
    assert r2 + x == x + r2;
  }

  lemma ModMulInterchange(x: int, y: int, z: int, w: int, m: int)
    requires m > 0
    ensures (((x * y) % m) * ((z * w) % m)) % m == (((x * z) % m) * ((y * w) % m)) % m
  {
    ModMulBoth(x * y, z * w, m);
    ModMulBoth(x * z, y * w, m);
    MulRearrange(x, y, z, w);
    MulRearrange(x, z, y, w);
  }

  lemma ModDifferenceOfSquares(x: int, y: int, m: int)
    requires m > 0
    ensures (((x - y) % m) * ((x + y) % m)) % m == ((x * x) % m - (y * y) % m) % m
  {
    ModMulBoth(x - y, x + y, m);
    ModSubBoth(x * x, y * y, m);
    assert (x - y) * (x + y) == x * x - y * y;
  }

  lemma ModSumPlusDifference(x: int, y: int, m: int)
    requires m > 0
    ensures ((x + y) % m + (x - y) % m) % m == (x + x) % m
  {
    ModAddBoth(x + y, x - y, m);
    assert (x + y) + (x - y) == x + x;
  }

  /** The residue chain of x^3 + b, then adding a * x, as the curve equation
      is evaluated step by step. */
  lemma ModCubicSteps(x: int, a: int, b: int, m: int)
    requires m > 0
    ensures ((((x * x) % m) * x) % m + b) % m == (x * x * x + b) % m
    ensures ((x * x * x + b) % m + (x * a) % m) % m == (x * x * x + a * x + b) % m
  {
    ModMulLeft(x * x, x, m);
    ModAddLeft(x * x * x, b, m);
    ModAddBoth(x * x * x + b, x * a, m);
    assert x * x * x + b + x * a == x * x * x + a * x + b;
  }

  lemma {:induction false} NatPowAdd(b: nat, e1: nat, e2: nat)
    ensures NatPow(b, e1 + e2) == NatPow(b, e1) * NatPow(b, e2)
  {
    if e1 > 0 {
      NatPowAdd(b, e1 - 1, e2);
      assert NatPow(b, e1 + e2) == b * NatPow(b, e1 - 1 + e2);
    }
  }

  lemma MulRearrange(a: int, x: int, b: int, y: int)
    ensures (a * x) * (b * y) == (a * b) * (x * y)
  {
  }

  lemma {:induction false} NatPowMulBase(a: nat, b: nat, e: nat)
    ensures NatPow(a, e) * NatPow(b, e) == NatPow(a * b, e)
  {
    if e > 0 {
      NatPowMulBase(a, b, e - 1);
      var x, y := NatPow(a, e - 1), NatPow(b, e - 1);
      assert NatPow(a, e) == a * x && NatPow(b, e) == b * y;
      MulRearrange(a, x, b, y);
    }
  }

  lemma {:induction false} NatPowPositive(b: nat, e: nat)
    requires b > 0
    ensures NatPow(b, e) > 0
  {
    if e > 0 {
      NatPowPositive(b, e - 1);
    }
  }

  /** (m + 1)^e is 1 more than a multiple of m. */
  lemma {:induction false} NatPowSuccMod(m: nat, e: nat)
    requires m > 1
    ensures NatPow(m + 1, e) % m == 1
  {
    if e == 0 {
      ModSmall(1, m);
    } else {
      NatPowSuccMod(m, e - 1);
      var t := NatPow(m + 1, e - 1);
      assert NatPow(m + 1, e) == t + t * m;
      ModAddMultiple(t, t, m);
    }
  }

  /** Base reduction commutes with exponentiation modulo m. */
  lemma {:induction false} NatPowMod(b: nat, e: nat, m: nat)
    requires m > 0
    ensures NatPow(b % m, e) % m == NatPow(b, e) % m
  {
    if e > 0 {
      NatPowMod(b, e - 1, m);
      calc {
        NatPow(b % m, e) % m;
        ((b % m) * NatPow(b % m, e - 1)) % m;
        { ModMulRight(b % m, NatPow(b % m, e - 1), m); }
        ((b % m) * (NatPow(b % m, e - 1) % m)) % m;
        ((b % m) * (NatPow(b, e - 1) % m)) % m;
        { ModMulRight(b % m, NatPow(b, e - 1), m); }
        ((b % m) * NatPow(b, e - 1)) % m;
        { ModMulLeft(b, NatPow(b, e - 1), m); }
        (b * NatPow(b, e - 1)) % m;
      }
    }
  }

  lemma OddProduct(q: int, m: int)
    requires q % 2 == 1 && m % 2 == 1
    ensures (q * m) % 2 == 1
  {
    var h, g := q / 2, m / 2;
    assert q == 2 * h + 1 && m == 2 * g + 1;
    assert q * m == (2 * h * g + h + g) * 2 + 1;
    ModUnique(q * m, 2 * h * g + h + g, 1, 2);
  }

  /** An odd m that divides 2t divides t. */
  lemma OddDividesDouble(t: int, m: int)
    requires m > 1 && m % 2 == 1 && (2 * t) % m == 0
    ensures t % m == 0
  {
    var q := (2 * t) / m;
    assert 2 * t == q * m;
    if q % 2 == 1 {
      OddProduct(q, m);
      ModUnique(q * m, t, 0, 2);
      assert false;
    }
    assert q == (q / 2) * 2;
    assert t == (q / 2) * m;
    ModUnique(t, q / 2, 0, m);
  }

  /** For odd m > 1, no power of two is a multiple of m. */
  lemma {:induction false} Pow2NotMultipleOfOdd(e: nat, m: nat)
    requires m > 1 && m % 2 == 1
    ensures Pow2(e) % m != 0
  {
    if e == 0 {
      ModSmall(1, m);
    } else {
      Pow2NotMultipleOfOdd(e - 1, m);
      assert Pow2(e) == 2 * Pow2(e - 1);
      if Pow2(e) % m == 0 {
        OddDividesDouble(Pow2(e - 1), m);
        assert false;
      }
    }
  }

  /** 2^64, the base of one 64-bit limb. */
  lemma Pow2Of64()
    ensures Pow2(64) == 0x1_0000_0000_0000_0000
  {
    assert NatPow(2, 1) == 2;
    NatPowAdd(2, 1, 1);
    NatPowAdd(2, 2, 2);
    NatPowAdd(2, 4, 4);
    NatPowAdd(2, 8, 8);
    NatPowAdd(2, 16, 16);
    NatPowAdd(2, 32, 32);
  }

  /** x < b*k bounds the quotient x / b by k. */
  lemma DivBelow(x: nat, b: nat, k: nat)
    requires b > 0 && x < b * k
    ensures x / b < k
  {
    var q := x / b;
    assert x == q * b + x % b;
    if q >= k {
      assert false;
    }
  }

  /** Halving once more is dividing by the next power of two. */
  lemma DivHalvePow2(x: nat, i: nat)
    ensures (x / 2) / Pow2(i) == x / Pow2(i + 1)
  {
    var p := Pow2(i);
    var q, r := (x / 2) / p, (x / 2) % p;
    assert x / 2 == q * p + r;
    assert Pow2(i + 1) == 2 * p;
    assert x == q * (2 * p) + (2 * r + x % 2);
    ModUnique(x, q, 2 * r + x % 2, 2 * p);
  }
}
