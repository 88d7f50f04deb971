/** The prime-field element `Fp<P, N>` and its configuration `FpConfig<N>`
    (lib/crypto/src/field/fp/mod.rs).

    An element stores one integer below 2^(64N) holding its value v in
    Montgomery form, v * R mod p, where R = 2^(64N) mod p. Limb-level Montgomery
    reduction (REDC) belongs to `crypto_bigint::Residue` and is modelled by
    what it computes on integers: decoding multiplies by R^-1 mod p, a
    Montgomery product is a * b * R^-1 mod p, and Montgomery sums are plain
    sums mod p. */
module PrimeField {
  import opened Wrappers
  import opened ModArith
  import opened Bits

  /** `Fp(Uint<N>, PhantomData)`: the stored integer, in Montgomery form. */
  datatype Fp = Fp(mont: nat)

  /** `core::cmp::Ordering`. */
  datatype Ordering = Less | Equal | Greater

  /** `FpConfig<N>`: the modulus and limb count, and the operations whose
      default bodies in the source are `todo!()` (`sub_assign`, `neg_in_place`,
      `inverse`) together with the base field's square root (module `prime`,
      not part of this model). A configuration supplies these; `Valid` holds
      them to their documented contracts and nothing more. */
  datatype FpConfig = FpConfig(
    modulus: nat,
    limbs: nat,
    sub: (Fp, Fp) -> Fp,
    neg: Fp -> Fp,
    inverse: Fp -> Option<Fp>,
    sqrt: Fp -> Option<Fp>)
  {
    /** 2^(64N), one more than the largest `Uint<N>`. */
    function Bound(): nat
    {
      Pow2(64 * limbs)
    }

    /** An odd modulus p > 1 that fits in N >= 1 limbs, as Montgomery
        arithmetic needs. */
    predicate WellFormed()
    {
      limbs >= 1 && modulus % 2 == 1 && 1 < modulus < Bound()
    }

    /** The configuration-supplied operations meet their doc comments:
        "Set a -= b", "Set a = -a", "Compute a^{-1} if `a` is not zero", and a
        square root y of r is one with y * y = r. */
    ghost predicate Valid()
    {
      && WellFormed()
      && (forall a, b {:trigger sub(a, b)} :: Canonical(this, a) && Canonical(this, b) ==>
            && Canonical(this, sub(a, b))
            && IntoBigint(this, sub(a, b)) == (IntoBigint(this, a) - IntoBigint(this, b)) % modulus)
      && (forall a {:trigger neg(a)} :: Canonical(this, a) ==>
            && Canonical(this, neg(a))
            && IntoBigint(this, neg(a)) == (0 - IntoBigint(this, a)) % modulus)
      && (forall a {:trigger inverse(a)} :: Canonical(this, a) ==>
            && (inverse(a).None? <==> IntoBigint(this, a) == 0)
            && (inverse(a).Some? ==>
                  && Canonical(this, inverse(a).value)
                  && (IntoBigint(this, a) * IntoBigint(this, inverse(a).value)) % modulus == 1))
      && (forall r {:trigger sqrt(r)} :: Canonical(this, r) && sqrt(r).Some? ==>
            && Canonical(this, sqrt(r).value)
            && (IntoBigint(this, sqrt(r).value) * IntoBigint(this, sqrt(r).value)) % modulus
               == IntoBigint(this, r))
    }
  }

  /** The stored integer is below the modulus: the invariant every element
      built by `new` and by the arithmetic keeps. */
  predicate Canonical(c: FpConfig, a: Fp)
  {
    a.mont < c.modulus
  }

  /** `is_geq_modulus`: the stored limbs compare at least p. */
  predicate IsGeqModulus(c: FpConfig, a: Fp)
  {
    a.mont >= c.modulus
  }

  /** `R`, computed as the source does: `Uint::MAX % MODULUS`, plus one with
      wrap-around at 2^(64N). It is 2^(64N) mod p. */
  function MontgomeryR(c: FpConfig): (r: nat)
    requires c.WellFormed()
    ensures r == c.Bound() % c.modulus
  {
    var b, p := c.Bound(), c.modulus;
    Pow2NotMultipleOfOdd(64 * c.limbs, p);
    WrappingRemPlusOne(b, p);
    ((b - 1) % p + 1) % b
  }

  /** ((b - 1) mod p) + 1, wrapped at b, is b mod p when p does not divide b. */
  lemma WrappingRemPlusOne(b: nat, p: nat)
    requires 1 < p < b && b % p != 0
    ensures ((b - 1) % p + 1) % b == b % p
  {
    var t := (b - 1) % p + 1;
    ModAddLeft(b - 1, 1, p);
    if t == p {
      ModAddMultiple(0, 1, p);
      ModSmall(0, p);
      assert false;
    }
    ModSmall(t, p);
    ModSmall(t, b);
  }

  /** R^-1 mod p. Since p is odd, (p + 1) / 2 is the inverse of 2, and its
      64N-th power is the inverse of R. */
  function MontgomeryRInverse(c: FpConfig): (r: nat)
    requires c.WellFormed()
    ensures r < c.modulus && (MontgomeryR(c) * r) % c.modulus == 1
  {
    var p, k := c.modulus, 64 * c.limbs;
    var h := (p + 1) / 2;
    NatPowMulBase(2, h, k);
    assert 2 * h == p + 1;
    NatPowSuccMod(p, k);
    ModMulBoth(Pow2(k), NatPow(h, k), p);
    ModOfMod(NatPow(h, k), p);
    NatPow(h, k) % p
  }

  /** `into_bigint`: undoes the Montgomery encoding. */
  function IntoBigint(c: FpConfig, a: Fp): (v: nat)
    requires c.WellFormed()
    ensures v < c.modulus
  {
    (a.mont * MontgomeryRInverse(c)) % c.modulus
  }

  /** `new`: the Montgomery form of an integer, reduced mod p. */
  function New(c: FpConfig, element: nat): (r: Fp)
    requires c.WellFormed() && element < c.Bound()
    ensures Canonical(c, r)
    ensures IntoBigint(c, r) == element % c.modulus
  {
    var p, rr, ri := c.modulus, MontgomeryR(c), MontgomeryRInverse(c);
    ModMulAssoc(element, rr, ri, p);
    ModMulRight(element, rr * ri, p);
    Fp((element * rr) % p)
  }

  /** `new_unchecked`: stores an integer already in Montgomery form, as is. */
  function NewUnchecked(c: FpConfig, element: nat): (r: Fp)
    requires element < c.Bound()
    ensures r.mont == element
  {
    Fp(element)
  }

  /** `FpConfig::ZERO = new_unchecked(0)`. */
  function Zero(c: FpConfig): Fp
    requires c.WellFormed()
  {
    NewUnchecked(c, 0)
  }

  /** `FpConfig::ONE = new_unchecked(R)`. */
  function One(c: FpConfig): Fp
    requires c.WellFormed()
  {
    NewUnchecked(c, MontgomeryR(c))
  }

  /** `Zero::is_zero`: limb equality with ZERO. */
  predicate IsZero(c: FpConfig, a: Fp)
    requires c.WellFormed()
  {
    a == Zero(c)
  }

  /** `One::is_one`: limb equality with ONE. */
  predicate IsOne(c: FpConfig, a: Fp)
    requires c.WellFormed()
  {
    a == One(c)
  }

  /** ZERO decodes to 0 and ONE to 1, and both keep the invariant. */
  lemma ZeroOneDecode(c: FpConfig)
    requires c.WellFormed()
    ensures Canonical(c, Zero(c)) && IntoBigint(c, Zero(c)) == 0
    ensures Canonical(c, One(c)) && IntoBigint(c, One(c)) == 1
  {
    ModSmall(0, c.modulus);
  }

  /** Re-encoding the decoded value gives back the stored integer. */
  lemma NewIntoBigint(c: FpConfig, a: Fp)
    requires c.WellFormed() && Canonical(c, a)
    ensures New(c, IntoBigint(c, a)) == a
  {
    var p, rr, ri := c.modulus, MontgomeryR(c), MontgomeryRInverse(c);
    ModMulAssoc(a.mont, ri, rr, p);
    assert ri * rr == rr * ri;
    ModSmall(a.mont, p);
  }

  /** Two elements that keep the invariant are equal exactly when they decode
      to the same integer, so the derived limb equality is canonical equality. */
  lemma EqualIffSameBigint(c: FpConfig, a: Fp, b: Fp)
    requires c.WellFormed() && Canonical(c, a) && Canonical(c, b)
    ensures a == b <==> IntoBigint(c, a) == IntoBigint(c, b)
  {
    NewIntoBigint(c, a);
    NewIntoBigint(c, b);
  }

  /** For canonical elements, `is_zero` is "decodes to 0". */
  lemma IsZeroIffBigintZero(c: FpConfig, a: Fp)
    requires c.WellFormed() && Canonical(c, a)
    ensures IsZero(c, a) <==> IntoBigint(c, a) == 0
  {
    ZeroOneDecode(c);
    EqualIffSameBigint(c, a, Zero(c));
  }

  /** Elements that do not keep the invariant break that agreement: the
      integer p stored unchecked decodes like ZERO but is not equal to it. */
  lemma UncheckedModulusDecodesAsZero(c: FpConfig)
    requires c.WellFormed()
    ensures IsGeqModulus(c, NewUnchecked(c, c.modulus))
    ensures IntoBigint(c, NewUnchecked(c, c.modulus)) == IntoBigint(c, Zero(c))
    ensures NewUnchecked(c, c.modulus) != Zero(c)
  {
    ModMulLeft(c.modulus, MontgomeryRInverse(c), c.modulus);
    ModSmall(0, c.modulus);
  }

  // ---------------------------------------------------------------------------
  // Arithmetic of `FpConfig`: add_assign, double_in_place, mul_assign,
  // square_in_place (on Residue values), and the configuration-supplied
  // sub_assign, neg_in_place, inverse.

  lemma DecodeSum(c: FpConfig, x: nat, y: nat)
    requires c.WellFormed()
    ensures IntoBigint(c, Fp((x + y) % c.modulus))
         == (IntoBigint(c, Fp(x)) + IntoBigint(c, Fp(y))) % c.modulus
  {
    var p, ri := c.modulus, MontgomeryRInverse(c);
    ModMulLeft(x + y, ri, p);
    assert (x + y) * ri == x * ri + y * ri;
    ModAddBoth(x * ri, y * ri, p);
  }

  lemma DecodeProduct(c: FpConfig, x: nat, y: nat)
    requires c.WellFormed()
    ensures IntoBigint(c, Fp((x * y * MontgomeryRInverse(c)) % c.modulus))
         == (IntoBigint(c, Fp(x)) * IntoBigint(c, Fp(y))) % c.modulus
  {
    var p, ri := c.modulus, MontgomeryRInverse(c);
    ModMulAssoc(x * y, ri, ri, p);
    ModMulBoth(x * ri, y * ri, p);
    MulRearrange(x, ri, y, ri);
    ModMulRight(x * y, ri * ri, p);
  }

  /** `add_assign` on Residue values: the sum of the Montgomery forms, mod p. */
  function Add(c: FpConfig, a: Fp, b: Fp): (r: Fp)
    requires c.WellFormed() && Canonical(c, a) && Canonical(c, b)
    ensures Canonical(c, r)
    ensures IntoBigint(c, r) == (IntoBigint(c, a) + IntoBigint(c, b)) % c.modulus
  {
    DecodeSum(c, a.mont, b.mont);
    Fp((a.mont + b.mont) % c.modulus)
  }

  /** `double_in_place` on Residue values: r + r. */
  function Double(c: FpConfig, a: Fp): (r: Fp)
    requires c.WellFormed() && Canonical(c, a)
    ensures Canonical(c, r)
    ensures IntoBigint(c, r) == (2 * IntoBigint(c, a)) % c.modulus
  {
    DecodeSum(c, a.mont, a.mont);
    Fp((a.mont + a.mont) % c.modulus)
  }

  /** `mul_assign` on Residue values: the Montgomery product a * b * R^-1. */
  function Mul(c: FpConfig, a: Fp, b: Fp): (r: Fp)
    requires c.WellFormed() && Canonical(c, a) && Canonical(c, b)
    ensures Canonical(c, r)
    ensures IntoBigint(c, r) == (IntoBigint(c, a) * IntoBigint(c, b)) % c.modulus
  {
    DecodeProduct(c, a.mont, b.mont);
    Fp((a.mont * b.mont * MontgomeryRInverse(c)) % c.modulus)
  }

  /** `square_in_place` on Residue values: the Montgomery square. */
  function Square(c: FpConfig, a: Fp): (r: Fp)
    requires c.WellFormed() && Canonical(c, a)
    ensures Canonical(c, r)
    ensures IntoBigint(c, r) == (IntoBigint(c, a) * IntoBigint(c, a)) % c.modulus
  {
    DecodeProduct(c, a.mont, a.mont);
    Fp((a.mont * a.mont * MontgomeryRInverse(c)) % c.modulus)
  }

  /** `sub_assign` (unimplemented, `todo!()`, in the source): a - b. */
  function Sub(c: FpConfig, a: Fp, b: Fp): (r: Fp)
    requires c.Valid() && Canonical(c, a) && Canonical(c, b)
    ensures Canonical(c, r)
    ensures IntoBigint(c, r) == (IntoBigint(c, a) - IntoBigint(c, b)) % c.modulus
  {
    c.sub(a, b)
  }

  /** `neg_in_place` (unimplemented, `todo!()`, in the source): -a. */
  function Neg(c: FpConfig, a: Fp): (r: Fp)
    requires c.Valid() && Canonical(c, a)
    ensures Canonical(c, r)
    ensures IntoBigint(c, r) == (0 - IntoBigint(c, a)) % c.modulus
  {
    c.neg(a)
  }

  /** `inverse` (unimplemented, `todo!()`, in the source): a^-1 unless a is zero. */
  function Inverse(c: FpConfig, a: Fp): (r: Option<Fp>)
    requires c.Valid() && Canonical(c, a)
    ensures r.None? <==> IsZero(c, a)
    ensures r.Some? ==> Canonical(c, r.value) && Mul(c, a, r.value) == One(c)
  {
    IsZeroIffBigintZero(c, a);
    var r := c.inverse(a);
    if r.Some? then
      ZeroOneDecode(c);
      ModSmall(1, c.modulus);
      EqualIffSameBigint(c, Mul(c, a, r.value), One(c));
      r
    else r
  }

  /** `Div`/`DivAssign`: `self * other.inverse().unwrap()`; the source panics
      when `other` has no inverse, which the precondition excludes. The
      quotient is the element that `other` multiplies back to `self`. */
  function Div(c: FpConfig, a: Fp, b: Fp): (r: Fp)
    requires c.Valid() && Canonical(c, a) && Canonical(c, b) && Inverse(c, b).Some?
    ensures Canonical(c, r)
    ensures r == Mul(c, a, Inverse(c, b).value)
    ensures Mul(c, r, b) == a
  {
    var binv := Inverse(c, b).value;
    var r := Mul(c, a, binv);
    MulAssoc(c, a, binv, b);
    MulComm(c, binv, b);
    MulOne(c, a);
    r
  }

  /** The base field's `sqrt` (module `prime`, not part of this model): a
      square root when it returns one. */
  function Sqrt(c: FpConfig, a: Fp): (r: Option<Fp>)
    requires c.Valid() && Canonical(c, a)
    ensures r.Some? ==> Canonical(c, r.value) && Square(c, r.value) == a
  {
    var r := c.sqrt(a);
    if r.Some? then
      EqualIffSameBigint(c, Square(c, r.value), a);
      r
    else r
  }

  /** The square root finds a root whenever there is one. */
  ghost predicate SqrtComplete(c: FpConfig)
    requires c.Valid()
  {
    forall a, y {:trigger Square(c, y), Sqrt(c, a)} ::
      Canonical(c, a) && Canonical(c, y) && Square(c, y) == a ==> Sqrt(c, a).Some?
  }

  // ---------------------------------------------------------------------------
  // Field identities of the model; each follows from the decoding of the
  // operations and the injectivity of `into_bigint` on canonical elements.

  lemma AddComm(c: FpConfig, a: Fp, b: Fp)
    requires c.WellFormed() && Canonical(c, a) && Canonical(c, b)
    ensures Add(c, a, b) == Add(c, b, a)
  {
    EqualIffSameBigint(c, Add(c, a, b), Add(c, b, a));
  }

  lemma AddAssoc(c: FpConfig, a: Fp, b: Fp, d: Fp)
    requires c.WellFormed() && Canonical(c, a) && Canonical(c, b) && Canonical(c, d)
    ensures Add(c, Add(c, a, b), d) == Add(c, a, Add(c, b, d))
  {
    ModAddAssoc(IntoBigint(c, a), IntoBigint(c, b), IntoBigint(c, d), c.modulus);
    EqualIffSameBigint(c, Add(c, Add(c, a, b), d), Add(c, a, Add(c, b, d)));
  }

  lemma AddZero(c: FpConfig, a: Fp)
    requires c.WellFormed() && Canonical(c, a)
    ensures Add(c, a, Zero(c)) == a
  {
    ZeroOneDecode(c);
    ModSmall(IntoBigint(c, a), c.modulus);
    EqualIffSameBigint(c, Add(c, a, Zero(c)), a);
  }

  lemma MulComm(c: FpConfig, a: Fp, b: Fp)
    requires c.WellFormed() && Canonical(c, a) && Canonical(c, b)
    ensures Mul(c, a, b) == Mul(c, b, a)
  {
    assert IntoBigint(c, a) * IntoBigint(c, b) == IntoBigint(c, b) * IntoBigint(c, a);
    EqualIffSameBigint(c, Mul(c, a, b), Mul(c, b, a));
  }

  lemma MulAssoc(c: FpConfig, a: Fp, b: Fp, d: Fp)
    requires c.WellFormed() && Canonical(c, a) && Canonical(c, b) && Canonical(c, d)
    ensures Mul(c, Mul(c, a, b), d) == Mul(c, a, Mul(c, b, d))
  {
    ModMulAssoc(IntoBigint(c, a), IntoBigint(c, b), IntoBigint(c, d), c.modulus);
    EqualIffSameBigint(c, Mul(c, Mul(c, a, b), d), Mul(c, a, Mul(c, b, d)));
  }

  lemma MulOne(c: FpConfig, a: Fp)
    requires c.WellFormed() && Canonical(c, a)
    ensures Mul(c, a, One(c)) == a
  {
    ZeroOneDecode(c);
    ModSmall(IntoBigint(c, a), c.modulus);
    EqualIffSameBigint(c, Mul(c, a, One(c)), a);
  }

  lemma MulZero(c: FpConfig, a: Fp)
    requires c.WellFormed() && Canonical(c, a)
    ensures Mul(c, a, Zero(c)) == Zero(c)
  {
    ZeroOneDecode(c);
    EqualIffSameBigint(c, Mul(c, a, Zero(c)), Zero(c));
  }

  lemma Distributive(c: FpConfig, a: Fp, b: Fp, d: Fp)
    requires c.WellFormed() && Canonical(c, a) && Canonical(c, b) && Canonical(c, d)
    ensures Mul(c, a, Add(c, b, d)) == Add(c, Mul(c, a, b), Mul(c, a, d))
  {
    ModDistributive(IntoBigint(c, a), IntoBigint(c, b), IntoBigint(c, d), c.modulus);
    EqualIffSameBigint(c, Mul(c, a, Add(c, b, d)), Add(c, Mul(c, a, b), Mul(c, a, d)));
  }

  /** Factors of a product of products can be regrouped. */
  lemma MulInterchange(c: FpConfig, a: Fp, b: Fp, d: Fp, e: Fp)
    requires c.WellFormed() && Canonical(c, a) && Canonical(c, b) && Canonical(c, d) && Canonical(c, e)
    ensures Mul(c, Mul(c, a, b), Mul(c, d, e)) == Mul(c, Mul(c, a, d), Mul(c, b, e))
  {
    ModMulInterchange(IntoBigint(c, a), IntoBigint(c, b), IntoBigint(c, d), IntoBigint(c, e), c.modulus);
    EqualIffSameBigint(c, Mul(c, Mul(c, a, b), Mul(c, d, e)), Mul(c, Mul(c, a, d), Mul(c, b, e)));
  }

  /** `double` is `a + a` and `square` is `a * a`. */
  lemma DoubleIsAddSelf(c: FpConfig, a: Fp)
    requires c.WellFormed() && Canonical(c, a)
    ensures Double(c, a) == Add(c, a, a)
    ensures Square(c, a) == Mul(c, a, a)
  {
    EqualIffSameBigint(c, Double(c, a), Add(c, a, a));
    EqualIffSameBigint(c, Square(c, a), Mul(c, a, a));
  }

  lemma AddNeg(c: FpConfig, a: Fp)
    requires c.Valid() && Canonical(c, a)
    ensures Add(c, a, Neg(c, a)) == Zero(c)
  {
    ModAddNegation(IntoBigint(c, a), c.modulus);
    ZeroOneDecode(c);
    EqualIffSameBigint(c, Add(c, a, Neg(c, a)), Zero(c));
  }

  lemma NegNeg(c: FpConfig, a: Fp)
    requires c.Valid() && Canonical(c, a)
    ensures Neg(c, Neg(c, a)) == a
  {
    ModNegNeg(IntoBigint(c, a), c.modulus);
    EqualIffSameBigint(c, Neg(c, Neg(c, a)), a);
  }

  lemma NegZero(c: FpConfig)
    requires c.Valid()
    ensures Neg(c, Zero(c)) == Zero(c)
  {
    ZeroOneDecode(c);
    ModSmall(0, c.modulus);
    EqualIffSameBigint(c, Neg(c, Zero(c)), Zero(c));
  }

  /** The square of -a is the square of a. */
  lemma NegSquare(c: FpConfig, a: Fp)
    requires c.Valid() && Canonical(c, a)
    ensures Square(c, Neg(c, a)) == Square(c, a)
  {
    ModNegSquare(IntoBigint(c, a), c.modulus);
    EqualIffSameBigint(c, Square(c, Neg(c, a)), Square(c, a));
  }

  /** Subtraction is addition of the negation. */
  lemma SubIsAddNeg(c: FpConfig, a: Fp, b: Fp)
    requires c.Valid() && Canonical(c, a) && Canonical(c, b)
    ensures Sub(c, a, b) == Add(c, a, Neg(c, b))
  {
    ModSubIsAddNeg(IntoBigint(c, a), IntoBigint(c, b), c.modulus);
    EqualIffSameBigint(c, Sub(c, a, b), Add(c, a, Neg(c, b)));
  }

  /** Every nonzero element has an inverse, and a * a^-1 = 1. */
  lemma MulInverse(c: FpConfig, a: Fp)
    requires c.Valid() && Canonical(c, a) && !IsZero(c, a)
    ensures Inverse(c, a).Some? && Mul(c, a, Inverse(c, a).value) == One(c)
  {
  }

  /** A product is zero only when a factor is. */
  lemma MulEqZero(c: FpConfig, a: Fp, b: Fp)
    requires c.Valid() && Canonical(c, a) && Canonical(c, b)
    requires Mul(c, a, b) == Zero(c) && !IsZero(c, a)
    ensures IsZero(c, b)
  {
    var ainv := Inverse(c, a).value;
    MulComm(c, a, ainv);
    MulAssoc(c, ainv, a, b);
    MulZero(c, ainv);
    MulComm(c, One(c), b);
    MulOne(c, b);
  }

  /** (a - b)(a + b) = a^2 - b^2. */
  lemma DifferenceOfSquares(c: FpConfig, a: Fp, b: Fp)
    requires c.Valid() && Canonical(c, a) && Canonical(c, b)
    ensures Mul(c, Sub(c, a, b), Add(c, a, b)) == Sub(c, Square(c, a), Square(c, b))
  {
    ModDifferenceOfSquares(IntoBigint(c, a), IntoBigint(c, b), c.modulus);
    EqualIffSameBigint(c, Mul(c, Sub(c, a, b), Add(c, a, b)), Sub(c, Square(c, a), Square(c, b)));
  }

  /** (a + b) + (a - b) = 2a. */
  lemma SumPlusDifference(c: FpConfig, a: Fp, b: Fp)
    requires c.Valid() && Canonical(c, a) && Canonical(c, b)
    ensures Add(c, Add(c, a, b), Sub(c, a, b)) == Double(c, a)
  {
    ModSumPlusDifference(IntoBigint(c, a), IntoBigint(c, b), c.modulus);
    EqualIffSameBigint(c, Add(c, Add(c, a, b), Sub(c, a, b)), Double(c, a));
  }

  /** The square roots of a^2 are a and -a, and no others. */
  lemma SquareRootsArePlusMinus(c: FpConfig, a: Fp, b: Fp)
    requires c.Valid() && Canonical(c, a) && Canonical(c, b)
    requires Square(c, a) == Square(c, b)
    ensures b == a || b == Neg(c, a)
  {
    var s := Square(c, a);
    DifferenceOfSquares(c, b, a);
    SubIsAddNeg(c, s, s);
    AddNeg(c, s);
    if Sub(c, b, a) != Zero(c) {
      IsZeroIffBigintZero(c, Sub(c, b, a));
      MulEqZero(c, Sub(c, b, a), Add(c, b, a));
      // b + a = 0, so b = -a
      AddNeg(c, a);
      AddComm(c, b, a);
      AddCancel(c, a, b, Neg(c, a));
    } else {
      SubIsAddNeg(c, b, a);
      AddNeg(c, a);
      AddCancel(c, Neg(c, a), b, a);
      AddComm(c, b, Neg(c, a));
      AddComm(c, a, Neg(c, a));
    }
  }

  /** Addition cancels: a + b = a + d implies b = d. */
  lemma AddCancel(c: FpConfig, a: Fp, b: Fp, d: Fp)
    requires c.WellFormed() && Canonical(c, a) && Canonical(c, b) && Canonical(c, d)
    requires Add(c, a, b) == Add(c, a, d)
    ensures b == d
  {
    var p := c.modulus;
    var x, y, z := IntoBigint(c, a), IntoBigint(c, b), IntoBigint(c, d);
    ModCancelLeft(x, y, z, p);
    EqualIffSameBigint(c, b, d);
  }

  // ---------------------------------------------------------------------------
  // Ordering (`Ord::cmp` and `PartialOrd`), on the decoded integers.

  /** `cmp`: compares the decoded integers. */
  function Cmp(c: FpConfig, a: Fp, b: Fp): (r: Ordering)
    requires c.WellFormed()
  {
    var x, y := IntoBigint(c, a), IntoBigint(c, b);
    if x < y then Less else if x == y then Equal else Greater
  }

  /** `<=` of `PartialOrd`. */
  predicate Le(c: FpConfig, a: Fp, b: Fp)
    requires c.WellFormed()
  {
    Cmp(c, a, b) != Greater
  }

  /** `<` of `PartialOrd`. */
  predicate Lt(c: FpConfig, a: Fp, b: Fp)
    requires c.WellFormed()
  {
    Cmp(c, a, b) == Less
  }

  /** `cmp` agrees with the integer order of `into_bigint`, and on canonical
      elements `Equal` is equality itself. */
  lemma CmpIsBigintOrder(c: FpConfig, a: Fp, b: Fp)
    requires c.WellFormed() && Canonical(c, a) && Canonical(c, b)
    ensures Cmp(c, a, b) == Less <==> IntoBigint(c, a) < IntoBigint(c, b)
    ensures Cmp(c, a, b) == Greater <==> IntoBigint(c, a) > IntoBigint(c, b)
    ensures Cmp(c, a, b) == Equal <==> a == b
    ensures Cmp(c, a, b) == Less <==> Cmp(c, b, a) == Greater
  {
    EqualIffSameBigint(c, a, b);
  }

  /** `<=` is a total order on canonical elements. */
  lemma LeIsTotalOrder(c: FpConfig, a: Fp, b: Fp, d: Fp)
    requires c.WellFormed() && Canonical(c, a) && Canonical(c, b) && Canonical(c, d)
    ensures Le(c, a, a)
    ensures Le(c, a, b) && Le(c, b, a) ==> a == b
    ensures Le(c, a, b) && Le(c, b, d) ==> Le(c, a, d)
    ensures Le(c, a, b) || Le(c, b, a)
  {
    EqualIffSameBigint(c, a, b);
  }

  // ---------------------------------------------------------------------------
  // Conversions.

  /** `FpConfig::from_bigint`: `Some(new(r))` for every r, including r >= p,
      although its doc comment promises `None` there. */
  function FromBigint(c: FpConfig, r: nat): (f: Option<Fp>)
    requires c.WellFormed() && r < c.Bound()
    ensures f.Some? && Canonical(c, f.value)
    ensures IntoBigint(c, f.value) == r % c.modulus
  {
    Some(New(c, r))
  }

  /** `From<u8>` ... `From<u128>` and `From<Uint<N>>`: `from_bigint(x).unwrap()`,
      which never panics. The argument must fit in the N limbs. */
  function FromUnsigned(c: FpConfig, x: nat): (f: Fp)
    requires c.WellFormed() && x < c.Bound()
    ensures Canonical(c, f) && IntoBigint(c, f) == x % c.modulus
  {
    FromBigint(c, x).value
  }

  function Abs(x: int): nat
  {
    if x < 0 then -x else x
  }

  /** `From<i8>` ... `From<i128>`: `x.unsigned_abs().into()`, so the sign is dropped. */
  function FromSigned(c: FpConfig, x: int): (f: Fp)
    requires c.WellFormed() && Abs(x) < c.Bound()
    ensures Canonical(c, f) && IntoBigint(c, f) == Abs(x) % c.modulus
  {
    FromUnsigned(c, Abs(x))
  }

  /** `From<bool>`: `u8::from(b).into()`. */
  function FromBool(c: FpConfig, b: bool): (f: Fp)
    requires c.WellFormed()
    ensures f == if b then One(c) else Zero(c)
  {
    Pow2Of64();
    NatPowAdd(2, 64, 64 * (c.limbs - 1));
    NatPowPositive(2, 64 * (c.limbs - 1));
    var f := FromUnsigned(c, if b then 1 else 0);
    ZeroOneDecode(c);
    ModSmall(0, c.modulus);
    ModSmall(1, c.modulus);
    EqualIffSameBigint(c, f, if b then One(c) else Zero(c));
    f
  }

  /** A negative integer converts like its magnitude. */
  lemma FromSignedDropsSign(c: FpConfig, x: int)
    requires c.WellFormed() && Abs(x) < c.Bound()
    ensures FromSigned(c, -x) == FromSigned(c, x) == FromUnsigned(c, Abs(x))
  {
  }

  /** So `From(-3)` is `From(3)`, and for p > 3 that is not `-From(3)`. */
  lemma FromMinusThreeIsNotNegation(c: FpConfig)
    requires c.Valid() && c.modulus > 3
    ensures 3 < c.Bound()
    ensures FromSigned(c, -3) == FromUnsigned(c, 3)
    ensures FromSigned(c, -3) != Neg(c, FromUnsigned(c, 3))
  {
    var p := c.modulus;
    ModSmall(3, p);
    var three := FromUnsigned(c, 3);
    var minus := Neg(c, three);
    assert IntoBigint(c, three) == 3;
    ModAddMultiple(0 - 3, 1, p);
    ModSmall(p - 3, p);
    assert IntoBigint(c, minus) == p - 3;
    assert p - 3 != 3;
  }

  /** `characteristic`: the modulus as N little-endian limbs. */
  function Characteristic(c: FpConfig): (limbs: seq<u64>)
    requires c.WellFormed()
    ensures |limbs| == c.limbs && LimbsValue(limbs) == c.modulus
  {
    NatToLimbs(c.modulus, c.limbs)
  }

  // ---------------------------------------------------------------------------
  // `Sum` and `Product`: folds from ZERO with `+` and from ONE with `*`.

  ghost function BigintSum(c: FpConfig, xs: seq<Fp>): int
    requires c.WellFormed()
  {
    if xs == [] then 0 else BigintSum(c, xs[..|xs| - 1]) + IntoBigint(c, xs[|xs| - 1])
  }

  ghost function BigintProduct(c: FpConfig, xs: seq<Fp>): int
    requires c.WellFormed()
  {
    if xs == [] then 1 else BigintProduct(c, xs[..|xs| - 1]) * IntoBigint(c, xs[|xs| - 1])
  }

  /** `Sum`: `iter.fold(zero, Add::add)`; decodes to the sum of the decoded
      elements, mod p. */
  function Sum(c: FpConfig, xs: seq<Fp>): (r: Fp)
    requires c.WellFormed() && forall i :: 0 <= i < |xs| ==> Canonical(c, xs[i])
    ensures Canonical(c, r) && IntoBigint(c, r) == BigintSum(c, xs) % c.modulus
  {
    if xs == [] then
      ZeroOneDecode(c);
      ModSmall(0, c.modulus);
      Zero(c)
    else
      var init := Sum(c, xs[..|xs| - 1]);
      ModAddLeft(BigintSum(c, xs[..|xs| - 1]), IntoBigint(c, xs[|xs| - 1]), c.modulus);
      Add(c, init, xs[|xs| - 1])
  }

  /** `Product`: `iter.fold(one, Mul::mul)`; decodes to the product of the
      decoded elements, mod p. */
  function Product(c: FpConfig, xs: seq<Fp>): (r: Fp)
    requires c.WellFormed() && forall i :: 0 <= i < |xs| ==> Canonical(c, xs[i])
    ensures Canonical(c, r) && IntoBigint(c, r) == BigintProduct(c, xs) % c.modulus
  {
    if xs == [] then
      ZeroOneDecode(c);
      ModSmall(1, c.modulus);
      One(c)
    else
      var init := Product(c, xs[..|xs| - 1]);
      ModMulLeft(BigintProduct(c, xs[..|xs| - 1]), IntoBigint(c, xs[|xs| - 1]), c.modulus);
      Mul(c, init, xs[|xs| - 1])
  }

  // ---------------------------------------------------------------------------
  // The in-place forms: a `&mut Fp` is a cell whose value the `*_assign` and
  // `*_in_place` methods overwrite.

  class FpCell {
    const config: FpConfig
    var value: Fp

    ghost predicate Valid()
      reads this
    {
      config.WellFormed() && Canonical(config, value)
    }

    constructor (c: FpConfig, v: Fp)
      requires c.WellFormed() && Canonical(c, v)
      ensures Valid() && config == c && value == v
    {
      config := c;
      value := v;
    }

    /** `add_assign`: a += b. */
    method AddAssign(b: Fp)
      requires Valid() && Canonical(config, b)
      modifies this
      ensures Valid() && value == Add(config, old(value), b)
    {
      value := Add(config, value, b);
    }

    /** `sub_assign`: a -= b. */
    method SubAssign(b: Fp)
      requires Valid() && config.Valid() && Canonical(config, b)
      modifies this
      ensures Valid() && value == Sub(config, old(value), b)
    {
      value := Sub(config, value, b);
    }

    /** `double_in_place`: a = a + a. */
    method DoubleInPlace()
      requires Valid()
      modifies this
      ensures Valid() && value == Double(config, old(value))
      ensures value == Add(config, old(value), old(value))
    {
      DoubleIsAddSelf(config, value);
      value := Double(config, value);
    }

    /** `neg_in_place`: a = -a. */
    method NegInPlace()
      requires Valid() && config.Valid()
      modifies this
      ensures Valid() && value == Neg(config, old(value))
    {
      value := Neg(config, value);
    }

    /** `mul_assign`: a *= b. */
    method MulAssign(b: Fp)
      requires Valid() && Canonical(config, b)
      modifies this
      ensures Valid() && value == Mul(config, old(value), b)
    {
      value := Mul(config, value, b);
    }

    /** `square_in_place`: a *= a. */
    method SquareInPlace()
      requires Valid()
      modifies this
      ensures Valid() && value == Square(config, old(value))
      ensures value == Mul(config, old(value), old(value))
    {
      DoubleIsAddSelf(config, value);
      value := Square(config, value);
    }

    /** `inverse_in_place`: overwrites with the inverse when there is one and
        otherwise leaves the value alone. */
    method InverseInPlace() returns (ok: bool)
      requires Valid() && config.Valid()
      modifies this
      ensures Valid()
      ensures ok <==> !IsZero(config, old(value))
      ensures ok ==> value == Inverse(config, old(value)).value
      ensures !ok ==> value == old(value)
    {
      var inv := Inverse(config, value);
      if inv.Some? {
        value := inv.value;
        ok := true;
      } else {
        ok := false;
      }
    }

    /** `div_assign`: a *= b.inverse().unwrap(). */
    method DivAssign(b: Fp)
      requires Valid() && config.Valid() && Canonical(config, b) && Inverse(config, b).Some?
      modifies this
      ensures Valid() && value == Div(config, old(value), b)
      ensures Mul(config, value, b) == old(value)
    {
      value := Div(config, value, b);
    }

    /** `zeroize`: clears the stored limbs, which leaves ZERO. */
    method Zeroize()
      requires Valid()
      modifies this
      ensures Valid() && value == Zero(config) && IntoBigint(config, value) == 0
    {
      ZeroOneDecode(config);
      value := Fp(0);
    }
  }
}
