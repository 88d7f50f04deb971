/** Affine points of a short Weierstrass curve
    (lib/crypto/src/curve/short_weierstrass/affine.rs): the constructors,
    the curve-membership test, recovering y from x, the sign flags,
    negation, sampling from parsed bytes, zeroizing, and the conversion from
    projective coordinates. */
module SWAffine {
  import opened Wrappers
  import opened ModArith
  import opened Bits
  import opened PrimeField
  import opened SWCurve

  /** `SWFlags` (module `serialize`, not part of this model). */
  datatype SWFlags = YIsPositive | YIsNegative | PointAtInfinity

  /** `SWFlags::is_infinity`. */
  predicate IsInfinityFlag(flags: SWFlags)
  {
    flags == PointAtInfinity
  }

  /** `SWFlags::is_positive`: no sign for the point at infinity. */
  function IsPositiveFlag(flags: SWFlags): Option<bool>
  {
    match flags
    case YIsPositive => Some(true)
    case YIsNegative => Some(false)
    case PointAtInfinity => None
  }

  /** Both coordinates are elements of the configured field. */
  predicate PointCanonical(cfg: SWConfig, p: Affine)
  {
    Canonical(cfg.field, p.x) && Canonical(cfg.field, p.y)
  }

  /** x^3 + a * x + b on the decoded integers, mod p. */
  function CurveRhsValue(cfg: SWConfig, x: Fp): (v: nat)
    requires cfg.WellFormed()
    ensures v < cfg.field.modulus
  {
    var f := cfg.field;
    var xv := IntoBigint(f, x);
    (xv * xv * xv + IntoBigint(f, cfg.coeffA) * xv + IntoBigint(f, cfg.coeffB)) % f.modulus
  }

  /** The curve equation y^2 = x^3 + a * x + b on decoded integers; the point
      at infinity is on every curve. */
  predicate OnCurve(cfg: SWConfig, p: Affine)
    requires cfg.WellFormed()
  {
    var y := IntoBigint(cfg.field, p.y);
    p.infinity || (y * y) % cfg.field.modulus == CurveRhsValue(cfg, p.x)
  }

  /** The field element x^3 + a * x + b. */
  function CurveRhs(cfg: SWConfig, x: Fp): (r: Fp)
    requires cfg.WellFormed()
    ensures Canonical(cfg.field, r) && IntoBigint(cfg.field, r) == CurveRhsValue(cfg, x)
  {
    ModSmall(CurveRhsValue(cfg, x), cfg.field.modulus);
    New(cfg.field, CurveRhsValue(cfg, x))
  }

  /** A finite point is on the curve exactly when y^2 is the field element
      x^3 + a * x + b. */
  lemma OnCurveIffSquare(cfg: SWConfig, x: Fp, y: Fp)
    requires cfg.WellFormed() && Canonical(cfg.field, x) && Canonical(cfg.field, y)
    ensures OnCurve(cfg, Affine(x, y, false)) <==> Square(cfg.field, y) == CurveRhs(cfg, x)
  {
    EqualIffSameBigint(cfg.field, Square(cfg.field, y), CurveRhs(cfg, x));
  }

  /** `add_b(x.square() * x)` decodes to x^3 + b. */
  lemma CubePlusB(cfg: SWConfig, x: Fp)
    requires cfg.WellFormed() && Canonical(cfg.field, x)
    ensures IntoBigint(cfg.field, AddB(cfg, Mul(cfg.field, Square(cfg.field, x), x)))
            == (IntoBigint(cfg.field, x) * IntoBigint(cfg.field, x) * IntoBigint(cfg.field, x)
                + IntoBigint(cfg.field, cfg.coeffB)) % cfg.field.modulus
  {
    var f := cfg.field;
    var xv, bv := IntoBigint(f, x), IntoBigint(f, cfg.coeffB);
    var sq := Square(f, x);
    var cube := Mul(f, sq, x);
    assert IntoBigint(f, sq) == (xv * xv) % f.modulus;
    assert IntoBigint(f, cube) == (IntoBigint(f, sq) * xv) % f.modulus;
    ModCubicSteps(xv, 0, bv, f.modulus);
  }

  /** The source's way of computing x^3 + a * x + b: `add_b(x.square() * x)`,
      plus `mul_by_a(x)` only when a is nonzero, gives that element. */
  lemma RhsComputation(cfg: SWConfig, x: Fp)
    requires cfg.WellFormed() && Canonical(cfg.field, x)
    ensures IsZero(cfg.field, cfg.coeffA) ==>
              AddB(cfg, Mul(cfg.field, Square(cfg.field, x), x)) == CurveRhs(cfg, x)
    ensures !IsZero(cfg.field, cfg.coeffA) ==>
              Add(cfg.field, AddB(cfg, Mul(cfg.field, Square(cfg.field, x), x)), MulByA(cfg, x))
              == CurveRhs(cfg, x)
  {
    var f := cfg.field;
    var xv, av, bv := IntoBigint(f, x), IntoBigint(f, cfg.coeffA), IntoBigint(f, cfg.coeffB);
    var t := AddB(cfg, Mul(f, Square(f, x), x));
    CubePlusB(cfg, x);
    IsZeroIffBigintZero(f, cfg.coeffA);
    if IsZero(f, cfg.coeffA) {
      assert av * xv == 0;
      EqualIffSameBigint(f, t, CurveRhs(cfg, x));
    } else {
      var ax := MulByA(cfg, x);
      assert IntoBigint(f, ax) == (xv * av) % f.modulus;
      ModCubicSteps(xv, av, bv, f.modulus);
      EqualIffSameBigint(f, Add(f, t, ax), CurveRhs(cfg, x));
    }
  }

  /** `is_on_curve`: for a finite point, compares `y.square()` with
      x^3 + a * x + b built as the source builds it; the point at infinity
      passes. */
  method IsOnCurve(cfg: SWConfig, p: Affine) returns (b: bool)
    requires cfg.WellFormed() && PointCanonical(cfg, p)
    ensures b <==> OnCurve(cfg, p)
  {
    if !p.infinity {
      var f := cfg.field;
      var x3b := AddB(cfg, Mul(f, Square(f, p.x), p.x));
      if !IsZero(f, cfg.coeffA) {
        x3b := Add(f, x3b, MulByA(cfg, p.x));
      }
      RhsComputation(cfg, p.x);
      OnCurveIffSquare(cfg, p.x, p.y);
      b := Square(f, p.y) == x3b;
    } else {
      b := true;
    }
  }

  /** The two square roots of x^3 + a * x + b, smaller first, or `None` when
      `sqrt` finds none. */
  function YsFromX(cfg: SWConfig, x: Fp): (r: Option<(Fp, Fp)>)
    requires cfg.Valid() && Canonical(cfg.field, x)
    ensures r.Some? ==> Canonical(cfg.field, r.value.0) && Canonical(cfg.field, r.value.1)
  {
    var f := cfg.field;
    var root := Sqrt(f, CurveRhs(cfg, x));
    if root.None? then None
    else
      var y := root.value;
      var negY := Neg(f, y);
      if Lt(f, y, negY) then Some((y, negY)) else Some((negY, y))
  }

  /** `get_ys_from_x_unchecked`. */
  method GetYsFromXUnchecked(cfg: SWConfig, x: Fp) returns (r: Option<(Fp, Fp)>)
    requires cfg.Valid() && Canonical(cfg.field, x)
    ensures r == YsFromX(cfg, x)
  {
    var f := cfg.field;
    var x3PlusAxPlusB := AddB(cfg, Mul(f, Square(f, x), x));
    if !IsZero(f, cfg.coeffA) {
      x3PlusAxPlusB := Add(f, x3PlusAxPlusB, MulByA(cfg, x));
    }
    RhsComputation(cfg, x);
    var root := Sqrt(f, x3PlusAxPlusB);
    if root.None? {
      return None;
    }
    var y := root.value;
    var negY := Neg(f, y);
    if Lt(f, y, negY) {
      r := Some((y, negY));
    } else {
      r := Some((negY, y));
    }
  }

  /** The pair is `None` exactly when `sqrt` fails; otherwise it is the root
      and its negation, ordered, each the negation of the other, and both
      give points on the curve. */
  lemma YsFromXRoots(cfg: SWConfig, x: Fp)
    requires cfg.Valid() && Canonical(cfg.field, x)
    ensures YsFromX(cfg, x).None? <==> Sqrt(cfg.field, CurveRhs(cfg, x)).None?
    ensures YsFromX(cfg, x).Some? ==>
              var (s, l) := YsFromX(cfg, x).value;
              var y := Sqrt(cfg.field, CurveRhs(cfg, x)).value;
              && Le(cfg.field, s, l)
              && ((s == y && l == Neg(cfg.field, y)) || (s == Neg(cfg.field, y) && l == y))
              && l == Neg(cfg.field, s) && s == Neg(cfg.field, l)
              && OnCurve(cfg, Affine(x, s, false)) && OnCurve(cfg, Affine(x, l, false))
  {
    var f := cfg.field;
    var root := Sqrt(f, CurveRhs(cfg, x));
    if root.Some? {
      var y := root.value;
      var negY := Neg(f, y);
      NegNeg(f, y);
      NegSquare(f, y);
      LeIsTotalOrder(f, y, negY, y);
      OnCurveIffSquare(cfg, x, y);
      OnCurveIffSquare(cfg, x, negY);
    }
  }

  /** When `sqrt` finds every root that exists, the pair is `None` exactly
      when no finite point with this x is on the curve. */
  lemma YsFromXComplete(cfg: SWConfig, x: Fp)
    requires cfg.Valid() && SqrtComplete(cfg.field) && Canonical(cfg.field, x)
    ensures YsFromX(cfg, x).None? <==>
              forall y :: Canonical(cfg.field, y) ==> !OnCurve(cfg, Affine(x, y, false))
  {
    var f := cfg.field;
    YsFromXRoots(cfg, x);
    if YsFromX(cfg, x).None? {
      forall y | Canonical(f, y)
        ensures !OnCurve(cfg, Affine(x, y, false))
      {
        OnCurveIffSquare(cfg, x, y);
        if Square(f, y) == CurveRhs(cfg, x) {
          assert false;
        }
      }
    }
  }

  /** `new_unchecked`: a finite point, with no check. */
  function AffineNewUnchecked(x: Fp, y: Fp): (r: Affine)
    ensures r.x == x && r.y == y && !r.infinity
  {
    Affine(x, y, false)
  }

  /** `new`: a finite point; the source asserts that it is on the curve and
      in the right subgroup, which the precondition demands. */
  function AffineNew(cfg: SWConfig, x: Fp, y: Fp): (r: Affine)
    requires cfg.WellFormed()
    requires OnCurve(cfg, Affine(x, y, false))
    requires IsInCorrectSubgroupAssumingOnCurve(cfg, Affine(x, y, false))
    ensures r.x == x && r.y == y && !r.infinity
    ensures OnCurve(cfg, r) && IsInCorrectSubgroupAssumingOnCurve(cfg, r)
  {
    AffineNewUnchecked(x, y)
  }

  /** `identity`: the point at infinity, stored with x = y = ZERO. */
  function Identity(cfg: SWConfig): (r: Affine)
    requires cfg.WellFormed()
    ensures r.infinity && r.x == Zero(cfg.field) && r.y == Zero(cfg.field)
  {
    Affine(Zero(cfg.field), Zero(cfg.field), true)
  }

  /** `AffineRepr::zero`. */
  function AffineZero(cfg: SWConfig): (r: Affine)
    requires cfg.WellFormed()
    ensures r == Identity(cfg)
  {
    Affine(Zero(cfg.field), Zero(cfg.field), true)
  }

  /** `Default::default`: `identity()`. */
  function AffineDefault(cfg: SWConfig): (r: Affine)
    requires cfg.WellFormed()
    ensures r == Identity(cfg) && r == AffineZero(cfg)
  {
    Identity(cfg)
  }

  /** The identity is on the curve and has no coordinates. */
  lemma IdentityOnCurve(cfg: SWConfig)
    requires cfg.WellFormed()
    ensures OnCurve(cfg, Identity(cfg)) && PointCanonical(cfg, Identity(cfg))
    ensures Xy(Identity(cfg)).None?
  {
    ZeroOneDecode(cfg.field);
  }

  /** `xy`: the coordinates of a finite point. */
  function Xy(p: Affine): (r: Option<(Fp, Fp)>)
    ensures r.None? <==> p.infinity
    ensures r.Some? ==> r.value.0 == p.x && r.value.1 == p.y
  {
    if !p.infinity then Some((p.x, p.y)) else None
  }

  /** `get_point_from_x_unchecked`: the point with this x and the larger root
      when `greatest` is set, the smaller otherwise. */
  function GetPointFromXUnchecked(cfg: SWConfig, x: Fp, greatest: bool): (r: Option<Affine>)
    requires cfg.Valid() && Canonical(cfg.field, x)
    ensures r.None? <==> YsFromX(cfg, x).None?
    ensures r.Some? ==>
              && r.value.x == x && !r.value.infinity
              && Canonical(cfg.field, r.value.y) && OnCurve(cfg, r.value)
              && (greatest ==> Le(cfg.field, Neg(cfg.field, r.value.y), r.value.y))
              && (!greatest ==> Le(cfg.field, r.value.y, Neg(cfg.field, r.value.y)))
  {
    YsFromXRoots(cfg, x);
    match YsFromX(cfg, x)
    case None => None
    case Some((smaller, larger)) =>
      if greatest then Some(AffineNewUnchecked(x, larger))
      else Some(AffineNewUnchecked(x, smaller))
  }

  /** `to_flags`: the point at infinity is flagged so; otherwise `YIsPositive`
      when y <= -y and `YIsNegative` when not. */
  function ToFlags(cfg: SWConfig, p: Affine): (r: SWFlags)
    requires cfg.Valid() && PointCanonical(cfg, p)
    ensures r == PointAtInfinity <==> p.infinity
    ensures !p.infinity ==> (r == YIsPositive <==> Le(cfg.field, p.y, Neg(cfg.field, p.y)))
  {
    if p.infinity then PointAtInfinity
    else if Le(cfg.field, p.y, Neg(cfg.field, p.y)) then YIsPositive
    else YIsNegative
  }

  /** y <= -y means that y, as an integer, lies in the lower half [0, p/2). */
  lemma ToFlagsLowerHalf(cfg: SWConfig, p: Affine)
    requires cfg.Valid() && PointCanonical(cfg, p) && !p.infinity
    ensures ToFlags(cfg, p) == YIsPositive <==> 2 * IntoBigint(cfg.field, p.y) < cfg.field.modulus
  {
    var f := cfg.field;
    CmpIsBigintOrder(f, p.y, Neg(f, p.y));
    NegationAboveHalf(IntoBigint(f, p.y), f.modulus);
  }

  /** For odd q, y <= -y mod q exactly when 2y < q. */
  lemma NegationAboveHalf(y: nat, q: nat)
    requires y < q && q % 2 == 1
    ensures y <= (0 - y) % q <==> 2 * y < q
  {
    if y == 0 {
      ModSmall(0, q);
    } else {
      ModAddMultiple(0 - y, 1, q);
      ModSmall(q - y, q);
      assert 2 * y != q;
    }
  }

  /** `Neg`: `y.neg_in_place()` on the receiver, whatever its infinity flag. */
  function AffineNeg(cfg: SWConfig, p: Affine): (r: Affine)
    requires cfg.Valid() && PointCanonical(cfg, p)
    ensures r.x == p.x && r.infinity == p.infinity && r.y == Neg(cfg.field, p.y)
    ensures PointCanonical(cfg, r)
  {
    p.(y := Neg(cfg.field, p.y))
  }

  /** Negation is an involution, fixes the identity and keeps points on the
      curve. */
  lemma AffineNegProperties(cfg: SWConfig, p: Affine)
    requires cfg.Valid() && PointCanonical(cfg, p)
    ensures AffineNeg(cfg, AffineNeg(cfg, p)) == p
    ensures AffineNeg(cfg, Identity(cfg)) == Identity(cfg)
    ensures OnCurve(cfg, AffineNeg(cfg, p)) <==> OnCurve(cfg, p)
  {
    NegNeg(cfg.field, p.y);
    NegZero(cfg.field);
    ZeroOneDecode(cfg.field);
    if !p.infinity {
      NegSquare(cfg.field, p.y);
      OnCurveIffSquare(cfg, p.x, p.y);
      OnCurveIffSquare(cfg, p.x, Neg(cfg.field, p.y));
    }
  }

  /** `from_random_bytes`, given the result of the base field's
      `from_random_bytes_with_flags::<SWFlags>` (not part of this model): a
      zero x with the infinity flag is the identity; a sign flag selects a
      root; anything else fails. */
  function FromRandomBytes(cfg: SWConfig, parsed: Option<(Fp, SWFlags)>): (r: Option<Affine>)
    requires cfg.Valid() && (parsed.Some? ==> Canonical(cfg.field, parsed.value.0))
    ensures parsed.None? ==> r.None?
    ensures r.Some? ==> PointCanonical(cfg, r.value) && OnCurve(cfg, r.value)
    ensures r.Some? && !r.value.infinity ==> r.value.x == parsed.value.0
  {
    IdentityOnCurve(cfg);
    match parsed
    case None => None
    case Some((x, flags)) =>
      if IsZero(cfg.field, x) && IsInfinityFlag(flags) then Some(Identity(cfg))
      else
        match IsPositiveFlag(flags)
        case Some(yIsPositive) => GetPointFromXUnchecked(cfg, x, yIsPositive)
        case None => None
  }

  /** The infinity flag yields the identity for x = 0 and fails for any
      other x. */
  lemma FromRandomBytesInfinity(cfg: SWConfig, x: Fp)
    requires cfg.Valid() && Canonical(cfg.field, x)
    ensures FromRandomBytes(cfg, Some((x, PointAtInfinity)))
            == if IsZero(cfg.field, x) then Some(Identity(cfg)) else None
  {
  }

  /** A sign flag hands x and the flag's sign to `get_point_from_x_unchecked`:
      the result keeps x, takes the larger root for a positive flag and the
      smaller for a negative one, and fails exactly when `sqrt` finds no root. */
  lemma FromRandomBytesSignFlag(cfg: SWConfig, x: Fp, flags: SWFlags, greatest: bool)
    requires cfg.Valid() && Canonical(cfg.field, x)
    requires IsPositiveFlag(flags) == Some(greatest)
    ensures FromRandomBytes(cfg, Some((x, flags))) == GetPointFromXUnchecked(cfg, x, greatest)
    ensures FromRandomBytes(cfg, Some((x, flags))).None? <==> YsFromX(cfg, x).None?
  {
  }

  /** With a complete `sqrt`, a sign flag is rejected exactly when no finite
      point with this x is on the curve. */
  lemma FromRandomBytesRejectsOffCurve(cfg: SWConfig, x: Fp, flags: SWFlags)
    requires cfg.Valid() && SqrtComplete(cfg.field) && Canonical(cfg.field, x)
    requires !IsInfinityFlag(flags)
    ensures FromRandomBytes(cfg, Some((x, flags))).None? <==>
              forall y :: Canonical(cfg.field, y) ==> !OnCurve(cfg, Affine(x, y, false))
  {
    FromRandomBytesSignFlag(cfg, x, flags, IsPositiveFlag(flags).value);
    YsFromXComplete(cfg, x);
  }

  /** Sampling from a point's own x and flags gives its negation: `to_flags`
      marks the smaller root `YIsPositive`, and `from_random_bytes` reads
      `YIsPositive` as a request for the larger. */
  lemma FromRandomBytesOfToFlags(cfg: SWConfig, p: Affine)
    requires cfg.Valid() && SqrtComplete(cfg.field)
    requires PointCanonical(cfg, p) && !p.infinity && OnCurve(cfg, p)
    ensures FromRandomBytes(cfg, Some((p.x, ToFlags(cfg, p)))) == Some(AffineNeg(cfg, p))
  {
    var f := cfg.field;
    var rhs := CurveRhs(cfg, p.x);
    OnCurveIffSquare(cfg, p.x, p.y);
    assert Square(f, p.y) == rhs;
    assert Sqrt(f, rhs).Some?;
    var y0 := Sqrt(f, rhs).value;
    SquareRootsArePlusMinus(f, y0, p.y);
    NegNeg(f, y0);
    YsFromXRoots(cfg, p.x);
    var (s, l) := YsFromX(cfg, p.x).value;
    LeIsTotalOrder(f, s, l, s);
  }

  /** `from_random_bytes` read the way `to_flags` writes the sign:
      `YIsPositive` marks the smaller root, so a positive flag asks
      `get_point_from_x_unchecked` for the smaller one. */
  function FromRandomBytesMatchingFlags(cfg: SWConfig, parsed: Option<(Fp, SWFlags)>): (r: Option<Affine>)
    requires cfg.Valid() && (parsed.Some? ==> Canonical(cfg.field, parsed.value.0))
    ensures parsed.None? ==> r.None?
    ensures r.Some? ==> PointCanonical(cfg, r.value) && OnCurve(cfg, r.value)
    ensures r.Some? && !r.value.infinity ==> r.value.x == parsed.value.0
  {
    IdentityOnCurve(cfg);
    match parsed
    case None => None
    case Some((x, flags)) =>
      if IsZero(cfg.field, x) && IsInfinityFlag(flags) then Some(Identity(cfg))
      else
        match IsPositiveFlag(flags)
        case Some(yIsPositive) => GetPointFromXUnchecked(cfg, x, !yIsPositive)
        case None => None
  }

  /** Decoding a finite curve point's own x and flags this way gives the
      point back. */
  lemma FromRandomBytesMatchingFlagsOfToFlags(cfg: SWConfig, p: Affine)
    requires cfg.Valid() && SqrtComplete(cfg.field)
    requires PointCanonical(cfg, p) && !p.infinity && OnCurve(cfg, p)
    ensures FromRandomBytesMatchingFlags(cfg, Some((p.x, ToFlags(cfg, p)))) == Some(p)
  {
    var f := cfg.field;
    var rhs := CurveRhs(cfg, p.x);
    OnCurveIffSquare(cfg, p.x, p.y);
    assert Square(f, p.y) == rhs;
    assert Sqrt(f, rhs).Some?;
    var y0 := Sqrt(f, rhs).value;
    SquareRootsArePlusMinus(f, y0, p.y);
    NegNeg(f, y0);
    YsFromXRoots(cfg, p.x);
    var (s, l) := YsFromX(cfg, p.x).value;
    LeIsTotalOrder(f, s, l, s);
  }

  /** `mul_bigint`: `mul_affine(self, by)`. */
  function MulBigint(cfg: SWConfig, p: Affine, scalar: seq<u64>): (r: Projective)
    ensures r == cfg.doubleAndAddAffine(p, scalar)
  {
    MulAffine(cfg, p, scalar)
  }

  /** `Mul<ScalarField>`: `mul_bigint` by the scalar's canonical integer, in
      the scalar field's limbs. */
  function MulScalar(cfg: SWConfig, p: Affine, s: Fp): (r: Projective)
    requires cfg.WellFormed()
    ensures r == cfg.doubleAndAddAffine(p, NatToLimbs(IntoBigint(cfg.scalarField, s), cfg.scalarField.limbs))
    ensures LimbsValue(NatToLimbs(IntoBigint(cfg.scalarField, s), cfg.scalarField.limbs))
            == IntoBigint(cfg.scalarField, s)
  {
    var f := cfg.scalarField;
    MulBigint(cfg, p, NatToLimbs(IntoBigint(f, s), f.limbs))
  }

  /** `mul_by_cofactor_to_group`: `mul_affine(self, COFACTOR)`. */
  function MulByCofactorToGroup(cfg: SWConfig, p: Affine): (r: Projective)
    ensures r == cfg.doubleAndAddAffine(p, cfg.cofactor)
  {
    MulAffine(cfg, p, cfg.cofactor)
  }

  /** `AffineRepr::clear_cofactor`: the configuration's `clear_cofactor`. */
  function AffineClearCofactor(cfg: SWConfig, p: Affine): (r: Affine)
    ensures r == cfg.mulByCofactor(p)
  {
    ClearCofactor(cfg, p)
  }

  /** `Affine::is_in_correct_subgroup_assuming_on_curve`: the configuration's check. */
  function AffineIsInCorrectSubgroup(cfg: SWConfig, p: Affine): (r: bool)
    requires cfg.WellFormed()
    ensures CofactorIsOne(cfg) ==> r
    ensures r == IsInCorrectSubgroupAssumingOnCurve(cfg, p)
  {
    IsInCorrectSubgroupAssumingOnCurve(cfg, p)
  }

  /** Z^-2 and Z^-3 undo Z^2 and Z^3. */
  lemma NormalizationInverts(f: FpConfig, x: Fp, y: Fp, z: Fp, zinv: Fp)
    requires f.WellFormed()
    requires Canonical(f, x) && Canonical(f, y) && Canonical(f, z) && Canonical(f, zinv)
    requires Mul(f, z, zinv) == One(f)
    ensures Mul(f, Mul(f, x, Square(f, zinv)), Square(f, z)) == x
    ensures Mul(f, Mul(f, y, Mul(f, Square(f, zinv), zinv)), Mul(f, Square(f, z), z)) == y
  {
    var one := One(f);
    ZeroOneDecode(f);
    MulComm(f, z, zinv);
    DoubleIsAddSelf(f, zinv);
    DoubleIsAddSelf(f, z);
    MulInterchange(f, zinv, zinv, z, z);
    MulOne(f, one);
    var sq := Mul(f, Square(f, zinv), Square(f, z));
    assert sq == one;
    MulAssoc(f, x, Square(f, zinv), Square(f, z));
    MulOne(f, x);
    MulInterchange(f, Square(f, zinv), zinv, Square(f, z), z);
    MulAssoc(f, y, Mul(f, Square(f, zinv), zinv), Mul(f, Square(f, z), z));
    MulOne(f, y);
  }

  /** With Z = ONE the normalization leaves the coordinates alone. */
  lemma ScalingByOne(f: FpConfig, x: Fp, y: Fp)
    requires f.WellFormed() && Canonical(f, x) && Canonical(f, y)
    ensures Canonical(f, One(f))
    ensures Mul(f, x, Square(f, One(f))) == x
    ensures Mul(f, y, Mul(f, Square(f, One(f)), One(f))) == y
  {
    var one := One(f);
    ZeroOneDecode(f);
    MulOne(f, one);
    DoubleIsAddSelf(f, one);
    MulOne(f, x);
    MulOne(f, y);
  }

  /** `From<Projective>`: the identity for the projective identity, the
      coordinates as they are when Z is ONE, and (X / Z^2, Y / Z^3) otherwise. */
  function FromProjective(cfg: SWConfig, p: Projective): (r: Affine)
    requires cfg.Valid()
    requires Canonical(cfg.field, p.x) && Canonical(cfg.field, p.y) && Canonical(cfg.field, p.z)
    ensures cfg.projectiveIsZero(p) ==> r == Identity(cfg)
    ensures !cfg.projectiveIsZero(p) && IsOne(cfg.field, p.z) ==> r == Affine(p.x, p.y, false)
    ensures !cfg.projectiveIsZero(p) ==>
              && !r.infinity && PointCanonical(cfg, r)
              && Mul(cfg.field, r.x, Square(cfg.field, p.z)) == p.x
              && Mul(cfg.field, r.y, Mul(cfg.field, Square(cfg.field, p.z), p.z)) == p.y
  {
    var f := cfg.field;
    ZeroOneDecode(f);
    if cfg.projectiveIsZero(p) then
      Identity(cfg)
    else if IsOne(f, p.z) then
      ScalingByOne(f, p.x, p.y);
      AffineNewUnchecked(p.x, p.y)
    else
      var zinv := Inverse(f, p.z).value;
      var zinvSquared := Square(f, zinv);
      NormalizationInverts(f, p.x, p.y, p.z, zinv);
      AffineNewUnchecked(Mul(f, p.x, zinvSquared), Mul(f, p.y, Mul(f, zinvSquared, zinv)))
  }

  /** An `Affine` held by `&mut`, for `zeroize`. */
  class AffineCell {
    const config: SWConfig
    var point: Affine

    ghost predicate Valid()
      reads this
    {
      config.WellFormed() && PointCanonical(config, point)
    }

    constructor (cfg: SWConfig, p: Affine)
      requires cfg.WellFormed() && PointCanonical(cfg, p)
      ensures Valid() && config == cfg && point == p
    {
      config := cfg;
      point := p;
    }

    /** `zeroize`: x and y become ZERO and the infinity flag false. */
    method Zeroize()
      requires Valid()
      modifies this
      ensures Valid()
      ensures point == Affine(Zero(config.field), Zero(config.field), false)
    {
      ZeroOneDecode(config.field);
      point := Affine(Fp(0), Fp(0), false);
    }
  }

  /** The zeroized point is not the identity, and it is on the curve exactly
      when b is zero. */
  lemma ZeroizedPoint(cfg: SWConfig)
    requires cfg.WellFormed()
    ensures var z := Affine(Zero(cfg.field), Zero(cfg.field), false);
            && z != Identity(cfg)
            && (OnCurve(cfg, z) <==> IsZero(cfg.field, cfg.coeffB))
  {
    var f := cfg.field;
    ZeroOneDecode(f);
    ModSmall(0, f.modulus);
    ModSmall(IntoBigint(f, cfg.coeffB), f.modulus);
    IsZeroIffBigintZero(f, cfg.coeffB);
  }
}
