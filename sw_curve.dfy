/** The curve configuration `SWCurveConfig` of the short Weierstrass model
    y^2 = x^3 + a * x + b (lib/crypto/src/curve/short_weierstrass/mod.rs),
    over the prime field `Fp`, with its default methods `mul_by_a`, `add_b`,
    the subgroup check, `clear_cofactor`, `mul_affine` and `mul_projective`. */
module SWCurve {
  import opened Wrappers
  import opened Bits
  import opened PrimeField

  /** `Affine<P>`: coordinates x, y and the flag for the point at infinity
      (lib/crypto/src/curve/short_weierstrass/affine.rs). */
  datatype Affine = Affine(x: Fp, y: Fp, infinity: bool)

  /** `Projective<P>` (module `group`, not part of this model), as its
      coordinates: the affine point is (X / Z^2, Y / Z^3). */
  datatype Projective = Projective(x: Fp, y: Fp, z: Fp)

  /** `SWCurveConfig` with its base field `Fp` and its scalar field, whose
      characteristic is the order r of the prime-order subgroup. The projective identity test
      (module `group`), the double-and-add routines (module `scalar_mul`) and
      `mul_by_cofactor` (trait `AffineRepr`) are not part of this model and
      are supplied with the configuration. */
  datatype SWConfig = SWConfig(
    field: FpConfig,
    coeffA: Fp,
    coeffB: Fp,
    cofactor: seq<u64>,
    scalarField: FpConfig,
    projectiveIsZero: Projective -> bool,
    doubleAndAddAffine: (Affine, seq<u64>) -> Projective,
    doubleAndAddProjective: (Projective, seq<u64>) -> Projective,
    mulByCofactor: Affine -> Affine)
  {
    /** The coefficients are field elements of the configured field. */
    predicate WellFormed()
    {
      field.WellFormed() && Canonical(field, coeffA) && Canonical(field, coeffB)
      && scalarField.WellFormed()
    }

    /** Besides that, the field's supplied operations meet their contracts,
        and a projective point that is not the identity has a nonzero Z, as
        the conversion to affine coordinates relies on. */
    ghost predicate Valid()
    {
      && WellFormed()
      && field.Valid()
      && (forall p: Projective {:trigger projectiveIsZero(p)} ::
            Canonical(field, p.z) && !projectiveIsZero(p) ==> !IsZero(field, p.z))
    }
  }

  /** `mul_by_a`: `ZERO` when `COEFF_A` is zero, without multiplying, and
      `elem * COEFF_A` otherwise; both branches give the product. */
  function MulByA(cfg: SWConfig, elem: Fp): (r: Fp)
    requires cfg.WellFormed() && Canonical(cfg.field, elem)
    ensures r == Mul(cfg.field, elem, cfg.coeffA)
    ensures IsZero(cfg.field, cfg.coeffA) ==> r == Zero(cfg.field)
    ensures Canonical(cfg.field, r)
  {
    if IsZero(cfg.field, cfg.coeffA) then
      MulZero(cfg.field, elem);
      Zero(cfg.field)
    else
      Mul(cfg.field, elem, cfg.coeffA)
  }

  /** `add_b`: `elem` itself when `COEFF_B` is zero, and `elem + COEFF_B`
      otherwise; both branches give the sum. */
  function AddB(cfg: SWConfig, elem: Fp): (r: Fp)
    requires cfg.WellFormed() && Canonical(cfg.field, elem)
    ensures r == Add(cfg.field, elem, cfg.coeffB)
    ensures IsZero(cfg.field, cfg.coeffB) ==> r == elem
    ensures Canonical(cfg.field, r)
  {
    if IsZero(cfg.field, cfg.coeffB) then
      AddZero(cfg.field, elem);
      elem
    else
      Add(cfg.field, elem, cfg.coeffB)
  }

  /** `cofactor_is_one` (trait `CurveConfig`): the cofactor's limbs encode 1. */
  predicate CofactorIsOne(cfg: SWConfig)
  {
    LimbsValue(cfg.cofactor) == 1
  }

  /** `mul_affine`: the affine double-and-add routine. */
  function MulAffine(cfg: SWConfig, base: Affine, scalar: seq<u64>): (r: Projective)
    ensures r == cfg.doubleAndAddAffine(base, scalar)
  {
    cfg.doubleAndAddAffine(base, scalar)
  }

  /** `mul_projective`: the projective double-and-add routine. */
  function MulProjective(cfg: SWConfig, base: Projective, scalar: seq<u64>): (r: Projective)
    ensures r == cfg.doubleAndAddProjective(base, scalar)
  {
    cfg.doubleAndAddProjective(base, scalar)
  }

  /** `is_in_correct_subgroup_assuming_on_curve`: true when the cofactor is
      one, without multiplying; otherwise whether multiplying by the scalar
      field's characteristic gives the identity. */
  function IsInCorrectSubgroupAssumingOnCurve(cfg: SWConfig, item: Affine): (r: bool)
    requires cfg.WellFormed()
    ensures CofactorIsOne(cfg) ==> r
    ensures !CofactorIsOne(cfg) ==>
              (r <==> cfg.projectiveIsZero(cfg.doubleAndAddAffine(item, Characteristic(cfg.scalarField))))
  {
    if CofactorIsOne(cfg) then true
    else cfg.projectiveIsZero(MulAffine(cfg, item, Characteristic(cfg.scalarField)))
  }

  /** Without a cofactor of one, the check multiplies by the subgroup order
      r, whatever limbs of the scalar field's width encode it. */
  lemma SubgroupCheckMultipliesByOrder(cfg: SWConfig, item: Affine, order: seq<u64>)
    requires cfg.WellFormed() && !CofactorIsOne(cfg)
    requires |order| == cfg.scalarField.limbs && LimbsValue(order) == cfg.scalarField.modulus
    ensures IsInCorrectSubgroupAssumingOnCurve(cfg, item)
            <==> cfg.projectiveIsZero(cfg.doubleAndAddAffine(item, order))
  {
    LimbsUnique(order, Characteristic(cfg.scalarField));
  }

  /** `clear_cofactor`: `item.mul_by_cofactor()`. */
  function ClearCofactor(cfg: SWConfig, item: Affine): (r: Affine)
    ensures r == cfg.mulByCofactor(item)
  {
    cfg.mulByCofactor(item)
  }
}
