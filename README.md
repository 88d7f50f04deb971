# Prime fields and short Weierstrass curves, modelled in Dafny

This project models the prime-field and elliptic-curve layer of the `lib/crypto`
crate: the Montgomery-form field element `Fp<P, N>`, the default methods of the
`Field` and `AdditiveGroup` traits, the default methods of `SWCurveConfig`, and
affine points of a short Weierstrass curve y² = x³ + a·x + b.

- `wrappers.dfy` (`Wrappers`) holds `Option`.
- `mod_arith.dfy` (`ModArith`) holds natural powers and the modular-arithmetic
  lemmas the other proofs use.
- `bits.dfy` (`Bits`) holds 64-bit little-endian limb sequences. It also gives
  the bit iterators `BitIteratorBE::without_leading_zeros` and
  `BitIteratorLE::without_trailing_zeros` by the bit sequences they yield.
- `prime_field.dfy` (`PrimeField`) models `Fp` and `FpConfig`.
  - An element stores an integer `mont`. `into_bigint` decodes it as
    `mont · R⁻¹ mod p`.
  - `R` is computed by the source's own formula, `(Uint::MAX mod p) + 1`
    wrapping at 2^(64N). It is proved equal to 2^(64N) mod p.
  - add, double, mul and square are the Residue operations on Montgomery forms.
    Each is proved to be a homomorphism onto the integers mod p.
  - The `&mut` forms are methods of the class `FpCell`, which holds one element.
- `field_ops.dfy` (`FieldOps`) models `pow` and `pow_with_table` as loops. They
  are proved against `Power`, the n-fold product from ONE. It also has the
  default `double`, `double_in_place` and `neg_in_place`, and the worked p = 17
  example of the module documentation.
- `sw_curve.dfy` (`SWCurve`) models `mul_by_a`, `add_b`, the subgroup check and
  the delegating scalar-multiplication hooks. The curve configuration carries
  its scalar field, and the subgroup check multiplies by that field's
  characteristic.
- `sw_affine.dfy` (`SWAffine`) models:
  - the affine constructors;
  - `is_on_curve` and `get_ys_from_x_unchecked`, as methods that build
    x³ + a·x + b with the source's conditional `+=`;
  - point selection and `to_flags`;
  - negation;
  - `from_random_bytes` flag decoding;
  - projective-to-affine normalisation;
  - `zeroize`.

Three operations are `todo!()` stubs in the source: `sub_assign`,
`neg_in_place` and `inverse`. The foreign `sqrt` of the base field is treated
the same way. Each is a function supplied with the configuration (`FpConfig`'s
fields `sub`, `neg`, `inverse` and `sqrt`). `FpConfig.Valid()` states the
contract its doc comment gives: "Set a -= b", "Set a = -a", "Compute a^{-1} if
`a` is not zero", and that a square root squares back to its argument.
`FieldOps.Config17Valid` shows that such a configuration exists for p = 17 and
any limb count.

The projective type and its group law, and the double-and-add routines, are in
the modules `group` and `scalar_mul`, which are not part of this model. They are
likewise supplied with the curve configuration (`SWConfig`) as
`projectiveIsZero`, `doubleAndAddAffine`, `doubleAndAddProjective` and
`mulByCofactor`. `SWConfig.Valid()` asks only that a projective point that is
not the identity has a nonzero Z. `From<Projective>` relies on that when it
unwraps `z.inverse()`.

`from_bigint` is followed as the code has it. Its doc comment says it returns
`None` for integers outside `0..p`, but the code returns `Some(new(r))` for
every r. `PrimeField.FromBigint` is therefore always `Some`, reduced mod p.

`to_flags` marks a point `YIsPositive` when y ≤ −y, that is, when y is the
smaller root. `from_random_bytes` passes `is_positive()` to
`get_point_from_x_unchecked` as `greatest`, which picks the larger root. The
comment there speaks of getting "the original point". "## Findings" records the
mismatch and the decoding that agrees with `to_flags`. The mismatch holds only
if `SWFlags::is_positive` maps `YIsPositive` to `Some(true)`. `SWFlags` lives in
the module `serialize`, which is not part of this model, so the model takes that
mapping as given.

## Model

| member | source | states |
|---|---|---|
| PrimeField.MontgomeryR | lib/crypto/src/field/fp/mod.rs:217-218 | `Uint::MAX % MODULUS + 1`, wrapping at 2^(64N), equals 2^(64N) mod p for an odd p |
| PrimeField.MontgomeryRInverse | lib/crypto/src/field/fp/mod.rs:133-136 | the decoding factor is below p and is R's inverse: R·R⁻¹ ≡ 1 (mod p) |
| PrimeField.IntoBigint | lib/crypto/src/field/fp/mod.rs:133-136 | `into_bigint` yields an integer in the range 0..p |
| PrimeField.New | lib/crypto/src/field/fp/mod.rs:239-242 | `new(r)` keeps the invariant (stored value below p) and decodes to r mod p |
| PrimeField.NewUnchecked | lib/crypto/src/field/fp/mod.rs:252-254 | `new_unchecked` stores its argument as is |
| PrimeField.ZeroOneDecode | lib/crypto/src/field/fp/mod.rs:32-36 | ZERO (stores 0) decodes to 0 and ONE (stores R) decodes to 1; both keep the invariant |
| PrimeField.NewIntoBigint | lib/crypto/src/field/fp/mod.rs:239-242 | round trip: `new(into_bigint(a)) == a` for every element keeping the invariant |
| PrimeField.EqualIffSameBigint | lib/crypto/src/field/fp/mod.rs:182-192 | on elements below p, the derived limb equality holds exactly when the decoded integers agree |
| PrimeField.IsZeroIffBigintZero | lib/crypto/src/field/fp/mod.rs:298-300 | `is_zero` (limb equality with ZERO) holds exactly when the element decodes to 0 |
| PrimeField.UncheckedModulusDecodesAsZero | lib/crypto/src/field/fp/mod.rs:275-277 | p stored unchecked is `is_geq_modulus`, decodes like ZERO, yet differs from it under derived equality |
| PrimeField.Add | lib/crypto/src/field/fp/mod.rs:79-84 | `add_assign` keeps the invariant and decodes to (a + b) mod p |
| PrimeField.Double | lib/crypto/src/field/fp/mod.rs:92-96 | `double_in_place` keeps the invariant and decodes to 2a mod p |
| PrimeField.Mul | lib/crypto/src/field/fp/mod.rs:104-109 | `mul_assign` keeps the invariant and decodes to a·b mod p |
| PrimeField.Square | lib/crypto/src/field/fp/mod.rs:112-116 | `square_in_place` keeps the invariant and decodes to a² mod p |
| PrimeField.Sub | lib/crypto/src/field/fp/mod.rs:87-89 | `sub_assign` (unimplemented in the source) per its doc comment: decodes to (a − b) mod p |
| PrimeField.Neg | lib/crypto/src/field/fp/mod.rs:99-101 | `neg_in_place` (unimplemented in the source) per its doc comment: decodes to −a mod p |
| PrimeField.Inverse | lib/crypto/src/field/fp/mod.rs:119-121 | `inverse` (unimplemented in the source): `None` exactly for zero; otherwise a·a⁻¹ == ONE |
| PrimeField.Div | lib/crypto/src/field/fp/mod.rs:568-578 | `a / b` when b's inverse exists (the source panics otherwise): the quotient is `a * b.inverse().unwrap()`, and the quotient times b is a |
| PrimeField.Sqrt | lib/crypto/src/curve/short_weierstrass/affine.rs:119 | the base field's `sqrt`: a returned root is canonical and squares to its argument |
| PrimeField.AddComm | lib/crypto/src/field/fp/mod.rs:79-84 | a + b == b + a |
| PrimeField.AddAssoc | lib/crypto/src/field/fp/mod.rs:79-84 | (a + b) + d == a + (b + d) |
| PrimeField.AddZero | lib/crypto/src/field/fp/mod.rs:79-84 | a + ZERO == a |
| PrimeField.AddCancel | lib/crypto/src/field/fp/mod.rs:79-84 | a + b == a + d implies b == d |
| PrimeField.MulComm | lib/crypto/src/field/fp/mod.rs:104-109 | a·b == b·a |
| PrimeField.MulAssoc | lib/crypto/src/field/fp/mod.rs:104-109 | (a·b)·d == a·(b·d) |
| PrimeField.MulOne | lib/crypto/src/field/fp/mod.rs:104-109 | a·ONE == a |
| PrimeField.MulZero | lib/crypto/src/field/fp/mod.rs:104-109 | a·ZERO == ZERO |
| PrimeField.Distributive | lib/crypto/src/field/fp/mod.rs:79-109 | a·(b + d) == a·b + a·d |
| PrimeField.MulInterchange | lib/crypto/src/field/fp/mod.rs:104-109 | (a·b)·(d·e) == (a·d)·(b·e) |
| PrimeField.DoubleIsAddSelf | lib/crypto/src/field/fp/mod.rs:92-116 | `double` is a + a and `square` is a·a |
| PrimeField.AddNeg | lib/crypto/src/field/fp/mod.rs:99-101 | a + (−a) == ZERO |
| PrimeField.NegNeg | lib/crypto/src/field/fp/mod.rs:99-101 | −(−a) == a |
| PrimeField.NegZero | lib/crypto/src/field/fp/mod.rs:99-101 | −ZERO == ZERO |
| PrimeField.NegSquare | lib/crypto/src/field/fp/mod.rs:99-116 | (−a)² == a² |
| PrimeField.SubIsAddNeg | lib/crypto/src/field/fp/mod.rs:87-101 | a − b == a + (−b) |
| PrimeField.MulInverse | lib/crypto/src/field/mod.rs:84 | a nonzero element has an inverse and a·a⁻¹ == ONE |
| PrimeField.MulEqZero | lib/crypto/src/field/fp/mod.rs:104-121 | a·b == ZERO with a nonzero forces b to be zero |
| PrimeField.SumPlusDifference | lib/crypto/src/field/mod.rs:78-80 | (a + b) + (a − b) == a.double() |
| PrimeField.DifferenceOfSquares | lib/crypto/src/field/mod.rs:82-83 | (a − b)(a + b) == a² − b² |
| PrimeField.SquareRootsArePlusMinus | lib/crypto/src/curve/short_weierstrass/affine.rs:119-124 | a² == b² implies b == a or b == −a, so y and −y are the only roots |
| PrimeField.CmpIsBigintOrder | lib/crypto/src/field/fp/mod.rs:401-406 | `cmp` orders by `into_bigint` (both directions of Less and Greater); Equal is equality; it is antisymmetric |
| PrimeField.LeIsTotalOrder | lib/crypto/src/field/fp/mod.rs:414-419 | `<=` is reflexive, antisymmetric, transitive and total on canonical elements |
| PrimeField.FromBigint | lib/crypto/src/field/fp/mod.rs:126-129 | `from_bigint(r)` is always `Some`, holding an element that decodes to r mod p |
| PrimeField.FromUnsigned | lib/crypto/src/field/fp/mod.rs:422-426 | `From<uK>` and `From<Uint<N>>` give the element decoding to x mod p |
| PrimeField.FromSigned | lib/crypto/src/field/fp/mod.rs:428-432 | `From<iK>(x)` decodes to \|x\| mod p |
| PrimeField.FromBool | lib/crypto/src/field/fp/mod.rs:434-438 | `From<bool>` gives ONE for true and ZERO for false |
| PrimeField.FromSignedDropsSign | lib/crypto/src/field/fp/mod.rs:446-450 | `From(-x) == From(x) == From(\|x\| as unsigned)` |
| PrimeField.FromMinusThreeIsNotNegation | lib/crypto/src/field/fp/mod.rs:458-462 | `From(-3) == From(3)`, which for p > 3 is not −From(3) |
| PrimeField.Characteristic | lib/crypto/src/field/fp/mod.rs:348-351 | `characteristic()` is N little-endian limbs encoding p |
| PrimeField.Sum | lib/crypto/src/field/fp/mod.rs:695-708 | the fold from ZERO with `+` keeps the invariant and decodes to the sum of the decoded elements mod p |
| PrimeField.Product | lib/crypto/src/field/fp/mod.rs:810-823 | the fold from ONE with `*` keeps the invariant and decodes to their product mod p |
| PrimeField.FpCell.AddAssign | lib/crypto/src/field/fp/mod.rs:632-637 | `+=` overwrites the element with the sum and keeps the invariant |
| PrimeField.FpCell.SubAssign | lib/crypto/src/field/fp/mod.rs:639-644 | `-=` overwrites the element with the difference |
| PrimeField.FpCell.DoubleInPlace | lib/crypto/src/field/fp/mod.rs:328-332 | `double_in_place` overwrites the element with a + a |
| PrimeField.FpCell.NegInPlace | lib/crypto/src/field/fp/mod.rs:334-337 | `neg_in_place` overwrites the element with −a |
| PrimeField.FpCell.MulAssign | lib/crypto/src/field/fp/mod.rs:746-750 | `*=` overwrites the element with the product |
| PrimeField.FpCell.SquareInPlace | lib/crypto/src/field/fp/mod.rs:359-362 | `square_in_place` overwrites the element with a·a |
| PrimeField.FpCell.InverseInPlace | lib/crypto/src/field/fp/mod.rs:369-376 | succeeds exactly for nonzero elements and then holds the inverse; otherwise the element is unchanged |
| PrimeField.FpCell.DivAssign | lib/crypto/src/field/fp/mod.rs:752-759 | `/=` by an invertible divisor leaves the element that the divisor multiplies back to the old value |
| PrimeField.FpCell.Zeroize | lib/crypto/src/field/fp/mod.rs:861-867 | clearing the limbs leaves ZERO, which decodes to 0 |
| FieldOps.PowerDecodes | lib/crypto/src/field/mod.rs:194-197 | the reference power a^n decodes to the integer power of a's value mod p |
| FieldOps.PowerAdd | lib/crypto/src/field/mod.rs:194-197 | a^(m+n) == a^m · a^n |
| FieldOps.PowerSquare | lib/crypto/src/field/mod.rs:200-201 | squaring a^k gives a^(2k), the step of the square-and-multiply loop |
| FieldOps.Pow | lib/crypto/src/field/mod.rs:197-208 | `pow(a, exp)` is a^e for the integer e the little-endian limbs encode; e = 0 gives ONE; the loop keeps res == a^(value of the bits read so far) |
| FieldOps.TableProduct | lib/crypto/src/field/mod.rs:223-230 | the product of the table entries at the set bits keeps the invariant |
| FieldOps.PowWithTable | lib/crypto/src/field/mod.rs:219-231 | `None` exactly when some set bit's index is past the table's end; otherwise `Some` of the product of the table entries at the set bits |
| FieldOps.TableCoversIffLongEnough | lib/crypto/src/field/mod.rs:211-217 | every set bit has an entry exactly when the table is at least as long as the exponent's bit length |
| FieldOps.TableProductIsPower | lib/crypto/src/field/mod.rs:211-215 | over a table [a, a², a⁴, …] the table product is a raised to the bits' value |
| FieldOps.PowWithTableIsPower | lib/crypto/src/field/mod.rs:211-231 | with a long enough table of repeated squares, `pow_with_table` agrees with `pow` |
| FieldOps.DefaultDoubleInPlace | lib/crypto/src/field/mod.rs:288-291 | default `double_in_place` sets self to self + self, which is `double` |
| FieldOps.DefaultNegInPlace | lib/crypto/src/field/mod.rs:294-297 | default `neg_in_place` sets self to −self |
| FieldOps.DefaultDouble | lib/crypto/src/field/mod.rs:282-286 | default `double` returns a + a from a copy, decoding to 2a mod p |
| FieldOps.FromRandomBytes | lib/crypto/src/field/mod.rs:164-166 | `from_random_bytes` fails exactly when the flagged parse fails, and otherwise drops the empty flags |
| FieldOps.Config17Valid | lib/crypto/src/field/mod.rs:44-48 | the p = 17 configuration in any number of limbs meets every supplied-operation contract |
| FieldOps.Config17Decode | lib/crypto/src/field/mod.rs:44-48 | for p = 17, R = R⁻¹ = 1, so an element decodes to its stored value mod 17 |
| FieldOps.WorkedExampleFrom | lib/crypto/src/field/mod.rs:54 | `Fq::from(9) == Fq::from(26)` for p = 17 |
| FieldOps.WorkedExampleAdd | lib/crypto/src/field/mod.rs:56 | 9 + 10 == 2 for p = 17 |
| FieldOps.WorkedExampleMul | lib/crypto/src/field/mod.rs:57 | 9 · 10 == 5 for p = 17 |
| FieldOps.WorkedExampleSquare | lib/crypto/src/field/mod.rs:58 | 9² == 13 for p = 17 |
| FieldOps.WorkedExampleDouble | lib/crypto/src/field/mod.rs:59 | double(10) == 3 for p = 17 |
| FieldOps.WorkedExampleSubDiv | lib/crypto/src/field/mod.rs:55-60 | 9 − 10 == 16, 10 is invertible, and 9 / 10 == 9 · 10⁻¹ for p = 17 |
| FieldOps.Add17 | lib/crypto/src/field/mod.rs:56-59 | for p = 17 and x, y < 17, the sum (and double) is `From((x + y) mod 17)` |
| FieldOps.Mul17 | lib/crypto/src/field/mod.rs:57-58 | for p = 17 and x, y < 17, the product (and square) is `From(x·y mod 17)` |
| SWCurve.MulByA | lib/crypto/src/curve/short_weierstrass/mod.rs:36-42 | `mul_by_a(e)` is e·COEFF_A in both branches, and ZERO when COEFF_A is zero |
| SWCurve.AddB | lib/crypto/src/curve/short_weierstrass/mod.rs:50-56 | `add_b(e)` is e + COEFF_B in both branches, and e itself when COEFF_B is zero |
| SWCurve.IsInCorrectSubgroupAssumingOnCurve | lib/crypto/src/curve/short_weierstrass/mod.rs:67-74 | true when the cofactor is one; otherwise holds exactly when `mul_affine(item, ScalarField::characteristic())` is the identity |
| SWCurve.SubgroupCheckMultipliesByOrder | lib/crypto/src/curve/short_weierstrass/mod.rs:58-74 | without a cofactor of one, the check holds exactly when multiplying by any limbs of the scalar field's width that encode its modulus r gives the identity |
| SWCurve.ClearCofactor | lib/crypto/src/curve/short_weierstrass/mod.rs:79-81 | `clear_cofactor(item) == item.mul_by_cofactor()` |
| SWCurve.MulProjective | lib/crypto/src/curve/short_weierstrass/mod.rs:85-90 | `mul_projective` is the projective double-and-add routine |
| SWCurve.MulAffine | lib/crypto/src/curve/short_weierstrass/mod.rs:94-96 | `mul_affine` is the affine double-and-add routine |
| SWAffine.CurveRhs | lib/crypto/src/curve/short_weierstrass/affine.rs:111 | the field element x³ + a·x + b decodes to that value mod p |
| SWAffine.OnCurveIffSquare | lib/crypto/src/curve/short_weierstrass/affine.rs:128-136 | a finite point is on the curve exactly when y.square() equals x³ + a·x + b |
| SWAffine.CubePlusB | lib/crypto/src/curve/short_weierstrass/affine.rs:115 | `add_b(x.square() * x)` decodes to x³ + b mod p |
| SWAffine.RhsComputation | lib/crypto/src/curve/short_weierstrass/affine.rs:115-118 | `add_b(x.square() * x)`, plus `mul_by_a(x)` only when a is nonzero, is x³ + a·x + b |
| SWAffine.IsOnCurve | lib/crypto/src/curve/short_weierstrass/affine.rs:128-139 | `is_on_curve` holds exactly when the point is the identity or satisfies y² = x³ + a·x + b |
| SWAffine.YsFromX | lib/crypto/src/curve/short_weierstrass/affine.rs:119-124 | the returned roots are canonical field elements |
| SWAffine.GetYsFromXUnchecked | lib/crypto/src/curve/short_weierstrass/affine.rs:108-125 | the method returns the ordered pair of square roots of x³ + a·x + b |
| SWAffine.YsFromXRoots | lib/crypto/src/curve/short_weierstrass/affine.rs:99-125 | `None` exactly when `sqrt` fails; otherwise (s, l) with s ≤ l, {s, l} = {y, −y}, l == −s, and both (x, s) and (x, l) on the curve |
| SWAffine.YsFromXComplete | lib/crypto/src/curve/short_weierstrass/affine.rs:99-103 | with a `sqrt` that finds every root, `None` exactly when no y puts (x, y) on the curve |
| SWAffine.AffineNewUnchecked | lib/crypto/src/curve/short_weierstrass/affine.rs:72-74 | `new_unchecked` keeps x and y and sets infinity to false, with no precondition |
| SWAffine.AffineNew | lib/crypto/src/curve/short_weierstrass/affine.rs:59-64 | `new` requires the point to be on the curve and in the subgroup, and returns it with infinity false |
| SWAffine.Identity | lib/crypto/src/curve/short_weierstrass/affine.rs:76-78 | `identity()` is flagged infinite with x = y = ZERO |
| SWAffine.AffineZero | lib/crypto/src/curve/short_weierstrass/affine.rs:186-188 | `zero()` is `identity()` |
| SWAffine.AffineDefault | lib/crypto/src/curve/short_weierstrass/affine.rs:292-297 | `default()` is `identity()` and `zero()` |
| SWAffine.IdentityOnCurve | lib/crypto/src/curve/short_weierstrass/affine.rs:128-139 | the identity is on the curve, canonical, and has no `xy` |
| SWAffine.Xy | lib/crypto/src/curve/short_weierstrass/affine.rs:177-179 | `xy()` is `None` exactly for the point at infinity, and otherwise (x, y) |
| SWAffine.GetPointFromXUnchecked | lib/crypto/src/curve/short_weierstrass/affine.rs:86-97 | `None` exactly when there are no roots; otherwise the point with this x, the larger root exactly when `greatest` |
| SWAffine.ToFlags | lib/crypto/src/curve/short_weierstrass/affine.rs:141-149 | PointAtInfinity exactly for infinity; otherwise YIsPositive exactly when y ≤ −y, else YIsNegative |
| SWAffine.ToFlagsLowerHalf | lib/crypto/src/curve/short_weierstrass/affine.rs:144-145 | for a finite point, YIsPositive exactly when 2·y < p as integers |
| SWAffine.AffineNeg | lib/crypto/src/curve/short_weierstrass/affine.rs:227-236 | negation keeps x and the infinity flag and replaces y with −y |
| SWAffine.AffineNegProperties | lib/crypto/src/curve/short_weierstrass/affine.rs:230-231 | negation is an involution, fixes the identity, and keeps a point on the curve exactly when it was |
| SWAffine.FromRandomBytes | lib/crypto/src/curve/short_weierstrass/affine.rs:190-206 | fails when the parse fails; every point it returns is canonical and on the curve, and a finite one keeps the parsed x |
| SWAffine.FromRandomBytesSignFlag | lib/crypto/src/curve/short_weierstrass/affine.rs:199-200 | a sign flag gives exactly `get_point_from_x_unchecked(x, is_positive)`, so it fails exactly when `sqrt` finds no root |
| SWAffine.FromRandomBytesRejectsOffCurve | lib/crypto/src/curve/short_weierstrass/affine.rs:192-205 | with a complete `sqrt`, a sign flag fails exactly when no finite point with this x is on the curve |
| SWAffine.FromRandomBytesInfinity | lib/crypto/src/curve/short_weierstrass/affine.rs:196-203 | the infinity flag gives the identity for x = 0 and fails for every other x |
| SWAffine.FromRandomBytesOfToFlags | lib/crypto/src/curve/short_weierstrass/affine.rs:141-206 | with a complete `sqrt`, decoding a finite curve point's x with its own flags gives its negation |
| SWAffine.FromRandomBytesMatchingFlags | lib/crypto/src/curve/short_weierstrass/affine.rs:190-206 | the decoding that reads `YIsPositive` as the smaller root: every point it returns is canonical, on the curve, and keeps the parsed x |
| SWAffine.FromRandomBytesMatchingFlagsOfToFlags | lib/crypto/src/curve/short_weierstrass/affine.rs:141-149 | with a complete `sqrt`, that decoding of a finite curve point's own x and flags gives the point back |
| SWAffine.MulBigint | lib/crypto/src/curve/short_weierstrass/affine.rs:208-210 | `mul_bigint` is `mul_affine` |
| SWAffine.MulByCofactorToGroup | lib/crypto/src/curve/short_weierstrass/affine.rs:212-217 | `mul_by_cofactor_to_group` is `mul_affine` by COFACTOR |
| SWAffine.AffineClearCofactor | lib/crypto/src/curve/short_weierstrass/affine.rs:219-224 | `AffineRepr::clear_cofactor` is the configuration's `clear_cofactor` |
| SWAffine.AffineIsInCorrectSubgroup | lib/crypto/src/curve/short_weierstrass/affine.rs:152-158 | the point's subgroup check is the configuration's, and true when the cofactor is one |
| SWAffine.MulScalar | lib/crypto/src/curve/short_weierstrass/affine.rs:299-306 | multiplying by a scalar is `mul_bigint` by limbs encoding the scalar's canonical integer |
| SWAffine.NormalizationInverts | lib/crypto/src/curve/short_weierstrass/affine.rs:308-309 | for z·z⁻¹ = 1, scaling X by z⁻² and Y by z⁻³ is undone by z² and z³ |
| SWAffine.ScalingByOne | lib/crypto/src/curve/short_weierstrass/affine.rs:315-317 | with Z = ONE the normalisation would leave X and Y unchanged |
| SWAffine.FromProjective | lib/crypto/src/curve/short_weierstrass/affine.rs:310-332 | the projective identity gives the identity; Z = ONE keeps (X, Y); otherwise a finite (x, y) with x·Z² = X and y·Z³ = Y |
| SWAffine.AffineCell.Zeroize | lib/crypto/src/curve/short_weierstrass/affine.rs:161-168 | `zeroize` sets x and y to ZERO and the infinity flag to false |
| SWAffine.ZeroizedPoint | lib/crypto/src/curve/short_weierstrass/affine.rs:161-168 | the zeroized point is not the identity, and it is on the curve exactly when b is zero |

## Left out

- The limb-level Montgomery arithmetic of `crypto_bigint::Residue`
  (`from_montgomery`, `to_montgomery`, `retrieve`, REDC, `R2`, `R3`,
  `MOD_NEG_INV`) is foreign code. Field elements are modelled on unbounded
  integers with the Montgomery encoding written out.
- `FpConfig.WellFormed` requires an odd modulus 1 < p < 2^(64N) and N ≥ 1. The
  source notes the oddness check as still to do, and Montgomery arithmetic needs
  it.
- The bodies of the `todo!()` stubs `sub_assign`, `neg_in_place` and `inverse`
  are not modelled. The configuration supplies them with their doc-comment
  contracts. `const_is_zero`, `const_neg` and `from_sign_and_limbs` are also
  `todo!()` stubs with no stated contract, so they are left out.
- `sqrt`, `from_random_bytes_with_flags`, `SWFlags` and its `is_positive` and
  `is_infinity`, the projective type's `is_zero`, and the group law are in the
  modules `prime`, `serialize` and `group`, which are not part of this model.
  So are the double-and-add routines (`scalar_mul`) and `mul_by_cofactor`
  (trait `AffineRepr`). Each is a supplied function or a parameter.
- `SWAffine.FromRandomBytes`: the base field's parse of the bytes is its
  argument. Only the flag decoding that follows the parse is modelled. That
  decoding, the choice of root by a sign flag included, is stated in
  `SWAffine.FromRandomBytesSignFlag` and `SWAffine.FromRandomBytesRejectsOffCurve`.
- `SWCurve.CofactorIsOne` reads `cofactor_is_one` (trait `CurveConfig`, not part
  of this model) as "the cofactor's limbs encode 1".
- `Affine` addition and subtraction, `PartialEq<Projective>` and `into_group`
  all go through the projective group law, which is not part of this model.
- `PrimeField.FromUnsigned`: the integer must fit in the N limbs. What
  `Uint::from_u128` and its siblings do with a wider argument is in
  `crypto_bigint`, so native integer widths are not modelled.
- `PrimeField.FromSigned`: the same width bound applies to |x|. So
  `From<i128>` of `i128::MIN`, whose `unsigned_abs()` is 2^127, is covered only
  when 2^127 fits in the N limbs.
- `PrimeField.Add`, `PrimeField.Sub`, `PrimeField.Mul` and the other field
  operations require canonical operands below p. The source also accepts a value
  built by `new_unchecked` from an integer ≥ p. What the Residue operations do
  with such a value is not modelled. `PrimeField.NewUnchecked` and
  `PrimeField.UncheckedModulusDecodesAsZero` describe such values only as stored
  and decoded.
- The commented-out code is not modelled: `inv`, the no-carry optimisation
  flags, random sampling, multi-scalar multiplication and the `num_bigint`
  conversions.
- `Display`, `Debug`, `Hash`, serialization and `UniformRand` are not modelled.
  They state no behaviour beyond formatting.
- Constant-time behaviour, and the guarantee that `zeroize` really clears memory,
  cannot be expressed in the model.
- `extension_degree`, `GENERATOR`, the field's `MODULUS_BIT_SIZE` and the curve's
  `GENERATOR` are constants that no modelled operation uses.

## Findings

| source | as written | input that shows it | evidently intended | confidence | as-written member | corrected member |
|---|---|---|---|---|---|---|
| lib/crypto/src/curve/short_weierstrass/affine.rs:141-149, 196-201 | `to_flags` writes `YIsPositive` for the smaller root (y ≤ −y). `from_random_bytes` passes `is_positive()` as `greatest`, which selects the larger root | any finite curve point with y ≠ 0, given its own x and `to_flags()`: decoding yields (x, −y) | decoding a point's own x and flags gives "the original point", as the comment at lines 197-198 says | low: not executed; rests on `SWFlags::is_positive` mapping `YIsPositive` to `Some(true)`, which is outside this model | SWAffine.FromRandomBytesOfToFlags | SWAffine.FromRandomBytesMatchingFlagsOfToFlags |
