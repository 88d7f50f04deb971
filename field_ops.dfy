/** The default methods of the `Field` and `AdditiveGroup` traits
    (lib/crypto/src/field/mod.rs), instantiated at the prime field `Fp`:
    square-and-multiply exponentiation, exponentiation from a table of
    repeated squares, the default `double`/`double_in_place`/`neg_in_place`,
    and the worked mod-17 example of the module documentation. */
module FieldOps {
  import opened Wrappers
  import opened ModArith
  import opened Bits
  import opened PrimeField

  /** a^n as n-fold field multiplication starting from ONE: the reference
      meaning of exponentiation. */
  function Power(c: FpConfig, a: Fp, n: nat): (r: Fp)
    requires c.WellFormed() && Canonical(c, a)
    ensures Canonical(c, r)
  {
    if n == 0 then
      ZeroOneDecode(c);
      One(c)
    else
      Mul(c, Power(c, a, n - 1), a)
  }

  /** a^n decodes to the integer power of a's value, mod p. */
  lemma {:induction false} PowerDecodes(c: FpConfig, a: Fp, n: nat)
    requires c.WellFormed() && Canonical(c, a)
    ensures IntoBigint(c, Power(c, a, n)) == NatPow(IntoBigint(c, a), n) % c.modulus
  {
    var x := IntoBigint(c, a);
    if n == 0 {
      ZeroOneDecode(c);
      ModSmall(1, c.modulus);
    } else {
      PowerDecodes(c, a, n - 1);
      ModMulLeft(NatPow(x, n - 1), x, c.modulus);
      assert NatPow(x, n) == NatPow(x, n - 1) * x;
    }
  }

  /** a^(m+n) = a^m * a^n. */
  lemma {:induction false} PowerAdd(c: FpConfig, a: Fp, m: nat, n: nat)
    requires c.WellFormed() && Canonical(c, a)
    ensures Power(c, a, m + n) == Mul(c, Power(c, a, m), Power(c, a, n))
  {
    if n == 0 {
      MulOne(c, Power(c, a, m));
    } else {
      PowerAdd(c, a, m, n - 1);
      MulAssoc(c, Power(c, a, m), Power(c, a, n - 1), a);
    }
  }

  /** Squaring a^k gives a^(2k). */
  lemma PowerSquare(c: FpConfig, a: Fp, k: nat)
    requires c.WellFormed() && Canonical(c, a)
    ensures Square(c, Power(c, a, k)) == Power(c, a, 2 * k)
  {
    var pk := Power(c, a, k);
    var n: nat := k + k;
    PowerAdd(c, a, k, k);
    assert Power(c, a, n) == Mul(c, pk, pk);
    DoubleIsAddSelf(c, pk);
    assert n == 2 * k;
  }

  /** `Field::pow`: for every bit of the exponent, most significant first and
      without leading zeros, square the accumulator and multiply by `self`
      when the bit is set. The result is `self` raised to the integer the
      little-endian limbs encode; a zero exponent gives ONE. */
  method Pow(c: FpConfig, a: Fp, exp: seq<u64>) returns (res: Fp)
    requires c.WellFormed() && Canonical(c, a)
    ensures res == Power(c, a, LimbsValue(exp))
    ensures IntoBigint(c, res) == NatPow(IntoBigint(c, a), LimbsValue(exp)) % c.modulus
    ensures LimbsValue(exp) == 0 ==> res == One(c)
  {
    var bits := BitsBEWithoutLeadingZeros(exp);
    ZeroOneDecode(c);
    res := One(c);
    var i := 0;
    while i < |bits|
      invariant 0 <= i <= |bits|
      invariant Canonical(c, res)
      invariant res == Power(c, a, BEValue(bits[..i]))
    {
      var k := BEValue(bits[..i]);
      PowerSquare(c, a, k);
      res := Square(c, res);
      assert bits[..i + 1][..i] == bits[..i];
      if bits[i] {
        res := Mul(c, res, a);
      }
      i := i + 1;
    }
    assert bits[..i] == bits;
    BitsBEValue(exp);
    PowerDecodes(c, a, LimbsValue(exp));
  }

  /** Every set bit of `bits` has an entry in `table`. */
  predicate TableCovers(table: seq<Fp>, bits: seq<bool>)
  {
    forall i :: 0 <= i < |bits| && bits[i] ==> i < |table|
  }

  /** The product of the table entries at the set bits, from ONE, lowest
      bit first. */
  function TableProduct(c: FpConfig, table: seq<Fp>, bits: seq<bool>): (r: Fp)
    requires c.WellFormed() && forall i :: 0 <= i < |table| ==> Canonical(c, table[i])
    requires TableCovers(table, bits)
    ensures Canonical(c, r)
  {
    if bits == [] then
      ZeroOneDecode(c);
      One(c)
    else
      var rest := TableProduct(c, table, bits[..|bits| - 1]);
      if bits[|bits| - 1] then Mul(c, rest, table[|bits| - 1]) else rest
  }

  /** `Field::pow_with_table`: for every set bit of the exponent, least
      significant first and without trailing zeros, multiply in the table
      entry at that bit's index, failing as soon as that entry is missing. */
  method PowWithTable(c: FpConfig, table: seq<Fp>, exp: seq<u64>) returns (r: Option<Fp>)
    requires c.WellFormed() && forall i :: 0 <= i < |table| ==> Canonical(c, table[i])
    ensures r.None? <==> exists i :: 0 <= i < |BitsLEWithoutTrailingZeros(exp)|
                                   && BitsLEWithoutTrailingZeros(exp)[i] && i >= |table|
    ensures r.Some? ==>
              && TableCovers(table, BitsLEWithoutTrailingZeros(exp))
              && r.value == TableProduct(c, table, BitsLEWithoutTrailingZeros(exp))
  {
    var bits := BitsLEWithoutTrailingZeros(exp);
    ZeroOneDecode(c);
    var res := One(c);
    var i := 0;
    while i < |bits|
      invariant 0 <= i <= |bits|
      invariant TableCovers(table, bits[..i])
      invariant res == TableProduct(c, table, bits[..i])
    {
      assert bits[..i + 1][..i] == bits[..i];
      if bits[i] {
        if i >= |table| {
          return None;
        }
        res := Mul(c, res, table[i]);
      }
      i := i + 1;
    }
    assert bits[..i] == bits;
    r := Some(res);
  }

  /** The exponent's set bits all have table entries exactly when the table
      is at least as long as the exponent's bit length. */
  lemma TableCoversIffLongEnough(table: seq<Fp>, exp: seq<u64>)
    ensures TableCovers(table, BitsLEWithoutTrailingZeros(exp))
            <==> |BitsLEWithoutTrailingZeros(exp)| <= |table|
  {
    var bits := BitsLEWithoutTrailingZeros(exp);
    if TableCovers(table, bits) && bits != [] {
      assert bits[|bits| - 1];
    }
  }

  /** The table of repeated squares `[a, a^2, a^4, ...]` that `pow_with_table`
      expects. */
  predicate IsTableOfSquares(c: FpConfig, a: Fp, table: seq<Fp>)
    requires c.WellFormed() && Canonical(c, a)
  {
    forall i :: 0 <= i < |table| ==> table[i] == Power(c, a, Pow2(i))
  }

  /** Over a table of repeated squares, the table product is the power of `a`
      at the bits' little-endian value. */
  lemma {:induction false} TableProductIsPower(c: FpConfig, a: Fp, table: seq<Fp>, bits: seq<bool>)
    requires c.WellFormed() && Canonical(c, a) && IsTableOfSquares(c, a, table)
    requires TableCovers(table, bits)
    ensures forall i :: 0 <= i < |table| ==> Canonical(c, table[i])
    ensures TableProduct(c, table, bits) == Power(c, a, LEValue(bits))
  {
    assert forall i :: 0 <= i < |table| ==> Canonical(c, table[i]);
    if bits != [] {
      var n := |bits| - 1;
      var init := bits[..n];
      assert init + [bits[n]] == bits;
      TableProductIsPower(c, a, table, init);
      LEValueAppend(init, bits[n]);
      if bits[n] {
        PowerAdd(c, a, LEValue(init), Pow2(n));
      }
    }
  }

  /** With a long enough table of repeated squares, `pow_with_table` agrees
      with `pow`. */
  lemma PowWithTableIsPower(c: FpConfig, a: Fp, table: seq<Fp>, exp: seq<u64>)
    requires c.WellFormed() && Canonical(c, a) && IsTableOfSquares(c, a, table)
    requires |BitsLEWithoutTrailingZeros(exp)| <= |table|
    ensures forall i :: 0 <= i < |table| ==> Canonical(c, table[i])
    ensures TableCovers(table, BitsLEWithoutTrailingZeros(exp))
    ensures TableProduct(c, table, BitsLEWithoutTrailingZeros(exp)) == Power(c, a, LimbsValue(exp))
  {
    TableCoversIffLongEnough(table, exp);
    TableProductIsPower(c, a, table, BitsLEWithoutTrailingZeros(exp));
    BitsLEValue(exp);
  }

  /** Default `AdditiveGroup::double_in_place`: `self.add_assign(*self)`. */
  method DefaultDoubleInPlace(cell: FpCell)
    requires cell.Valid()
    modifies cell
    ensures cell.Valid()
    ensures cell.value == Add(cell.config, old(cell.value), old(cell.value))
    ensures cell.value == Double(cell.config, old(cell.value))
  {
    DoubleIsAddSelf(cell.config, cell.value);
    cell.AddAssign(cell.value);
  }

  /** Default `AdditiveGroup::neg_in_place`: `*self = -(*self)`. */
  method DefaultNegInPlace(cell: FpCell)
    requires cell.Valid() && cell.config.Valid()
    modifies cell
    ensures cell.Valid()
    ensures cell.value == Neg(cell.config, old(cell.value))
  {
    cell.value := Neg(cell.config, cell.value);
  }

  /** Default `AdditiveGroup::double`: doubles a copy in place and returns it;
      the receiver is a value and is not touched. */
  method DefaultDouble(c: FpConfig, a: Fp) returns (r: Fp)
    requires c.WellFormed() && Canonical(c, a)
    ensures r == Add(c, a, a)
    ensures IntoBigint(c, r) == (2 * IntoBigint(c, a)) % c.modulus
  {
    var copy := new FpCell(c, a);
    DefaultDoubleInPlace(copy);
    r := copy.value;
  }

  /** The flags type that carries no bits. */
  datatype EmptyFlags = EmptyFlags

  /** `Field::from_random_bytes`: `from_random_bytes_with_flags::<EmptyFlags>`
      with the flags dropped. The parser belongs to the concrete field and
      is not part of this model; its outcome is the argument. */
  function FromRandomBytes(parsed: Option<(Fp, EmptyFlags)>): (r: Option<Fp>)
    ensures r.None? <==> parsed.None?
    ensures r.Some? ==> r.value == parsed.value.0
  {
    match parsed
    case None => None
    case Some((f, _)) => Some(f)
  }

  // ---------------------------------------------------------------------------
  // The worked example of the module documentation: the field with p = 17.
  // The facts are proved for every valid configuration with that modulus;
  // `Config17Valid` shows there is one for every limb count. There
  // 2^64 = 1 mod 17, so R = 1 and an element stores its own value.

  /** 2^(64n) = 1 mod 17, since 2^8 = 256 = 15 * 17 + 1. */
  lemma {:induction false} Pow2Mod17(n: nat)
    ensures Pow2(64 * n) % 17 == 1
  {
    if n == 0 {
      assert Pow2(0) == 1;
    } else {
      Pow2Mod17(n - 1);
      Pow2Of64();
      NatPowAdd(2, 64 * (n - 1), 64);
      assert 64 * (n - 1) + 64 == 64 * n;
      ModMulBoth(Pow2(64 * (n - 1)), Pow2(64), 17);
    }
  }

  const INVERSES_MOD_17: seq<nat> := [0, 1, 9, 6, 13, 7, 3, 5, 15, 2, 12, 14, 10, 4, 11, 8, 16]

  lemma InversesMod17(m: nat)
    requires 0 < m < 17
    ensures INVERSES_MOD_17[m] < 17 && (m * INVERSES_MOD_17[m]) % 17 == 1
  {
  }

  /** For p = 17 and R = 1: subtraction, negation and inversion of stored integers. */
  function Sub17(a: Fp, b: Fp): Fp
  {
    Fp((a.mont - b.mont) % 17)
  }

  function Neg17(a: Fp): Fp
  {
    Fp((0 - a.mont) % 17)
  }

  function Inverse17(a: Fp): Option<Fp>
  {
    if a.mont % 17 == 0 then None else Some(Fp(INVERSES_MOD_17[a.mont % 17]))
  }

  /** This configuration's square root never finds one, which its contract allows. */
  function NoSqrt17(a: Fp): Option<Fp>
  {
    None
  }

  /** A configuration for p = 17 in n limbs supplying the unimplemented operations. */
  function Config17(n: nat): FpConfig
  {
    FpConfig(17, n, Sub17, Neg17, Inverse17, NoSqrt17)
  }

  lemma Config17Decode(n: nat, a: Fp)
    requires n >= 1
    ensures Config17(n).WellFormed()
    ensures MontgomeryR(Config17(n)) == 1 && MontgomeryRInverse(Config17(n)) == 1
    ensures IntoBigint(Config17(n), a) == a.mont % 17
  {
    var c := Config17(n);
    Pow2Of64();
    NatPowAdd(2, 64, 64 * (n - 1));
    NatPowPositive(2, 64 * (n - 1));
    assert 64 + 64 * (n - 1) == 64 * n;
    Pow2Mod17(n);
    var ri := MontgomeryRInverse(c);
    assert (1 * ri) % 17 == 1;
    ModSmall(ri, 17);
  }

  lemma Sub17Decodes(n: nat, a: Fp, b: Fp)
    requires n >= 1 && a.mont < 17 && b.mont < 17
    ensures Config17(n).WellFormed()
    ensures Sub17(a, b).mont < 17
    ensures IntoBigint(Config17(n), Sub17(a, b))
            == (IntoBigint(Config17(n), a) - IntoBigint(Config17(n), b)) % 17
  {
    var x: int, y: int := a.mont, b.mont;
    var d := (x - y) % 17;
    Config17Decode(n, a);
    Config17Decode(n, b);
    Config17Decode(n, Fp(d));
    ModSmall(x, 17);
    ModSmall(y, 17);
    ModSmall(d, 17);
  }

  lemma Neg17Decodes(n: nat, a: Fp)
    requires n >= 1 && a.mont < 17
    ensures Config17(n).WellFormed()
    ensures Neg17(a).mont < 17
    ensures IntoBigint(Config17(n), Neg17(a)) == (0 - IntoBigint(Config17(n), a)) % 17
  {
    var x: int := a.mont;
    var d := (0 - x) % 17;
    Config17Decode(n, a);
    Config17Decode(n, Fp(d));
    ModSmall(x, 17);
    ModSmall(d, 17);
  }

  lemma Inverse17Decodes(n: nat, a: Fp)
    requires n >= 1 && a.mont < 17
    ensures Config17(n).WellFormed()
    ensures Inverse17(a).None? <==> IntoBigint(Config17(n), a) == 0
    ensures Inverse17(a).Some? ==>
              && Inverse17(a).value.mont < 17
              && (IntoBigint(Config17(n), a) * IntoBigint(Config17(n), Inverse17(a).value)) % 17 == 1
  {
    Config17Decode(n, a);
    ModSmall(a.mont, 17);
    if a.mont != 0 {
      var b := Inverse17(a).value;
      Config17Decode(n, b);
      InversesMod17(a.mont);
      ModSmall(b.mont, 17);
    }
  }

  lemma Config17SubValid(n: nat)
    requires n >= 1
    ensures Config17(n).WellFormed()
    ensures forall a, b {:trigger Config17(n).sub(a, b)} ::
              Canonical(Config17(n), a) && Canonical(Config17(n), b) ==>
                && Canonical(Config17(n), Config17(n).sub(a, b))
                && IntoBigint(Config17(n), Config17(n).sub(a, b))
                   == (IntoBigint(Config17(n), a) - IntoBigint(Config17(n), b)) % 17
  {
    Config17Decode(n, Fp(0));
    forall a, b | Canonical(Config17(n), a) && Canonical(Config17(n), b)
      ensures IntoBigint(Config17(n), Config17(n).sub(a, b))
              == (IntoBigint(Config17(n), a) - IntoBigint(Config17(n), b)) % 17
    {
      Sub17Decodes(n, a, b);
    }
  }

  lemma Config17NegValid(n: nat)
    requires n >= 1
    ensures Config17(n).WellFormed()
    ensures forall a {:trigger Config17(n).neg(a)} :: Canonical(Config17(n), a) ==>
              && Canonical(Config17(n), Config17(n).neg(a))
              && IntoBigint(Config17(n), Config17(n).neg(a)) == (0 - IntoBigint(Config17(n), a)) % 17
  {
    Config17Decode(n, Fp(0));
    forall a | Canonical(Config17(n), a)
      ensures IntoBigint(Config17(n), Config17(n).neg(a)) == (0 - IntoBigint(Config17(n), a)) % 17
    {
      Neg17Decodes(n, a);
    }
  }

  lemma Config17InverseValid(n: nat)
    requires n >= 1
    ensures Config17(n).WellFormed()
    ensures forall a {:trigger Config17(n).inverse(a)} :: Canonical(Config17(n), a) ==>
              && (Config17(n).inverse(a).None? <==> IntoBigint(Config17(n), a) == 0)
              && (Config17(n).inverse(a).Some? ==>
                    && Canonical(Config17(n), Config17(n).inverse(a).value)
                    && (IntoBigint(Config17(n), a) * IntoBigint(Config17(n), Config17(n).inverse(a).value)) % 17 == 1)
  {
    Config17Decode(n, Fp(0));
    forall a | Canonical(Config17(n), a)
      ensures Config17(n).inverse(a).None? <==> IntoBigint(Config17(n), a) == 0
      ensures Config17(n).inverse(a).Some? ==>
                && Canonical(Config17(n), Config17(n).inverse(a).value)
                && (IntoBigint(Config17(n), a) * IntoBigint(Config17(n), Config17(n).inverse(a).value)) % 17 == 1
    {
      Inverse17Decodes(n, a);
    }
  }

  /** The p = 17 configuration meets the contracts of the operations it supplies. */
  lemma Config17Valid(n: nat)
    requires n >= 1
    ensures Config17(n).Valid() && Config17(n).modulus == 17
  {
    Config17Decode(n, Fp(0));
    Config17SubValid(n);
    Config17NegValid(n);
    Config17InverseValid(n);
  }

  /** In a configuration with p = 17, the element built from v < 17 is the
      only one that decodes to v. */
  lemma Elem17(c: FpConfig, a: Fp, v: nat)
    requires c.WellFormed() && c.modulus == 17 && v < 17
    requires Canonical(c, a) && IntoBigint(c, a) == v
    ensures a == FromUnsigned(c, v)
  {
    ModSmall(v, 17);
    EqualIffSameBigint(c, a, FromUnsigned(c, v));
  }

  /** Every configuration's bound is at least one limb's, 2^64. */
  lemma BoundAtLeastOneLimb(c: FpConfig)
    requires c.WellFormed()
    ensures c.Bound() >= 0x1_0000_0000_0000_0000
  {
    Pow2Of64();
    NatPowAdd(2, 64, 64 * (c.limbs - 1));
    NatPowPositive(2, 64 * (c.limbs - 1));
    assert 64 + 64 * (c.limbs - 1) == 64 * c.limbs;
  }

  /** `Fq::from(9) == Fq::from(26)`. */
  lemma WorkedExampleFrom(c: FpConfig)
    requires c.WellFormed() && c.modulus == 17
    ensures 26 < c.Bound()
    ensures FromUnsigned(c, 9) == FromUnsigned(c, 26)
  {
    BoundAtLeastOneLimb(c);
    ModAddMultiple(9, 1, 17);
    Elem17(c, FromUnsigned(c, 26), 9);
  }

  /** Sums and doubles of small elements for p = 17, read off the integers
      they decode to. */
  lemma Add17(c: FpConfig, x: nat, y: nat, s: nat)
    requires c.WellFormed() && c.modulus == 17 && x < 17 && y < 17
    requires s == (x + y) % 17
    ensures Add(c, FromUnsigned(c, x), FromUnsigned(c, y)) == FromUnsigned(c, s)
    ensures x == y ==> Double(c, FromUnsigned(c, x)) == FromUnsigned(c, s)
  {
    var a, b := FromUnsigned(c, x), FromUnsigned(c, y);
    ModSmall(x, 17);
    ModSmall(y, 17);
    Elem17(c, Add(c, a, b), s);
    Elem17(c, Double(c, a), (2 * x) % 17);
  }

  /** Products and squares of small elements for p = 17. */
  lemma Mul17(c: FpConfig, x: nat, y: nat, t: nat)
    requires c.WellFormed() && c.modulus == 17 && x < 17 && y < 17
    requires t == (x * y) % 17
    ensures Mul(c, FromUnsigned(c, x), FromUnsigned(c, y)) == FromUnsigned(c, t)
    ensures x == y ==> Square(c, FromUnsigned(c, x)) == FromUnsigned(c, t)
  {
    var a, b := FromUnsigned(c, x), FromUnsigned(c, y);
    ModSmall(x, 17);
    ModSmall(y, 17);
    Elem17(c, Mul(c, a, b), t);
    Elem17(c, Square(c, a), (x * x) % 17);
  }

  /** `a + b == 2` for a = 9 and b = 10. */
  lemma WorkedExampleAdd(c: FpConfig)
    requires c.WellFormed() && c.modulus == 17
    ensures Add(c, FromUnsigned(c, 9), FromUnsigned(c, 10)) == FromUnsigned(c, 2)
  {
    Add17(c, 9, 10, 2);
  }

  /** `b.double() == 3` for b = 10. */
  lemma WorkedExampleDouble(c: FpConfig)
    requires c.WellFormed() && c.modulus == 17
    ensures Double(c, FromUnsigned(c, 10)) == FromUnsigned(c, 3)
  {
    Add17(c, 10, 10, 3);
  }

  /** `a * b == 5` for a = 9 and b = 10. */
  lemma WorkedExampleMul(c: FpConfig)
    requires c.WellFormed() && c.modulus == 17
    ensures Mul(c, FromUnsigned(c, 9), FromUnsigned(c, 10)) == FromUnsigned(c, 5)
  {
    Mul17(c, 9, 10, 5);
  }

  /** `a.square() == 13` for a = 9. */
  lemma WorkedExampleSquare(c: FpConfig)
    requires c.WellFormed() && c.modulus == 17
    ensures Square(c, FromUnsigned(c, 9)) == FromUnsigned(c, 13)
  {
    Mul17(c, 9, 9, 13);
  }

  /** `a - b == 16`, and `a / b == a * b.inverse().unwrap()`. */
  lemma WorkedExampleSubDiv(c: FpConfig)
    requires c.Valid() && c.modulus == 17
    ensures Sub(c, FromUnsigned(c, 9), FromUnsigned(c, 10)) == FromUnsigned(c, 16)
    ensures Inverse(c, FromUnsigned(c, 10)).Some?
    ensures Div(c, FromUnsigned(c, 9), FromUnsigned(c, 10))
            == Mul(c, FromUnsigned(c, 9), Inverse(c, FromUnsigned(c, 10)).value)
  {
    var nine, ten := FromUnsigned(c, 9), FromUnsigned(c, 10);
    ModSmall(9, 17);
    ModSmall(10, 17);
    assert (9 - 10) % 17 == 16;
    Elem17(c, Sub(c, nine, ten), 16);
    IsZeroIffBigintZero(c, ten);
    var inv := Inverse(c, ten).value;
    var q := Div(c, nine, ten);
    MulAssoc(c, q, ten, inv);
    MulOne(c, q);
  }
}
