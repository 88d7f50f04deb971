/** Fixed-width little-endian limb sequences and the bit iterators the
    exponentiation routines walk over. The iterators themselves live in
    `crate::bits`, which is not part of this model: they are given here by the
    bit sequence they yield. */
module Bits {
  import opened ModArith

  const LIMB_BASE: nat := 0x1_0000_0000_0000_0000

  /** One 64-bit limb. */
  type u64 = x: nat | x < LIMB_BASE

  /** The integer that limbs encode, least significant limb first. */
  function LimbsValue(limbs: seq<u64>): nat
  {
    if limbs == [] then 0 else limbs[0] + LIMB_BASE * LimbsValue(limbs[1..])
  }

  lemma {:induction false} LimbsValueBound(limbs: seq<u64>)
    ensures LimbsValue(limbs) < Pow2(64 * |limbs|)
  {
    if limbs != [] {
      LimbsValueBound(limbs[1..]);
      var k := 64 * (|limbs| - 1);
      NatPowAdd(2, 64, k);
      Pow2Of64();
      var rest := LimbsValue(limbs[1..]);
      assert LIMB_BASE * rest <= LIMB_BASE * (Pow2(k) - 1);
    }
  }

  /** Limbs of one width are determined by the integer they encode. */
  lemma {:induction false} LimbsUnique(a: seq<u64>, b: seq<u64>)
    requires |a| == |b| && LimbsValue(a) == LimbsValue(b)
    ensures a == b
  {
    if a != [] {
      var v := LimbsValue(a);
      ModUnique(v, LimbsValue(a[1..]), a[0], LIMB_BASE);
      ModUnique(v, LimbsValue(b[1..]), b[0], LIMB_BASE);
      LimbsUnique(a[1..], b[1..]);
      assert a == [a[0]] + a[1..] && b == [b[0]] + b[1..];
    }
  }

  /** The n low limbs of x, least significant first. */
  function NatToLimbs(x: nat, n: nat): (limbs: seq<u64>)
    requires x < Pow2(64 * n)
    ensures |limbs| == n && LimbsValue(limbs) == x
  {
    if n == 0 then []
    else
      Pow2Of64();
      NatPowAdd(2, 64, 64 * (n - 1));
      DivBelow(x, LIMB_BASE, Pow2(64 * (n - 1)));
      var rest := NatToLimbs(x / LIMB_BASE, n - 1);
      assert ([x % LIMB_BASE] + rest)[1..] == rest;
      [x % LIMB_BASE] + rest
  }

  function BitValue(b: bool): nat
  {
    if b then 1 else 0
  }

  /** The value of a bit sequence read least significant bit first. */
  function LEValue(bits: seq<bool>): nat
  {
    if bits == [] then 0 else BitValue(bits[0]) + 2 * LEValue(bits[1..])
  }

  /** The value of a bit sequence read most significant bit first. */
  function BEValue(bits: seq<bool>): nat
  {
    if bits == [] then 0 else 2 * BEValue(bits[..|bits| - 1]) + BitValue(bits[|bits| - 1])
  }

  /** The same bits in the opposite order. */
  function Reverse(bits: seq<bool>): (r: seq<bool>)
    ensures |r| == |bits|
    ensures forall i :: 0 <= i < |bits| ==> r[i] == bits[|bits| - 1 - i]
  {
    if bits == [] then [] else Reverse(bits[1..]) + [bits[0]]
  }

  /** The low n bits of x, least significant first. */
  function NatToBitsLE(x: nat, n: nat): (bits: seq<bool>)
    ensures |bits| == n
  {
    if n == 0 then [] else [x % 2 == 1] + NatToBitsLE(x / 2, n - 1)
  }

  /** Entry i of `NatToBitsLE(x, n)` is bit i of x. */
  lemma {:induction false} NatToBitsLEBit(x: nat, n: nat, i: nat)
    requires i < n
    ensures NatToBitsLE(x, n)[i] == ((x / Pow2(i)) % 2 == 1)
  {
    if i == 0 {
      assert Pow2(0) == 1;
    } else {
      NatToBitsLEBit(x / 2, n - 1, i - 1);
      DivHalvePow2(x, i - 1);
    }
  }

  /** Drops the zero bits above the highest set bit of a little-endian sequence. */
  function TrimHighZeros(bits: seq<bool>): (r: seq<bool>)
    ensures |r| <= |bits| && r == bits[..|r|]
    ensures r == [] || r[|r| - 1]
    ensures forall i :: |r| <= i < |bits| ==> !bits[i]
  {
    if bits != [] && !bits[|bits| - 1] then TrimHighZeros(bits[..|bits| - 1]) else bits
  }

  /** `BitIteratorLE::without_trailing_zeros(limbs)`: the bits of the limbs' integer,
      least significant first, up to and including the highest set bit. */
  function BitsLEWithoutTrailingZeros(limbs: seq<u64>): seq<bool>
  {
    TrimHighZeros(NatToBitsLE(LimbsValue(limbs), 64 * |limbs|))
  }

  /** `BitIteratorBE::without_leading_zeros(limbs)`: the same bits, most significant first. */
  function BitsBEWithoutLeadingZeros(limbs: seq<u64>): seq<bool>
  {
    Reverse(BitsLEWithoutTrailingZeros(limbs))
  }

  lemma {:induction false} LEValueAppend(bits: seq<bool>, b: bool)
    ensures LEValue(bits + [b]) == LEValue(bits) + BitValue(b) * Pow2(|bits|)
  {
    if bits != [] {
      assert (bits + [b])[1..] == bits[1..] + [b];
      LEValueAppend(bits[1..], b);
      assert Pow2(|bits|) == 2 * Pow2(|bits| - 1);
    }
  }

  lemma {:induction false} LEValueOfBits(x: nat, n: nat)
    requires x < Pow2(n)
    ensures LEValue(NatToBitsLE(x, n)) == x
  {
    if n > 0 {
      assert Pow2(n) == 2 * Pow2(n - 1);
      LEValueOfBits(x / 2, n - 1);
      assert NatToBitsLE(x, n)[1..] == NatToBitsLE(x / 2, n - 1);
    }
  }

  lemma {:induction false} LEValueTrim(bits: seq<bool>)
    ensures LEValue(TrimHighZeros(bits)) == LEValue(bits)
  {
    if bits != [] && !bits[|bits| - 1] {
      var init := bits[..|bits| - 1];
      LEValueTrim(init);
      assert init + [false] == bits;
      LEValueAppend(init, false);
    }
  }

  lemma {:induction false} BEValueReverse(bits: seq<bool>)
    ensures BEValue(Reverse(bits)) == LEValue(bits)
  {
    if bits != [] {
      var r := Reverse(bits[1..]);
      BEValueReverse(bits[1..]);
      assert (r + [bits[0]])[..|r|] == r;
    }
  }

  /** The little-endian iterator yields exactly the exponent's integer. */
  lemma BitsLEValue(limbs: seq<u64>)
    ensures LEValue(BitsLEWithoutTrailingZeros(limbs)) == LimbsValue(limbs)
  {
    LimbsValueBound(limbs);
    LEValueOfBits(LimbsValue(limbs), 64 * |limbs|);
    LEValueTrim(NatToBitsLE(LimbsValue(limbs), 64 * |limbs|));
  }

  /** The big-endian iterator yields exactly the exponent's integer. */
  lemma BitsBEValue(limbs: seq<u64>)
    ensures BEValue(BitsBEWithoutLeadingZeros(limbs)) == LimbsValue(limbs)
  {
    BitsLEValue(limbs);
    BEValueReverse(BitsLEWithoutTrailingZeros(limbs));
  }
}
