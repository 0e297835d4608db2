/**
 * Prime-field elements as the prototype represents them: a `u64` value paired
 * with its `u64` modulus. Constructors reduce, arithmetic reduces, and the two
 * operands of a binary operation must carry the same modulus.
 *
 * Rust's `u64` arithmetic panics on overflow in checked builds; the model makes
 * every such point a precondition ("the sum / product fits in a u64").
 */
module Field {
  import opened ModArith

  const U64_LIMIT: nat := 0x1_0000_0000_0000_0000

  /** Rust's `u64` (and `usize`, on a 64-bit target). */
  type u64 = x: int | 0 <= x < U64_LIMIT

  datatype FieldElement = FieldElement(value: u64, modulus: u64)

  /** The record invariant: `a` is a reduced element of the field of size m. */
  predicate InField(a: FieldElement, m: nat)
  {
    a.modulus == m && a.value < m
  }

  /** Moduli small enough that the product of two reduced values fits in a u64. */
  predicate MulSafe(m: nat)
  {
    0 < m && (m - 1) * (m - 1) < U64_LIMIT
  }

  /** Two reduced operands of one MulSafe modulus: a sufficient condition for no overflow. */
  predicate ReducedPair(a: FieldElement, b: FieldElement)
  {
    a.modulus == b.modulus && MulSafe(a.modulus) && a.value < a.modulus && b.value < a.modulus
  }

  lemma ReducedPairFits(a: FieldElement, b: FieldElement)
    ensures ReducedPair(a, b) ==> a.value * b.value < U64_LIMIT && a.value + b.value < U64_LIMIT
  {
    if ReducedPair(a, b) {
      var k := a.modulus - 1;
      MulMonotone(a.value, b.value, k, k);
      if k >= 2 {
        MulMonotone(2, k, k, k);
      }
    }
  }

  function Zero(m: u64): (r: FieldElement)
    ensures r.value == 0 && r.modulus == m
    ensures InField(r, m) <==> 1 <= m
  {
    FieldElement(0, m)
  }

  function One(m: u64): (r: FieldElement)
    ensures r.value == 1 && r.modulus == m
    ensures InField(r, m) <==> 2 <= m
  {
    FieldElement(1, m)
  }

  /** Reduces `v` into the field; `%` by zero panics in the Rust code. */
  function New(v: u64, m: u64): (r: FieldElement)
    requires 0 < m
    ensures InField(r, m)
    ensures (v - r.value) % m == 0
  {
    ModUnique(v - v % m, m, v / m, 0);
    FieldElement(v % m, m)
  }

  function Add(a: FieldElement, b: FieldElement): (r: FieldElement)
    requires a.modulus == b.modulus && 0 < a.modulus
    requires ReducedPair(a, b) || a.value + b.value < U64_LIMIT
    ensures InField(r, a.modulus)
    ensures (a.value + b.value - r.value) % a.modulus == 0
    ensures a.value < a.modulus && b.value < a.modulus ==>
              r.value == if a.value + b.value < a.modulus then a.value + b.value
                         else a.value + b.value - a.modulus
  {
    ReducedPairFits(a, b);
    AddReduced(a.value, b.value, a.modulus);
    New(a.value + b.value, a.modulus)
  }

  /** Zero is the additive identity on reduced elements. */
  lemma AddZero(a: FieldElement)
    requires 0 < a.modulus && InField(a, a.modulus)
    ensures Add(Zero(a.modulus), a) == a
  {
    SmallMod();
  }

  /** Sums of two reduced values need at most one subtraction of m. */
  lemma AddReduced(x: nat, y: nat, m: nat)
    requires 0 < m
    ensures x < m && y < m ==> (x + y) % m == if x + y < m then x + y else x + y - m
  {
    if x < m && y < m {
      if x + y < m {
        ModUnique(x + y, m, 0, x + y);
      } else {
        ModUnique(x + y, m, 1, x + y - m);
      }
    }
  }

  lemma SmallMod()
    ensures forall x: int, m: int :: 0 <= x < m ==> x % m == x
  {
    forall x: int, m: int | 0 <= x < m
      ensures x % m == x
    {
      ModUnique(x, m, 0, x);
    }
  }

  function Mul(a: FieldElement, b: FieldElement): (r: FieldElement)
    requires a.modulus == b.modulus && 0 < a.modulus
    requires ReducedPair(a, b) || a.value * b.value < U64_LIMIT
    ensures InField(r, a.modulus)
    ensures (a.value * b.value - r.value) % a.modulus == 0
  {
    ReducedPairFits(a, b);
    New(a.value * b.value, a.modulus)
  }

  /** One is the multiplicative identity on reduced elements. */
  lemma MulOne(a: FieldElement)
    requires 0 < a.modulus && InField(a, a.modulus)
    ensures Mul(One(a.modulus), a) == a
  {
    SmallMod();
  }

  lemma AddValue(a: FieldElement, b: FieldElement)
    requires a.modulus == b.modulus && 0 < a.modulus
    requires ReducedPair(a, b) || a.value + b.value < U64_LIMIT
    ensures Add(a, b).value == (a.value + b.value) % a.modulus
  {
    ModCongruent(a.value + b.value, Add(a, b).value, a.modulus);
  }

  lemma MulValue(a: FieldElement, b: FieldElement)
    requires a.modulus == b.modulus && 0 < a.modulus
    requires ReducedPair(a, b) || a.value * b.value < U64_LIMIT
    ensures Mul(a, b).value == (a.value * b.value) % a.modulus
  {
    ModCongruent(a.value * b.value, Mul(a, b).value, a.modulus);
  }

  /** Square-and-multiply, reducing after every product. */
  method Pow(a: FieldElement, exponent: u64) returns (r: FieldElement)
    requires InField(a, a.modulus) && MulSafe(a.modulus)
    ensures r.modulus == a.modulus
    ensures exponent == 0 ==> r == One(a.modulus)
    ensures exponent > 0 || 2 <= a.modulus ==> r.value == Exp(a.value, exponent) % a.modulus
  {
    var m := a.modulus;
    var result := One(m);
    var base := a;
    var exp: nat := exponent;
    while exp > 0
      invariant result.modulus == m && InField(base, m)
      invariant result.value < m || (result == One(m) && (exp > 0 || exponent == 0))
      invariant exponent == 0 ==> result == One(m)
      invariant (result.value * Exp(base.value, exp)) % m == Exp(a.value, exponent) % m
      decreases exp
    {
      ghost var r0, b0 := result.value, base.value;
      PowStep(r0, b0, exp, m);
      if exp % 2 == 1 {
        MulValue(result, base);
        result := Mul(result, base);
      }
      MulValue(base, base);
      base := Mul(base, base);
      exp := exp / 2;
    }
    SmallMod();
    r := result;
  }

  /** The loop invariant of `Pow` survives one iteration. */
  lemma PowStep(r: nat, b: nat, e: nat, m: nat)
    requires 0 < m
    ensures var r' := if e % 2 == 1 then (r * b) % m else r;
            (r' * Exp((b * b) % m, e / 2)) % m == (r * Exp(b, e)) % m
  {
    var t := Exp(b * b, e / 2);
    var r' := if e % 2 == 1 then (r * b) % m else r;
    calc {
      (r' * Exp((b * b) % m, e / 2)) % m;
      { ModMulRight(r', Exp((b * b) % m, e / 2), m); }
      (r' * (Exp((b * b) % m, e / 2) % m)) % m;
      { ExpMod(b * b, e / 2, m); }
      (r' * (t % m)) % m;
      { ModMulRight(r', t, m); }
      (r' * t) % m;
    }
    ExpHalve(b, e);
    if e % 2 == 1 {
      calc {
        (r' * t) % m;
        { ModMulLeft(r * b, t, m); }
        (r * b * t) % m;
        { assert r * b * t == r * (b * t); }
        (r * Exp(b, e)) % m;
      }
    } else {
      assert Exp(b, e) == t;
    }
  }

  /** Fermat inverse a^(m-2); `m - 2` underflows a u64 when m < 2. */
  method Inverse(a: FieldElement) returns (r: FieldElement)
    requires InField(a, a.modulus) && MulSafe(a.modulus) && 2 <= a.modulus
    ensures InField(r, a.modulus)
    ensures r.value == Exp(a.value, a.modulus - 2) % a.modulus
    ensures a.value == 0 && 2 < a.modulus ==> r.value == 0
    ensures a.modulus == 2 ==> r == One(2)
  {
    var m := a.modulus;
    r := Pow(a, m - 2);
    assert r.value == Exp(a.value, m - 2) % m;
    if a.value == 0 && 2 < m {
      ExpZeroBase(m - 2);
      ModUnique(0, m, 0, 0);
    }
  }

  /**
   * A concrete Fermat check in the field of size 7: the value `inverse`
   * computes, a^(7-2) mod 7, multiplied by a in the field gives one.
   */
  lemma FermatInverseMod7()
    ensures forall a: FieldElement :: InField(a, 7) && a.value != 0 ==>
              Mul(FieldElement(Exp(a.value, 5) % 7, 7), a) == One(7)
  {
    forall a: FieldElement | InField(a, 7) && a.value != 0
      ensures Mul(FieldElement(Exp(a.value, 5) % 7, 7), a) == One(7)
    {
      var v := a.value;
      var inv := FieldElement(Exp(v, 5) % 7, 7);
      MulValue(inv, a);
      FermatStep(v);
    }
  }

  /** The six non-zero residues of 7, one by one. */
  lemma FermatStep(v: nat)
    requires 1 <= v < 7
    ensures (Exp(v, 5) % 7) * v % 7 == 1
  {
    assert Exp(1, 5) == 1;
    assert Exp(2, 5) == 32;
    assert Exp(3, 5) == 243;
    assert Exp(4, 5) == 1024;
    assert Exp(5, 5) == 3125;
    assert Exp(6, 5) == 7776;
  }

}
