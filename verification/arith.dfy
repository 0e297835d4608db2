/**
 * Natural-number powers and the facts about `%` that the field and polynomial
 * models lean on. Everything here is unbounded integer arithmetic; machine
 * widths are handled by the callers.
 */
module ModArith {

  /** b raised to the power e over the naturals (0^0 == 1). */
  ghost function Exp(b: nat, e: nat): nat
  {
    if e == 0 then 1 else b * Exp(b, e - 1)
  }

  lemma MulMonotone(a: nat, b: nat, c: nat, d: nat)
    requires a <= c && b <= d
    ensures a * b <= c * d
  {
    assert a * b <= c * b;
    assert c * b <= c * d;
  }

  /** The remainder is the unique r in [0, m) with x == q * m + r. */
  lemma ModUnique(x: int, m: int, q: int, r: int)
    requires 0 < m && x == q * m + r && 0 <= r < m
    ensures x % m == r
  {
    var q', r' := x / m, x % m;
    assert x == q' * m + r';
    assert (q - q') * m == r' - r;
    if q > q' {
      MulMonotone(1, m, q - q', m);
      assert false;
    } else if q < q' {
      MulMonotone(1, m, q' - q, m);
      assert false;
    }
  }

  /** A value in [0, m) congruent to x is x's remainder. */
  lemma ModCongruent(x: int, r: int, m: int)
    requires 0 < m && 0 <= r < m && (x - r) % m == 0
    ensures x % m == r
  {
    var k := (x - r) / m;
    assert x - r == k * m;
    ModUnique(x, m, k, r);
  }

  lemma ModAdd(a: int, b: int, m: int)
    requires 0 < m
    ensures (a + b) % m == (a % m + b % m) % m
  {
    var s := a % m + b % m;
    assert a + b == (a / m + b / m + s / m) * m + s % m;
    ModUnique(a + b, m, a / m + b / m + s / m, s % m);
  }

  lemma ModMul(a: int, b: int, m: int)
    requires 0 < m
    ensures (a * b) % m == ((a % m) * (b % m)) % m
  {
    var qa, ra := a / m, a % m;
    var qb, rb := b / m, b % m;
    var p := ra * rb;
    MulExpand(qa, ra, qb, rb, m);
    assert a * b == (qa * qb * m + qa * rb + ra * qb) * m + p;
    var q := qa * qb * m + qa * rb + ra * qb + p / m;
    assert a * b == q * m + p % m;
    ModUnique(a * b, m, q, p % m);
  }

  lemma MulExpand(qa: int, ra: int, qb: int, rb: int, m: int)
    ensures (qa * m + ra) * (qb * m + rb) == (qa * qb * m + qa * rb + ra * qb) * m + ra * rb
  {
  }

  /** Reducing an operand before adding it changes nothing modulo m. */
  lemma ModAddRight(a: int, b: int, m: int)
    requires 0 < m
    ensures (a + b % m) % m == (a + b) % m
  {
    var r := b % m;
    ModUnique(r, m, 0, r);
    ModAdd(a, b, m);
    ModAdd(a, r, m);
  }

  /** Reducing an operand before multiplying it changes nothing modulo m. */
  lemma ModMulLeft(a: int, b: int, m: int)
    requires 0 < m
    ensures ((a % m) * b) % m == (a * b) % m
  {
    var r := a % m;
    ModUnique(r, m, 0, r);
    ModMul(a, b, m);
    ModMul(r, b, m);
  }

  lemma ModMulRight(a: int, b: int, m: int)
    requires 0 < m
    ensures (a * (b % m)) % m == (a * b) % m
  {
    ModMulLeft(b, a, m);
  }

  /** The shape `e + k * o` survives reducing e, o and the product first. */
  lemma ModLinear(e: int, o: int, k: int, m: int)
    requires 0 < m
    ensures (e % m + (k * (o % m)) % m) % m == (e + k * o) % m
  {
    ModMulRight(k, o, m);
    ModAdd(e, k * o, m);
  }

  /** Replacing e and o by congruent values keeps e + k * o's residue. */
  lemma ModLinearCongruent(e: int, o: int, e': int, o': int, k: int, m: int)
    requires 0 < m && e' % m == e % m && o' % m == o % m
    ensures (e' + k * o') % m == (e + k * o) % m
  {
    ModLinear(e, o, k, m);
    ModLinear(e', o', k, m);
  }

  lemma {:induction false} ExpMod(b: nat, e: nat, m: nat)
    requires 0 < m
    ensures Exp(b % m, e) % m == Exp(b, e) % m
  {
    if e > 0 {
      ExpMod(b, e - 1, m);
      calc {
        Exp(b % m, e) % m;
        ((b % m) * Exp(b % m, e - 1)) % m;
        { ModMulLeft(b, Exp(b % m, e - 1), m); }
        (b * Exp(b % m, e - 1)) % m;
        { ModMulRight(b, Exp(b % m, e - 1), m); }
        (b * (Exp(b % m, e - 1) % m)) % m;
        (b * (Exp(b, e - 1) % m)) % m;
        { ModMulRight(b, Exp(b, e - 1), m); }
        Exp(b, e) % m;
      }
    }
  }

  lemma {:induction false} ExpDouble(b: nat, k: nat)
    ensures Exp(b, 2 * k) == Exp(b * b, k)
  {
    if k > 0 {
      ExpDouble(b, k - 1);
      var t := Exp(b, 2 * k - 2);
      assert Exp(b, 2 * k - 1) == b * t;
      assert Exp(b, 2 * k) == b * (b * t);
      MulAssoc(b, b, t);
    }
  }

  lemma MulAssoc(a: int, b: int, c: int)
    ensures a * (b * c) == (a * b) * c
  {
  }

  /** One square-and-multiply step: b^e == b^(e mod 2) * (b*b)^(e div 2). */
  lemma ExpHalve(b: nat, e: nat)
    ensures Exp(b, e) == (if e % 2 == 1 then b else 1) * Exp(b * b, e / 2)
  {
    ExpDouble(b, e / 2);
    if e % 2 == 1 {
      assert Exp(b, e) == b * Exp(b, e - 1);
      assert e - 1 == 2 * (e / 2);
    } else {
      assert e == 2 * (e / 2);
    }
  }

  lemma ExpZeroBase(e: nat)
    requires 0 < e
    ensures Exp(0, e) == 0
  {
  }
}
