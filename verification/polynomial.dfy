/**
 * Dense polynomials over a prime field: coefficient i multiplies x^i, lowest
 * degree first. Every constructed polynomial is trimmed of trailing zero
 * coefficients, so the zero polynomial is the empty list.
 */
module Poly {
  import opened ModArith
  import opened Field

  datatype Polynomial = Polynomial(coefficients: seq<FieldElement>)

  /** The value of coefficient i; positions past the end read as zero. */
  function CoeffValue(cs: seq<FieldElement>, i: nat): nat
  {
    if i < |cs| then cs[i].value else 0
  }

  /** cs and ds have equal values at every index: they denote the same polynomial. */
  ghost predicate SameValues(cs: seq<FieldElement>, ds: seq<FieldElement>)
  {
    forall i: nat :: CoeffValue(cs, i) == CoeffValue(ds, i)
  }

  /** xs holds the values of cs at the positions 2k + o, k = 0, 1, ... */
  ghost predicate Strided(xs: seq<FieldElement>, cs: seq<FieldElement>, o: nat)
  {
    forall k: nat :: CoeffValue(xs, k) == CoeffValue(cs, 2 * k + o)
  }

  /** f is e + a * o coefficientwise, modulo m. */
  ghost predicate IsCombination(f: seq<FieldElement>, e: seq<FieldElement>, o: seq<FieldElement>, a: nat, m: nat)
  {
    0 < m && forall i: nat :: CoeffValue(f, i) == (CoeffValue(e, i) + a * CoeffValue(o, i)) % m
  }

  /** Coefficient i of r is cs_{2i} + a * cs_{2i+1} modulo m, at every index. */
  ghost predicate IsFolding(r: seq<FieldElement>, cs: seq<FieldElement>, a: nat, m: nat)
  {
    0 < m && forall i: nat :: CoeffValue(r, i) == (CoeffValue(cs, 2 * i) + a * CoeffValue(cs, 2 * i + 1)) % m
  }

  /** All but the first coefficient (nothing, for the empty list). */
  function Tail(cs: seq<FieldElement>): seq<FieldElement>
  {
    if |cs| == 0 then [] else cs[1..]
  }

  /** No trailing zero coefficient. */
  predicate Canonical(p: Polynomial)
  {
    |p.coefficients| == 0 || p.coefficients[|p.coefficients| - 1].value != 0
  }

  predicate AllInField(cs: seq<FieldElement>, m: nat)
  {
    forall i :: 0 <= i < |cs| ==> InField(cs[i], m)
  }

  /** The length left after popping, one at a time, trailing zero values off cs[..n]. */
  function TrimLen(cs: seq<FieldElement>, n: nat): (k: nat)
    requires n <= |cs|
    ensures k <= n && (k == 0 || cs[k - 1].value != 0)
  {
    if n > 0 && cs[n - 1].value == 0 then TrimLen(cs, n - 1) else n
  }

  /** Everything popped has value zero. */
  lemma {:induction false} TrimLenZeros(cs: seq<FieldElement>, n: nat)
    requires n <= |cs|
    ensures forall i :: TrimLen(cs, n) <= i < n ==> cs[i].value == 0
  {
    if n > 0 && cs[n - 1].value == 0 {
      TrimLenZeros(cs, n - 1);
    }
  }

  /**
   * `Polynomial::new`: the longest prefix of `cs` that does not end in a zero;
   * every coefficient it drops is zero, so it denotes the same polynomial.
   */
  function New(cs: seq<FieldElement>): (p: Polynomial)
    ensures Canonical(p)
    ensures |p.coefficients| <= |cs| && forall i {:trigger p.coefficients[i]} :: 0 <= i < |p.coefficients| ==> p.coefficients[i] == cs[i]
    ensures SameValues(p.coefficients, cs)
  {
    TrimLenZeros(cs, |cs|);
    Polynomial(cs[..TrimLen(cs, |cs|)])
  }

  /** Trimming is idempotent: a list without a trailing zero is left as it is. */
  lemma NewIdempotent(cs: seq<FieldElement>)
    ensures Canonical(Polynomial(cs)) ==> New(cs) == Polynomial(cs)
    ensures New(New(cs).coefficients) == New(cs)
  {
  }

  lemma NewKeepsField(cs: seq<FieldElement>, m: nat)
    requires AllInField(cs, m)
    ensures AllInField(New(cs).coefficients, m)
  {
    var r := New(cs).coefficients;
    forall i | 0 <= i < |r|
      ensures InField(r[i], m)
    {
      assert r[i] == cs[i];
    }
  }

  /** Length minus one, except that lists of length 0 and 1 both have degree 0. */
  function Degree(p: Polynomial): nat
  {
    if |p.coefficients| <= 1 then 0 else |p.coefficients| - 1
  }

  /** For a trimmed polynomial the degree indexes the leading non-zero coefficient. */
  lemma DegreeIsLeadingIndex(p: Polynomial)
    requires Canonical(p)
    ensures forall i: nat :: Degree(p) < i ==> CoeffValue(p.coefficients, i) == 0
    ensures |p.coefficients| > 0 ==> CoeffValue(p.coefficients, Degree(p)) != 0
    ensures Degree(p) == 0 <==> forall i: nat :: 0 < i ==> CoeffValue(p.coefficients, i) == 0
  {
    if |p.coefficients| > 1 {
      assert CoeffValue(p.coefficients, |p.coefficients| - 1) != 0;
    }
  }

  // ---------------------------------------------------------------------------
  // What a coefficient list denotes: sum of cs[i] * x^i over the integers.

  ghost function Sum(cs: seq<FieldElement>, x: nat): nat
  {
    SumTo(cs, x, |cs|)
  }

  /** The sum of CoeffValue(cs, i) * x^i over 0 <= i < n. */
  ghost function SumTo(cs: seq<FieldElement>, x: nat, n: nat): nat
  {
    if n == 0 then 0 else SumTo(cs, x, n - 1) + CoeffValue(cs, n - 1) * Exp(x, n - 1)
  }

  /** Running the sum past the end adds only zero terms. */
  lemma {:induction false} SumPastEnd(cs: seq<FieldElement>, x: nat, n: nat)
    requires |cs| <= n
    ensures SumTo(cs, x, n) == Sum(cs, x)
  {
    if n > |cs| {
      SumPastEnd(cs, x, n - 1);
      assert CoeffValue(cs, n - 1) == 0;
    }
  }

  /** Shifting the coefficients down by one: the partial sums follow Horner's recurrence. */
  lemma {:induction false} SumToShift(cs: seq<FieldElement>, x: nat, n: nat)
    ensures SumTo(cs, x, n + 1) == CoeffValue(cs, 0) + x * SumTo(Tail(cs), x, n)
  {
    if n > 0 {
      SumToShift(cs, x, n - 1);
      var t, c, e := SumTo(Tail(cs), x, n - 1), CoeffValue(cs, n), Exp(x, n - 1);
      assert CoeffValue(Tail(cs), n - 1) == c;
      assert Exp(x, n) == x * e;
      HornerAlgebra(SumTo(cs, x, n + 1), CoeffValue(cs, 0), x, t, c, e);
    }
  }

  lemma HornerAlgebra(s: int, c: int, x: int, t: int, last: int, e: int)
    requires s == c + x * t + last * (x * e)
    ensures s == c + x * (t + last * e)
  {
    assert last * (x * e) == x * (last * e);
  }

  /** Peeling the constant term off the power sum gives Horner's recurrence. */
  lemma SumFront(cs: seq<FieldElement>, x: nat)
    ensures Sum(cs, x) == CoeffValue(cs, 0) + x * Sum(Tail(cs), x)
  {
    if |cs| > 0 {
      SumToShift(cs, x, |cs| - 1);
    }
  }

  lemma SumCons(cs: seq<FieldElement>, x: nat)
    requires |cs| > 0
    ensures Sum(cs, x) == cs[0].value + x * Sum(cs[1..], x)
  {
    SumFront(cs, x);
  }

  /** Partial sums only read coefficient values. */
  lemma {:induction false} SumToByValues(cs: seq<FieldElement>, ds: seq<FieldElement>, x: nat, n: nat)
    requires SameValues(cs, ds)
    ensures SumTo(cs, x, n) == SumTo(ds, x, n)
  {
    if n > 0 {
      SumToByValues(cs, ds, x, n - 1);
      assert CoeffValue(cs, n - 1) == CoeffValue(ds, n - 1);
    }
  }

  /** The power sum only depends on coefficient values, trailing zeros included. */
  lemma SumByValues(cs: seq<FieldElement>, ds: seq<FieldElement>, x: nat)
    requires SameValues(cs, ds)
    ensures Sum(cs, x) == Sum(ds, x)
  {
    var n := if |cs| < |ds| then |ds| else |cs|;
    SumPastEnd(cs, x, n);
    SumPastEnd(ds, x, n);
    SumToByValues(cs, ds, x, n);
  }

  /** Evaluating at a reduced point gives the same residue as at the original point. */
  lemma {:induction false} SumModPoint(cs: seq<FieldElement>, x: nat, m: nat)
    requires 0 < m
    ensures Sum(cs, x % m) % m == Sum(cs, x) % m
    decreases |cs|
  {
    if |cs| > 0 {
      var t := cs[1..];
      SumModPoint(t, x, m);
      SumCons(cs, x % m);
      SumCons(cs, x);
      var c := cs[0].value;
      var s, s' := Sum(t, x), Sum(t, x % m);
      assert s' % m == s % m;
      calc {
        ((x % m) * s') % m;
        { ModMulLeft(x, s', m); }
        (x * s') % m;
        { ModMulRight(x, s', m); }
        (x * (s' % m)) % m;
        (x * (s % m)) % m;
        { ModMulRight(x, s, m); }
        (x * s) % m;
      }
      ModAddRight(c, (x % m) * s', m);
      ModAddRight(c, x * s, m);
    }
  }

  // ---------------------------------------------------------------------------
  // Evaluation.

  /**
   * Horner's rule as the Rust code runs it: starting from zero and walking the
   * coefficients from the highest down, `acc := acc * x + c`.
   */
  function Horner(cs: seq<FieldElement>, x: FieldElement): (r: FieldElement)
    requires MulSafe(x.modulus) && InField(x, x.modulus) && AllInField(cs, x.modulus)
    ensures InField(r, x.modulus)
    decreases |cs|
  {
    if |cs| == 0 then Zero(x.modulus) else Add(Mul(Horner(cs[1..], x), x), cs[0])
  }

  /** Horner's rule computes the residue of the power sum. */
  lemma {:induction false} HornerSum(cs: seq<FieldElement>, x: FieldElement)
    requires MulSafe(x.modulus) && InField(x, x.modulus) && AllInField(cs, x.modulus)
    ensures Horner(cs, x).value == Sum(cs, x.value) % x.modulus
    decreases |cs|
  {
    if |cs| > 0 {
      HornerSum(cs[1..], x);
      HornerStep(cs, x, Horner(cs[1..], x));
    }
  }

  lemma HornerStep(cs: seq<FieldElement>, x: FieldElement, acc: FieldElement)
    requires MulSafe(x.modulus) && InField(x, x.modulus) && AllInField(cs, x.modulus) && |cs| > 0
    requires InField(acc, x.modulus) && acc.value == Sum(cs[1..], x.value) % x.modulus
    ensures Add(Mul(acc, x), cs[0]).value == Sum(cs, x.value) % x.modulus
  {
    var m := x.modulus;
    var c := cs[0];
    assert InField(c, m);
    var s := Sum(cs[1..], x.value);
    MulValue(acc, x);
    AddValue(Mul(acc, x), c);
    SumCons(cs, x.value);
    SmallMod();
    assert c.value % m == c.value;
    ModLinear(c.value, s, x.value, m);
    assert (acc.value * x.value) == x.value * (s % m);
  }

  /** `Polynomial::evaluate`: the residue of the power sum at x. */
  function Evaluate(p: Polynomial, x: FieldElement): (r: FieldElement)
    requires MulSafe(x.modulus) && InField(x, x.modulus) && AllInField(p.coefficients, x.modulus)
    ensures InField(r, x.modulus)
    ensures |p.coefficients| == 0 ==> r == Zero(x.modulus)
  {
    Horner(p.coefficients, x)
  }

  /** The value of p at x is the residue of the power sum of its coefficients at x. */
  lemma EvaluateSum(p: Polynomial, x: FieldElement)
    requires MulSafe(x.modulus) && InField(x, x.modulus) && AllInField(p.coefficients, x.modulus)
    ensures Evaluate(p, x).value == Sum(p.coefficients, x.value) % x.modulus
  {
    HornerSum(p.coefficients, x);
  }

  // ---------------------------------------------------------------------------
  // Even/odd split and folding.

  /** Entries at even positions, in order. */
  function Evens(cs: seq<FieldElement>): seq<FieldElement>
  {
    seq((|cs| + 1) / 2, k requires 0 <= k < (|cs| + 1) / 2 => cs[2 * k])
  }

  /** Entries at odd positions, in order. */
  function Odds(cs: seq<FieldElement>): seq<FieldElement>
  {
    seq(|cs| / 2, k requires 0 <= k < |cs| / 2 => cs[2 * k + 1])
  }

  /** `split_even_odd`: (even, odd) with p(x) = even(x^2) + x * odd(x^2), each trimmed. */
  function SplitEvenOdd(p: Polynomial): (r: (Polynomial, Polynomial))
    ensures Canonical(r.0) && Canonical(r.1)
    ensures |r.0.coefficients| <= (|p.coefficients| + 1) / 2
    ensures |r.1.coefficients| <= |p.coefficients| / 2
    ensures Strided(r.0.coefficients, p.coefficients, 0) && Strided(r.1.coefficients, p.coefficients, 1)
  {
    var cs := p.coefficients;
    var evens, odds := Evens(cs), Odds(cs);
    TrimmedSubsequence(cs, evens, 0);
    TrimmedSubsequence(cs, odds, 1);
    (New(evens), New(odds))
  }

  /** Each half keeps the entries themselves: even_k is p_{2k} and odd_k is p_{2k+1}. */
  lemma SplitEntries(p: Polynomial)
    ensures forall k :: 0 <= k < |SplitEvenOdd(p).0.coefficients| ==> SplitEvenOdd(p).0.coefficients[k] == p.coefficients[2 * k]
    ensures forall k :: 0 <= k < |SplitEvenOdd(p).1.coefficients| ==> SplitEvenOdd(p).1.coefficients[k] == p.coefficients[2 * k + 1]
  {
    var cs := p.coefficients;
    TrimmedSubsequence(cs, Evens(cs), 0);
    TrimmedSubsequence(cs, Odds(cs), 1);
  }

  /** The halves of a polynomial over the field of size m are over that field. */
  lemma SplitInField(p: Polynomial, m: nat)
    requires AllInField(p.coefficients, m)
    ensures AllInField(SplitEvenOdd(p).0.coefficients, m) && AllInField(SplitEvenOdd(p).1.coefficients, m)
  {
    SplitEntries(p);
  }

  /** Trimming the entries cs[2k + o] keeps them in place, keeps their values and keeps them in the field. */
  lemma TrimmedSubsequence(cs: seq<FieldElement>, xs: seq<FieldElement>, o: nat)
    requires o <= 1 && |xs| == (|cs| + 1 - o) / 2
    requires forall k :: 0 <= k < |xs| ==> xs[k] == cs[2 * k + o]
    ensures forall k :: 0 <= k < |New(xs).coefficients| ==> New(xs).coefficients[k] == cs[2 * k + o]
    ensures Strided(New(xs).coefficients, cs, o)
  {
    var r := New(xs).coefficients;
    forall k: nat
      ensures CoeffValue(r, k) == CoeffValue(cs, 2 * k + o)
    {
      assert CoeffValue(r, k) == CoeffValue(xs, k);
    }
  }

  /** Coefficient i of the folded polynomial before trimming: even_i + alpha * odd_i. */
  function FoldCoeff(even: seq<FieldElement>, odd: seq<FieldElement>, alpha: FieldElement, i: nat): (c: FieldElement)
    requires MulSafe(alpha.modulus) && InField(alpha, alpha.modulus)
    requires AllInField(even, alpha.modulus) && AllInField(odd, alpha.modulus)
    ensures InField(c, alpha.modulus)
    ensures c.value == (CoeffValue(even, i) + alpha.value * CoeffValue(odd, i)) % alpha.modulus
  {
    var m := alpha.modulus;
    var e := if i < |even| then even[i] else Zero(m);
    var o := if i < |odd| then odd[i] else Zero(m);
    MulValue(alpha, o);
    AddValue(e, Mul(alpha, o));
    SmallMod();
    assert e.value % m == e.value;
    ModLinear(e.value, o.value, alpha.value, m);
    Add(e, Mul(alpha, o))
  }

  /** The coefficient list of even + alpha * odd before trimming: as long as the longer operand. */
  function Combine(even: seq<FieldElement>, odd: seq<FieldElement>, alpha: FieldElement): (folded: seq<FieldElement>)
    requires MulSafe(alpha.modulus) && InField(alpha, alpha.modulus)
    requires AllInField(even, alpha.modulus) && AllInField(odd, alpha.modulus)
    ensures AllInField(folded, alpha.modulus)
    ensures |folded| == if |even| < |odd| then |odd| else |even|
  {
    var n := if |even| < |odd| then |odd| else |even|;
    seq(n, i requires 0 <= i < n => FoldCoeff(even, odd, alpha, i))
  }

  lemma CombineValues(even: seq<FieldElement>, odd: seq<FieldElement>, alpha: FieldElement)
    requires MulSafe(alpha.modulus) && InField(alpha, alpha.modulus)
    requires AllInField(even, alpha.modulus) && AllInField(odd, alpha.modulus)
    ensures IsCombination(Combine(even, odd, alpha), even, odd, alpha.value, alpha.modulus)
  {
    var folded := Combine(even, odd, alpha);
    forall i: nat
      ensures CoeffValue(folded, i) == (CoeffValue(even, i) + alpha.value * CoeffValue(odd, i)) % alpha.modulus
    {
      if i >= |folded| {
        ZeroCombination(alpha.value, alpha.modulus);
      }
    }
  }

  /** `fold(alpha)`: the trimmed coefficient list of even(x) + alpha * odd(x). */
  function Fold(p: Polynomial, alpha: FieldElement): (r: Polynomial)
    requires MulSafe(alpha.modulus) && InField(alpha, alpha.modulus)
    requires AllInField(p.coefficients, alpha.modulus)
    ensures Canonical(r) && AllInField(r.coefficients, alpha.modulus)
    ensures |r.coefficients| <= (|p.coefficients| + 1) / 2
  {
    SplitInField(p, alpha.modulus);
    var folded := Combine(SplitEvenOdd(p).0.coefficients, SplitEvenOdd(p).1.coefficients, alpha);
    NewKeepsField(folded, alpha.modulus);
    New(folded)
  }

  /** Coefficient i of fold(alpha) is p_{2i} + alpha * p_{2i+1} mod m, for every i. */
  lemma FoldCoefficients(p: Polynomial, alpha: FieldElement)
    requires MulSafe(alpha.modulus) && InField(alpha, alpha.modulus)
    requires AllInField(p.coefficients, alpha.modulus)
    ensures IsFolding(Fold(p, alpha).coefficients, p.coefficients, alpha.value, alpha.modulus)
  {
    var cs, even, odd := p.coefficients, SplitEvenOdd(p).0.coefficients, SplitEvenOdd(p).1.coefficients;
    SplitInField(p, alpha.modulus);
    var folded := Combine(even, odd, alpha);
    CombineValues(even, odd, alpha);
    TrimmedCombination(cs, even, odd, folded, alpha.value, alpha.modulus);
    assert Fold(p, alpha) == New(folded);
  }

  /**
   * If even and odd hold the values at even and odd positions of cs, and f
   * combines them coefficientwise, then trimmed f has coefficient i equal to
   * cs_{2i} + a * cs_{2i+1} mod m.
   */
  lemma TrimmedCombination(cs: seq<FieldElement>, even: seq<FieldElement>, odd: seq<FieldElement>, f: seq<FieldElement>, a: nat, m: nat)
    requires 0 < m
    requires Strided(even, cs, 0) && Strided(odd, cs, 1)
    requires IsCombination(f, even, odd, a, m)
    ensures IsFolding(New(f).coefficients, cs, a, m)
  {
    forall i: nat
      ensures CoeffValue(New(f).coefficients, i) == (CoeffValue(cs, 2 * i) + a * CoeffValue(cs, 2 * i + 1)) % m
    {
      assert CoeffValue(New(f).coefficients, i) == CoeffValue(f, i);
      assert CoeffValue(even, i) == CoeffValue(cs, 2 * i);
      assert CoeffValue(odd, i) == CoeffValue(cs, 2 * i + 1);
    }
  }

  lemma ZeroCombination(a: int, m: int)
    requires 0 < m
    ensures (0 + a * 0) % m == 0
  {
  }

  /** A fold of a polynomial of degree d >= 1 has degree at most ceil((d+1)/2) - 1, which is below d. */
  lemma FoldDegree(p: Polynomial, alpha: FieldElement)
    requires MulSafe(alpha.modulus) && InField(alpha, alpha.modulus)
    requires AllInField(p.coefficients, alpha.modulus)
    requires Degree(p) >= 1
    ensures Degree(Fold(p, alpha)) <= (Degree(p) + 2) / 2 - 1
    ensures Degree(Fold(p, alpha)) < Degree(p)
  {
  }

  /** The power sum is linear: coefficientwise (e + a*o) mod m sums to (E + a*O) mod m. */
  lemma {:induction false} SumCombine(f: seq<FieldElement>, e: seq<FieldElement>, o: seq<FieldElement>, a: nat, y: nat, m: nat)
    requires 0 < m
    requires IsCombination(f, e, o, a, m)
    ensures Sum(f, y) % m == (Sum(e, y) + a * Sum(o, y)) % m
    decreases |f| + |e| + |o|
  {
    SumFront(f, y);
    SumFront(e, y);
    SumFront(o, y);
    if |f| + |e| + |o| == 0 {
      assert Sum(f, y) == 0 && Sum(e, y) == 0 && Sum(o, y) == 0;
    } else {
      CombineTails(f, e, o, a, m);
      SumCombine(Tail(f), Tail(e), Tail(o), a, y, m);
      var e0, o0 := CoeffValue(e, 0), CoeffValue(o, 0);
      var x0 := e0 + a * o0;
      var st := Sum(Tail(f), y);
      var w := Sum(Tail(e), y) + a * Sum(Tail(o), y);
      assert CoeffValue(f, 0) == x0 % m;
      assert Sum(f, y) == x0 % m + y * st;
      ModUnique(x0 % m, m, 0, x0 % m);
      ModLinearCongruent(x0, w, x0 % m, st, y, m);
      CombineAlgebra(Sum(e, y), Sum(o, y), e0, o0, Sum(Tail(e), y), Sum(Tail(o), y), a, y);
    }
  }

  /** A coefficientwise combination stays one after dropping the constant terms. */
  lemma CombineTails(f: seq<FieldElement>, e: seq<FieldElement>, o: seq<FieldElement>, a: nat, m: nat)
    requires 0 < m
    requires IsCombination(f, e, o, a, m)
    ensures IsCombination(Tail(f), Tail(e), Tail(o), a, m)
  {
    forall i: nat
      ensures CoeffValue(Tail(f), i) == (CoeffValue(Tail(e), i) + a * CoeffValue(Tail(o), i)) % m
    {
      assert CoeffValue(Tail(f), i) == CoeffValue(f, i + 1);
      assert CoeffValue(Tail(e), i) == CoeffValue(e, i + 1);
      assert CoeffValue(Tail(o), i) == CoeffValue(o, i + 1);
    }
  }

  lemma CombineAlgebra(se: int, so: int, e0: int, o0: int, te: int, to: int, a: int, y: int)
    requires se == e0 + y * te && so == o0 + y * to
    ensures (e0 + a * o0) + y * (te + a * to) == se + a * so
  {
    assert a * so == a * o0 + a * (y * to);
    assert y * (te + a * to) == y * te + y * (a * to);
  }

  /** fold(alpha)(y) == even(y) + alpha * odd(y) at every point y of the field. */
  lemma FoldEvaluate(p: Polynomial, alpha: FieldElement, y: FieldElement)
    requires MulSafe(alpha.modulus) && InField(alpha, alpha.modulus) && InField(y, alpha.modulus)
    requires AllInField(p.coefficients, alpha.modulus)
    ensures AllInField(SplitEvenOdd(p).0.coefficients, alpha.modulus) && AllInField(SplitEvenOdd(p).1.coefficients, alpha.modulus)
    ensures Evaluate(Fold(p, alpha), y) == Add(Evaluate(SplitEvenOdd(p).0, y), Mul(alpha, Evaluate(SplitEvenOdd(p).1, y)))
  {
    var q := Fold(p, alpha);
    SplitInField(p, alpha.modulus);
    FoldCombination(p, alpha);
    CombinationEvaluate(q, SplitEvenOdd(p).0, SplitEvenOdd(p).1, alpha, y);
  }

  /**
   * Whenever the power sum of q at x and those of e and o at z satisfy
   * q == e + k * o modulo m, so do the field evaluations.
   */
  lemma EvaluateLinear(q: Polynomial, x: FieldElement, e: Polynomial, o: Polynomial, k: FieldElement, z: FieldElement)
    requires MulSafe(k.modulus) && InField(k, k.modulus) && InField(x, k.modulus) && InField(z, k.modulus)
    requires AllInField(q.coefficients, k.modulus) && AllInField(e.coefficients, k.modulus) && AllInField(o.coefficients, k.modulus)
    requires Sum(q.coefficients, x.value) % k.modulus ==
             (Sum(e.coefficients, z.value) + k.value * Sum(o.coefficients, z.value)) % k.modulus
    ensures Evaluate(q, x) == Add(Evaluate(e, z), Mul(k, Evaluate(o, z)))
  {
    EvaluateSum(q, x);
    EvaluateSum(e, z);
    EvaluateSum(o, z);
    var rq, re, ro := Evaluate(q, x), Evaluate(e, z), Evaluate(o, z);
    ResidueLinear(rq.value, re.value, ro.value, k.value,
                  Sum(q.coefficients, x.value), Sum(e.coefficients, z.value), Sum(o.coefficients, z.value), k.modulus);
    LinearCombination(rq, re, k, ro);
  }

  /** Residues of se and so combine linearly into the residue of se + k * so. */
  lemma ResidueLinear(rv: int, ev: int, ov: int, k: int, sr: int, se: int, so: int, m: int)
    requires 0 < m && rv == sr % m && sr % m == (se + k * so) % m
    requires ev == se % m && ov == so % m
    ensures rv == (ev + k * ov) % m
  {
    ModAddRight(k * ov, se, m);
    ModAdd(se, k * ov, m);
    ModMulRight(k, so, m);
    ModAdd(se, k * so, m);
  }

  /** A field element equal to the residue of e + k * o is the field's e + k * o. */
  lemma LinearCombination(r: FieldElement, e: FieldElement, k: FieldElement, o: FieldElement)
    requires MulSafe(k.modulus) && InField(e, k.modulus) && InField(k, k.modulus) && InField(o, k.modulus)
    requires InField(r, k.modulus) && r.value == (e.value + k.value * o.value) % k.modulus
    ensures r == Add(e, Mul(k, o))
  {
    MulValue(k, o);
    AddValue(e, Mul(k, o));
    ModAddRight(e.value, k.value * o.value, k.modulus);
  }

  /** Before trimming, fold(alpha) is even + alpha * odd coefficient by coefficient. */
  lemma FoldCombination(p: Polynomial, alpha: FieldElement)
    requires MulSafe(alpha.modulus) && InField(alpha, alpha.modulus)
    requires AllInField(p.coefficients, alpha.modulus)
    ensures IsCombination(Fold(p, alpha).coefficients, SplitEvenOdd(p).0.coefficients, SplitEvenOdd(p).1.coefficients, alpha.value, alpha.modulus)
  {
    var r := Fold(p, alpha).coefficients;
    FoldCoefficients(p, alpha);
    SplitHalves(p);
    FoldingCombines(r, p.coefficients, SplitEvenOdd(p).0.coefficients, SplitEvenOdd(p).1.coefficients, alpha.value, alpha.modulus);
  }

  /** Evaluation is linear: a coefficientwise e + k * o evaluates to e(y) + k * o(y). */
  lemma CombinationEvaluate(q: Polynomial, e: Polynomial, o: Polynomial, k: FieldElement, y: FieldElement)
    requires MulSafe(k.modulus) && InField(k, k.modulus) && InField(y, k.modulus)
    requires AllInField(q.coefficients, k.modulus) && AllInField(e.coefficients, k.modulus) && AllInField(o.coefficients, k.modulus)
    requires IsCombination(q.coefficients, e.coefficients, o.coefficients, k.value, k.modulus)
    ensures Evaluate(q, y) == Add(Evaluate(e, y), Mul(k, Evaluate(o, y)))
  {
    SumCombine(q.coefficients, e.coefficients, o.coefficients, k.value, y.value, k.modulus);
    EvaluateLinear(q, y, e, o, k, y);
  }

  /** A folding of cs is a coefficientwise combination of any lists holding cs's even and odd entries. */
  lemma FoldingCombines(r: seq<FieldElement>, cs: seq<FieldElement>, even: seq<FieldElement>, odd: seq<FieldElement>, a: nat, m: nat)
    requires IsFolding(r, cs, a, m)
    requires Strided(even, cs, 0) && Strided(odd, cs, 1)
    ensures IsCombination(r, even, odd, a, m)
  {
    forall i: nat
      ensures CoeffValue(r, i) == (CoeffValue(even, i) + a * CoeffValue(odd, i)) % m
    {
      assert CoeffValue(even, i) == CoeffValue(cs, 2 * i);
      assert CoeffValue(odd, i) == CoeffValue(cs, 2 * i + 1);
    }
  }

  /** The integer identity behind the split: f(x) = even(x^2) + x * odd(x^2). */
  lemma {:induction false} SumSplit(cs: seq<FieldElement>, x: nat)
    ensures Sum(cs, x) == Sum(Evens(cs), x * x) + x * Sum(Odds(cs), x * x)
    decreases |cs|
  {
    var xx := x * x;
    if |cs| == 0 {
      assert Evens(cs) == [] && Odds(cs) == [];
      assert x * Sum(Odds(cs), xx) == x * 0 == 0;
      assert Sum(cs, x) == Sum(Evens(cs), xx) + x * Sum(Odds(cs), xx);
    } else if |cs| == 1 {
      SumCons(cs, x);
      SumCons(Evens(cs), xx);
      assert cs[1..] == [] && Evens(cs)[1..] == [] && Odds(cs) == [];
      assert Sum(cs, x) == cs[0].value + x * 0 == cs[0].value;
      assert Sum(Evens(cs), xx) == cs[0].value + xx * 0 == cs[0].value;
      assert x * Sum(Odds(cs), xx) == x * 0 == 0;
      assert Sum(cs, x) == Sum(Evens(cs), xx) + x * Sum(Odds(cs), xx);
    } else {
      var rest := cs[2..];
      SumSplit(rest, x);
      SumCons(cs, x);
      SumCons(cs[1..], x);
      assert cs[1..][1..] == rest;
      var es, os := Evens(cs), Odds(cs);
      assert es == [cs[0]] + Evens(rest) && os == [cs[1]] + Odds(rest);
      SumCons(es, x * x);
      SumCons(os, x * x);
      assert es[1..] == Evens(rest) && os[1..] == Odds(rest);
      var c0, c1 := cs[0].value, cs[1].value;
      var r, se, so := Sum(rest, x), Sum(Evens(rest), x * x), Sum(Odds(rest), x * x);
      assert Sum(cs[1..], x) == c1 + x * r;
      assert Sum(cs, x) == c0 + x * Sum(cs[1..], x);
      assert Sum(es, xx) == c0 + xx * se;
      assert Sum(os, xx) == c1 + xx * so;
      SplitAlgebra(Sum(cs, x), Sum(cs[1..], x), Sum(es, xx), Sum(os, xx), c0, c1, x, r, se, so);
      assert Sum(cs, x) == Sum(Evens(cs), xx) + x * Sum(Odds(cs), xx);
    }
  }

  lemma SplitAlgebra(a: int, b: int, e: int, o: int, c0: int, c1: int, x: int, r: int, se: int, so: int)
    requires a == c0 + x * b && b == c1 + x * r && r == se + x * so
    requires e == c0 + (x * x) * se && o == c1 + (x * x) * so
    ensures a == e + x * o
  {
    assert x * b == x * c1 + x * x * r;
    assert x * x * r == x * x * se + x * x * x * so;
    assert x * o == x * c1 + x * x * x * so;
  }

  /** Split identity: p(x) == even(x*x) + x * odd(x*x) at every point x of the field. */
  lemma SplitIdentity(p: Polynomial, x: FieldElement)
    requires MulSafe(x.modulus) && InField(x, x.modulus) && AllInField(p.coefficients, x.modulus)
    ensures AllInField(SplitEvenOdd(p).0.coefficients, x.modulus) && AllInField(SplitEvenOdd(p).1.coefficients, x.modulus)
    ensures Evaluate(p, x) == Add(Evaluate(SplitEvenOdd(p).0, Mul(x, x)), Mul(x, Evaluate(SplitEvenOdd(p).1, Mul(x, x))))
  {
    SplitSum(p, x);
    SplitInField(p, x.modulus);
    EvaluateLinear(p, x, SplitEvenOdd(p).0, SplitEvenOdd(p).1, x, Mul(x, x));
  }

  /** The split identity on power sums, read modulo m at the reduced square of x. */
  lemma SplitSum(p: Polynomial, x: FieldElement)
    requires MulSafe(x.modulus) && InField(x, x.modulus)
    ensures Sum(p.coefficients, x.value) % x.modulus ==
            (Sum(SplitEvenOdd(p).0.coefficients, Mul(x, x).value) + x.value * Sum(SplitEvenOdd(p).1.coefficients, Mul(x, x).value)) % x.modulus
  {
    MulValue(x, x);
    SplitHalves(p);
    SplitSumResidue(p.coefficients, SplitEvenOdd(p).0.coefficients, SplitEvenOdd(p).1.coefficients, x.value, Mul(x, x).value, x.modulus);
  }

  /** The halves denote the even and odd entries of p. */
  lemma SplitHalves(p: Polynomial)
    ensures SameValues(SplitEvenOdd(p).0.coefficients, Evens(p.coefficients))
    ensures SameValues(SplitEvenOdd(p).1.coefficients, Odds(p.coefficients))
    ensures Strided(SplitEvenOdd(p).0.coefficients, p.coefficients, 0) && Strided(SplitEvenOdd(p).1.coefficients, p.coefficients, 1)
  {
  }

  /**
   * Any e and o with the values of the even and odd entries of cs satisfy
   * cs(x) == e(z) + x * o(z) modulo m, where z is x * x reduced.
   */
  lemma SplitSumResidue(cs: seq<FieldElement>, e: seq<FieldElement>, o: seq<FieldElement>, x: nat, z: nat, m: nat)
    requires 0 < m && z == (x * x) % m
    requires SameValues(e, Evens(cs)) && SameValues(o, Odds(cs))
    ensures Sum(cs, x) % m == (Sum(e, z) + x * Sum(o, z)) % m
  {
    var sq := x * x;
    SumByValues(e, Evens(cs), z);
    SumByValues(o, Odds(cs), z);
    SumModPoint(Evens(cs), sq, m);
    SumModPoint(Odds(cs), sq, m);
    SumSplit(cs, x);
    ModLinearCongruent(Sum(Evens(cs), sq), Sum(Odds(cs), sq), Sum(e, z), Sum(o, z), x, m);
  }
}
