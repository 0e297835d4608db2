/**
 * The FRI prover's set-up: the evaluation domain {0, 1, ..., d} reduced into
 * the field, and the commit phase in the only case whose loop terminates.
 */
module Fri {
  import opened ModArith
  import opened Field
  import Poly

  datatype FriProver = FriProver(modulus: u64, originalPoly: Poly.Polynomial, domain: seq<FieldElement>)

  /**
   * `generate_domain`: the integers 0 .. size-1 reduced modulo m. Reducing
   * by a zero modulus panics, which only happens when there is an element.
   */
  function GenerateDomain(size: u64, m: u64): (d: seq<FieldElement>)
    requires size > 0 ==> 0 < m
    ensures |d| == size
    ensures forall i :: 0 <= i < |d| ==> InField(d[i], m) && (i - d[i].value) % m == 0
    ensures forall i :: 0 <= i < |d| && i < m ==> d[i].value == i
    ensures size <= m ==> forall i, j :: 0 <= i < j < |d| ==> d[i] != d[j]
  {
    var d := seq(size, i requires 0 <= i < size => Field.New(i, m));
    DomainValues(d, m);
    d
  }

  /** A point below the modulus is its own residue. */
  lemma DomainValues(d: seq<FieldElement>, m: u64)
    requires forall i :: 0 <= i < |d| ==> 0 < m && InField(d[i], m) && (i - d[i].value) % m == 0
    ensures forall i :: 0 <= i < |d| && i < m ==> d[i].value == i
  {
    forall i | 0 <= i < |d| && i < m
      ensures d[i].value == i
    {
      ModCongruent(i, d[i].value, m);
      ModUnique(i, m, 0, i);
    }
  }

  /**
   * `FRIProver::new`: keeps the modulus and polynomial, and takes as domain
   * the first degree + 1 points. The domain is never empty, so the modulus
   * must be non-zero; a vector's length always fits a usize.
   */
  function New(poly: Poly.Polynomial, modulus: u64): (r: FriProver)
    requires 0 < modulus && |poly.coefficients| < U64_LIMIT
    ensures r.modulus == modulus && r.originalPoly == poly
    ensures |r.domain| == Poly.Degree(poly) + 1
    ensures forall i :: 0 <= i < |r.domain| ==> InField(r.domain[i], modulus) && (i - r.domain[i].value) % modulus == 0
    ensures Poly.Degree(poly) < modulus ==> forall i :: 0 <= i < |r.domain| ==> r.domain[i].value == i
  {
    var size := Poly.Degree(poly) + 1;
    FriProver(modulus, poly, GenerateDomain(size, modulus))
  }

  /**
   * `commit` when its loop is never entered: a constant polynomial yields no
   * commitments and no evaluations. The loop body is empty in the Rust code, so
   * for any higher degree it does not terminate and is not modelled.
   */
  function Commit(prover: FriProver): (r: (seq<seq<bv8>>, seq<seq<FieldElement>>))
    requires Poly.Degree(prover.originalPoly) == 0
    ensures |r.0| == 0 && |r.1| == 0
  {
    ([], [])
  }
}
