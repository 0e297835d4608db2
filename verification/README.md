# FRI prototype: field, polynomial and Merkle core in Dafny

This project models the algebra underneath a Rust prototype of the FRI
low-degree test (Fast Reed–Solomon Interactive Oracle Proof of proximity):

- prime-field elements carried as a `u64` value paired with a `u64` modulus,
  with reduction, addition, multiplication, square-and-multiply `pow` and the
  Fermat `inverse` (`arith.dfy`, `field.dfy`);
- dense polynomials with the lowest-degree coefficient first: trailing-zero
  trimming in `Polynomial::new`, `degree`, Horner `evaluate`, the even/odd
  split and `fold(alpha) = even + alpha * odd` (`polynomial.dfy`);
- the binary Merkle commitment: the root built level by level, an odd last
  node hashed with itself, and inclusion-proof verification (`merkle.dfy`);
- the FRI prover's set-up: the evaluation domain `0 .. degree` reduced into the
  field, and `commit` where its loop is never entered (`fri.dfy`).

Rust's `u64` arithmetic panics on overflow when overflow checks are on (debug
builds) and wraps otherwise; `%` by zero always panics. The model turns each
such point into a precondition, so no modelled run overflows. Where the caller
cannot see the operands, the precondition is stated as a condition on the
modulus (`MulSafe(m)`: the product of two reduced values fits in a `u64`).

The SHA-256 hash is a parameter `H` of every Merkle operation, a function from
byte strings to 32-byte digests about which nothing else is assumed.

Polynomial evaluation is related to a reference definition, the power sum
`Sum(cs, x)` of `cs[i] * x^i` over the integers, by `Poly.EvaluateSum`. The
split identity and the folding identity are then stated on field values for
every field point.

Three behaviours of the Rust code differ from FRI as usually described; the
model follows the code:

- `inverse` of zero is not an error. It is `0^(m-2) mod m`, which is 0 for
  m > 2 and 1 for m = 2 (`Field.Inverse`).
- The domain is `0, 1, ..., degree` reduced modulo m, not a power-of-two
  multiplicative subgroup (`Fri.GenerateDomain`).
- `MerkleProof::verify` reads the parity of `leaf_index` at every level and
  never halves the index, so one parity orders every concatenation on the path
  (`Merkle.Verify`). The model reproduces this exactly; `Merkle.UnhalvedIndexLeafOne`
  shows its effect on leaf 1 of a four-leaf tree.

Two operations are too small to carry a contract of their own: `get_root` is a
read of the stored root (`Merkle.GetRoot`), and `commit` on a constant
polynomial returns two empty lists, because its loop is never entered
(`Fri.Commit`).

## Model

| member | source | states |
|---|---|---|
| Field.Zero | src/field.rs:10-12 | zero has value 0 and the given modulus; it is a reduced element exactly when the modulus is at least 1 |
| Field.One | src/field.rs:14-16 | one has value 1 and the given modulus; it is a reduced element only when the modulus is at least 2 (`one(1)` breaks the invariant) |
| Field.New | src/field.rs:18-20 | for a non-zero modulus the result is reduced, keeps the modulus, and is congruent to the input value |
| Field.Add | src/field.rs:46-51 | with equal moduli the sum is reduced and congruent to a + b; for reduced operands it is a + b, less m when that reaches m |
| Field.AddValue | src/field.rs:47-50 | the value of a + b is (a.value + b.value) mod m |
| Field.AddZero | src/field.rs:46-50 | zero is a left identity of addition on reduced elements |
| Field.Mul | src/field.rs:54-59 | with equal moduli and no u64 overflow, the product is reduced and congruent to a * b |
| Field.MulValue | src/field.rs:55-58 | the value of a * b is (a.value * b.value) mod m |
| Field.MulOne | src/field.rs:54-58 | one is a left identity of multiplication on reduced elements |
| Field.Pow | src/field.rs:22-36 | exponent 0 gives `one(m)` exactly; otherwise (and for any exponent when m >= 2) the value is a^e mod m, by the loop invariant result * base^exp == a^e mod m |
| Field.PowStep | src/field.rs:27-34 | one iteration of the square-and-multiply loop keeps result * base^exp unchanged modulo m |
| Field.Inverse | src/field.rs:38-41 | for m >= 2 the result is a^(m-2) mod m; the inverse of zero is zero when m > 2 and one when m = 2 |
| Field.FermatInverseMod7 | src/field.rs:38-41 | in the field of size 7, the field product of a^(7-2) mod 7 with any non-zero a is `one(7)` |
| Poly.TrimLen | src/polynomial.rs:11-14 | popping trailing zeros stops at an empty list or at a non-zero last coefficient |
| Poly.TrimLenZeros | src/polynomial.rs:11-14 | every popped coefficient was zero |
| Poly.New | src/polynomial.rs:9-17 | the result is a prefix of the input with no trailing zero, and denotes the same coefficient values at every index |
| Poly.NewIdempotent | src/polynomial.rs:9-17 | a list with no trailing zero is kept as it is, so trimming twice equals trimming once |
| Poly.DegreeIsLeadingIndex | src/polynomial.rs:19-27 | for a trimmed polynomial every coefficient above the degree is zero, the coefficient at the degree is non-zero unless the list is empty, and degree 0 means constant |
| Poly.Evaluate | src/polynomial.rs:29-36 | evaluation gives a reduced element of x's field, and zero for the empty polynomial |
| Poly.HornerSum | src/polynomial.rs:30-33 | the Horner loop over the reversed coefficients computes the power sum of the coefficients at x, modulo m |
| Poly.EvaluateSum | src/polynomial.rs:29-36 | `evaluate(x)` is the sum of c_i * x^i reduced modulo m |
| Poly.SplitEvenOdd | src/polynomial.rs:64-77 | both halves are trimmed, no longer than ceil(n/2) and floor(n/2), and hold the values at positions 2k and 2k + 1 |
| Poly.SplitEntries | src/polynomial.rs:68-74 | entry k of the even half is coefficient 2k and entry k of the odd half is coefficient 2k + 1 |
| Poly.SplitHalves | src/polynomial.rs:64-77 | the halves denote the untrimmed even-position and odd-position lists |
| Poly.SplitInField | src/polynomial.rs:64-77 | the halves of a polynomial over a field are over that field |
| Poly.SplitIdentity | src/polynomial.rs:64-77 | at every field point x, p(x) == even(x * x) + x * odd(x * x) |
| Poly.FoldCoeff | src/polynomial.rs:47-58 | coefficient i before trimming is even_i + alpha * odd_i modulo m, a missing coefficient reading as zero |
| Poly.Combine | src/polynomial.rs:44-59 | the untrimmed fold is as long as the longer half and stays in the field |
| Poly.CombineValues | src/polynomial.rs:44-59 | the untrimmed fold is even + alpha * odd coefficient by coefficient |
| Poly.Fold | src/polynomial.rs:38-62 | the fold is trimmed, over alpha's field, and at most ceil(n/2) long |
| Poly.FoldCoefficients | src/polynomial.rs:38-62 | coefficient i of `fold(alpha)` is p_{2i} + alpha * p_{2i+1} modulo m, at every index |
| Poly.FoldCombination | src/polynomial.rs:38-62 | `fold(alpha)` is even + alpha * odd coefficient by coefficient, in terms of the trimmed halves |
| Poly.CombinationEvaluate | src/polynomial.rs:29-36 | evaluation is linear: a coefficientwise e + k * o evaluates to e(y) + k * o(y) |
| Poly.FoldEvaluate | src/polynomial.rs:38-62 | at every field point y, `fold(alpha)(y) == even(y) + alpha * odd(y)` |
| Poly.FoldDegree | src/polynomial.rs:45-61 | for degree d >= 1 the fold has degree at most ceil((d+1)/2) - 1, strictly below d |
| Merkle.NextLevel | src/merkle.rs:18-31 | a level of n nodes has ceil(n/2) parents; parent k hashes nodes 2k and 2k + 1, and a lone last node is hashed with itself |
| Merkle.BuildTree | src/merkle.rs:13-34 | for a non-empty leaf list the recursion terminates; a single leaf is its own root |
| Merkle.BuildTwo | src/merkle.rs:13-34 | the root of two leaves is the hash of their concatenation |
| Merkle.BuildThree | src/merkle.rs:13-34 | with three leaves the third is paired with itself below the root |
| Merkle.Verify | src/merkle.rs:48-67 | with no siblings a proof verifies exactly when the leaf equals the root |
| Merkle.VerifyStep | src/merkle.rs:51-63 | verification consumes the first sibling, on the side the index parity chooses, and continues with the index unchanged |
| Merkle.VerifyDependsOnlyOnParity | src/merkle.rs:55-61 | two proofs with the same leaf, siblings and index parity get the same verdict |
| Merkle.ClimbZeroPath | src/merkle.rs:51-63 | re-hashing leaf 0 on the left with node 1 of every level reaches the root the tree builder computes |
| Merkle.RoundTripZero | src/merkle.rs:48-67 | the proof for leaf 0 made of node 1 of each level verifies against the built root, for every non-empty leaf list and any even index |
| Merkle.RoundTripTwoLeaves | src/merkle.rs:48-67 | in a two-leaf tree the proofs of both leaves verify against the root |
| Merkle.BuildFour | src/merkle.rs:13-34 | the root of four leaves hashes the two pair hashes together |
| Merkle.RoundTripLastOfFour | src/merkle.rs:48-67 | leaf 3 of four leaves, a right child at both levels, verifies with its true siblings despite the unhalved index |
| Merkle.UnhalvedIndexLeafOne | src/merkle.rs:55-61 | leaf 1 of four leaves verifies with its true siblings only if the two level-one hashes commute under the hash, because the odd index keeps it on the right at every level |
| Fri.GenerateDomain | src/FRI.rs:21-23 | the domain has `size` points; point i is reduced and congruent to i, equal to i below the modulus, and the points are pairwise distinct when size <= m |
| Fri.New | src/FRI.rs:10-19 | the prover keeps the modulus and polynomial and takes a domain of degree + 1 reduced points, point i congruent to i modulo m, and equal to i when the degree is below the modulus |

## Left out

- SHA-256 is not modelled. The hash is a parameter, and collision resistance is not assumed or used.
- Fri.Commit: only the degree-0 case is modelled. For any higher degree the loop body of `commit` is empty and the loop never ends, so there is no result to describe.
- Proof generation, a Fiat–Shamir transcript, the query phase and the verifier are not modelled. The Rust code defines none of them.
- A general Merkle round trip for leaves other than leaf 0 is not stated. Because the index is never halved, it does not hold in general: it holds for some leaves, such as leaf 3 of four (`Merkle.RoundTripLastOfFour`), and fails for others, such as leaf 1 of four (`Merkle.UnhalvedIndexLeafOne`).
- Field.FermatInverseMod7: Fermat's little theorem is checked only for the field of size 7. The general statement that `inverse(a) * a == one` for prime m and non-zero a is not proved.
- Field.Add, Field.Mul and the members built on them model u64 overflow as a precondition, not as a wrap-around. The operands must either be reduced with `MulSafe(m)`, or their sum or product must fit in a u64.
- Field.Inverse: the inverse law `inverse(a) * a == one` for prime m and non-zero a is not proved; it is checked only for m = 7 (`Field.FermatInverseMod7`).
- Field.Inverse requires m >= 2, because `m - 2` underflows a u64 below that. It also requires `MulSafe(m)`, so that the squarings inside `pow` cannot overflow.
- Field.Pow requires a reduced base and `MulSafe(m)`, so that no product overflows. With m = 1 and exponent 0 it returns the unreduced `one(1)`, and its value equation is guarded accordingly.
- Merkle.BuildTree requires a non-empty leaf list. On an empty list the Rust function recurses forever on empty levels.
- Fri.New requires a non-zero modulus, because reducing the first domain point by zero panics. It also requires fewer than 2^64 coefficients, which a Rust vector always satisfies.
- Polynomial evaluation, splitting and folding are stated for coefficients that are reduced elements of one field with a `MulSafe` modulus. The Rust code asserts equal moduli on every addition and multiplication.
- The Rust sources do not compile as written (misspelled `impl`/`Clone`, malformed operator impls, private fields read across modules, missing imports in the prover). The model follows the evident intended meaning.
