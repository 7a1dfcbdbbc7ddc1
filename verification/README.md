# A verified model of the chiavdf class-group VDF and its companions

The repository is a verifiable delay function over class groups of imaginary quadratic
fields (`chiavdf/`), a randomness beacon on top of it, and a loot-box protocol built on
polynomial commitments (`loot-box-protocol/`). This project models the arithmetic and the
protocols of that code in Dafny and proves what they are for: the fast routines compute
what the slow ones in the same repository define, provers and verifiers meet, two threads
share a form without races, and bookkeeping never loses a request.

`dafny verify dfyconfig.toml` checks everything. The files build on each other like this:

| layer | files | what it holds |
|---|---|---|
| integers | `wrappers`, `integers`, `words`, `congruences`, `primes` | division, gcd and powers with the rounding of the original calls; machine words with explicit wrap-around; primes and Fermat's theorem |
| forms | `forms`, `reduction` | the action of SL2(Z), proper equivalence, reduction, canonicity of reduced forms |
| composition | `composition`, `composition_classes`, `slow_arithmetic`, `nucomp`, `class_group` | Gauss composition as the specification; the reference `multiply` and `square`; NUCOMP and NUDUPL; the laws of the class group |
| gcds | `euclid`, `lehmer`, `xgcd_partial`, `gcd_tower` | the plain Euclidean algorithm as the specification; the word-by-word algorithms that refine it |
| fast reduction and codec | `reducer_steps`, `reducer`, `bqfc`, `bqfc_bytes`, `form_codec` | reduction by 64-bit approximations, its steps and its rounds; compressed forms and their byte layout; what a receiver makes of a byte string |
| squaring engine | `engine_sizes`, `squaring_engine`, `engine_threads` | how large coefficients can get; the phases of one squaring with failures and fallbacks; the two threads as a step system |
| proofs of time | `groups`, `wesolowski`, `prover`, `verifier`, `form_proofs`, `hash_search`, `nonces`, `aggregate` | Wesolowski proofs over an abstract abelian group, with hash and primality as uninterpreted functions; powers and verifiers on forms, tied to that group |
| bookkeeping | `proof_chains`, `scheduler` | reference-counted proof chains; preemptive scheduling of provers |
| separate cores | `lucas`, `primality`, `limbs`, `kzg` | the Lucas ladder and Miller-Rabin, and the primality test made of them; sign-magnitude limb arithmetic; KZG quotient division |

How the model relates to the code: a routine that overwrites `mpz_t` or form fields is a
method on a class with those fields, or a method with local variables where the original
only has temporaries; a loop of the original is a loop here; limb arrays are arrays.
`mpz_t` is `int`. `mpz_gcdext`, `mpz_sqrt` and `mpz_export` have the contracts of the
bignum library. Machine words carry explicit range claims or an explicit `Wrap`. The proof
systems work over an abstract group; its laws are proved of the reference multiplication of
forms (`ClassGroup.ClassGroupRealises`), and an engine's result is carried through to the
verifier on forms (`FormProofs.EvaluateAndVerify`).

Some findings, each stated and proved in the model:

- **Compression does not always round-trip.** `bqfc_decompr` inverts `bqfc_compr` on pairs with
  `-a < b <= a` exactly when `gcd(a, b)^2 != a` or `a == 1` (`Bqfc.RoundTrip`); the form (4, 2, 5) of
  discriminant -76 is lost (`Bqfc.UnrecoverableExample`). Forms with coprime `a` and `b` are
  always safe. Pairs with `|b| > a`, which the decoder can arrive at and compares with their own
  encoding, come back exactly when compression finds a common factor above 1 to divide out.
- **The decoder has inputs it does not check, and more than one string for a class.** Any string of
  100 bytes whose first one has the flag of identity or generator is accepted, whatever follows. Every
  other string is accepted exactly if it is the one encoding of a pair that survives compression, and
  the comparison is undefined exactly if the decoded pair has no encoding (`BqfcBytes.Deserialize`);
  the string of zeros is accepted, for the pair (0, 0) (`BqfcBytes.ZeroPairIsEncoded`). The pair need
  not be reduced, and `from_abd` reduces it before the test for being reduced, which
  therefore never refuses anything (`FormCodec.DeserializeForm`). A class has one string for each of its
  forms that comes back and has room (`FormCodec.StringsOfClass`, `FormCodec.Encode`): for D = -23 the identity has, besides
  the flagged string, those of (6, 1, 1), (8, -3, 1) and (8, -19, 12) (`FormCodec.IdentityStrings`).
- **The bucketed prover drops a term for small challenges.** It computes
  `x^floor(2^T/B)` if and only if `B > 2^(T mod k)` (`Wesolowski.PassesAreProofExponent`), and
  fails for one squaring, blocks of two bits and `B == 1` (`Wesolowski.SmallChallengeExample`).
  `GetB` always sets bit 263 of its challenges and `k` is at most 64, so no challenge of the
  code's own is too small (`Wesolowski.FullChallengeCovers`).
- **The long-division prover needs `B >= 2`**; for `B == 1` it falls behind
  (`Aggregate.DivisionIsExact`).
- **The generator search does not count.** Its byte increment stops at the first byte that
  wraps to zero instead of carrying. It adds one, modulo its size, exactly on strings of at
  most one byte (`Nonces.InvertedCounts`), which the search never uses for a discriminant of
  16 bits or more (`Nonces.GeneratorNeverCounts`); two zero bytes become two ones
  (`HashSearch.InvertedIncrementExample`). Still no nonce is lost: on n bytes the increments
  return to their start exactly after multiples of 256^n steps (`Nonces.Period`).
- **`ProverManager::Prove` does not test for gaps.** It selects, at each point, the longest
  slot that starts there, finished or not (`Verifier.Greedy`), and takes a gap exactly if one
  of those is unfinished (`Verifier.Prove`). What it waits for does not prevent that
  (`Verifier.GapIsTaken`); gaps that a finished longer segment covers do no harm
  (`Verifier.CoveredGapIsNotTaken`).
- **The slow squaring does not test its gcd.** On a primitive form it keeps the discriminant
  exactly if `gcd(a, b) == 1` (`SlowArithmetic.SquareKeepsDiscriminant`); (7, 7, 2), of the prime
  discriminant -7, leaves its class (`SquaringEngine.DerailedExample`). For a prime discriminant this
  needs `a >= |D|`. With the engine's own limit of 1027 bits and a discriminant of 2048 bits
  no run from a smaller `a` gets there (`SquaringEngine.RepeatedSquare`,
  `EngineSizes.ProductionSizesAreSafe`).
- **`Reducer::isReduced` admits `b == -a`.** On the form (1, -1, 6) of discriminant -23 the fast
  reducer ends at once without the canonical (1, 1, 6) (`FastReducer.BoundaryExample`). A finished run gives the
  canonical form on every class but those whose canonical form has `b == a < c` (`FastReducer.Run`), and on each of
  those it fails for some form (`FastReducer.MissesCanonical`). For a prime discriminant that is the
  identity class alone (`FastReducer.OnlyTheIdentity`). The verifiers are not affected: they multiply
  and compare canonical forms (`FormProofs.VerifyWesolowskiProof`).
- **`form::inverse` also has something to reduce when `a == c`**, not only when `|a| == |b|` as its comment
  says; in both cases the form is its own inverse (`ClassGroup.InverseOfReduced`).
- **`is_prime_bpsw` misses small primes.** A prime above 2 passes unless it is a factor of the
  products tried, or no discriminant of the Lucas test is a non-residue with 2q in range; 2 itself, which the
  code means to let through, is always rejected by the strong test (`Primality.IsPrimeBpsw`).

## Model

| member | source | states |
|---|---|---|
| Reduction.FormCell.Normalize | chiavdf/src/vdf_new.h:4-26 | normalisation in place gives the properly equivalent form with -a < b <= a |
| Reduction.FormCell.ReduceStep | chiavdf/src/vdf_new.h:28-40 | one reduction step in place is the flip and translation that gives a normal, properly equivalent form with the old c in front |
| Reduction.StepKeeps | chiavdf/src/vdf_new.h:28-68 | a step of the loop keeps definiteness and the class, and decreases a, or turns b positive on a tie |
| Reduction.FormCell.Reduce | chiavdf/src/vdf_new.h:42-68 | reduction terminates on every positive definite form and leaves the canonical form of its class |
| Reduction.Canon | chiavdf/src/vdf_new.h:42-68 | the result is reduced, positive definite and properly equivalent to the input |
| Forms.ReducedUnique | chiavdf/src/vdf_new.h:150-160 | two reduced positive definite forms that are properly equivalent are equal |
| Forms.ReducedMinimum | chiavdf/src/vdf_new.h:150-160 | a reduced form takes no value below c off the first axis |
| Forms.ActMul | chiavdf/src/vdf_new.h:4-68 | substituting twice is substituting by the product matrix |
| Forms.DiscAct | chiavdf/src/vdf_new.h:191-193 | a substitution multiplies the discriminant by the square of its determinant |
| Reduction.CanonDecidesClass | chiavdf/src/verifier.h:33 | comparing reduced forms decides proper equivalence, both directions |
| Reduction.FormCell.IsReduced | chiavdf/src/vdf_new.h:150-160 | the test is true exactly on reduced forms when a > 0 |
| Reduction.FromAbd | chiavdf/src/vdf_new.h:109-125 | succeeds exactly when a > 0 and 4a divides b*b - D, and then yields the canonical form of that class; both errors as in the source |
| Composition.CompositeRepresentsProducts | chiavdf/src/vdf_new.h:337-434 | a composite represents the product of any two values of the operands, at a bilinear point |
| Composition.ComposesDisc | chiavdf/src/vdf_new.h:337-434 | composition stays within one discriminant |
| Composition.ComposesUnique | chiavdf/src/vdf_new.h:337-434 | any two composites of the same two forms are properly equivalent |
| CompositionClasses.MultiplyRespectsClass | chiavdf/src/vdf_new.h:337-434 | for a squarefree discriminant, multiplication of equivalent forms gives the same reduced form |
| CompositionClasses.ComposesLeft | chiavdf/src/vdf_new.h:337-434 | replacing an operand by an equivalent one replaces the composite by an equivalent one |
| ClassGroup.CoprimeForm | chiavdf/src/vdf_new.h:337-434 | every class of content 1 has a form whose leading coefficient is coprime to a given number |
| ClassGroup.ConcordantComposite | chiavdf/src/vdf_new.h:337-434 | two forms with coprime leading coefficients and one middle coefficient have the composite with the product of the first and the same middle one |
| ClassGroup.Associative | chiavdf/src/vdf_new.h:337-434 | the reference multiplication of any three forms of a squarefree discriminant is associative |
| ClassGroup.IdentityIsUnit | chiavdf/src/vdf_new.h:138-140 | multiplying any form by the identity reduces it |
| ClassGroup.InverseIsInverse | chiavdf/src/vdf_new.h:162-167 | a form times its inverse is the identity |
| ClassGroup.InverseOfReduced | chiavdf/src/vdf_new.h:162-167 | on a reduced form the inverse only changes the sign of b, unless b == a or a == c, where the form is its own inverse |
| ClassGroup.ClassGroupRealises | chiavdf/src/vdf_new.h:337-442 | the reduced forms of a squarefree discriminant under the reference multiplication obey the laws that the proof systems assume of their group |
| ClassGroup.ProductOfClasses | chiavdf/src/vdf_new.h:337-442 | the product of any two forms is the group product of their classes |
| SlowArithmetic.SolveLinearCongruence | chiavdf/src/vdf_new.h:314-335 | mu solves a*x = b (mod m) in range and v is m over the gcd, under the divisibility the source asserts |
| SlowArithmetic.RawProduct | chiavdf/src/vdf_new.h:337-434 | the reference multiplication, before reduction, is a Gauss composite of its arguments |
| SlowArithmetic.FirstSolvable | chiavdf/src/vdf_new.h:337-434 | the first congruence of the multiplication is always solvable |
| SlowArithmetic.SecondSolvable | chiavdf/src/vdf_new.h:337-434 | the second congruence is always solvable |
| SlowArithmetic.SquareComposes | chiavdf/src/vdf_new.h:79-102 | with gcd(a, b) = 1 the reference squaring is a composite of the form with itself, of the same discriminant |
| SlowArithmetic.SquareKeepsDiscriminant | chiavdf/src/vdf_new.h:79-102 | on a primitive form the reference squaring keeps the discriminant if and only if gcd(a, b) = 1 |
| Nucomp.Nucomp | chiavdf/src/nucomp.h:54-192 | on either branch and under any aliasing the result is positive definite of discriminant D and reduces to what the reference multiplication returns; every exact division is exact |
| Nucomp.Nudupl | chiavdf/src/nucomp.h:215-325 | on either branch the result is positive definite of discriminant D and reduces to the reference product of the form with itself; a separate operand is left as it was |
| Nucomp.MultiplyIsSquare | chiavdf/src/vdf_new.h:79-102 | with gcd(a, b) = 1 that product is what the reference `square` gives after reduction |
| Nucomp.Congruences | chiavdf/src/nucomp.h:72-109 | the gcd steps of NUCOMP solve both congruences, also when the leading coefficients share factors |
| Nucomp.ReshapedEquiv | chiavdf/src/nucomp.h:125-190 | the partial branch's form is properly equivalent to the direct branch's, at whatever quotient the partial gcd stops |
| Nucomp.PartialMiddleExact | chiavdf/src/nucomp.h:125-190 | the division by co1 in the partial branch leaves no remainder |
| Nucomp.PartialBranch | chiavdf/src/nucomp.h:125-190 | the partial branch returns a form properly equivalent to the direct formula's |
| Nucomp.CompositeReducesToMultiply | chiavdf/src/nucomp.h:54-192 | any form in the class of a composite reduces to the reference product |
| Euclid.IterateInvariant | chiavdf/src/xgcd_partial.c:28-123 | every state of the extended run keeps both remainders as combinations of the start, alternating signs and determinant 1 |
| Euclid.ExchangedInvariant | chiavdf/src/xgcd_partial.c:28-123 | from a pair in the wrong order the first quotient is zero, and the invariant holds from the exchange on |
| Euclid.CrossProduct | chiavdf/src/xgcd_partial.c:28-123 | co2*r1 - co1*r2 is the larger starting value up to sign, throughout |
| Lehmer.AcceptedRemainder | chiavdf/src/xgcd_partial.c:65-71 | the acceptance inequalities on leading words bound the full remainders whatever the truncated parts are |
| Lehmer.AcceptedIsTrueQuotient | chiavdf/src/xgcd_partial.c:57-78 | an accepted single-word quotient is the true quotient of the full integers, and the invariant of the word loop is kept |
| XgcdPartial.WordsFit | chiavdf/src/xgcd_partial.c:57-78 | no intermediate value of the word loop leaves the range of a signed limb |
| XgcdPartial.RunFits | chiavdf/src/xgcd_partial.c:57-78 | the same for every state of the word loop, in whichever order the pair came |
| XgcdPartial.WordQuotients | chiavdf/src/xgcd_partial.c:54-78 | for a pair in either order the rows of the word loop carry the full state the same number of division steps ahead, never to remainder zero |
| XgcdPartial.Round | chiavdf/src/xgcd_partial.c:37-114 | one round of the outer loop is a positive number of plain division steps, and the remainder decreases |
| XgcdPartial.Partial | chiavdf/src/xgcd_partial.c:28-123 | for a pair in either order the result is the state of the plain algorithm after a determined number of steps, with r1 <= L; the sign corrections never apply; remainder zero is only reached from above L, unless the pair had it |
| Bqfc.Compress | chiavdf/src/bqfc.c:6-50 | for every pair with a > 0, and (0, 0), the fields are its one compression; on all but the special pairs they stand for it by a residue of t'*b up to the square root of a' |
| Bqfc.Decompress | chiavdf/src/bqfc.c:52-116 | on any fields, malformed ones included, the result is (a, b) exactly if the fields name it: a square root of D modulo a' raised by b0, or a == b for t == 0 |
| Bqfc.DecompressesUnique | chiavdf/src/bqfc.c:52-116 | fields name at most one pair |
| Bqfc.RoundTrip | chiavdf/src/bqfc.c:6-116 | decompression of the compression returns the pair if and only if a == b, or abs(b) < a and (a == 1 or gcd(a, b)^2 != a), or abs(b) >= a and there is a common factor to divide out |
| Bqfc.SurvivorsComeBack | chiavdf/src/bqfc.c:6-116 | for a pair with a root the condition on the fields and the condition on the pair are the same |
| Bqfc.SurvivesIff | chiavdf/src/bqfc.c:52-116 | decompression of a compression gives the pair exactly if its fields meet the condition, for every pair |
| Bqfc.LargeIsLost | chiavdf/src/bqfc.c:36-50 | without a common factor the quotient of abs(b) by a is not stored, and the pair is lost |
| Bqfc.CoprimeIsRecoverable | chiavdf/src/bqfc.c:6-116 | coprime a and b always survive |
| Bqfc.UnrecoverableExample | chiavdf/src/bqfc.c:6-116 | (4, 2, 5) of discriminant -76 does not survive |
| Bqfc.RootOfCompressed | chiavdf/src/bqfc.c:28-43 | the scaled remainder is at most the square root of a/g, and equal exactly when the gcd of a and b is the square root of a |
| Bqfc.RecoveredRoot | chiavdf/src/bqfc.c:84-107 | a residue below the square root is recovered by the modular root, and b is rebuilt from it and its quotient |
| Bqfc.LostRoot | chiavdf/src/bqfc.c:84-97 | a residue whose square is a' comes back as zero |
| Bqfc.CompressionUnique | chiavdf/src/bqfc.c:6-50 | a pair has one compression |
| BqfcBytes.Export | chiavdf/src/bqfc.c:118-128 | the field holds the little-endian bytes and zeros, and nothing else changes |
| BqfcBytes.PaddedReads | chiavdf/src/bqfc.c:118-128 | a padded number is read back |
| BqfcBytes.SerializeOnly | chiavdf/src/bqfc.c:162-181 | the buffer holds flags, size byte and the four fields, with what follows unchanged |
| BqfcBytes.FieldOrder | chiavdf/src/bqfc.c:162-181 | bit 0 of the first byte is the sign of b, bit 1 that of t, and no other is set; behind the size byte follow a, t, g and b0 in their widths |
| BqfcBytes.LayoutExample | chiavdf/src/bqfc.c:162-181 | a compressed form with its ten bytes written out, and the first byte for either sign alone |
| BqfcBytes.DeserializeOnly | chiavdf/src/bqfc.c:183-215 | the fields are those that the bytes name, and a size byte that leaves no room for t is rejected |
| BqfcBytes.LayoutReads | chiavdf/src/bqfc.c:162-215 | every compressed form that fits its widths is read back exactly, whatever follows it |
| BqfcBytes.CompressionFits | chiavdf/src/bqfc.c:149-161 | if a and the whole cofactor fit, every field fits its width however long g is, but for the quotient of a b above a, which then decides |
| BqfcBytes.ReducedIsShort | chiavdf/src/bqfc.c:149-161 | a reduced form's leading coefficient fits half the length of its discriminant |
| BqfcBytes.CofactorFits | chiavdf/src/bqfc.c:149-161 | the cofactor fits a quarter of the length unless the partial gcd stepped past the square root |
| BqfcBytes.Serialize | chiavdf/src/bqfc.c:222-245 | the 100 bytes are the unique encoding of the pair, special forms included; there is none exactly if its fields do not fit, and for short a and cofactor that is up to the quotient of b alone |
| BqfcBytes.EncodingUnique | chiavdf/src/bqfc.c:222-245 | a pair has at most one encoding |
| BqfcBytes.VerifyCanon | chiavdf/src/bqfc.c:247-256 | for any pair, abs(b) > a included, the comparison succeeds exactly on its encoding, and is undefined exactly if it has none |
| BqfcBytes.FirstByte | chiavdf/src/bqfc.c:222-272 | the encoding of the identity starts with 4 and that of the generator with 8, followed by zeros; every other starts with a byte below 4 |
| BqfcBytes.SurvivorsDecode | chiavdf/src/bqfc.c:52-116 | on the encoding of a pair decoding gives the pair exactly if it survives |
| BqfcBytes.Deserialize | chiavdf/src/bqfc.c:258-287 | any byte string: of a wrong size it is rejected, with a special flag it is that form, and otherwise it is accepted as (a, b) if and only if it is the encoding of (a, b) and that pair survives, and undefined for (a, b) if and only if it decodes to (a, b) and that has no encoding |
| BqfcBytes.ThroughBytes | chiavdf/src/bqfc.c:222-287 | a short pair with a > 0 comes back from the bytes if and only if it comes back from compression and its quotient has room; with -a < b <= a, if and only if it is recoverable |
| BqfcBytes.ZeroPairIsEncoded | chiavdf/src/bqfc.c:222-287 | a string of zeros is the encoding of (0, 0), and decodes to it |
| FormCodec.DeserializeForm | chiavdf/src/proof_common.h:52-64 | any byte string is received as g exactly if it is accepted as the leading coefficients of a form whose reduced form is g; the test for being reduced never refuses |
| FormCodec.StringsOfClass | chiavdf/src/proof_common.h:52-64 | the strings that lead to a class are those accepted as leading coefficients of any form in it |
| FormCodec.SendAndReceive | chiavdf/src/proof_common.h:44-64 | a form sent is received as its reduced form if and only if the leading coefficients of that are recoverable |
| FormCodec.Encode | chiavdf/src/proof_common.h:44-64 | every form that comes back and has room, reduced or not, has a string that leads to its class |
| FormCodec.SentString | chiavdf/src/proof_common.h:44-64 | the encoding of a reduced form leads to it if and only if it is recoverable |
| FormCodec.TwinsFit | chiavdf/src/bqfc.c:247-256 | the pairs (8, -3) and (8, -19) of discriminant -23 both have room and come back |
| FormCodec.IdentityStrings | chiavdf/src/proof_common.h:52-64 | three unflagged strings are received as the identity of discriminant -23 |
| FormCodec.FlaggedIdentity | chiavdf/src/proof_common.h:52-64 | so is the flagged string |
| ReducerSteps.CandidateStep | chiavdf/src/Reducer.h:219-234 | from small entries of determinant 1, a candidate that passes the or-test in wrap-around arithmetic again has small entries and determinant exactly 1 |
| ReducerSteps.AcceptedIsSmall | chiavdf/src/Reducer.h:229-232 | the or-test admits the threshold itself, but determinant 1 excludes it |
| ReducerSteps.AcceptedIsExact | chiavdf/src/Reducer.h:219-234 | despite the wrap-around, an accepted candidate is the product of the matrix before with the step of its quotient |
| ReducerSteps.NearestQuotient | chiavdf/src/Reducer.h:212 | within a word the quotient is a nearest one: it leaves abs(b') <= c, and is zero exactly for abs(b) below c |
| ReducerSteps.CalcUvwx | chiavdf/src/Reducer.h:199-241 | whatever the approximations, the matrix has determinant 1 and entries strictly below 2^31, and it is the product of the steps of a maximal run: each quotient is that of the coefficients before it, all but the last go on, and the run ends where the threshold or the order of a and c ends it |
| ReducerSteps.RunIsNoUnit | chiavdf/src/Reducer.h:199-241 | a run of at least one step from a form with abs(b) >= a or abs(b) >= c never ends on plus or minus the identity, even where the truncated coefficients have degenerated |
| ReducerSteps.FirstStepTaken | chiavdf/src/Reducer.h:205-235 | on approximations of nearly one size the first step is always within the threshold, so no run is empty |
| ReducerSteps.WindowIsFit | chiavdf/src/Reducer.h:67-87 | the approximations that the window makes of a definite form leave room for the arithmetic, are of nearly one size, and show a long middle coefficient |
| ReducerSteps.RoundMoves | chiavdf/src/Reducer.h:67-114 | on a form with abs(b) above a or c an approximate round applies a substitution other than plus or minus the identity |
| ReducerSteps.RunShrinks | chiavdf/src/Reducer.h:199-241 | on exact approximations of such a form a whole run makes a + c smaller |
| ReducerSteps.ShortIsExact | chiavdf/src/Reducer.h:72-86 | coefficients of at most 62 bits are seen exactly, up to one common factor |
| ReducerSteps.RoundShrinks | chiavdf/src/Reducer.h:67-114 | so on such a form every approximate round makes a + c smaller and leaves coefficients of at most 62 bits |
| Forms.AutomorphIsUnit | chiavdf/src/Reducer.h:67-114 | only plus and minus the identity leave a positive definite form alone, unless its discriminant is -3 or -4 times a square |
| ClassGroup.SquarefreeIsRigid | chiavdf/src/Reducer.h:67-114 | a squarefree discriminant 1 mod 4 other than -3 is not -3 or -4 times a square |
| FastReducer.MultipliersFit | chiavdf/src/Reducer.h:92-102 | all nine multipliers made from such a matrix fit a signed 64-bit word |
| FastReducer.ExactStep | chiavdf/src/Reducer.h:179-197 | the exact step is that of the reference reduction: the old c comes first and -a < b <= a; it keeps class and definiteness, is no unit substitution, and makes a + c smaller when abs(b) was above c |
| FastReducer.MatrixStep | chiavdf/src/Reducer.h:88-112 | the approximate step applies to the exact form the substitution of a maximal run on the approximations, of determinant 1 |
| FastReducer.IsReduced | chiavdf/src/Reducer.h:163-177 | true exactly when abs(b) is above neither a nor c, and then abs(b) <= a <= c after a change that keeps the class; a balanced form is left alone, and so is every form that it refuses, none of which is reduced |
| FastReducer.Run | chiavdf/src/Reducer.h:67-114 | any number of rounds keeps class and definiteness, and every unfinished round moves its form by a substitution other than plus or minus the identity; with coefficients of at most 62 bits the run ends within 2(a + c) + 1 rounds; a finished run gives the canonical form, or its twin on a class whose canonical form has b == a < c; a balanced form is returned as it is |
| FastReducer.RoundsChange | chiavdf/src/Reducer.h:67-114 | unless the discriminant is -3 or -4 times a square no round returns the form it got |
| FastReducer.BalancedIsCanonical | chiavdf/src/Reducer.h:163-177 | a balanced form is the canonical one of its class but for the twin of b == -a |
| FastReducer.MissesCanonical | chiavdf/src/Reducer.h:67-177 | on every class with b == a < c there is a form on which the reducer ends short of the canonical one |
| FastReducer.TwinIsBalanced | chiavdf/src/Reducer.h:163-177 | the twin (a, -a, c) of such a form is balanced, and reduces to it |
| FastReducer.BoundaryExample | chiavdf/src/Reducer.h:163-177 | (1, -1, 6) of discriminant -23 is balanced and not reduced |
| FastReducer.OnlyTheIdentity | chiavdf/src/Reducer.h:163-177 | for a negated prime discriminant only the identity has such a twin |
| GcdTower.GcdCell.GcdUnsignedSlow | chiavdf/src/gcd_unsigned.h:5-27 | the plain loop computes the run that the specification defines |
| GcdTower.SlowGcdStraddles | chiavdf/src/gcd_unsigned.h:5-27 | its result is a pair of consecutive remainders with a > threshold >= b |
| GcdTower.SlowGcdIsUnique | chiavdf/src/gcd_unsigned.h:5-27 | that pair, with its cofactors and parity, is the only one that division steps reach |
| GcdTower.SlowGcdSkips | chiavdf/src/gcd_unsigned.h:65-254 | taking any number of correct steps at once does not change the result while a stays above the threshold |
| GcdTower.ForcedSteps | chiavdf/src/gcd_128.h:171-196 | quotients found on other numbers are the true ones as soon as the last remainders they lead to are positive and decreasing |
| GcdTower.AcceptedPair | chiavdf/src/gcd_128.h:171-196 | the even or odd acceptance test on truncated heads makes the full remainders positive and decreasing |
| GcdTower.LehmerBatch | chiavdf/src/gcd_128.h:132-205 | an accepted batch of quotients of the heads is a run of true division steps of the full integers |
| GcdTower.HeadPairIsExact | chiavdf/src/gcd_128.h:142-167 | the 128-bit products and differences, taken with wrap-around, are the true head remainders |
| GcdTower.DivideTable | chiavdf/src/gcd_base_divide_table.h:44-95 | division by table lookup and correction is exact division |
| GcdTower.OnlyOneHalfMatters | chiavdf/src/gcd_base_divide_table.h:166-188 | the base case's combined test is the alternating test of the right parity |
| GcdTower.BaseQuotients | chiavdf/src/gcd_base_divide_table.h:114-229 | the single-word base case returns a matrix of true leading quotients with entries below 2^31 |
| GcdTower.Gcd128 | chiavdf/src/gcd_128.h:4-250 | progress means a positive number of true division steps of the full integers, with the matrix magnitudes and parity that belong to them |
| GcdTower.GcdCell.FastLoop | chiavdf/src/gcd_unsigned.h:65-220 | a valid end equals the slow gcd; an invalid one above the threshold still leads to the same slow gcd |
| GcdTower.GcdCell.GcdUnsigned | chiavdf/src/gcd_unsigned.h:39-254 | the fast gcd with its fallback equals the slow gcd: remainders, cofactors and parity |
| EngineSizes.ValueIsBounded | chiavdf/src/vdf_fast.h:550-850 | a value of the form at a remainder at most L and its cofactor is at most ((2L^2 + abs(b))^2 - D) / (4L^2) |
| EngineSizes.StaysBelow | chiavdf/src/vdf_fast.h:200-224 | within the limit of bits and safe sizes the new leading coefficient is below abs(D) |
| EngineSizes.FourthRootIsSafe | chiavdf/src/vdf_client.cpp:152 | for a discriminant of 2k + 2 bits, its fourth root and a limit of k + 4 bits are safe sizes, for all k >= 7 |
| EngineSizes.ProductionSizesAreSafe | chiavdf/src/parameters.h:195-246 | the limit the engine is compiled with is safe for every discriminant of at least 2048 bits |
| SquaringEngine.PartialGcd | chiavdf/src/vdf_fast.h:450-548 | the remainders stop with r1 <= L < r2 at a state of the plain algorithm, when a > L |
| SquaringEngine.EngineMatchesNudupl | chiavdf/src/vdf_fast.h:550-850 | the formulas of the engine's phases give the coefficients of NUDUPL's partial branch, up to the sign of a |
| SquaringEngine.Arithmetic | chiavdf/src/vdf_fast.h:187-850 | when the first gcd is 1 the phases' results are coefficients of a square of the form, with a bounded leading one |
| SquaringEngine.NormalisedSquare | chiavdf/src/vdf_fast.h:770-849 | taking b modulo 2a keeps discriminant and class, so the next form is in the class of the square |
| SquaringEngine.SquareState.Iterate | chiavdf/src/vdf_fast.h:770-849 | an iteration completes if and only if no phase fails, the sizes fit and gcd(a, b) = 1, and then extends the history of squarings by one; otherwise the history is kept, and corruption is recorded exactly for a spoiling failure or a common factor |
| SquaringEngine.SizesAsNumbers | chiavdf/src/vdf_fast.h:215-233 | the sizes fit exactly if abs(a) and abs(b) are below 2^maxBits and abs(a) is at least the power of 2^64 that L is below |
| SquaringEngine.SquareState.Assign | chiavdf/src/vdf_fast.h:919-955 | without corruption the start form squared num_valid_iterations times comes back, at whatever point a batch stopped |
| SquaringEngine.HistoryIsPower | chiavdf/src/vdf_fast.h:919-955 | the n-th form of a history is in the class of the start form squared n times |
| SquaringEngine.RunBatch | chiavdf/src/vdf_fast.h:1007-1057 | a batch stops exactly at the first iteration that does not complete, and is corrupted exactly if that one corrupts it |
| SquaringEngine.RepeatedSquareFast | chiavdf/src/vdf_fast.h:1077-1149 | the form is advanced by the completed iterations of the batch, or left alone exactly if the iteration that stopped it corrupted it; with safe sizes a stays below abs(D) |
| SquaringEngine.RepeatedSquareOriginal | chiavdf/src/vdf.h:83-100 | the slow batch squares the form as often as it reports, which is every time asked for unless it then stands at a form with gcd(a, b) other than 1 |
| SquaringEngine.OneBatch | chiavdf/src/vdf.h:140-185 | a batch with its fallbacks squares the form as often as it counts, at least once, unless it stands at a form with a common factor; with safe sizes a stays below abs(D) |
| SquaringEngine.RepeatedSquare | chiavdf/src/vdf.h:103-187 | over any number of batches, with any failures and fallbacks, the form is the start form squared num_iterations times; the run ends early only at a form with gcd(a, b) other than 1, and never with a prime discriminant, safe sizes and a start below abs(D) |
| SquaringEngine.DerailedIsLarge | chiavdf/src/vdf.h:83-100 | for a prime discriminant gcd(a, b) other than 1 needs a >= -D, so never on a reduced form |
| SquaringEngine.CommonFactorDerails | chiavdf/src/vdf_new.h:79-102 | on a primitive form a common factor of a and b always changes the discriminant |
| SquaringEngine.DerailedExample | chiavdf/src/vdf_new.h:79-102 | (7, 7, 2), of the prime discriminant -7, is squared to another discriminant |
| SquaringEngine.PrimeIsSquarefree | chiavdf/src/vdf_new.h:195-204 | a negated prime discriminant is squarefree |
| EngineThreads.GeIsNumeric | chiavdf/src/threading.h:599-660 | comparing counters is comparing iterations first and offsets second |
| EngineThreads.ReachableInv | chiavdf/src/vdf_fast.h:1007-1057 | every interleaving of the two threads, with failures at any time, keeps the ownership invariant |
| EngineThreads.NoRace | chiavdf/src/threading.h:570-752 | in no reachable state may one thread write a field that the other accesses, including streamed gcd entries, the corruption flag and the listener between iterations |
| EngineThreads.DataFlow | chiavdf/src/vdf_fast.h:187-854 | every read sees the value of its own iteration, complete, and the current slot holds as many squarings as were counted |
| EngineThreads.NoDeadlock | chiavdf/src/threading.h:605-634 | without an error the two threads never wait for each other: one can step, or both are through, or a gcd is out of room for entries |
| EngineThreads.MasterKeepsInv | chiavdf/src/vdf_fast.h:187-255 | each step of the master keeps the invariant |
| EngineThreads.SlaveKeepsInv | chiavdf/src/vdf_fast.h:258-448 | each step of the slave keeps the invariant |
| Groups.FastPow | chiavdf/src/proof_common.h:111-134 | square-and-multiply from the top bit gives the power |
| Groups.SquareN | chiavdf/src/prover_parallel.hpp:17-23 | n squarings give the power 2^n |
| Groups.PowProduct | chiavdf/src/verifier.h:14-42 | powers distribute over products in a commutative group |
| Wesolowski.BlockIsDigit | chiavdf/src/prover_base.hpp:32-38 | a block is the base-2^k digit of floor(2^T/B) at its position, and fits its word |
| Wesolowski.DigitsTelescope | chiavdf/src/prover_base.hpp:32-104 | the first n digits and the remaining quotient make up the exponent |
| Wesolowski.AllDigits | chiavdf/src/prover_base.hpp:32-104 | all digits sum to the exponent less a part that vanishes if and only if B > 2^(T mod k) |
| Wesolowski.PassesAreDigits | chiavdf/src/prover_base.hpp:40-104 | the passes over residues, last to first with squarings between them, add up to the digit sum |
| Wesolowski.PassesSplit | chiavdf/src/prover_parallel.hpp:25-107 | a range of passes splits anywhere, the upper part shifted by the lower part's squarings |
| Wesolowski.PassesAreProofExponent | chiavdf/src/prover_base.hpp:40-104 | the prover's exponent is floor(2^T/B) if and only if B > 2^(T mod k) |
| Wesolowski.ChallengeCovers | chiavdf/src/prover_base.hpp:40-104 | every challenge of at least k bits meets that condition |
| Wesolowski.FullChallengeCovers | chiavdf/src/proof_common.h:75-81 | so does every challenge with bit 263 set, which the verifier's own have, for blocks of at most 64 bits |
| Wesolowski.SmallChallengeExample | chiavdf/src/prover_base.hpp:40-104 | for one squaring, blocks of two bits and the challenge 1 the exponents differ |
| Provers.TwoPasses | chiavdf/src/prover_base.hpp:81-99 | the row and column passes over the buckets together weight each bucket by its index |
| Provers.Prover.Gather | chiavdf/src/prover_base.hpp:64-79 | the buckets hold the powers that the digits of one residue name |
| Provers.Prover.Combine | chiavdf/src/prover_base.hpp:81-99 | the accumulator is multiplied by the product of ys[b]^b |
| Provers.Prover.GenerateProof | chiavdf/src/prover_base.hpp:40-104 | the proof is x^floor(2^T/B) whenever B > 2^(T mod k), and in every case the power that the digits add up to |
| Provers.Prover.ProvePart | chiavdf/src/prover_parallel.hpp:25-87 | a thread's share is its range of passes, shifted into place by squarings |
| Provers.Prover.ParallelGenerateProof | chiavdf/src/prover_parallel.hpp:89-108 | the two shares multiply to the element that the single-threaded prover computes |
| Verifier.ProofLeadsToResult | chiavdf/src/verifier.h:14-42 | proof^B * x^(2^T mod B) = x^(2^T) for the proof x^floor(2^T/B) |
| Verifier.FastPowModular | chiavdf/src/proof_common.h:66-73 | the result is 2^b mod c, and c == 0 is the only failure |
| Verifier.VerifyWesoSegment | chiavdf/src/verifier.h:14-24 | the end it computes is proof^B * x^(2^T mod B), and a segment is accepted exactly when B is the challenge of its start and that end; B == 0 divides by zero |
| Verifier.VerifyWesolowskiProof | chiavdf/src/verifier.h:26-42 | accepts exactly when B > 0 and proof^B * x^(2^T mod B) == y for the challenge B of x and y, and divides by zero exactly when B == 0 |
| Verifier.OneResult | chiavdf/src/verifier.h:26-42 | under one proof and one challenge at most one y is accepted |
| Verifier.WrongResultRefused | chiavdf/src/verifier.h:26-42 | the proof x^floor(2^T/B) is refused for every y other than x^(2^T) |
| Verifier.NeutralProof | chiavdf/src/verifier.h:26-42 | with the neutral element as the proof and a challenge above 2^T exactly x^(2^T) is accepted |
| Verifier.CheckProofOfTimeNWesolowski | chiavdf/src/verifier.h:44-77 | accepts exactly when the number of links is the depth and there are elements from x on such that every link holds its equation with the challenge of the elements it connects, and the last segment holds its own for the iterations that are left |
| Verifier.AcceptedChain | chiavdf/src/verifier.h:44-77 | the recursive reading of a chain from its last link accepts exactly when such elements exist |
| Verifier.HonestChainAccepted | chiavdf/src/verifier.h:44-77 | every chain of honest segments of any length is accepted |
| Verifier.GreedyChains | chiavdf/src/vdf.h:452-472 | when none of the selected slots is a gap, the selected segments tile the iterations up to where the selection ends |
| Verifier.GreedyEndsWhole | chiavdf/src/vdf.h:452-472 | the selection ends on a multiple of the smallest size, and there only for want of slots or of room |
| Verifier.CoveredReaches | chiavdf/src/vdf.h:473 | when the slots of the smallest size reach the last whole segment, so does the selection |
| Verifier.Assemble | chiavdf/src/vdf.h:452-472 | the segments taken size by size are the greedy selection, slot by slot, and reach as far |
| Verifier.Prove | chiavdf/src/vdf.h:400-502 | a proof is made if and only if the selection has at most 63 segments, reaches the last whole one and contains no gap, and then it is accepted and has at most 63 links; otherwise the outcome tells exactly which of these failed |
| Verifier.GapIsTaken | chiavdf/src/vdf.h:576-606 | with a large segment finished before the small ones under it, all that a proof waits for has happened and yet gaps are taken |
| Verifier.CoveredGapIsNotTaken | chiavdf/src/vdf.h:576-578 | gaps that a finished larger segment covers are not taken |
| Verifier.ProveSlow | chiavdf/src/prover_slow.h:82-111 | squaring, checkpointing and proving with either prover gives the result x^(2^T) and the power x^floor(2^T/B), which the verifier accepts |
| Verifier.SquareWithCheckpoints | chiavdf/src/prover_slow.h:92-104 | the stored forms are the powers at multiples of k*l |
| FormProofs.FastPowFormNucomp | chiavdf/src/proof_common.h:111-134 | the form is in the class of x to the power of n, for every n, wherever the reducer stops in between; once the last reduction is finished it is balanced |
| FormProofs.VerifyWesoSegment | chiavdf/src/verifier.h:14-24 | on forms of any representation the verdict on a segment and its end are those of the class group |
| FormProofs.VerifyWesolowskiProof | chiavdf/src/verifier.h:26-42 | on forms of any representation it accepts exactly when B > 0 and the class of proof^B * x^(2^T mod B) is that of y, for the challenge B of the canonical forms |
| FormProofs.WrongSquareRefused | chiavdf/src/verifier.h:26-42 | for D = -23 and one squaring of (2, 1, 3) the result (1, 1, 6) with proof (1, 1, 6) is refused, whatever the challenge above 2 |
| FormProofs.SquareIsNotNeutral | chiavdf/src/verifier.h:26-42 | a reduced form that is not its own inverse has a square other than the identity |
| FormProofs.CheckProofOfTimeNWesolowski | chiavdf/src/verifier.h:44-77 | on received forms it accepts exactly when the number of links is the depth and the chain of their classes connects and holds its last equation |
| FormProofs.SquaredIsPower | chiavdf/src/vdf.h:103-187 | n squarings from a form are its class to the power of 2^n |
| FormProofs.Evaluate | chiavdf/src/vdf.h:103-187 | whatever faults occur, the engine ends on the start form to the power of 2 to the number of squarings it reports |
| FormProofs.EvaluateAndVerify | chiavdf/src/verifier.h:26-42 | the engine's result with the proof made for its number of squarings is accepted by the verifier on forms |
| HashSearch.NextCounts | chiavdf/src/proof_common.h:23-28 | the prime search's increment counts, modulo its size |
| HashSearch.InvertedIncrementExample | chiavdf/src/aggvdf/aggutil.h:159-164 | the generator search's increment sets two zero bytes to one, where counting gives 1 |
| Nonces.InvertedCounts | chiavdf/src/aggvdf/aggutil.h:159-164 | the generator search's increment adds one, modulo its size, if and only if the string has at most one byte |
| Nonces.GeneratorNeverCounts | chiavdf/src/aggvdf/aggutil.h:137-164 | on the seeds that the search makes for a discriminant it adds one if and only if that has fewer than 16 bits |
| Nonces.NextInjective | chiavdf/src/aggvdf/aggutil.h:159-164 | different nonces of one length have different successors |
| Nonces.Period | chiavdf/src/aggvdf/aggutil.h:159-164 | the increments return to a nonce of n bytes exactly after multiples of 256^n steps |
| Nonces.GeneratorRoundsDiffer | chiavdf/src/aggvdf/aggutil.h:137-199 | any 256^n consecutive rounds of the search hash different nonces |
| HashSearch.Increment | chiavdf/src/aggvdf/aggutil.h:159-164 | the in-place increment is the stated successor of the bytes, for both stopping rules |
| HashSearch.HashPrimeFrom | chiavdf/src/aggvdf/aggutil.h:290-373 | the search returns the first prime candidate from the given round on, and its round |
| HashSearch.HashPrimeWithIteration | chiavdf/src/aggvdf/aggutil.h:290-328 | the first prime candidate of all and the round it was found in |
| HashSearch.HashPrimeFast | chiavdf/src/aggvdf/aggutil.h:330-373 | the first prime candidate from the recorded round on |
| HashSearch.RecordedRound | chiavdf/src/aggvdf/aggutil.h:290-373 | starting at the recorded round, the fast search ends in that round |
| HashSearch.RootGivesForm | chiavdf/src/aggvdf/aggutil.h:175-196 | for a = 3 (mod 4) that passes the test of D the computed b is odd, 0 < b < a and 4a divides b*b - D |
| HashSearch.ResidueTest | chiavdf/src/aggvdf/aggutil.h:177-183 | on a prime a = 3 (mod 4) the test accepts exactly the D that a does not divide and that are squares modulo a |
| HashSearch.OddRootIsUnique | chiavdf/src/aggvdf/aggutil.h:175-196 | the computed b is the only odd root of D between 0 and a prime a |
| HashSearch.BitIsParity | chiavdf/src/aggvdf/aggutil.h:172-173 | the bit that is set is the parity of what is left of the number above it |
| HashSearch.GeneratorBytes | chiavdf/src/aggvdf/aggutil.h:157-173 | a candidate is the hash of the next nonce with its two low bits set |
| HashSearch.HashToGroup | chiavdf/src/aggvdf/aggutil.h:137-199 | returns the canonical form over the first candidate that is prime and has D as a residue, with its round |
| HashSearch.HashToGroupFast | chiavdf/src/aggvdf/aggutil.h:201-265 | from the recorded round returns the same form, and the identity if that candidate is not prime; a prime without a root, or no such round, is searched past for any number of rounds |
| HashSearch.FormIsUnique | chiavdf/src/aggvdf/aggutil.h:137-265 | leading coefficients and discriminant determine the canonical form, so both searches agree |
| Aggregate.DivisionIsExact | chiavdf/src/aggvdf/aggutil.h:268-285 | the long division reaches floor(2^T/B) and 2^T mod B for B >= 2, and falls short for B == 1 |
| Aggregate.PowFormWithQuotient | chiavdf/src/aggvdf/aggutil.h:268-285 | the square-and-multiply along the long division gives g^floor(2^T/B) for B >= 2 |
| Aggregate.IndexBytes | chiavdf/src/aggvdf/aggutil.h:15-22 | an instance number has four bytes, the highest first, which stand for it modulo 2^32 |
| Aggregate.DifferentInstances | chiavdf/src/aggvdf/aggvdf.h:79-82 | different instances below 2^32 hash different strings |
| Aggregate.OneWeight | chiavdf/src/aggvdf/aggvdf.h:79-87 | over one instance the weighted product is its element to the power of the hash of its four bytes before the transcript |
| Aggregate.OneTranscript | chiavdf/src/aggvdf/aggvdf.h:61-69 | for one instance the transcript is the generator followed by the result |
| Aggregate.TranscriptSplit | chiavdf/src/aggvdf/aggvdf.h:61-69 | the transcript of a list is that of its beginning followed by that of the rest |
| Aggregate.TranscriptBinds | chiavdf/src/aggvdf/aggvdf.h:61-69 | with serializations of one length that differ for different elements, equal transcripts have equal generators and results |
| Aggregate.ChallengeBytes | chiavdf/src/aggvdf/aggutil.h:290-328 | a challenge is the first 33 bytes of the hashes of the next two counters with bits 263 and 0 set |
| Aggregate.ChallengeShape | chiavdf/src/aggvdf/aggutil.h:290-328 | every challenge is odd and has exactly 264 bits |
| Aggregate.WeightedSplit | chiavdf/src/aggvdf/aggvdf.h:156-188 | the weighted product over a range is the product over its parts |
| Aggregate.WeightedPower | chiavdf/src/aggvdf/aggvdf.h:45-93 | the weighted product of powers is the power of the weighted product |
| Aggregate.SlicesMeet | chiavdf/src/aggvdf/aggvdf.h:128-138 | the threads' slices follow one another from 0 to n |
| Aggregate.ThreadedProduct | chiavdf/src/aggvdf/aggvdf.h:156-188 | the slices' products multiply to the product over all instances |
| Aggregate.AggregateVdfProofs | chiavdf/src/aggvdf/aggvdf.h:45-93 | the proof is agg_g^floor(2^T/B) for the first prime challenge of the transcript, and the round is recorded |
| Aggregate.VerifyAggProof | chiavdf/src/aggvdf/aggvdf.h:111-202 | for any number of threads it accepts exactly when proof^B * agg_x^(2^T mod B) == agg_y for the weighted products of generators and results, B the first prime challenge from the claimed round on |
| Aggregate.OneProduct | chiavdf/src/aggvdf/aggvdf.h:111-202 | under one transcript, one proof and one challenge at most one weighted product of results is accepted |
| Aggregate.ClaimPasses | chiavdf/src/aggvdf/aggvdf.h:111-202 | the prover's element for claimed results passes exactly if their weighted product is that of the true results, the weights being those of the claim |
| Aggregate.ExchangedResults | chiavdf/src/aggvdf/aggvdf.h:111-202 | two results in each other's place are accepted exactly if y1^alpha0 * y0^alpha1 == y0^alpha0 * y1^alpha1 |
| Aggregate.HonestAggregatePasses | chiavdf/src/aggvdf/aggvdf.h:111-202 | the honest aggregate satisfies the equation for every challenge |
| Aggregate.EvalAggVdf | chiavdf/src/aggvdf/aggvdf.h:16-29 | the output is the generator of the first suitable round squared t times |
| Aggregate.AggregateAndVerify | chiavdf/src/aggvdf/aggvdf.h:45-202 | an honest aggregate proof is accepted for any number of instances and of threads |
| ProofChains.VdfState.constructor | chiavdf/src/hw/hw_proof.cpp:776-830 | an empty state is consistent and has no outstanding request |
| ProofChains.VdfState.RequestProof | chiavdf/src/hw/hw_proof.cpp:384-388 | the request is inserted, the pending list stays sorted and gains exactly it |
| ProofChains.VdfState.ProcessReq | chiavdf/src/hw/hw_proof.cpp:300-377 | the state stays consistent, with every live unstarted proof in the queue, and no request is lost or doubled; exactly the queued requests for as many iterations or more are cancelled; the first pending one is then queued with its plan of checkpoints on the last eligible base, each proof of whose chain gains a reference, and the queue is the old one with exactly these added |
| ProofChains.VdfState.SortQueue | chiavdf/src/hw/hw_proof.cpp:373-376 | the queue is put in order of iterations and keeps its elements |
| ProofChains.VdfState.QueueRequest | chiavdf/src/hw/hw_proof.cpp:331-371 | a request goes into the queue on the last eligible base, with its plan of checkpoints between them and a reference taken at every proof of the base's chain |
| ProofChains.PlanIsWhole | chiavdf/src/hw/hw_proof.cpp:348-371 | the planned segments, three at most, make up the whole, and all but the last are multiples of the interval |
| ProofChains.PlanShares | chiavdf/src/hw/hw_proof.cpp:350-369 | one segment up to 1,000,000 iterations; two up to 4,000,000, the first of 75 per cent; beyond, three, the first of 69 and the first two of 92 per cent, rounded down to the interval |
| ProofChains.VdfState.QueueSegments | chiavdf/src/hw/hw_proof.cpp:348-371 | exactly the slots of the plan are added to table and queue, each on top of the one before, the last being the request |
| ProofChains.VdfState.QueueProof | chiavdf/src/hw/hw_proof.cpp:209-231 | the new slot's iterations are its segment's plus its predecessor's, with one reference and one more segment in its chain |
| ProofChains.VdfState.FindBase | chiavdf/src/hw/hw_proof.cpp:331-346 | the last queued checkpoint of at most as many iterations and at most 61 segments, and none exactly if every queued proof is a request, goes beyond it or is longer |
| ProofChains.VdfState.ChooseBase | chiavdf/src/hw/hw_proof.cpp:331-346 | that checkpoint becomes the base, every proof of its chain gains one reference, and nothing else changes |
| ProofChains.VdfState.IncRef | chiavdf/src/hw/hw_proof.cpp:243-249 | every proof down the chain gains one reference and nothing else changes |
| ProofChains.VdfState.ReleaseChain | chiavdf/src/hw/hw_proof.cpp:257-271 | every proof of the cancelled request's chain down to a started one loses one reference and nothing else changes; exactly the unreferenced proofs are marked for deletion |
| ProofChains.VdfState.DeleteAll | chiavdf/src/hw/hw_proof.cpp:273-290 | exactly the unreferenced proofs are erased and dequeued, and no live proof is left pointing at an erased slot |
| ProofChains.VdfState.DecRef | chiavdf/src/hw/hw_proof.cpp:251-292 | the state stays consistent and exactly the listed requests disappear; every proof gives back what the cancelled chains hold of it, and is deleted exactly if that is all |
| ProofChains.VdfState.CancelLater | chiavdf/src/hw/hw_proof.cpp:317-329 | exactly the queued requests for that many iterations or more are cancelled, what their chains held is given back and no such request is left in the queue; they go back among the pending ones, so that for every iteration count the number outstanding is unchanged |
| ProofChains.ListedAreGone | chiavdf/src/hw/hw_proof.cpp:251-292 | a cancelled request is deleted, because its chain held its only reference |
| ProofChains.VdfState.CountSegments | chiavdf/src/hw/hw_proof.cpp:233-241 | the walk counts the segments of the chain |
| ProofChains.VdfState.StartNext | chiavdf/src/hw/hw_proof.cpp:410-438 | the first queued proof is marked started and leaves the queue, everything else is kept |
| ProofChains.VdfState.Finish | chiavdf/src/hw/hw_proof.cpp:713-720 | the proof is marked done and a request is reported as done, everything else is kept |
| ProofChains.VdfState.Retrieve | chiavdf/src/hw/hw_proof.cpp:734-774 | a proof is handed out, once, only if every proof of its chain is done, with the right number of links, at most 63; none only if no chain is done |
| ProofChains.ChainDoneIs | chiavdf/src/hw/hw_proof.cpp:755-765 | the walk's reading of a finished chain holds exactly if every proof of the chain is done |
| ProofChains.ChainIs | chiavdf/src/hw/hw_proof.cpp:233-241 | a chain is closed under predecessors and has as many proofs as the walk counts |
| ProofChains.OpenChainIs | chiavdf/src/hw/hw_proof.cpp:257-271 | what a cancelled request gives back are the proofs of its chain above the last started one |
| ProofChains.PushStructured | chiavdf/src/hw/hw_proof.cpp:209-231 | a new proof keeps every structural rule: link, iteration sum, checkpoint multiple and chain length of at most 64 |
| ProofChains.DecrementCounted | chiavdf/src/hw/hw_proof.cpp:257-271 | giving back one reference passes the spare one on to the predecessor |
| ProofChains.IncrementCounted | chiavdf/src/hw/hw_proof.cpp:243-249 | taking one reference asks the predecessor for the next |
| ProofChains.PushCounted | chiavdf/src/hw/hw_proof.cpp:209-231 | a new proof with one reference uses up what its predecessor had to spare |
| ProofChains.CleanedLinked | chiavdf/src/hw/hw_proof.cpp:273-290 | deleting unreferenced proofs leaves no live proof with a deleted predecessor |
| ProofChains.CleanedCounted | chiavdf/src/hw/hw_proof.cpp:273-290 | deletion keeps the counts right, exact for unstarted proofs, and leaves every live proof referenced |
| ProofChains.CheckpointIsNeeded | chiavdf/src/hw/hw_proof.cpp:251-292 | on every checkpoint that has not started hangs a request or a started proof, so none waits in vain |
| Scheduler.ProverManager.AppendArrived | chiavdf/src/vdf.h:632-651 | each bucket receives exactly the consecutive segments that the finished iterations complete |
| Scheduler.ProverManager.FindBest | chiavdf/src/vdf.h:660-681 | the segment found is the shortest, and among those of its length the earliest, of the paused ones and the heads of the queues; none is found exactly if nothing waits |
| Scheduler.ProverManager.FindWorst | chiavdf/src/vdf.h:691-700 | the segment found is the longest, and among those of its length the latest, of the running ones |
| Scheduler.ProverManager.Spawn | chiavdf/src/vdf.h:711-725 | starting or resuming a segment adds one running prover and keeps every segment's rank |
| Scheduler.ProverManager.Pause | chiavdf/src/vdf.h:701-705 | pausing removes one running prover and keeps every segment's rank |
| Scheduler.ProverManager.Schedule | chiavdf/src/vdf.h:652-726 | the pass terminates, never exceeds the thread limit and loses no segment; unless stopped, every running segment is shorter than every waiting one, or as long and no later, and no thread is free while one waits |
| Scheduler.BetterRank | chiavdf/src/util.h:57-68 | a better segment has a smaller rank, which is why preemption terminates |
| Scheduler.RunningCounts | chiavdf/src/vdf.h:652-657 | the number of running provers is that of the places whose prover is not paused |
| Lucas.VFromU | chiavdf/src/primetest.h:60-99 | V_n = 2*U_(n+1) - p*U_n |
| Lucas.UAdd | chiavdf/src/primetest.h:60-99 | the addition formula of the Lucas sequence |
| Lucas.UDouble | chiavdf/src/primetest.h:66-92 | the three doubling formulas that the ladder uses |
| Lucas.Rung | chiavdf/src/primetest.h:66-92 | one step of the ladder takes (U_n, U_(n+1)) to the pair for 2n or 2n+1 modulo m |
| Lucas.FindLucasV | chiavdf/src/primetest.h:60-99 | the result is congruent to V_e(p, q) modulo m for every e >= 1 and m > 0 |
| Lucas.IsVprp | chiavdf/src/primetest.h:101-123 | true exactly when V_(n+1) = 2q (mod n) with 2q in range, and hence on every odd prime for which p*p - 4q is no residue |
| Lucas.LucasAtPrime | chiavdf/src/primetest.h:101-123 | modulo an odd prime n, V_n is p and U_n is (p*p - 4q)^((n-1)/2) |
| Lucas.PrimesPassLucasTest | chiavdf/src/primetest.h:101-123 | every odd prime for which p*p - 4q is no residue meets the condition of the test |
| Lucas.MillerRabin | chiavdf/src/primetest.h:6-25 | true exactly on strong probable primes to the base, for odd n >= 3; on 2 exactly for odd bases; on every prime that does not divide the base |
| Lucas.PrimesPassStrongTest | chiavdf/src/primetest.h:6-25 | every odd prime is a strong probable prime to every base it does not divide |
| Primes.Fermat | chiavdf/src/primetest.h:6-25 | x^p = x modulo a prime p, for x of any sign |
| Primality.FindPQ | chiavdf/src/primetest.h:29-50 | the parameters belong to the first discriminant in the sequence 5, -7, 9, ... below the limit with symbol -1, and none exactly if there is none |
| Primality.ParametersOfCandidate | chiavdf/src/primetest.h:29-50 | p*p - 4q is that discriminant, which is 5 + 2k up to sign and 1 (mod 4); p is 5 for the first one and 1 for the others |
| Primality.TriedExamples | chiavdf/src/primetest.h:138-169 | five products are tried for the smallest numbers, all from 16 limbs on, and an eighth of the rest for 8 limbs |
| Primality.IsPrimeBpsw | chiavdf/src/primetest.h:138-169 | the answer is the conjunction of trial division, strong test and Lucas test; a prime above 2 is accepted exactly if it is in none of the products tried and has parameters in range; 2 never is |
| Limbs.AddCarry | chiavdf/src/gpu_integer.h:4-12 | the limb and the carry are the sum |
| Limbs.TwoLimbs | chiavdf/src/gpu_integer.h:168-251 | two limbs x and y stand for x + y*base |
| Limbs.MagnitudeInjective | chiavdf/src/gpu_integer.h:168-251 | limbs of one length that stand for the same number are the same |
| Limbs.FirstPass | chiavdf/src/gpu_integer.h:204-216 | the first pass adds the other operand or its complement, limb by limb, also in place |
| Limbs.Negate | chiavdf/src/gpu_integer.h:234-250 | the second pass takes the magnitude's complement |
| Limbs.Add | chiavdf/src/gpu_integer.h:168-251 | the result is the exact sum but for overflow of the width on equal signs, for all sizes and aliasings, also when the two-limb guess orders the operands wrongly |
| Limbs.SumIsExact | chiavdf/src/gpu_integer.h:168-251 | with a limb to spare the sum is exact |
| Limbs.Mad | chiavdf/src/gpu_integer.h:309-345 | the result is a*b + c modulo the width, where a missing c is zero |
| Kzg.Polynomial | loot-box-protocol/KZG10.py:158-164 | evaluation with a running power is evaluation |
| Kzg.PolynomialDivision | loot-box-protocol/KZG10.py:286-302 | dividend = quotient*divisor + remainder coefficient by coefficient, with a shorter remainder without leading zeros |
| Kzg.QuotientAt | loot-box-protocol/common.py:57-61 | dividing f - f(i) by X - i leaves nothing, and f(x) - f(i) = (x - i)*q(x) for every x |
| Kzg.CommitSum | loot-box-protocol/KZG10.py:197-205 | the commitment is the polynomial at the secret, and the empty polynomial fails |
| Kzg.DoubleSumIsEval | loot-box-protocol/KZG10.py:246-284 | the double sum over powers of the secret and the point is the quotient at the secret |
| Kzg.CommitDivision | loot-box-protocol/KZG10.py:246-274 | the loop with pruned terms computes the double sum |
| Kzg.CommitDivisionOptimized | loot-box-protocol/KZG10.py:276-284 | the optimised opening is the quotient polynomial at the secret |
| Kzg.BothDivisions | loot-box-protocol/KZG10.py:246-284 | both openings are the same element |
| Kzg.VerifyEvalProof | loot-box-protocol/common.py:68-76 | the pairing check holds exactly when (alpha - i)*W = C - y |
| Kzg.OpenAndVerify | loot-box-protocol/common.py:51-76 | an honest opening at any point is accepted, for every secret |

## Left out

What the model assumes or does not cover:

- Bignum library calls are taken at their contracts: which of the valid cofactors `mpz_gcdext` returns is fixed by a size bound only, and square roots are the floor.
- The bound `L` of NUCOMP, NUDUPL and the partial gcd is any non-negative integer; that the code uses the fourth root of the discriminant matters for speed there, and for the sizes in the engine (EngineSizes.FourthRootIsSafe).
- Provers.Prover.GenerateProof: the buckets hold group elements, where the code keeps forms that are not reduced; powers, verifiers and squarings are modelled on forms (FormProofs).
- CompositionClasses.MultiplyRespectsClass: the discriminant is assumed squarefree, which holds for the negated primes the code generates.
- FastReducer.Run: the loop is proved to end for coefficients of at most 62 bits, which the approximations show exactly; on longer ones every round is proved to move the form, but not that the rounds come to an end, so their number is a parameter.
- XgcdPartial.Partial: `r2 > L` is not claimed, because a run on truncated words can go one quotient too far.
- BqfcBytes.Serialize: where the fields do not fit the encoder writes past them; that is an outcome without further content here. Pairs with a <= 0 other than (0, 0), which no decoding gives, have no encoding in the model.
- BqfcBytes.Deserialize: discriminants of more than 1024 bits, for which 100 bytes do not suffice, are outside.
- GcdTower.BaseQuotients: the floating-point continued-fraction table is left out; the base case is the integer `gcd_64` with the table version's threshold test.
- GcdTower.GcdCell.GcdUnsigned: the full integers are unbounded where the code has a fixed number of limbs.
- SquaringEngine.Arithmetic: the engine's two gcds run the plain algorithm here; the assembly that streams them is not part of this model.
- SquaringEngine.RepeatedSquare: a run ends where the slow squaring would meet gcd(a, b) != 1, which the code does not test; for a discriminant of fewer than 2048 bits the engine's fixed limit of 1027 bits does not bound the coefficients, so there only the unconditional clauses apply. Checkpoints for the provers are left out.
- EngineThreads.NoRace: memory is sequentially consistent; prefetches are not reads; a fence that spins too long is a failure, which may come at any time.
- EngineThreads.NoDeadlock: the single-threaded variant is covered by the data model only.
- Provers.Prover.ParallelGenerateProof: the stop and pause signals and the floating-point choice of k and l are left out.
- Verifier.Prove: waiting, stop signals and the retry after a minute are left out; one attempt is modelled, and what it waits for is the function MaxProving.
- `GetBlock` of `prover_slow.h` is left out: it reads an element of a vector that can be empty.
- HashSearch.HashPrimeFrom: a round in which some candidate is prime is a parameter; without one the search does not end.
- HashSearch.HashToGroupFast: the endless search is one of any number of rounds without a result.
- Hash, primality, pairings and challenges are uninterpreted; nothing is said about the probability of a wrong proof passing.
- ProofChains.VdfState.ProcessReq: slot numbers are 16 bits in the code, which does not check the table's size; three free slots are required. Reference counts are unbounded.
- The outer loop of `hw_proof_process_work`, work distribution and the values themselves are left out; requests, starts and completions may come in any order here.
- Scheduler.ProverManager.Schedule: removal of finished provers is left out, and `max_proving_iteration` is only computed, by Verifier.MaxProving; the stop flag never goes back.
- Primality.IsPrimeBpsw: `n <= 1`, on which the code shifts by the position of a bit that does not exist, is outside; the Jacobi symbol is a function of which only soundness on primes is used, by Euler's criterion; that composites fail is not claimed.
- Limbs.Add: fixed widths are the arrays' lengths, and the base is any base of at least 2.
- Kzg.VerifyEvalProof: group elements are known by their exponents.
- `fixed_integer::compare` across opposite signs, `divide_integers` and `calculate_quotient` are left out: their own comments admit wrong results.
- Sockets, sessions, web servers, device drivers, logging and the x86 emitters are left out.
