# go-frost in Dafny

A verified model of go-frost: FROST threshold Schnorr signatures (RFC 9591) with
trusted-dealer and distributed key generation, share refresh, share repair,
rerandomised signing and batch verification.

The scalars are Z_q for an arbitrary prime q > 2^32 (identifiers are 32 bits wide). The
field laws are proved from primality, and nothing is assumed. Loops, maps and in-place
updates of the source are methods and classes with loops; each is proved against a
specification function, and the guarantees of the protocol are lemmas about those functions.

| files | contents |
|---|---|
| `Primes`, `PrimeField`, `Group` | an unbounded supply of primes, the field, the group |
| `Sums`, `MapSums` | finite sums, sums over maps, independence of order, exchange of a double sum |
| `Polynomial`, `Lagrange`, `PolynomialHelper` | evaluation, division by a root, interpolation at any point, the two loops of the helper |
| `Vss`, `Dealer` | coefficient commitments, share checks, dealer key generation, reconstruction, tightness of the threshold |
| `Types`, `Encoding`, `Transcript` | values and errors, byte encodings, binding factors, group commitment, challenge |
| `Participant`, `Aggregator`, `SigningTheorems` | the two rounds, aggregation with its strategies, correctness, soundness and blame |
| `KeyMeanings` | the two meanings of verification shares and what follows from mixing them up |
| `Dkg`, `DkgTheorems` | the three rounds, consistency against arbitrary peers, the honest run |
| `Refresh`, `Repair`, `Batch`, `Rerandomized` | the four extensions |
| `Ordering`, `MapFunctions`, `MapTheorems` | the two sorts, the package builder, the functions that take maps, and when the order of a map shows |
| `EndToEnd` | from either key generation to a verified signature |
| `Coordinator`, `Interleaving` | the coordinator and its nonce store, run alone and concurrently |
| `Tracker`, `Service` | the commitment tracker and its index, the service layer |
| `Witnesses` | concrete sessions behind the findings below |

`dafny verify dfyconfig.toml` checks everything.

Every lemma carries `{:induction false}`: all inductions are written out.

## Findings

Where the code and its comments disagree, the model follows the code.

- A package's verification shares are commitments to the coefficients after `GenerateShares` and keys of the
  participants after `TrustedDealerKeygen` and DKG. The peer check and `VerifyKeyShare` read the first
  meaning, verified aggregation the second (`KeyMeanings`).
- The service takes the number of verification shares for the threshold (`service/frost.go:116-125`). For
  packages of the second kind that is the number of participants, so t of n signers with t < n are refused
  (`Service.KeygenPackagesNeedAll`).
- Part3 announces a comparison of its verifying share and drops the value (`keygen/dkg/round3.go:90-92`). With
  packages from others that Part2 accepts it could not fail (`DkgTheorems.OwnKeyMatches`). Part3 itself checks
  neither the length of a commitment nor whose identifier it comes under: the share is checked against all
  coefficients and the sum reads the first t, so a commitment that is too long, or a peer under the own identifier,
  can make it fail. `DkgTheorems.OwnKeyExact` says exactly when; `Witnesses.OverlongMismatch` and
  `Witnesses.OwnIdentifierMismatch` show it.
- `FirstCheater` uses the first key listed for a participant and `AllCheaters` the last. They judge a
  participant's shares alike exactly when these two are the same, or the key carries no weight because another
  participant is numbered 0 (`SigningTheorems.JudgeAlikeExact`).
- The batch verifier does not refuse a zero challenge (`Batch.ItemMeansVerify`).
- The map-based `Aggregate` demands exactly as many shares as it is given, so it never enforces a threshold
  of its own (`MapTheorems.NoThresholdOfItsOwn`). Nor does it ask that the keys are kept under their own names, and
  then the random order of a Go map can decide between a signature and an error (`Witnesses.SuccessCanVary`).
  `MapTheorems.SuccessStableExactly` and `BlameStableExactly` say exactly when the order shows in success and in
  blame.
- A refreshed package still lists the other participants' keys from before the round, so verified aggregation with
  that list refuses their honest shares, unless the values of the refreshing polynomials at them add up to 0 or they
  carry no weight (`KeyMeanings.RefreshedListExact`, `Witnesses.RefreshedListRefuses`).
- Part3 reads a peer commitment shorter than t past its end. Part2 refuses such a commitment, Part3 does not
  (`Dkg.Part3`, `Witnesses.ShortCommitmentAccepted`).
- The comment on recording a nonce pair promises atomicity; the clean-up does nothing
  (`Tracker.RefusedPairLeavesHalf`, `Tracker.HalfRecordedPair`). The tracker hashes its fields without separators.
- The coordinator's store is shared between signings: nonces are never used twice, but overlapping
  signings can answer with each other's nonces. `Interleaving.TakesOwnNoncesExactly` says when they do, and
  `Participant.OtherNoncesShow` when such a share is still accepted.

## Model

| member | source | states |
|---|---|---|
| PrimeField.MulAssoc | pkg/frost/helpers/testutil/mock_group.go:214-219 | multiplication modulo the prime is associative |
| PrimeField.Distrib | pkg/frost/helpers/testutil/mock_group.go:200-219 | multiplication distributes over addition modulo the prime |
| PrimeField.MulInv | pkg/frost/helpers/testutil/mock_group.go:221-230 | every non-zero scalar times its inverse is 1; the inverse comes from the extended Euclidean algorithm, so this is proved from primality |
| PrimeField.NoZeroDivisors | pkg/frost/helpers/testutil/mock_group.go:214-219 | a product of scalars is zero only if a factor is |
| PolynomialHelper.Evaluate | pkg/frost/helpers/polynomial.go:66-81 | Horner from the top coefficient down gives the value of the polynomial; the empty polynomial gives 0 |
| PolynomialHelper.DeriveInterpolatingValue | pkg/frost/helpers/polynomial.go:94-160 | succeeds exactly when the points are distinct and contain x_i, and then gives the Lagrange coefficient of x_i at 0, with the numerator and denominator the code accumulates |
| Polynomial.RootsExhausted | pkg/frost/helpers/polynomial.go:66-81 | a polynomial with at most n coefficients that vanishes at n distinct points has only zero coefficients |
| Lagrange.CoefficientAtPoint | pkg/frost/helpers/polynomial.go:94-160 | the i-th Lagrange coefficient is 1 at its own point and 0 at the other points |
| Lagrange.PointsDetermineCoefficients | pkg/frost/helpers/polynomial.go:66-160 | two coefficient vectors of one length that agree at that many distinct points are the same vector |
| Lagrange.Interpolation | pkg/frost/helpers/polynomial.go:66-160 | for every polynomial with at most n coefficients, every n distinct points and every x, the values weighted with the Lagrange coefficients at x add up to the value at x |
| Lagrange.PartitionOfUnity | pkg/frost/helpers/polynomial.go:94-160 | the Lagrange coefficients at any x add up to 1 |
| Dealer.Generate | pkg/frost/helpers/polynomial.go:163-184 | the constant term followed by the drawn coefficients |
| Dealer.CheckIdentifiers | pkg/frost/keygen/dealer.go:95-106 | accepts exactly non-zero, pairwise distinct identifiers; the first one at fault decides between the zero and the duplicate error |
| Dealer.IdentifiersFault | pkg/frost/keygen/dealer.go:95-106 | the identifier that decides is a zero or repeats one of those before it, which are in order |
| Dealer.GenerateShares | pkg/frost/keygen/dealer.go:80-161 | succeeds exactly for 2 <= t <= n with n distinct non-zero identifiers, and otherwise gives the first check's error; the packages are those of one polynomial with the secret as constant term |
| Dealer.DealtFields | pkg/frost/keygen/dealer.go:123-158 | every package has the participant's identifier, its value of the polynomial, the commitment to the secret, t and n, and the commitments to all coefficients, numbered from 0 |
| Dealer.TrustedDealerKeygen | pkg/frost/keygen/keygen.go:41-81 | as the dealer, errors included, with the verification shares replaced by one key per participant, the commitment to its own share |
| Dealer.KeygenFields | pkg/frost/keygen/keygen.go:41-81 | the i-th package and the i-th verification share are those of the i-th identifier: its value of the polynomial and the commitment to that |
| Dealer.RecoverSecret | pkg/frost/keygen/dealer.go:171-217 | fails exactly on the empty map; otherwise gives f(0) for every polynomial f with no more coefficients than there are shares that passes through them, in whatever order the map is enumerated |
| Dealer.Reconstruct | pkg/frost/keygen/reconstruct.go:32-81 | refuses the empty list and repeated identifiers; otherwise the Lagrange-weighted sum of the shares |
| Dealer.ReconstructionRecoversSecret | pkg/frost/keygen/reconstruct.go:32-81 | that sum is the dealer's secret for every subset of at least t shares in every order |
| Dealer.AlteredShareShows | pkg/frost/keygen/reconstruct.go:32-113 | of at least t shares one may have been altered: what is reconstructed is the secret that VerifyReconstruction accepts for the dealer's public key if and only if that share is the dealer's after all, or another share is numbered 0 |
| Dealer.ThresholdIsTight | pkg/frost/keygen/dealer.go:95-158 | for any t-1 valid identifiers, any share values and any candidate secret, exactly one coefficient vector of length t gives those shares and that secret |
| Vss.PowerSumIsEval | pkg/frost/keygen/vss.go:92-116 | the power sum over the commitments is the commitment to the value of the committed polynomial |
| Vss.EvaluateCommitmentPolynomial | pkg/frost/keygen/dkg/round2.go:159-186 | the loop shared by three packages computes that power sum |
| Vss.EvaluateVerificationShares | pkg/frost/keygen/vss.go:92-116 | the loop written inline, which stops advancing the power at the last term, computes the same power sum |
| Vss.CreateCommitments | pkg/frost/keygen/vss.go:58-73 | one commitment per coefficient, numbered from 0; refused for the empty polynomial |
| Vss.VerifyShare | pkg/frost/keygen/vss.go:76-122 | accepts a share if and only if it is the value of the committed polynomial at the (non-zero) identifier |
| Vss.CombineShares | pkg/frost/keygen/vss.go:125-143 | the sum of the shares; refused for none |
| Encoding.IdentifierToScalar | pkg/frost/helpers/encoding.go:158-180 | in either byte order and for any width of at least four bytes, the scalar read back from the bytes written is the identifier itself |
| Encoding.IdentifierValue | pkg/frost/helpers/encoding.go:158-180 | the bytes of an identifier, read in the byte order they were written in, have the value of the identifier |
| Encoding.EncodeIdentifier | pkg/frost/helpers/encoding.go:78-92 | the four bytes of the identifier are put at the right end of a zeroed buffer |
| Encoding.IdentifierBytesInjective | pkg/frost/helpers/encoding.go:78-92 | different identifiers have different bytes |
| Encoding.Encode | pkg/frost/helpers/encoding.go:59-106 | the entries are appended in order: identifier, hiding, binding |
| Encoding.EncodedEntry | pkg/frost/helpers/encoding.go:59-106 | entry k fills the k-th stretch of the encoding: identifier, hiding commitment, binding commitment |
| Encoding.EncodeInjective | pkg/frost/helpers/encoding.go:59-106 | with fixed-width, injective element bytes, lists of any lengths with equal encodings are equal |
| Transcript.ValidateCommitmentList | pkg/frost/helpers/encoding.go:130-147 | the first neighbouring pair out of order decides between the duplicate and the order error; the empty list is refused |
| Transcript.ValidationExact | pkg/frost/helpers/encoding.go:130-147 | validation accepts exactly the non-empty, strictly ascending lists |
| Transcript.ValidationFault | pkg/frost/helpers/encoding.go:130-147 | the first entry not above its neighbour decides between the duplicate and the order error |
| Transcript.ComputeBindingFactors | pkg/frost/helpers/binding.go:64-137 | one factor per entry, H1 of the entry's own input; refused for the empty list |
| Transcript.RhoInputLayout | pkg/frost/helpers/binding.go:76-120 | the input is the public key, H4 of the message, H5 of the encoded list and the identifier, at these places (RFC 9591, section 4.4) |
| Transcript.RhoInputBinds | pkg/frost/helpers/binding.go:76-120 | factors of any two sessions hash one input if and only if public keys, digests of the messages, digests of the lists and identifiers are the same |
| Transcript.GetBindingFactor | pkg/frost/helpers/binding.go:142-150 | the first factor listed for the identifier, or an error naming it |
| Transcript.FirstFactor | pkg/frost/helpers/binding.go:142-150 | the first entry for the identifier counts, and later ones play no part |
| Transcript.LookupFactor | pkg/frost/helpers/binding.go:142-150 | among a session's factors a participant is found exactly if it is in the list, and then with its own factor |
| Transcript.RhoInputsDiffer | pkg/frost/helpers/binding.go:95-117 | no two participants of a session hash the same input |
| Transcript.ComputeGroupCommitment | pkg/frost/helpers/commitment.go:47-100 | the sum of D_i + rho_i E_i in list order, or the first entry with an identity commitment or without a factor |
| Transcript.GroupCommitmentExact | pkg/frost/helpers/commitment.go:47-100 | for a session the group commitment exists exactly when no nonce commitment is the identity, and is the commitment to the sum of all d_i + rho_i e_i |
| Transcript.GroupCommitmentFault | pkg/frost/helpers/commitment.go:47-100 | for any list and factors, the first entry with an identity commitment, or without a factor, is the one the error names |
| Transcript.ChallengeExact | pkg/frost/helpers/challenge.go:46-75 | what is hashed is R, the public key and the whole message, in this order; exactly a zero hash is refused |
| Transcript.ChallengeBinds | pkg/frost/helpers/challenge.go:46-75 | challenges hash one input if and only if R, public key and message are the same |
| Participant.RoundOne | pkg/frost/signing/participant.go:102-179 | succeeds exactly if neither drawn nonce is zero; the commitment is to the nonces and has no identity in it |
| Participant.RoundTwo | pkg/frost/signing/participant.go:196-286 | the loops compute z_i = d_i + e_i rho_i + lambda_i s_i c, or the first check that fails |
| Participant.RoundTwoFault | pkg/frost/signing/participant.go:196-286 | which check refuses: the list, the number of participants, an identity, a signer from outside, a zero challenge, in this order |
| Participant.LambdaDerived | pkg/frost/signing/participant.go:235-253 | over a valid list the Lagrange coefficient exists exactly for its participants |
| Participant.ShareEquationExact | pkg/frost/signing/participant.go:413-435 | against an honest commitment and the key s*G, the share equation holds of the round-two value and of no other |
| Participant.VerifySignatureShare | pkg/frost/signing/participant.go:302-438 | the peer check over the key evaluated from the package's verification shares, with every earlier check in order |
| Participant.PeerCheckFault | pkg/frost/signing/participant.go:302-438 | a share is accepted only in a valid session that its participant is part of; otherwise the first failing check decides the error |
| SigningTheorems.RoundTwoExact | pkg/frost/signing/participant.go:196-286 | round two succeeds exactly if the signer is in a strictly ascending list that is long enough and has no identity commitment, and the challenge is not zero |
| Aggregator.Aggregate | pkg/frost/signing/aggregator.go:99-152 | (R, sum of the shares), refused for an invalid list, too few shares or an identity R |
| Aggregator.AggregateExact | pkg/frost/signing/aggregator.go:99-152 | success as an if-and-only-if of a valid list, enough shares, no identity commitment and R not the identity; the result is the committed sum with the sum of the shares; every other case with its error |
| Aggregator.AggregateWithVerification | pkg/frost/signing/aggregator.go:167-323 | as above, after the share equation has been checked for every share against the first key listed for it; the first failure decides |
| Aggregator.OpeningFault | pkg/frost/signing/aggregator.go:167-232 | what is checked before any share, in order, with every error |
| Aggregator.ShareCheckExact | pkg/frost/signing/aggregator.go:234-310 | a share is accepted exactly if a key is listed, its participant is in the session and the response is the one due for the key; each refusal names the participant |
| Aggregator.FirstListed | pkg/frost/signing/aggregator.go:234-248 | the first key listed for a participant counts, and later ones play no part |
| SigningTheorems.AggregateSum | pkg/frost/signing/aggregator.go:99-152 | valid shares of exactly the listed participants, in any order, add up to the logarithm of R + c * f(0)*G |
| SigningTheorems.ThresholdSigningIsCorrect | pkg/frost/signing/aggregator.go:99-152 | for any polynomial with t coefficients, any set of at least t signers, any nonces and message: if the rounds and aggregation succeed and the public key is not the identity, Verify accepts (RFC 9591, sections 5.1 to 5.3) |
| EndToEnd.KeygenSignaturesVerify | pkg/frost/keygen/keygen.go:41-81 | from key generation to signature: with what TrustedDealerKeygen returns, shares of at least t signers are accepted by verified aggregation and the signature verifies |
| EndToEnd.DkgSignaturesVerify | pkg/frost/keygen/dkg/round3.go:31-193 | the same for the packages of an honest distributed key generation, with the key list of any party |
| SigningTheorems.VerifiedAggregationExact | pkg/frost/signing/aggregator.go:167-323 | however the shares were made: an aggregate accepted from exactly the listed participants, under keys of a polynomial of any length, verifies if and only if its points interpolate to the committed secret at 0 |
| SigningTheorems.VerifiedAggregationIsSound | pkg/frost/signing/aggregator.go:167-323 | so with at most n coefficients Verify accepts every result that verified aggregation accepts |
| SigningTheorems.HonestSharesAreAccepted | pkg/frost/signing/aggregator.go:167-323 | once the session itself is in order, verified aggregation refuses no round-two share of an honest signer |
| SigningTheorems.HonestAggregateExact | pkg/frost/signing/aggregator.go:167-323 | honest shares are aggregated however few they are; the signature verifies if and only if the signers' points interpolate to the secret |
| Witnesses.BelowThreshold | pkg/frost/signing/aggregator.go:167-323 | one honest signer where two are needed: its share is aggregated and the signature does not verify |
| SigningTheorems.VerifyExact | pkg/frost/signing/aggregator.go:337-381 | under the public key x*G exactly one response is accepted for each R and message, r + c*x, and none for an identity or a zero challenge; every refusal with its error |
| SigningTheorems.DetectionOnlyRefuses | pkg/frost/signing/strategy.go:67-100 | whatever the strategy, a success is the plain aggregate: detecting cheaters only ever adds refusals |
| SigningTheorems.DetectionExact | pkg/frost/signing/strategy.go:67-266 | a detecting strategy succeeds exactly when plain aggregation does, there are keys, the challenge is not zero and every share passes that strategy's check |
| Aggregator.AggregateWithAllCheaterDetection | pkg/frost/signing/strategy.go:103-266 | collects, in order, every share without a key, from outside the session or failing the share equation; without any, the aggregate |
| Aggregator.BlamedExact | pkg/frost/signing/strategy.go:103-266 | everybody with a bad verdict is named, in order and as often as submitted |
| SigningTheorems.StrategiesAgree | pkg/frost/signing/strategy.go:67-266 | when for every submitted identifier the first and the last key listed are the same (or carry no weight, as another participant is numbered 0), FirstCheater and AllCheaters accept the same sessions with the same signature, and otherwise FirstCheater names exactly the head of the list that AllCheaters names |
| SigningTheorems.JudgeAlikeExact | pkg/frost/signing/strategy.go:175-200 | in every session, the two strategies judge every share that a participant could submit alike if and only if the first and the last key listed for it are the same, or its key carries no weight because another participant is numbered 0 |
| SigningTheorems.DisagreeingShare | pkg/frost/signing/strategy.go:175-200 | otherwise, the share made for the first key passes one strategy and is blamed by the other |
| Witnesses.StrategiesCanDisagree | pkg/frost/signing/strategy.go:67-266 | a session with one participant listed twice in which FirstCheater returns a signature and AllCheaters names the participant |
| SigningTheorems.LookupsAgree | pkg/frost/signing/strategy.go:175-200 | with distinct identifiers the first key listed (FirstCheater) and the last (AllCheaters) are the same |
| SigningTheorems.BlameIsExact | pkg/frost/signing/strategy.go:103-266 | with the last key listed for each participant that of its package's secret, and lists made from the signers' nonces, AllCheaters names exactly the shares from outside the session or different from what that signer's round two answers, its own count of signers apart, in the order submitted (RFC 9591, section 5.4) |
| SigningTheorems.OwnAnswerIsRoundTwo | pkg/frost/signing/participant.go:205-215 | in a list as long as the signer's package asks for, that answer is its round two; in a shorter one it refuses to sign |
| KeyMeanings.PeerCheckExact | pkg/frost/signing/participant.go:302-438 | the peer check accepts exactly the answer made with the secret to which the verification shares evaluate when read as coefficient commitments |
| KeyMeanings.HonestSharePasses | pkg/frost/signing/participant.go:382-435 | an honest share passes the peer check exactly when its package's verification shares, read as coefficients, evaluate to its signer's secret, or the signer carries no weight |
| Participant.LambdaZero | pkg/frost/helpers/polynomial.go:94-160 | the Lagrange coefficient at 0 of a participant vanishes exactly when another participant is numbered 0; this is what carrying no weight means |
| Participant.OtherNoncesShow | pkg/frost/signing/participant.go:413-435 | a share made with other nonces than its list entry commits to meets the share equation if and only if both pairs have the same hiding + rho * binding |
| Witnesses.DealtKeysRefuseHonestShare | pkg/frost/keygen/keygen.go:58-73 | with what TrustedDealerKeygen returns for f(x) = 1 + x and participants 1 and 2, participant 2's peer check refuses the share that participant 1's round two answers in a session of both |
| KeyMeanings.HonestShareChecked | pkg/frost/signing/aggregator.go:234-310 | an honest share passes verified aggregation's check if and only if a key is listed for its signer and the first one is that of its secret, or the signer carries no weight |
| KeyMeanings.CoefficientsAsKeysExact | pkg/frost/keygen/vss.go:63-70 | with the packages of GenerateShares, verified aggregation accepts participant i's honest share if and only if coefficient i exists, and equals f(i) or participant i carries no weight |
| Witnesses.CoefficientListRefuses | pkg/frost/keygen/vss.go:63-70 | with what GenerateShares returns for f(x) = 1 + x and participants 1 and 2, verified aggregation of the two honest shares blames participant 1 |
| KeyMeanings.RefreshedListExact | pkg/frost/keygen/refresh/refresh.go:222-244 | with the list of a package refreshed any number of times, verified aggregation accepts another participant's honest refreshed share if and only if the values there of the refreshing polynomials add up to 0, or that participant carries no weight |
| Witnesses.RefreshedListRefuses | pkg/frost/keygen/refresh/refresh.go:222-244 | one refresh of what TrustedDealerKeygen returns for f(x) = 1 + x and participants 1 and 2, after which verified aggregation with participant 2's list blames participant 1 for its honest share |
| KeyMeanings.CoefficientsLookedUpAsKeys | pkg/frost/keygen/vss.go:63-70 | looked up by participant, coefficient commitments give participant i the commitment to coefficient i, or nothing |
| Dkg.Part1 | pkg/frost/keygen/dkg/round1.go:32-86 | succeeds exactly for valid parameters; the package holds the commitments to the drawn polynomial and the proof for its constant term |
| Dkg.ProofComplete | pkg/frost/keygen/dkg/round1.go:95-220 | the verification accepts every proof the prover makes, whatever the nonce |
| Dkg.ProofChallengeExact | pkg/frost/keygen/dkg/round1.go:124-165 | the challenge is HDKG of the identifier, the commitment and R, in this order |
| Dkg.ProofInputBinds | pkg/frost/keygen/dkg/round1.go:124-165 | proofs hash one input if and only if participant, commitment and R are the same, so a proof of one participant is not one of another |
| Dkg.ProofDetermined | pkg/frost/keygen/dkg/round1.go:177-220 | for a committed secret a and any R, exactly one response is accepted: r + a*c |
| Dkg.ProofExtracts | pkg/frost/keygen/dkg/round1.go:177-220 | two accepted proofs for one commitment with one R and different challenges give the committed secret |
| Dkg.Part2 | pkg/frost/keygen/dkg/round2.go:34-101 | succeeds exactly with n-1 packages that each have t commitments and the one response R + a*c for the committed a; each peer is dealt the own polynomial's value at its identifier; a refusal names a peer whose package fails, and how |
| Dkg.AcceptsRound1Exact | pkg/frost/keygen/dkg/round2.go:49-65 | a package is acceptable if and only if it has t > 0 commitments and the one valid response for its secret and R |
| Dkg.VerifyShare | pkg/frost/keygen/dkg/round2.go:118-153 | accepts a share if and only if it is the value of the committed polynomial, in agreement with the VSS check |
| Dkg.VerifyAndSum | pkg/frost/keygen/dkg/round3.go:63-88 | accepts exactly if every peer's share is valid, and then gives the own share plus all of theirs in whatever order the map is enumerated; an error names a peer whose share is not valid |
| Dkg.AggregateCommitments | pkg/frost/keygen/dkg/round3.go:136-193 | every participant's key is the commitment to the joint polynomial at its identifier, and the group key to its constant term; a commitment shorter than t is read past its end, which aborts the call |
| Dkg.Part3 | pkg/frost/keygen/dkg/round3.go:31-124 | succeeds exactly with n-1 matching packages, valid shares and commitments with at least t entries, with these values; a wrong number of packages, a peer without a round-two package (who is named) and missing entries (the call is aborted) have errors of their own; otherwise the peer named is one with an invalid share |
| Dkg.AcceptsRound2Exact | pkg/frost/keygen/dkg/round3.go:41-88 | the packages match in number and senders, and every share is the value of its sender's commitment at the own identifier |
| Dkg.CompleteExact | pkg/frost/keygen/dkg/round3.go:136-170 | at least t entries in every commitment that is added up |
| Dkg.Part3Fields | pkg/frost/keygen/dkg/round3.go:90-124 | the package has the own identifier, t and n, the group key, and every participant's key listed once |
| DkgTheorems.EvalJoint | pkg/frost/keygen/dkg/round3.go:136-193 | evaluating the joint polynomial adds up the participants' evaluations, a double sum taken either way |
| DkgTheorems.DkgConsistent | pkg/frost/keygen/dkg/round3.go:31-193 | whatever the peers sent, when Part3 succeeds any t or more of its verification keys interpolate, in the group, to the group key |
| DkgTheorems.EvalJointTails | pkg/frost/keygen/dkg/round3.go:136-193 | with commitments of any lengths from t on, the participants' evaluations add up to the value of the joint polynomial and the tails: what the coefficients from position t on contribute |
| DkgTheorems.OwnKeyExact | pkg/frost/keygen/dkg/round3.go:31-193 | whatever the peers sent, when Part3 succeeds its share matches its own verification key, the comparison dropped in the code, if and only if the tails of the peers' commitments, plus the own share when a peer uses the own identifier, add up to 0 |
| DkgTheorems.OwnKeyMatches | pkg/frost/keygen/dkg/round3.go:31-193 | so the comparison holds for all packages that Part2 accepts, from others than oneself |
| DkgTheorems.OnePeerMatches | pkg/frost/keygen/dkg/round3.go:31-193 | for threshold two and any one peer: the share matches if and only if the peer's commitment has no tail at the own identifier |
| Witnesses.OverlongMismatch | pkg/frost/keygen/dkg/round3.go:31-193 | with the commitment to x^2 from the peer and any own polynomial, Part3 accepts and the final share never matches the own key |
| Witnesses.ShortCommitmentAccepted | pkg/frost/keygen/dkg/round3.go:155-166 | a commitment of length one where two entries are read: all shares are acceptable and the aggregation reads past its end |
| DkgTheorems.OwnIdentifierAccepted | pkg/frost/keygen/dkg/round3.go:31-90 | such input exists: both rounds accept a single peer package under the own identifier, for any two polynomials of length two |
| Witnesses.OwnIdentifierMismatch | pkg/frost/keygen/dkg/round3.go:31-193 | with own polynomial 1 both rounds accept it, and the final share never matches the own key |
| DkgTheorems.HonestRound2 | pkg/frost/keygen/dkg/round2.go:34-101 | round two rejects no honest party's package |
| DkgTheorems.HonestRound3 | pkg/frost/keygen/dkg/round3.go:31-88 | round three rejects no honest party's share |
| DkgTheorems.HonestOutcome | pkg/frost/keygen/dkg/round3.go:31-193 | after an honest run all parties hold the same public data, each the shared polynomial's value at its identifier, and the group key commits to the sum of the parties' secrets |
| DkgTheorems.HonestSharesReconstruct | pkg/frost/keygen/dkg/round3.go:31-193 | any t or more final shares interpolate to the sum of the parties' secrets |
| Refresh.ComputeRefreshingShares | pkg/frost/keygen/refresh/refresh.go:73-163 | succeeds exactly for known participants and 2 <= t <= n, and otherwise gives the first check's error, naming the first unknown participant; shifts every participant's key by the commitment to its value of the refreshing polynomial |
| Refresh.ApplyRefreshShare | pkg/frost/keygen/refresh/refresh.go:179-244 | accepts exactly the own share with the value of the committed polynomial; the secret and the own key move together |
| Refresh.DealtShareApplies | pkg/frost/keygen/refresh/refresh.go:73-244 | the i-th share is made out to the i-th identifier and is the refreshing polynomial's value there; that participant accepts it and arrives at its package after the round |
| Refresh.StepKeepsSecret | pkg/frost/keygen/refresh/refresh.go:73-244 | one refresh with threshold at most t leaves shares of a polynomial with t coefficients, the same value at 0 and the same group key; each share, and each package's own entry whatever it was before, match the new public data |
| Refresh.OthersEntryCurrent | pkg/frost/keygen/refresh/refresh.go:222-244 | a package keeps the keys it lists for others: one that was current is current after any number of rounds if and only if the values of the refreshing polynomials at that participant add up to 0 |
| Refresh.KeyOverRun | pkg/frost/keygen/refresh/refresh.go:73-163 | over any number of rounds a participant's public key moves by the commitment to the sum of these values |
| Refresh.RefreshPreservesSecret | pkg/frost/keygen/refresh/refresh.go:73-244 | the same over any number of rounds, each with its own participants |
| Refresh.RefreshedSharesReconstruct | pkg/frost/keygen/refresh/refresh.go:179-244 | after any number of rounds any t shares still interpolate to the original secret |
| Repair.ComputeLagrangeCoefficient | pkg/frost/keygen/repairable/repairable.go:254-316 | the Lagrange coefficient at an arbitrary point, refused exactly when x_i is missing or listed again after its first place |
| Repair.RepairShareStep1 | pkg/frost/keygen/repairable/repairable.go:77-164 | succeeds exactly with at least two distinct helpers, the own identifier among them; every helper but the last gets the delta drawn for it, the last one what is missing to the weighted share |
| Repair.RepairShareStep2 | pkg/frost/keygen/repairable/repairable.go:176-188 | the sum of the deltas received |
| Repair.RepairShareStep3 | pkg/frost/keygen/repairable/repairable.go:206-248 | the sum of the sigmas, checked against the commitment when there is one |
| Repair.RepairRestoresShare | pkg/frost/keygen/repairable/repairable.go:77-316 | with any at least t distinct helpers and any draws, adding up columns and then sigmas, in any orders, gives exactly f(lost identifier), and the commitment check passes |
| Batch.BatchVerifier.Add | pkg/frost/signing/batch.go:63-100 | appends the item with its challenge, or refuses an identity key or R and changes nothing |
| Batch.BatchVerifier.Verify | pkg/frost/signing/batch.go:114-167 | accepts one item if and only if z is R + c*VK, several if and only if the sum of blind times defect is zero; refuses an empty batch |
| Batch.SingleExact | pkg/frost/signing/batch.go:114-167 | a single item is accepted if and only if it is valid, whatever the blind |
| Batch.BatchVerifier.VerifySingle | pkg/frost/signing/batch.go:171-186 | accepts exactly if the item's defect is zero, the quantity whose blinded sum the batch compares with zero |
| Batch.BatchComplete | pkg/frost/signing/batch.go:114-167 | if every item is valid the batch accepts for every choice of blinds |
| Batch.BatchSound | pkg/frost/signing/batch.go:114-167 | if item k is invalid then, with the other blinds fixed, the batch of two or more accepts for exactly one value of blind k |
| Batch.ItemMeansVerify | pkg/frost/signing/batch.go:63-186 | Verify accepts a signature exactly when it can be added, is valid alone, and its challenge is not zero: the batch does not refuse a zero challenge |
| Batch.ZeroChallengeAccepted | pkg/frost/signing/batch.go:63-167 | an item with a zero challenge that is accepted alone and any number of times in a batch, with any blinds, and that Verify refuses |
| Witnesses.ZeroChallengeBatch | pkg/frost/signing/batch.go:85-97 | there is a suite with such an item |
| Rerandomized.RandomizeKeyPackage | pkg/frost/signing/rerandomized.go:140-166 | the share, the listed keys and the public key are shifted by the same randomizer |
| Rerandomized.NewParamsExact | pkg/frost/signing/rerandomized.go:48-80 | the parameters exist exactly if the shifted public key is not the identity |
| Rerandomized.RerandomizedRoundTwo | pkg/frost/signing/rerandomized.go:283-296 | round two with the shifted package |
| Rerandomized.RerandomizedAggregate | pkg/frost/signing/rerandomized.go:329-355 | verified aggregation under the shifted keys |
| Rerandomized.EvalShifted | pkg/frost/signing/rerandomized.go:140-166 | shares shifted by r are shares of f + r |
| Rerandomized.RerandomizedSigningIsCorrect | pkg/frost/signing/rerandomized.go:48-364 | at least t honest rerandomised shares pass the rerandomised aggregation and verify under PK + r*G |
| Ordering.SortCommitmentList | pkg/frost/signing/signing.go:169-179 | the exchange sort leaves a sorted permutation |
| Ordering.PlaceMinimum | pkg/frost/signing/signing.go:171-178 | one outer pass puts an entry before everything not smaller, and permutes |
| Ordering.InsertionSort | pkg/frost/signing/package.go:137-145 | the insertion sort leaves a sorted permutation |
| Ordering.InsertInto | pkg/frost/signing/package.go:137-145 | one pass moves the larger entries up and puts the key into the gap |
| Ordering.AscendingUnique | pkg/frost/signing/signing.go:169-179 | a strictly ascending permutation is unique |
| Ordering.SortsAgree | pkg/frost/signing/package.go:129-161 | for distinct identifiers, either sort from any order arrives at the one ascending list, and it passes validation |
| Ordering.SortedDuplicates | pkg/frost/helpers/encoding.go:130-147 | a sorted list with a repeated identifier gives the duplicate error |
| Ordering.SigningPackageBuilder.Build | pkg/frost/signing/package.go:129-161 | succeeds exactly with a non-empty list of distinct identifiers, and then holds the ascending list, the message and the key |
| Ordering.AddedCommitment | pkg/frost/signing/package.go:113-116 | adding a commitment with a new identifier puts it into its place in the list that Build returns |
| Ordering.RepeatedCommitment | pkg/frost/signing/package.go:113-116 | after adding a commitment Build still succeeds if and only if no earlier one has its identifier |
| Ordering.BuildIgnoresOrder | pkg/frost/signing/package.go:119-161 | the order in which commitments were added shows neither in whether Build succeeds nor in the package |
| MapFunctions.Sign | pkg/frost/signing/signing.go:68-92 | round two over some sorted permutation of the values of the map |
| MapFunctions.SignIsRoundTwo | pkg/frost/signing/signing.go:68-92 | the outcome is that of round two over any sorted permutation of the values, success and errors alike |
| MapFunctions.SortedValuesExact | pkg/frost/signing/signing.go:76-84 | such a list holds each value of the map, and nothing else, in order |
| MapFunctions.SignIgnoresMapOrder | pkg/frost/signing/signing.go:68-92 | the share, or the error, does not depend on the order in which the map is enumerated, repeated identifiers included |
| MapFunctions.SortedValuesAgree | pkg/frost/signing/signing.go:76-84 | any two sorted permutations of the values of one map are the same list, or fail validation with the same error |
| MapFunctions.EnumerationsPermute | pkg/frost/signing/signing.go:78-84 | two enumerations of one map give permutations of each other |
| MapFunctions.Aggregate | pkg/frost/signing/signing.go:108-143 | verified aggregation over some enumeration of each map, demanding as many shares as there are |
| MapTheorems.AggregateIgnoresMapOrder | pkg/frost/signing/signing.go:108-143 | any two orders of enumerating the three maps that succeed give the same signature; where entries with one identifier carry one key, whether aggregation succeeds does not depend on the order either |
| MapTheorems.SuccessStableExactly | pkg/frost/signing/signing.go:108-143 | with the session open and any maps, success does not depend on the order of enumeration if and only if every share passes under every key listed for its identifier (and there is one), or some submitted identifier has no listed key under which all its shares pass |
| MapTheorems.BestOrder | pkg/frost/signing/signing.go:108-143 | some order succeeds if and only if every submitted identifier has a listed key under which all its shares pass |
| Witnesses.SuccessCanVary | pkg/frost/signing/signing.go:108-143 | a map with two entries for participant 1: one order gives a signature, another blames participant 1 |
| MapTheorems.SessionOpensExact | pkg/frost/signing/signing.go:108-143 | no number of shares is demanded: a session opens if and only if its commitments are of distinct participants without identities, some key is given, R is not the identity and the challenge is not zero |
| MapTheorems.RefusedAlike | pkg/frost/signing/signing.go:108-143 | a session that cannot be opened gives the same error in every order |
| MapTheorems.BlameStableExactly | pkg/frost/signing/signing.go:108-143 | with the session open and any maps, all outcomes blame alike if and only if no share can fail in any order, or none of the orders succeeds and all shares that can fail carry one identifier |
| MapTheorems.AnyFailingIsBlamed | pkg/frost/signing/signing.go:123-127 | every share that fails under some key listed for its identifier, or has none, is the one named for some order of enumeration |
| Witnesses.BlameCanVary | pkg/frost/signing/signing.go:108-143 | a map with two bad shares and outcomes that name one or the other |
| MapTheorems.NoThresholdOfItsOwn | pkg/frost/signing/signing.go:135-142 | aggregation from maps of honest shares succeeds however few signers there are and however the keys are named; the signature verifies if and only if their points interpolate to the secret, which at least t of them do |
| Coordinator.Coordinator.RequestCommitments | pkg/frost/signing/coordinator.go:145-209 | the commitments sorted and validated, or the first failing participant's error; the store is reset and holds exactly the nonces drawn before that |
| Coordinator.RoundOneExact | pkg/frost/signing/coordinator.go:145-209 | succeeds exactly for distinct, known participants without a zero nonce; the list is ascending and has exactly their commitments; otherwise the first fault, or a repeated identifier, decides the error |
| Coordinator.Coordinator.RequestShare | pkg/frost/signing/coordinator.go:236-268 | takes the participant's nonces out of the store before they are used, answers or not |
| Coordinator.Coordinator.RequestSignatureShares | pkg/frost/signing/coordinator.go:225-280 | all shares or the first refusal; the nonces of every participant reached are gone |
| Coordinator.RoundTwoSharesExact | pkg/frost/signing/coordinator.go:225-280 | succeeds exactly if every participant of the list is known, has nonces stored and finds itself in a list that is long enough, free of identities and has a non-zero challenge; each position then holds that participant's own round-two answer |
| Coordinator.RoundTwoSharesRefused | pkg/frost/signing/coordinator.go:225-280 | otherwise the first participant that does not answer is named |
| Coordinator.ReachedExact | pkg/frost/signing/coordinator.go:225-280 | afterwards exactly the nonces of the participants before it are gone, and its own if it is known |
| Coordinator.Coordinator.Sign | pkg/frost/signing/coordinator.go:293-319 | both rounds and aggregation in order; on success no nonce is left in the store |
| Coordinator.ReadySessionExact | pkg/frost/signing/coordinator.go:293-319 | on a list from round one: success if and only if every signer answers, there are enough of them and R is not the identity |
| Coordinator.SessionExact | pkg/frost/signing/coordinator.go:293-319 | a session for distinct participants succeeds if and only if each signer, and the coordinator, finds enough of them, no signer's challenge is zero and R is not the identity |
| Coordinator.SessionReady | pkg/frost/signing/coordinator.go:145-209 | after a successful round one the identifiers were distinct, the list names exactly the store, and every entry commits to the nonces stored for it |
| Coordinator.NothingMissing | pkg/frost/signing/coordinator.go:225-280 | round two on that list then never misses a participant or a nonce, and if it succeeds the store is empty |
| Coordinator.CoordinatedSigningIsCorrect | pkg/frost/signing/coordinator.go:293-319 | for at least t holders of shares of one polynomial, every signature a coordinated session produces verifies |
| Interleaving.StepKeepsOnePlace | pkg/frost/signing/coordinator.go:145-280 | every step of every call keeps each nonce pair in at most one place: the store, one call, or one use |
| Interleaving.NoncesUsedAtMostOnce | pkg/frost/signing/coordinator.go:145-280 | in every interleaving of concurrent calls, error paths included, nonces reach RoundTwo at most once |
| Interleaving.UsedNoncesAreGone | pkg/frost/signing/coordinator.go:225-280 | nonces that were used are in no store afterwards |
| Interleaving.OverlappingCallsMixNonces | pkg/frost/signing/coordinator.go:167-190 | the store is shared: there is a run of overlapping signings in which a participant answers one list with the nonces it committed to for another |
| Interleaving.UndisturbedSigningUsesItsOwn | pkg/frost/signing/coordinator.go:145-280 | if a round one on distinct identifiers succeeds while no other one begins or stores, every later answer to an entry of its list is made with that entry's own nonces, whatever else runs |
| Interleaving.SessionCanComplete | pkg/frost/signing/coordinator.go:145-280 | from every reachable state a signing for any distinct participants can run to its end, every entry answered in order with its own nonces |
| Interleaving.TakesOwnNoncesExactly | pkg/frost/signing/coordinator.go:167-253 | after a call has stored the nonces of an entry, a later taking for that participant gets them if and only if in between no round one began and no nonces of that participant were stored or taken |
| Interleaving.StoredWhileUntouched | pkg/frost/signing/coordinator.go:167-253 | stored nonces stay exactly as long as nothing touches them: once lost they never return to the store |
| Tracker.InMemoryCommitmentTracker.RecordCommitment | pkg/frost/security/commitment_tracker.go:104-127 | refuses exactly a hash that is present; otherwise adds the entry and keeps the index agreeing |
| Tracker.InMemoryCommitmentTracker.CheckCommitment | pkg/frost/security/commitment_tracker.go:130-143 | succeeds exactly when recording the entry would add it |
| Tracker.InMemoryCommitmentTracker.ClearSession | pkg/frost/security/commitment_tracker.go:146-165 | removes exactly the session's entries and keeps the index agreeing |
| Tracker.InMemoryCommitmentTracker.ClearExpired | pkg/frost/security/commitment_tracker.go:168-203 | removes exactly the entries older than ttl, returns their number and keeps the index agreeing |
| Tracker.InMemoryCommitmentTracker.Count | pkg/frost/security/commitment_tracker.go:206-211 | the session counts added up over the index |
| Tracker.InMemoryCommitmentTracker.CountSession | pkg/frost/security/commitment_tracker.go:214-224 | the number of the session's entries, read from the index |
| Tracker.GroupsExact | pkg/frost/security/commitment_tracker.go:85-93 | the index that Valid demands holds a hash in a group exactly if the primary map has it with that session, and no group is empty |
| Tracker.CountIsSumOfSessions | pkg/frost/security/commitment_tracker.go:206-224 | Count is the sum of CountSession over the sessions of the index |
| Tracker.RefusedWhileLive | pkg/frost/security/commitment_tracker.go:104-203 | in every run, a hash is refused exactly while an accepted recording of it has been neither cleared with its session nor expired |
| Tracker.ReuseIsOfTheRunTogetherFields | pkg/frost/security/commitment_tracker.go:36-42 | with a collision-free hash, recording one entry makes another refused exactly if their three fields run together alike |
| Tracker.OtherSessionIsNotReuse | pkg/frost/security/commitment_tracker.go:36-42 | the same data under another session name of the same length is not recognised |
| Tracker.UnrecordedEntryRefused | pkg/frost/security/commitment_tracker.go:36-42 | an entry that was never recorded is refused, because the fields are hashed without separators: participant 3 of session 12 after participant 23 of session 1, with the same data |
| Tracker.InMemoryCommitmentTracker.RecordSigningCommitments | pkg/frost/security/frost_nonce_tracker.go:46-98 | succeeds exactly if both hashes are new and different; a refused second entry leaves the first one recorded |
| Tracker.RefusedPairLeavesHalf | pkg/frost/security/frost_nonce_tracker.go:88-163 | a refused pair leaves the tracker as it was exactly when the hiding entry was the one refused |
| Tracker.HalfRecordedPair | pkg/frost/security/frost_nonce_tracker.go:46-98 | two pairs recorded for any participant of any session, with one binding commitment and different hiding commitments: for a collision-free hash the second pair is refused and its hiding entry stays |
| Service.ValidateKeyPackages | pkg/frost/service/frost.go:322-349 | the first package with another group key or a repeated identifier decides the error; the empty list is refused |
| Service.PackagesFromExact | pkg/frost/service/frost.go:322-349 | validation accepts exactly packages with one group key and distinct identifiers |
| Service.PackagesFault | pkg/frost/service/frost.go:322-349 | the first package with another group key or an identifier of one before it is the one named |
| Service.PreliminaryExact | pkg/frost/service/frost.go:104-142 | signing begins exactly with two packages or more, of one group key and distinct identifiers, without a zero nonce; otherwise the checks come in this order |
| Service.RunRoundOne | pkg/frost/service/frost.go:133-142 | every signer's commitment and nonces, or the first signer with a zero nonce |
| Service.RunRoundTwo | pkg/frost/service/frost.go:148-164 | every signer's share, or the first refusal, naming the signer |
| Service.Sign | pkg/frost/service/frost.go:104-176 | the preliminary checks in order, then both rounds and aggregation over the one ascending list |
| Service.SigningExact | pkg/frost/service/frost.go:104-176 | signing succeeds exactly when there are as many packages as each package asks for and as the first has verification shares, R is not the identity and the challenge not zero |
| Service.SigningRefused | pkg/frost/service/frost.go:104-176 | otherwise the first signer that refuses is named |
| Service.ServiceSigningIsCorrect | pkg/frost/service/frost.go:104-176 | for packages of one polynomial, whatever signing produces verifies under their public key |
| Service.DealtPackagesExact | pkg/frost/service/frost.go:116-125 | the service demands one signer per verification share: the threshold for GenerateShares packages, but all n participants for TrustedDealerKeygen packages, from which every smaller set is refused |
| Service.KeygenPackagesNeedAll | pkg/frost/service/frost.go:104-176 | of what TrustedDealerKeygen returns, for whatever threshold, only all packages together can sign; at least t but fewer are refused as too few |
| Witnesses.ThresholdRefused | pkg/frost/service/frost.go:104-176 | two of three participants with threshold two: the service signs with the packages of GenerateShares and refuses those of TrustedDealerKeygen |
| Service.VerifyKeyShare | pkg/frost/service/frost.go:205-225 | accepts a share exactly if it is the value of the polynomial committed to by the package's verification shares |

## Left out

- Groups: the concrete curves are thin wrappers over external code; an element is modelled by its discrete logarithm, with generator 1, over Z_q for an arbitrary prime q > 2^32. Element encodings are arbitrary, and injective of one width only where a lemma says so.
- Hash functions: H1, H2, H4, H5 and HDKG are arbitrary functions that a suite carries; a zero challenge is possible and handled. The derivation of nonces with H3 is part of the random draw.
- Randomness: scalars drawn by the code are inputs, so every statement holds for every draw. Failures of the random source are not modelled.
- nil pointers: the code's nil checks have no counterpart, and missing optional values are the empty sequence (the commitment in repair step 3).
- Error texts and wrapping: an error is its sentinel and the participants it names; a parameter wrapper is transparent and the outermost participant wrapper names the culprit.
- Memory: zeroization, memguard, constant-time claims and runtime.KeepAlive have no functional content.
- Aliasing of slices: a Go slice that a package shares with others is a value here; only the two sorts and the identifier buffer are modelled in place, on arrays.
- sort.Slice: the library sort is represented by its contract, a sorted permutation, which determines the result for distinct identifiers.
- Enumeration of maps: a loop over a map visits its keys in an arbitrary order, first fixed as a list where a sum is taken.
- ComputeRandomizer: the randomizer is an input of the rerandomised theorems.
- Coordinator extras: the authenticator, the reputation counters and the check for a missing group key.
- Interleaving: the concurrent model has identifiers and nonces only; what RoundTwo answers is left open, so it covers every signer's behaviour. Data races outside the lock are not modelled.
- Tracker metadata, and the saturation of Go's time differences at 292 years: times are integers. One tracker call is one step, as its lock makes it.
- Tracker hash: SHA-256 is an arbitrary function; injectivity is assumed only where a lemma says so.
- FrostNonceTracker: the participant names it builds ("7-hiding") are part of the entries it is given; checking a pair is two calls of CheckCommitment.
- Service key generation: validateConfiguration and validateParticipantIDs repeat the dealer's own checks.
- Sessions, key storage, serialization, the CLI, C bindings, validators and configuration: I/O, foreign calls or single-branch facts.
- SigningPackage readers, VerifyAll, GenerateNonces, VerifySignature: calls of functions that are modelled.
- Interleaving.UndisturbedSigningUsesItsOwn: a condition on whole calls that is enough; the exact condition, entry by entry, is Interleaving.TakesOwnNoncesExactly.
- Runtime panics: only the index out of range in Part3 is modelled, as an error value.
