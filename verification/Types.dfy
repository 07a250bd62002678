/** The values that travel between the parties, and the error values of the library. */
module Types {
  import opened PrimeField
  import opened Group

  type Identifier = x: nat | x < IDENTIFIER_BOUND

  /** The sentinels of the library, and RuntimePanic for a call that the Go runtime aborts. */
  datatype ErrorKind =
    | InvalidParameters
    | InvalidParticipant
    | InvalidCommitment
    | InvalidSignatureShare
    | InvalidSignature
    | InvalidThreshold
    | InsufficientParticipants
    | DuplicateParticipant
    | InvalidKeyShare
    | InvalidPolynomial
    | IdentityElement
    | InvalidNonce
    | InvalidBindingFactor
    | InvalidChallenge
    | UnsortedCommitments
    | EmptyCommitmentList
    | DeserializationFailed
    | CommitmentReused
    | RuntimePanic

  /** An error names the participants it blames, outermost wrapper first; a plain error names none. */
  datatype Error = Plain(kind: ErrorKind) | Blaming(culprits: seq<Identifier>, kind: ErrorKind)

  datatype Result<+T> = Ok(value: T) | Err(error: Error)

  function GetCulprits(e: Error): seq<Identifier> {
    match e
    case Plain(_) => []
    case Blaming(ids, _) => ids
  }

  datatype Commitment = Commitment(id: Identifier, hiding: Element, binding: Element)

  datatype Nonces = Nonces(hiding: Scalar, binding: Scalar)

  datatype SignatureShare = SignatureShare(id: Identifier, share: Scalar)

  datatype Signature = Signature(R: Element, z: Scalar)

  datatype VerificationShare = VerificationShare(id: Identifier, key: Element)

  datatype KeyPackage = KeyPackage(
    id: Identifier,
    secretShare: Scalar,
    groupPublicKey: Element,
    verificationShares: seq<VerificationShare>,
    minSigners: nat,
    maxSigners: nat)
}
