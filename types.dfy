/**
 * Data model of the validation process for Signatures with Time and
 * Signatures with Long-Term Validation Data (clause 5.5 of ETSI EN 319 102-1).
 *
 * Points in time are integers (the instant in any fixed unit); the report
 * objects of the surrounding validator are reduced to the attributes this
 * process reads.
 */
module Types {

  datatype Option<+T> = None | Some(value: T)

  /** Main status of a validation step. */
  datatype Indication = Passed | Indeterminate | Failed

  /** Sub-status of a validation step, as enumerated by ETSI EN 319 102-1. */
  datatype SubIndication =
    | FormatFailure
    | HashFailure
    | SigCryptoFailure
    | Revoked
    | SigConstraintsFailure
    | ChainConstraintsFailure
    | CertificateChainGeneralFailure
    | CryptoConstraintsFailure
    | Expired
    | NotYetValid
    | PolicyProcessingError
    | SignaturePolicyNotAvailable
    | TimestampOrderFailure
    | NoSigningCertificateFound
    | NoCertificateChainFound
    | RevokedNoPoe
    | RevokedCaNoPoe
    | OutOfBoundsNoPoe
    | CryptoConstraintsFailureNoPoe
    | NoPoe
    | TryLater
    | SignedDataNotFound

  /** The conclusion of a validation step; the sub-indication may be absent. */
  datatype Conclusion = Conclusion(indication: Indication, subIndication: Option<SubIndication>)

  /** Status of one executed constraint in a report. */
  datatype Status = Ok | NotOk | Warning | Informational | Ignored

  /** A signature time-stamp token attached to the signature. */
  datatype Timestamp = Timestamp(
    id: string,
    productionTime: int,
    messageImprintDataFound: bool,
    messageImprintDataIntact: bool)

  /** One constraint of a time-stamp validation report: the time-stamp it is about and its status. */
  datatype TimestampConstraint = TimestampConstraint(id: string, status: Status)

  /** The report of one run of the time-stamp validation process (clause 5.4). */
  datatype TimestampValidation = TimestampValidation(constraints: seq<TimestampConstraint>)

  /** A revocation token (CRL or OCSP response) known to the diagnostic data. */
  datatype Revocation = Revocation(id: string)

  /** The basic building blocks validated for one token, reduced to their conclusion. */
  datatype BasicBuildingBlocks = BasicBuildingBlocks(id: string, conclusion: Conclusion)

  /** A certificate used by the signature, with its validity period. */
  datatype Certificate = Certificate(id: string, notBefore: int, notAfter: int)

  /** The signature under validation. */
  datatype Signature = Signature(id: string, signingCertificateId: string, signingTime: Option<int>)

  /** Severity a policy attaches to a constraint. */
  datatype Level = Fail | Warn | Inform | Ignore

  datatype LevelConstraint = LevelConstraint(level: Level)

  /** The time-stamp delay constraint: the signing time plus `delay` must be after best-signature-time. */
  datatype TimeConstraint = TimeConstraint(level: Level, delay: int)

  /** The cryptographic constraint of the policy for the SIGNATURE context. */
  datatype CryptographicConstraint = CryptographicConstraint(level: Level)

  /** The constraints of the validation policy that this process reads; each may be absent. */
  datatype Policy = Policy(
    timestampDelaySigningTimePropertyConstraint: Option<TimeConstraint>,
    signatureCryptographicConstraint: Option<CryptographicConstraint>)

  /** What the validator already computed for the signature: basic-signature and time-stamp validations. */
  datatype SignatureAnalysis = SignatureAnalysis(
    validationProcessBasicSignatures: Conclusion,
    validationProcessTimestamps: seq<TimestampValidation>)

  /** The diagnostic data: time-stamps per signature, all revocation data, used certificates by id. */
  datatype DiagnosticData = DiagnosticData(
    timestampsBySignature: map<string, seq<Timestamp>>,
    allRevocationData: seq<Revocation>,
    usedCertificates: map<string, Certificate>)
  {
    /** The time-stamps of signature `signatureId`; none when the signature has none recorded. */
    function TimestampList(signatureId: string): (r: seq<Timestamp>)
      ensures signatureId !in timestampsBySignature ==> r == []
    {
      if signatureId in timestampsBySignature then timestampsBySignature[signatureId] else []
    }

    /** The used certificate with identifier `id`, if there is one. */
    function UsedCertificateById(id: string): (r: Option<Certificate>)
      ensures r.Some? <==> id in usedCertificates
    {
      if id in usedCertificates then Some(usedCertificates[id]) else None
    }
  }
}
