/**
 * The checks that the long-term validation process links into its chain.
 * Their pass/fail logic belongs to the leaf checks and is not part of this
 * model: each constructor is a descriptor carrying the arguments the process
 * hands to the leaf check of the same name.
 */
module Checks {
  import opened Types

  datatype Check =
    | AcceptableBasicSignatureValidationCheck(basicSignatureValidation: Conclusion, constraint: LevelConstraint)
    | RevocationBasicBuildingBlocksCheck(revocationBbb: BasicBuildingBlocks, constraint: LevelConstraint)
    | RevocationDateAfterBestSignatureTimeCheck(
        signingCertificate: Option<Certificate>, bestSignatureTime: int, constraint: LevelConstraint)
    | BestSignatureTimeNotBeforeCertificateIssuanceCheck(
        bestSignatureTime: int, signingCertificate: Option<Certificate>, constraint: LevelConstraint)
    | BestSignatureTimeAfterCertificateIssuanceAndBeforeCertificateExpirationCheck(
        bestSignatureTime: int, signingCertificate: Option<Certificate>, constraint: LevelConstraint)
    | TimestampCoherenceOrderCheck(allowedTimestamps: seq<Timestamp>, constraint: LevelConstraint)
    | SigningTimeAttributePresentCheck(signature: Signature, constraint: LevelConstraint)
    | TimestampDelayCheck(signature: Signature, bestSignatureTime: int, timeConstraint: Option<TimeConstraint>)
    | CryptographicCheck(
        signature: Signature, bestSignatureTime: int, cryptographicConstraint: Option<CryptographicConstraint>)

  /** The constraint every check of this process gets unless the policy supplies one: level FAIL. */
  const FailLevel := LevelConstraint(Fail)

  /** The checks that compare something against best-signature-time. */
  predicate UsesBestSignatureTime(c: Check)
  {
    || c.RevocationDateAfterBestSignatureTimeCheck?
    || c.BestSignatureTimeNotBeforeCertificateIssuanceCheck?
    || c.BestSignatureTimeAfterCertificateIssuanceAndBeforeCertificateExpirationCheck?
    || c.TimestampDelayCheck?
    || c.CryptographicCheck?
  }

  /** The checks added by step 4 a) to 4 c), depending on the basic-signature conclusion. */
  predicate IsBranchCheck(c: Check)
  {
    || c.RevocationDateAfterBestSignatureTimeCheck?
    || c.BestSignatureTimeNotBeforeCertificateIssuanceCheck?
    || c.BestSignatureTimeAfterCertificateIssuanceAndBeforeCertificateExpirationCheck?
    || c.CryptographicCheck?
  }
}
