/**
 * One instance of the validation process for Signatures with Time and
 * Signatures with Long-Term Validation Data: built per signature, it links its
 * chain of checks once, in InitChain.
 */
module LongTermValidationProcess {
  import opened Types
  import opened Checks
  import opened TimestampFilter
  import opened BestSignatureTimeFold
  import opened LongTermValidation

  class ValidationProcess {
    /** The final fields, read from the signature analysis and the diagnostic data. */
    const inputs: Inputs

    /** The checks linked from the first item of the chain, in order. */
    var chain: seq<Check>

    constructor (signatureAnalysis: SignatureAnalysis, diagnosticData: DiagnosticData, currentSignature: Signature,
                 bbbs: map<string, BasicBuildingBlocks>, policy: Policy, currentDate: int)
      ensures inputs.basicSignatureValidation == signatureAnalysis.validationProcessBasicSignatures
      ensures inputs.timestampValidations == signatureAnalysis.validationProcessTimestamps
      ensures inputs.diagnosticData == diagnosticData && inputs.currentSignature == currentSignature
      ensures inputs.timestamps == diagnosticData.TimestampList(currentSignature.id)
      ensures inputs.revocationData == diagnosticData.allRevocationData
      ensures inputs.bbbs == bbbs && inputs.policy == policy && inputs.currentDate == currentDate
      ensures chain == []
    {
      inputs := Inputs(
        signatureAnalysis.validationProcessBasicSignatures,
        signatureAnalysis.validationProcessTimestamps,
        diagnosticData,
        currentSignature,
        diagnosticData.TimestampList(currentSignature.id),
        diagnosticData.allRevocationData,
        bbbs,
        policy,
        currentDate);
      chain := [];
    }

    /**
     * Links the chain: the acceptability check, one check per revocation token
     * with a basic-building-block result, the branch checks chosen by the
     * basic-signature conclusion against the best-signature-time folded from the
     * admitted time-stamps, and the three closing checks.
     */
    method InitChain()
      modifies this
      ensures chain == ExpectedChain(inputs)
      ensures chain[0] == AcceptableBasicSignatureValidationCheck(inputs.basicSignatureValidation, FailLevel)
      ensures forall c :: c in chain && UsesBestSignatureTime(c) ==> c.bestSignatureTime <= inputs.currentDate
    {
      var p := inputs;
      var bestSignatureTime := p.currentDate;

      var items := [p.IsAcceptableBasicSignatureValidation()];

      var revocationData := p.revocationData;
      var i := 0;
      while i < |revocationData|
        invariant 0 <= i <= |revocationData|
        invariant items == [p.IsAcceptableBasicSignatureValidation()] + RevocationChecks(revocationData[..i], p.bbbs)
      {
        var revocation := revocationData[i];
        assert revocationData[..i + 1][..i] == revocationData[..i];
        if revocation.id in p.bbbs {
          var revocationBbb := p.bbbs[revocation.id];
          items := items + [p.RevocationBasicBuildingBlocksValid(revocationBbb)];
        }
        i := i + 1;
      }
      assert revocationData[..i] == revocationData;

      var allowedTimestamps, skipped := FilterInvalidMessageImprint(p.timestamps);
      var missing;
      bestSignatureTime, missing := FoldBestSignatureTime(bestSignatureTime, allowedTimestamps, p.timestampValidations);

      var bsConclusion := p.basicSignatureValidation;
      if bsConclusion.indication == Indeterminate && bsConclusion.subIndication == Some(RevokedNoPoe) {
        items := items + [p.RevocationDateAfterBestSignatureDate(bestSignatureTime)];
      }
      if bsConclusion.indication == Indeterminate && bsConclusion.subIndication == Some(OutOfBoundsNoPoe) {
        items := items + [p.BestSignatureTimeNotBeforeCertificateIssuance(bestSignatureTime)];
        items := items + [p.BestSignatureTimeAfterCertificateIssuanceAndBeforeCertificateExpiration(bestSignatureTime)];
      }
      if bsConclusion.indication == Indeterminate && bsConclusion.subIndication == Some(CryptoConstraintsFailureNoPoe) {
        items := items + [p.AlgorithmReliableAtBestSignatureTime(bestSignatureTime)];
      }

      items := items + [p.TimestampCoherenceOrder(allowedTimestamps)];
      items := items + [p.SigningTimeAttributePresent()];
      items := items + [p.TimestampDelay(bestSignatureTime)];

      chain := items;
      TimeChecksUseBestSignatureTime(p);
    }
  }
}
