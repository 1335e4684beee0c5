/**
 * The chain of checks that the validation process for Signatures with Time and
 * Signatures with Long-Term Validation Data builds, as a function of its inputs,
 * and the properties of that chain.
 */
module LongTermValidation {
  import opened Types
  import opened Checks
  import opened TimestampFilter
  import opened BestSignatureTimeFold

  /** The final fields of one process instance: everything initChain reads. */
  datatype Inputs = Inputs(
    basicSignatureValidation: Conclusion,
    timestampValidations: seq<TimestampValidation>,
    diagnosticData: DiagnosticData,
    currentSignature: Signature,
    timestamps: seq<Timestamp>,
    revocationData: seq<Revocation>,
    bbbs: map<string, BasicBuildingBlocks>,
    policy: Policy,
    currentDate: int)
  {
    /** The signing certificate of the signature, looked up in the diagnostic data. */
    function SigningCertificate(): (r: Option<Certificate>)
      ensures r.Some? <==> currentSignature.signingCertificateId in diagnosticData.usedCertificates
      ensures r.Some? ==> r.value == diagnosticData.usedCertificates[currentSignature.signingCertificateId]
    {
      diagnosticData.UsedCertificateById(currentSignature.signingCertificateId)
    }

    // The check factories of the process, one per leaf check. Each contract says
    // which leaf check is built, with which arguments and constraint, and whether it
    // is a branch check or compares against best-signature-time.

    function IsAcceptableBasicSignatureValidation(): (c: Check)
      ensures c.AcceptableBasicSignatureValidationCheck?
      ensures c.basicSignatureValidation == basicSignatureValidation && c.constraint == FailLevel
      ensures !IsBranchCheck(c) && !UsesBestSignatureTime(c)
    {
      AcceptableBasicSignatureValidationCheck(basicSignatureValidation, FailLevel)
    }

    function RevocationBasicBuildingBlocksValid(revocationBbb: BasicBuildingBlocks): (c: Check)
      ensures c.RevocationBasicBuildingBlocksCheck?
      ensures c.revocationBbb == revocationBbb && c.constraint == FailLevel
      ensures !IsBranchCheck(c) && !UsesBestSignatureTime(c)
    {
      RevocationBasicBuildingBlocksCheck(revocationBbb, FailLevel)
    }

    function RevocationDateAfterBestSignatureDate(bestSignatureTime: int): (c: Check)
      ensures c.RevocationDateAfterBestSignatureTimeCheck?
      ensures c.signingCertificate == SigningCertificate() && c.constraint == FailLevel
      ensures IsBranchCheck(c) && UsesBestSignatureTime(c) && c.bestSignatureTime == bestSignatureTime
    {
      RevocationDateAfterBestSignatureTimeCheck(SigningCertificate(), bestSignatureTime, FailLevel)
    }

    function BestSignatureTimeNotBeforeCertificateIssuance(bestSignatureTime: int): (c: Check)
      ensures c.BestSignatureTimeNotBeforeCertificateIssuanceCheck?
      ensures c.signingCertificate == SigningCertificate() && c.constraint == FailLevel
      ensures IsBranchCheck(c) && UsesBestSignatureTime(c) && c.bestSignatureTime == bestSignatureTime
    {
      BestSignatureTimeNotBeforeCertificateIssuanceCheck(bestSignatureTime, SigningCertificate(), FailLevel)
    }

    function BestSignatureTimeAfterCertificateIssuanceAndBeforeCertificateExpiration(bestSignatureTime: int): (c: Check)
      ensures c.BestSignatureTimeAfterCertificateIssuanceAndBeforeCertificateExpirationCheck?
      ensures c.signingCertificate == SigningCertificate() && c.constraint == FailLevel
      ensures IsBranchCheck(c) && UsesBestSignatureTime(c) && c.bestSignatureTime == bestSignatureTime
    {
      BestSignatureTimeAfterCertificateIssuanceAndBeforeCertificateExpirationCheck(
        bestSignatureTime, SigningCertificate(), FailLevel)
    }

    function TimestampCoherenceOrder(allowedTimestamps: seq<Timestamp>): (c: Check)
      ensures c.TimestampCoherenceOrderCheck?
      ensures c.allowedTimestamps == allowedTimestamps && c.constraint == FailLevel
      ensures !IsBranchCheck(c) && !UsesBestSignatureTime(c)
    {
      TimestampCoherenceOrderCheck(allowedTimestamps, FailLevel)
    }

    function SigningTimeAttributePresent(): (c: Check)
      ensures c.SigningTimeAttributePresentCheck?
      ensures c.signature == currentSignature && c.constraint == FailLevel
      ensures !IsBranchCheck(c) && !UsesBestSignatureTime(c)
    {
      SigningTimeAttributePresentCheck(currentSignature, FailLevel)
    }

    function TimestampDelay(bestSignatureTime: int): (c: Check)
      ensures c.TimestampDelayCheck?
      ensures c.signature == currentSignature
      ensures c.timeConstraint == policy.timestampDelaySigningTimePropertyConstraint
      ensures !IsBranchCheck(c) && UsesBestSignatureTime(c) && c.bestSignatureTime == bestSignatureTime
    {
      TimestampDelayCheck(currentSignature, bestSignatureTime, policy.timestampDelaySigningTimePropertyConstraint)
    }

    function AlgorithmReliableAtBestSignatureTime(bestSignatureTime: int): (c: Check)
      ensures c.CryptographicCheck?
      ensures c.signature == currentSignature
      ensures c.cryptographicConstraint == policy.signatureCryptographicConstraint
      ensures IsBranchCheck(c) && UsesBestSignatureTime(c) && c.bestSignatureTime == bestSignatureTime
    {
      CryptographicCheck(currentSignature, bestSignatureTime, policy.signatureCryptographicConstraint)
    }

    /** The checks of step 4 a) to 4 c): three independent tests of the basic-signature conclusion. */
    function BranchChecks(bestSignatureTime: int): seq<Check>
    {
      var c := basicSignatureValidation;
      (if IsIndeterminateWith(c, RevokedNoPoe)
       then [RevocationDateAfterBestSignatureDate(bestSignatureTime)] else [])
      + (if IsIndeterminateWith(c, OutOfBoundsNoPoe)
         then [BestSignatureTimeNotBeforeCertificateIssuance(bestSignatureTime),
               BestSignatureTimeAfterCertificateIssuanceAndBeforeCertificateExpiration(bestSignatureTime)]
         else [])
      + (if IsIndeterminateWith(c, CryptoConstraintsFailureNoPoe)
         then [AlgorithmReliableAtBestSignatureTime(bestSignatureTime)] else [])
    }

    /** The time-stamps kept by the message-imprint filter. */
    function AllowedTimestamps(): seq<Timestamp>
    {
      Admitted(timestamps)
    }

    /** Best-signature-time as computed from the admitted time-stamps. */
    function BestTime(): int
    {
      BestSignatureTime(currentDate, AllowedTimestamps(), timestampValidations)
    }
  }

  /** The conclusion is INDETERMINATE with sub-indication `s`. */
  predicate IsIndeterminateWith(c: Conclusion, s: SubIndication)
  {
    c.indication == Indeterminate && c.subIndication == Some(s)
  }

  /** The revocation tokens, in iteration order, that have a basic-building-block result. */
  function TokensWithResult(rs: seq<Revocation>, bbbs: map<string, BasicBuildingBlocks>): seq<Revocation>
  {
    if rs == [] then []
    else TokensWithResult(rs[..|rs| - 1], bbbs) + (if rs[|rs| - 1].id in bbbs then [rs[|rs| - 1]] else [])
  }

  /** The checks of step 2): one per revocation token that has a basic-building-block result. */
  function RevocationChecks(rs: seq<Revocation>, bbbs: map<string, BasicBuildingBlocks>): seq<Check>
  {
    if rs == [] then []
    else
      var r := rs[|rs| - 1];
      RevocationChecks(rs[..|rs| - 1], bbbs)
      + (if r.id in bbbs then [RevocationBasicBuildingBlocksCheck(bbbs[r.id], FailLevel)] else [])
  }

  /** The chain initChain links, first item first. */
  function ExpectedChain(p: Inputs): seq<Check>
  {
    var bestSignatureTime := p.BestTime();
    [p.IsAcceptableBasicSignatureValidation()]
    + RevocationChecks(p.revocationData, p.bbbs)
    + p.BranchChecks(bestSignatureTime)
    + [p.TimestampCoherenceOrder(p.AllowedTimestamps()),
       p.SigningTimeAttributePresent(),
       p.TimestampDelay(bestSignatureTime)]
  }

  /** A revocation token is counted exactly when it is present and has a basic-building-block result. */
  lemma {:induction false} TokensWithResultIff(rs: seq<Revocation>, bbbs: map<string, BasicBuildingBlocks>, r: Revocation)
    ensures r in TokensWithResult(rs, bbbs) <==> r in rs && r.id in bbbs
  {
    if rs != [] {
      var init := rs[..|rs| - 1];
      TokensWithResultIff(init, bbbs, r);
      assert rs == init + [rs[|rs| - 1]];
    }
  }

  /**
   * Exactly one revocation check per token with a result, in iteration order,
   * each carrying that token's basic-building-block result.
   */
  lemma {:induction false} RevocationChecksPerToken(rs: seq<Revocation>, bbbs: map<string, BasicBuildingBlocks>)
    ensures var w := TokensWithResult(rs, bbbs);
            && |RevocationChecks(rs, bbbs)| == |w|
            && forall k :: 0 <= k < |w| ==>
                 w[k].id in bbbs && RevocationChecks(rs, bbbs)[k] == RevocationBasicBuildingBlocksCheck(bbbs[w[k].id], FailLevel)
  {
    if rs != [] {
      RevocationChecksPerToken(rs[..|rs| - 1], bbbs);
    }
  }

  /** Only revocation building-block checks come from step 2). */
  lemma RevocationChecksKind(rs: seq<Revocation>, bbbs: map<string, BasicBuildingBlocks>)
    ensures forall c :: c in RevocationChecks(rs, bbbs) ==> c.RevocationBasicBuildingBlocksCheck? && c.constraint == FailLevel
  {
    RevocationChecksPerToken(rs, bbbs);
  }

  /**
   * The shape of the chain: the acceptability check first, then one check per
   * revocation token with a result, then at most two branch checks, and the
   * three closing checks in the order time-stamp coherence, signing-time
   * presence, time-stamp delay.
   */
  lemma ChainShape(p: Inputs)
    ensures var r := ExpectedChain(p);
            var w := TokensWithResult(p.revocationData, p.bbbs);
            var m := |p.BranchChecks(p.BestTime())|;
            && m <= 2
            && |r| == 1 + |w| + m + 3
            && r[0] == AcceptableBasicSignatureValidationCheck(p.basicSignatureValidation, FailLevel)
            && (forall k :: 0 <= k < |w| ==>
                  w[k].id in p.bbbs && r[1 + k] == RevocationBasicBuildingBlocksCheck(p.bbbs[w[k].id], FailLevel))
            && r[1 + |w| .. 1 + |w| + m] == p.BranchChecks(p.BestTime())
            && r[|r| - 3] == TimestampCoherenceOrderCheck(Admitted(p.timestamps), FailLevel)
            && r[|r| - 2] == SigningTimeAttributePresentCheck(p.currentSignature, FailLevel)
            && r[|r| - 1] == TimestampDelayCheck(
                               p.currentSignature, p.BestTime(), p.policy.timestampDelaySigningTimePropertyConstraint)
  {
    RevocationChecksPerToken(p.revocationData, p.bbbs);
  }

  /**
   * Which branch checks are added, by basic-signature conclusion: at most one
   * sub-indication applies, so at most one group is added.
   */
  lemma BranchChecksByConclusion(p: Inputs, bestSignatureTime: int)
    ensures var c := p.basicSignatureValidation;
            var b := p.BranchChecks(bestSignatureTime);
            var cert := p.SigningCertificate();
            && (IsIndeterminateWith(c, RevokedNoPoe) ==>
                  b == [RevocationDateAfterBestSignatureTimeCheck(cert, bestSignatureTime, FailLevel)])
            && (IsIndeterminateWith(c, OutOfBoundsNoPoe) ==>
                  b == [BestSignatureTimeNotBeforeCertificateIssuanceCheck(bestSignatureTime, cert, FailLevel),
                        BestSignatureTimeAfterCertificateIssuanceAndBeforeCertificateExpirationCheck(bestSignatureTime, cert, FailLevel)])
            && (IsIndeterminateWith(c, CryptoConstraintsFailureNoPoe) ==>
                  b == [CryptographicCheck(p.currentSignature, bestSignatureTime, p.policy.signatureCryptographicConstraint)])
            && ((!IsIndeterminateWith(c, RevokedNoPoe) && !IsIndeterminateWith(c, OutOfBoundsNoPoe)
                 && !IsIndeterminateWith(c, CryptoConstraintsFailureNoPoe)) ==> b == [])
  {
  }

  /** Every check of the chain that is not a branch check. */
  lemma NonBranchPartsHaveNoBranchCheck(p: Inputs)
    ensures forall c :: c in [p.IsAcceptableBasicSignatureValidation()] + RevocationChecks(p.revocationData, p.bbbs) ==> !IsBranchCheck(c)
    ensures forall c ::
              (c in [p.TimestampCoherenceOrder(p.AllowedTimestamps()), p.SigningTimeAttributePresent(), p.TimestampDelay(p.BestTime())])
              ==> !IsBranchCheck(c)
  {
    RevocationChecksKind(p.revocationData, p.bbbs);
  }

  /**
   * A branch check occurs in the chain if and only if the basic-signature
   * conclusion is the INDETERMINATE sub-indication that calls for it; for
   * any other conclusion, PASSED included, the chain holds no branch check.
   */
  lemma BranchCheckIffConclusion(p: Inputs)
    ensures var r := ExpectedChain(p);
            var c := p.basicSignatureValidation;
            && ((exists k :: 0 <= k < |r| && r[k].RevocationDateAfterBestSignatureTimeCheck?) <==> IsIndeterminateWith(c, RevokedNoPoe))
            && ((exists k :: 0 <= k < |r| && r[k].BestSignatureTimeNotBeforeCertificateIssuanceCheck?) <==> IsIndeterminateWith(c, OutOfBoundsNoPoe))
            && ((exists k :: 0 <= k < |r| && r[k].BestSignatureTimeAfterCertificateIssuanceAndBeforeCertificateExpirationCheck?)
                  <==> IsIndeterminateWith(c, OutOfBoundsNoPoe))
            && ((exists k :: 0 <= k < |r| && r[k].CryptographicCheck?) <==> IsIndeterminateWith(c, CryptoConstraintsFailureNoPoe))
            && ((forall k :: 0 <= k < |r| ==> !IsBranchCheck(r[k])) <==>
                  !IsIndeterminateWith(c, RevokedNoPoe) && !IsIndeterminateWith(c, OutOfBoundsNoPoe)
                  && !IsIndeterminateWith(c, CryptoConstraintsFailureNoPoe))
  {
    var bst := p.BestTime();
    var head := [p.IsAcceptableBasicSignatureValidation()] + RevocationChecks(p.revocationData, p.bbbs);
    var branch := p.BranchChecks(bst);
    var tail := [p.TimestampCoherenceOrder(p.AllowedTimestamps()), p.SigningTimeAttributePresent(), p.TimestampDelay(bst)];
    var r := ExpectedChain(p);
    assert r == head + branch + tail;
    NonBranchPartsHaveNoBranchCheck(p);
    BranchChecksOnlyBetween(head, branch, tail);
    BranchChecksByConclusion(p, bst);
    var c := p.basicSignatureValidation;
    if IsIndeterminateWith(c, RevokedNoPoe) {
      assert r[|head|] == branch[0];
    } else if IsIndeterminateWith(c, OutOfBoundsNoPoe) {
      assert r[|head|] == branch[0];
      assert r[|head| + 1] == branch[1];
    } else if IsIndeterminateWith(c, CryptoConstraintsFailureNoPoe) {
      assert r[|head|] == branch[0];
    }
  }

  /** When neither `head` nor `tail` holds a branch check, every branch check of the chain comes from `branch`. */
  lemma BranchChecksOnlyBetween(head: seq<Check>, branch: seq<Check>, tail: seq<Check>)
    requires forall c :: c in head ==> !IsBranchCheck(c)
    requires forall c :: c in tail ==> !IsBranchCheck(c)
    ensures var r := head + branch + tail;
            && (forall k :: 0 <= k < |r| && IsBranchCheck(r[k]) ==> r[k] in branch)
            && (forall k :: 0 <= k < |branch| ==> r[|head| + k] == branch[k])
  {
    var r := head + branch + tail;
    forall k | 0 <= k < |r| && IsBranchCheck(r[k])
      ensures r[k] in branch
    {
      if |head| <= k < |head| + |branch| {
        assert r[k] == branch[k - |head|];
      }
    }
  }

  /** Every check that compares against best-signature-time gets the one computed from the admitted time-stamps. */
  lemma TimeChecksUseBestSignatureTime(p: Inputs)
    ensures forall c :: c in ExpectedChain(p) && UsesBestSignatureTime(c) ==> c.bestSignatureTime == p.BestTime()
    ensures p.BestTime() <= p.currentDate
  {
    RevocationChecksKind(p.revocationData, p.bbbs);
    BestSignatureTimeNotAfterCurrentDate(p.currentDate, p.AllowedTimestamps(), p.timestampValidations);
  }

  /**
   * A time-stamp whose message imprint was not found or is not intact has no
   * influence on the chain: not on best-signature-time, not on the coherence
   * check, not on the delay check.
   */
  lemma RejectedTimestampIrrelevant(p: Inputs, k: nat, t: Timestamp)
    requires k <= |p.timestamps|
    requires !Admits(t)
    ensures ExpectedChain(p.(timestamps := p.timestamps[..k] + [t] + p.timestamps[k..])) == ExpectedChain(p)
  {
    RejectedTimestampDropped(p.timestamps[..k], t, p.timestamps[k..]);
    assert p.timestamps[..k] + p.timestamps[k..] == p.timestamps;
  }

  /** With no admissible time-stamp, best-signature-time stays the current date. */
  lemma NoAdmittedTimestampKeepsCurrentDate(p: Inputs)
    requires forall k :: 0 <= k < |p.timestamps| ==> !Admits(p.timestamps[k])
    ensures p.BestTime() == p.currentDate
  {
    if Admitted(p.timestamps) != [] {
      var t := Admitted(p.timestamps)[0];
      AdmittedIff(p.timestamps, t);
      assert false;
    }
  }
}
