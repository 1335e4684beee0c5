# Long-term validation data process (clause 5.5 of ETSI EN 319 102-1), modelled in Dafny

This project models the validation process for Signatures with Time and Signatures
with Long-Term Validation Data, as the class
`ValidationProcessForSignaturesWithLongTermValidationData` of the DSS validation
policy implements it. For one signature, `initChain` does four things:

- it starts best-signature-time at the current date;
- it links the acceptable-basic-signature-validation check, then one revocation
  building-block check for each revocation token that has a basic-building-block result;
- it drops the signature time-stamps whose message imprint was not found or is not
  intact, and lowers best-signature-time to the production time of each admitted
  time-stamp that is strictly earlier and has a validation record with status OK;
- it adds the checks chosen by the basic-signature conclusion
  (INDETERMINATE/REVOKED_NO_POE, OUT_OF_BOUNDS_NO_POE or
  CRYPTO_CONSTRAINTS_FAILURE_NO_POE), then the time-stamp coherence, signing-time
  presence and time-stamp delay checks.

Files:

- `types.dfy` (module `Types`): indications, sub-indications, conclusions, time-stamps
  and their validation reports, revocation tokens, certificates, the policy constraints,
  and the diagnostic data with its two lookups. Points in time are integers.
- `timestamp_filter.dfy` (module `TimestampFilter`): `filterInvalidMessageImprint` as a
  loop (`FilterInvalidMessageImprint`). It is proved against the specification function
  `Admitted`.
- `best_signature_time.dfy` (module `BestSignatureTimeFold`): the loop nest of
  `initChain` that folds the admitted time-stamps into best-signature-time
  (`FoldBestSignatureTime`). It is proved against the fold `BestSignatureTime`, and that
  fold is proved equal to the minimum of the current date and the production times of
  the time-stamps with an OK record (`IsEarliestProof`).
- `checks.dfy` (module `Checks`): one descriptor constructor per leaf check, carrying the
  arguments the process passes to it.
- `chain.dfy` (module `LongTermValidation`): the final fields of the process (`Inputs`)
  and its check factories. It also holds the chain that `initChain` builds, as the
  function `ExpectedChain`, and the lemmas about that chain.
- `process.dfy` (module `LongTermValidationProcess`): the process as a class. Its
  constructor reads its fields from the signature analysis and the diagnostic data, and
  `InitChain` links the chain with the same loops and branches as the source.

Each check factory of the source (`isAcceptableBasicSignatureValidation` …
`algorithmReliableAtBestSignatureTime`, lines 211-263) is one constructor expression.
Each is modelled as the member function of `Inputs` with the same name. The function
builds the descriptor with the fail-level constraint, or with the policy's constraint for
the delay and cryptographic checks. Each factory's contract names the check it builds and
the arguments it carries. It also says whether the check is a branch check and whether it
compares against best-signature-time.

Two points about the code, set against the standard's steps quoted in its comments:

- The source uses three independent `if` statements for steps 4 a) to 4 c), not an
  else-if chain. They can never fire together, because the conclusion has a single
  sub-indication. `BranchChecksByConclusion` proves this.
- The whole chain is built whatever the basic-signature conclusion. Stopping after a
  failed acceptability check is left to the chain engine, which is not modelled.

## Model

| member | source | states |
|---|---|---|
| `TimestampFilter.FilterInvalidMessageImprint` | validation-policy/src/main/java/eu/europa/esig/dss/validation/process/vpfltvd/ValidationProcessForSignaturesWithLongTermValidationData.java:219-229 | The result is `Admitted` of the input: the time-stamps whose message-imprint-found and message-imprint-intact flags are both true, in input order (`AdmittedIff` gives the if-and-only-if). The identifiers of the skipped time-stamps are returned, and every input time-stamp is either kept or skipped. |
| `TimestampFilter.AdmittedIff` | validation-policy/src/main/java/eu/europa/esig/dss/validation/process/vpfltvd/ValidationProcessForSignaturesWithLongTermValidationData.java:221-223 | A time-stamp is admitted if and only if it is in the input and has both imprint flags set. |
| `TimestampFilter.RejectedTimestampDropped` | validation-policy/src/main/java/eu/europa/esig/dss/validation/process/vpfltvd/ValidationProcessForSignaturesWithLongTermValidationData.java:219-229 | Inserting a rejected time-stamp anywhere in the input leaves the admitted list unchanged. |
| `BestSignatureTimeFold.FoldBestSignatureTime` | validation-policy/src/main/java/eu/europa/esig/dss/validation/process/vpfltvd/ValidationProcessForSignaturesWithLongTermValidationData.java:127-145 | The loop nest, including the `break` that leaves only the constraint loop, computes the fold. Its result is the minimum of the current date and the production times of admitted time-stamps with an OK record. The warnings it returns are exactly the admitted time-stamps that no record names. |
| `BestSignatureTimeFold.BestSignatureTimeIsEarliestProof` | validation-policy/src/main/java/eu/europa/esig/dss/validation/process/vpfltvd/ValidationProcessForSignaturesWithLongTermValidationData.java:127-141 | The fold is at most the current date and at most every qualifying production time. It equals either the current date or one qualifying production time. |
| `BestSignatureTimeFold.BestSignatureTimeNotAfterCurrentDate` | validation-policy/src/main/java/eu/europa/esig/dss/validation/process/vpfltvd/ValidationProcessForSignaturesWithLongTermValidationData.java:88 | Best-signature-time starts at the current date and never becomes later than it. |
| `BestSignatureTimeFold.BestSignatureTimeSource` | validation-policy/src/main/java/eu/europa/esig/dss/validation/process/vpfltvd/ValidationProcessForSignaturesWithLongTermValidationData.java:134-136 | Best-signature-time only ever takes the production time of an admitted time-stamp that has an OK validation record. |
| `BestSignatureTimeFold.BestSignatureTimeOrderIndependent` | validation-policy/src/main/java/eu/europa/esig/dss/validation/process/vpfltvd/ValidationProcessForSignaturesWithLongTermValidationData.java:118-127 | Iterating the admitted set in any order gives the same best-signature-time. |
| `BestSignatureTimeFold.BestSignatureTimeNonIncreasing` | validation-policy/src/main/java/eu/europa/esig/dss/validation/process/vpfltvd/ValidationProcessForSignaturesWithLongTermValidationData.java:135-136 | Folding in more time-stamps never makes best-signature-time later. |
| `BestSignatureTimeFold.TimestampWithoutOkRecordIgnored` | validation-policy/src/main/java/eu/europa/esig/dss/validation/process/vpfltvd/ValidationProcessForSignaturesWithLongTermValidationData.java:132-144 | A time-stamp with no record, or with only non-OK records, does not change best-signature-time, wherever it stands in the list. |
| `BestSignatureTimeFold.NotEarlierTimestampIgnored` | validation-policy/src/main/java/eu/europa/esig/dss/validation/process/vpfltvd/ValidationProcessForSignaturesWithLongTermValidationData.java:135 | A time-stamp whose production time is equal to or later than the current value leaves it unchanged. |
| `BestSignatureTimeFold.EarlierOkTimestampWins` | validation-policy/src/main/java/eu/europa/esig/dss/validation/process/vpfltvd/ValidationProcessForSignaturesWithLongTermValidationData.java:135-136 | A strictly earlier time-stamp with an OK record becomes the new best-signature-time. |
| `BestSignatureTimeFold.MissingValidationIff` | validation-policy/src/main/java/eu/europa/esig/dss/validation/process/vpfltvd/ValidationProcessForSignaturesWithLongTermValidationData.java:142-144 | A warning is issued for an identifier exactly when an admitted time-stamp has it and no validation record names it. |
| `LongTermValidation.Inputs.SigningCertificate` | validation-policy/src/main/java/eu/europa/esig/dss/validation/process/vpfltvd/ValidationProcessForSignaturesWithLongTermValidationData.java:232 | The signing certificate is present exactly when the diagnostic data has a used certificate with the signature's signing-certificate id, and it is that certificate. Lines 237 and 243 repeat the same lookup. |
| `LongTermValidation.Inputs.IsAcceptableBasicSignatureValidation` | validation-policy/src/main/java/eu/europa/esig/dss/validation/process/vpfltvd/ValidationProcessForSignaturesWithLongTermValidationData.java:211-213 | Builds the acceptable-basic-signature-validation check over the basic-signature conclusion at fail level. It is neither a branch check nor a time comparison. |
| `LongTermValidation.Inputs.RevocationBasicBuildingBlocksValid` | validation-policy/src/main/java/eu/europa/esig/dss/validation/process/vpfltvd/ValidationProcessForSignaturesWithLongTermValidationData.java:215-217 | Builds the revocation building-block check over the given token's building-block result at fail level. It is neither a branch check nor a time comparison. |
| `LongTermValidation.Inputs.RevocationDateAfterBestSignatureDate` | validation-policy/src/main/java/eu/europa/esig/dss/validation/process/vpfltvd/ValidationProcessForSignaturesWithLongTermValidationData.java:231-234 | Builds the revocation-date-after-best-signature-time check with the signing certificate, the given best-signature-time and fail level. It is a branch check. |
| `LongTermValidation.Inputs.BestSignatureTimeNotBeforeCertificateIssuance` | validation-policy/src/main/java/eu/europa/esig/dss/validation/process/vpfltvd/ValidationProcessForSignaturesWithLongTermValidationData.java:236-240 | Builds the not-before-issuance check with the given best-signature-time, the signing certificate and fail level. It is a branch check. |
| `LongTermValidation.Inputs.BestSignatureTimeAfterCertificateIssuanceAndBeforeCertificateExpiration` | validation-policy/src/main/java/eu/europa/esig/dss/validation/process/vpfltvd/ValidationProcessForSignaturesWithLongTermValidationData.java:242-246 | Builds the within-issuance-and-expiration check with the given best-signature-time, the signing certificate and fail level. It is a branch check. |
| `LongTermValidation.Inputs.TimestampCoherenceOrder` | validation-policy/src/main/java/eu/europa/esig/dss/validation/process/vpfltvd/ValidationProcessForSignaturesWithLongTermValidationData.java:248-250 | Builds the time-stamp coherence/order check over the given admitted time-stamps at fail level. It does not compare against best-signature-time. |
| `LongTermValidation.Inputs.SigningTimeAttributePresent` | validation-policy/src/main/java/eu/europa/esig/dss/validation/process/vpfltvd/ValidationProcessForSignaturesWithLongTermValidationData.java:252-254 | Builds the signing-time-attribute-present check over the current signature at fail level. It does not compare against best-signature-time. |
| `LongTermValidation.Inputs.TimestampDelay` | validation-policy/src/main/java/eu/europa/esig/dss/validation/process/vpfltvd/ValidationProcessForSignaturesWithLongTermValidationData.java:256-258 | Builds the time-stamp delay check with the current signature, the given best-signature-time, and the policy's time-stamp-delay constraint instead of the fail level. It is not a branch check. |
| `LongTermValidation.Inputs.AlgorithmReliableAtBestSignatureTime` | validation-policy/src/main/java/eu/europa/esig/dss/validation/process/vpfltvd/ValidationProcessForSignaturesWithLongTermValidationData.java:260-263 | Builds the cryptographic check with the current signature, the given best-signature-time, and the policy's signature cryptographic constraint. It is a branch check. |
| `LongTermValidation.TokensWithResultIff` | validation-policy/src/main/java/eu/europa/esig/dss/validation/process/vpfltvd/ValidationProcessForSignaturesWithLongTermValidationData.java:103-110 | A revocation token gets a check exactly when it is in the revocation data and its id has a basic-building-block result. |
| `LongTermValidation.RevocationChecksPerToken` | validation-policy/src/main/java/eu/europa/esig/dss/validation/process/vpfltvd/ValidationProcessForSignaturesWithLongTermValidationData.java:103-110 | There is exactly one revocation building-block check per token with a result, in iteration order. Each check carries that token's building-block result. |
| `LongTermValidation.RevocationChecksKind` | validation-policy/src/main/java/eu/europa/esig/dss/validation/process/vpfltvd/ValidationProcessForSignaturesWithLongTermValidationData.java:107 | Step 2 adds only revocation building-block checks, each at fail level. |
| `LongTermValidation.ChainShape` | validation-policy/src/main/java/eu/europa/esig/dss/validation/process/vpfltvd/ValidationProcessForSignaturesWithLongTermValidationData.java:101-207 | The chain has the acceptability check first, then the per-token revocation checks, then at most two branch checks. It ends with coherence over the admitted time-stamps, signing-time presence, and delay against best-signature-time, in that order. Between them sit exactly `BranchChecks` of the conclusion, so OUT_OF_BOUNDS_NO_POE gives not-before-issuance and then within-issuance-and-expiration. Its length is 1 + (revocation checks) + (branch checks) + 3. |
| `LongTermValidation.BranchChecksByConclusion` | validation-policy/src/main/java/eu/europa/esig/dss/validation/process/vpfltvd/ValidationProcessForSignaturesWithLongTermValidationData.java:153-180 | REVOKED_NO_POE adds one revocation-date check. OUT_OF_BOUNDS_NO_POE adds not-before-issuance, then within-issuance-and-expiration. CRYPTO_CONSTRAINTS_FAILURE_NO_POE adds one cryptographic check. Every other conclusion adds none. |
| `LongTermValidation.BranchCheckIffConclusion` | validation-policy/src/main/java/eu/europa/esig/dss/validation/process/vpfltvd/ValidationProcessForSignaturesWithLongTermValidationData.java:153-180 | Each kind of branch check is in the chain if and only if the basic-signature conclusion is the INDETERMINATE sub-indication that calls for it. The chain has no branch check if and only if the conclusion is none of the three, for example PASSED. |
| `LongTermValidation.TimeChecksUseBestSignatureTime` | validation-policy/src/main/java/eu/europa/esig/dss/validation/process/vpfltvd/ValidationProcessForSignaturesWithLongTermValidationData.java:155-207 | Every check that compares against best-signature-time gets the value folded from the admitted time-stamps. That value is not after the current date. |
| `LongTermValidation.RejectedTimestampIrrelevant` | validation-policy/src/main/java/eu/europa/esig/dss/validation/process/vpfltvd/ValidationProcessForSignaturesWithLongTermValidationData.java:118-207 | Adding a time-stamp with a missing or broken message imprint anywhere leaves the whole chain unchanged. This covers best-signature-time, the coherence check and the delay check. |
| `LongTermValidation.NoAdmittedTimestampKeepsCurrentDate` | validation-policy/src/main/java/eu/europa/esig/dss/validation/process/vpfltvd/ValidationProcessForSignaturesWithLongTermValidationData.java:88-145 | When every time-stamp is rejected, best-signature-time is the current date. |
| `LongTermValidationProcess.ValidationProcess.constructor` | validation-policy/src/main/java/eu/europa/esig/dss/validation/process/vpfltvd/ValidationProcessForSignaturesWithLongTermValidationData.java:62-77 | The fields are read from the signature analysis, the signature's time-stamp list, all revocation data, the building blocks, the policy and the current date. The chain starts empty. |
| `LongTermValidationProcess.ValidationProcess.InitChain` | validation-policy/src/main/java/eu/europa/esig/dss/validation/process/vpfltvd/ValidationProcessForSignaturesWithLongTermValidationData.java:80-209 | The linked chain is `ExpectedChain` of the fields. Its first item is the acceptability check, and every time comparison in it uses a best-signature-time that is not after the current date. |

## Left out

- Chain engine: running the linked checks in order, stopping at the first failure at fail level, and building the report belong to the `Chain` and `ChainItem` superclasses. They are not part of this model; only the ordered list that `initChain` links is modelled.
- Leaf checks: the pass/fail logic of each leaf check is not part of this model. A check is a descriptor carrying its arguments. Examples are the acceptable-basic-signature, revocation building-block, revocation-date, issuance and expiration, time-stamp coherence, signing-time presence, time-stamp delay and cryptographic checks.
- Logging: the warning at line 143 and the information message at line 225 are returned as identifier lists by `FoldBestSignatureTime` and `FilterInvalidMessageImprint`. `InitChain` drops these lists, as the source only logs them.
- Report and policy types: the JAXB report types, the certificate lookup and the policy's constraint lookups are reduced to the fields this process reads. They are supplied as inputs.
- Time: `java.util.Date` is an integer instant, and `before` is `<`.
- The revocation `Set` (lines 56 and 104): it is a sequence, and the sequence's order fixes the order of the revocation building-block checks in the chain. The Java iteration order of the set is not modelled.
- The admitted `HashSet`: it is a sequence in input order. `BestSignatureTimeOrderIndependent` shows that the iteration order does not change best-signature-time. The coherence check receives that sequence.
- Null values: a null revocation set (`CollectionUtils.isNotEmpty`) is the empty sequence, and a missing signing certificate is `None`. Null identifiers compared by `StringUtils.equals`, and a null production time or conclusion, are not modelled.
