/**
 * Step 3 b) of the process: best-signature-time starts at the current time and
 * is lowered to the production time of every admitted time-stamp whose
 * validation PASSED and which is strictly earlier than the current value.
 */
module BestSignatureTimeFold {
  import opened Types

  /** Some constraint in `cs` is about the time-stamp `id`. */
  predicate HasRecordIn(id: string, cs: seq<TimestampConstraint>)
  {
    exists k :: 0 <= k < |cs| && cs[k].id == id
  }

  /** Some constraint in `cs` is about the time-stamp `id` and has status OK. */
  predicate HasOkRecordIn(id: string, cs: seq<TimestampConstraint>)
  {
    exists k :: 0 <= k < |cs| && cs[k].id == id && cs[k].status == Ok
  }

  /** Some time-stamp validation report holds a constraint about `id`. */
  predicate HasValidationRecord(id: string, vs: seq<TimestampValidation>)
  {
    exists j :: 0 <= j < |vs| && HasRecordIn(id, vs[j].constraints)
  }

  /** Some time-stamp validation report holds an OK constraint about `id`. */
  predicate HasOkValidation(id: string, vs: seq<TimestampValidation>)
  {
    exists j :: 0 <= j < |vs| && HasOkRecordIn(id, vs[j].constraints)
  }

  /** Folding one time-stamp into the current best-signature-time. */
  function Lower(best: int, t: Timestamp, vs: seq<TimestampValidation>): int
  {
    if HasOkValidation(t.id, vs) && t.productionTime < best then t.productionTime else best
  }

  /** Best-signature-time after folding the admitted time-stamps, in list order, into `currentDate`. */
  function BestSignatureTime(currentDate: int, admitted: seq<Timestamp>, vs: seq<TimestampValidation>): int
  {
    if admitted == [] then currentDate
    else Lower(BestSignatureTime(currentDate, admitted[..|admitted| - 1], vs), admitted[|admitted| - 1], vs)
  }

  /** Identifiers of admitted time-stamps for which no validation record exists, in list order. */
  function MissingValidation(admitted: seq<Timestamp>, vs: seq<TimestampValidation>): seq<string>
  {
    if admitted == [] then []
    else
      var t := admitted[|admitted| - 1];
      MissingValidation(admitted[..|admitted| - 1], vs) + (if HasValidationRecord(t.id, vs) then [] else [t.id])
  }

  /**
   * Reference definition: `r` is the minimum of `currentDate` and the production
   * times of the time-stamps in `ts` that have an OK validation record.
   */
  ghost predicate IsEarliestProof(r: int, currentDate: int, ts: seq<Timestamp>, vs: seq<TimestampValidation>)
  {
    && r <= currentDate
    && (forall t :: t in ts && HasOkValidation(t.id, vs) ==> r <= t.productionTime)
    && (r == currentDate || exists t :: t in ts && HasOkValidation(t.id, vs) && r == t.productionTime)
  }

  /** The fold computes exactly the minimum of the current date and the qualifying production times. */
  lemma {:induction false} BestSignatureTimeIsEarliestProof(currentDate: int, ts: seq<Timestamp>, vs: seq<TimestampValidation>)
    ensures IsEarliestProof(BestSignatureTime(currentDate, ts, vs), currentDate, ts, vs)
  {
    if ts != [] {
      var init, last := ts[..|ts| - 1], ts[|ts| - 1];
      BestSignatureTimeIsEarliestProof(currentDate, init, vs);
      assert ts == init + [last];
      var b := BestSignatureTime(currentDate, init, vs);
      if HasOkValidation(last.id, vs) && last.productionTime < b {
        assert last in ts;
      } else if b != currentDate {
        var w :| w in init && HasOkValidation(w.id, vs) && b == w.productionTime;
        assert w in ts;
      }
    }
  }

  /** The minimum is unique. */
  lemma EarliestProofUnique(r1: int, r2: int, currentDate: int, ts: seq<Timestamp>, vs: seq<TimestampValidation>)
    requires IsEarliestProof(r1, currentDate, ts, vs) && IsEarliestProof(r2, currentDate, ts, vs)
    ensures r1 == r2
  {
  }

  /** Best-signature-time never becomes later than the current date. */
  lemma {:induction false} BestSignatureTimeNotAfterCurrentDate(currentDate: int, ts: seq<Timestamp>, vs: seq<TimestampValidation>)
    ensures BestSignatureTime(currentDate, ts, vs) <= currentDate
  {
    BestSignatureTimeIsEarliestProof(currentDate, ts, vs);
  }

  /**
   * Best-signature-time is either the current date or the production time of an
   * admitted time-stamp with an OK validation record.
   */
  lemma {:induction false} BestSignatureTimeSource(currentDate: int, ts: seq<Timestamp>, vs: seq<TimestampValidation>)
    ensures var r := BestSignatureTime(currentDate, ts, vs);
            r == currentDate || exists k :: 0 <= k < |ts| && HasOkValidation(ts[k].id, vs) && r == ts[k].productionTime
  {
    BestSignatureTimeIsEarliestProof(currentDate, ts, vs);
  }

  /** The iteration order over the admitted set does not matter. */
  lemma BestSignatureTimeOrderIndependent(currentDate: int, s1: seq<Timestamp>, s2: seq<Timestamp>, vs: seq<TimestampValidation>)
    requires multiset(s1) == multiset(s2)
    ensures BestSignatureTime(currentDate, s1, vs) == BestSignatureTime(currentDate, s2, vs)
  {
    BestSignatureTimeIsEarliestProof(currentDate, s1, vs);
    BestSignatureTimeIsEarliestProof(currentDate, s2, vs);
    forall t
      ensures t in s1 <==> t in s2
    {
      assert t in s1 <==> t in multiset(s1);
      assert t in s2 <==> t in multiset(s2);
    }
    EarliestProofUnique(BestSignatureTime(currentDate, s1, vs), BestSignatureTime(currentDate, s2, vs), currentDate, s1, vs);
  }

  /** Folding in more time-stamps can only make best-signature-time earlier. */
  lemma BestSignatureTimeNonIncreasing(currentDate: int, s: seq<Timestamp>, more: seq<Timestamp>, vs: seq<TimestampValidation>)
    ensures BestSignatureTime(currentDate, s + more, vs) <= BestSignatureTime(currentDate, s, vs)
  {
    BestSignatureTimeIsEarliestProof(currentDate, s, vs);
    BestSignatureTimeIsEarliestProof(currentDate, s + more, vs);
  }

  /**
   * A time-stamp without an OK validation record (no record at all, or only
   * records with another status) does not affect best-signature-time, wherever
   * it stands in the admitted list.
   */
  lemma TimestampWithoutOkRecordIgnored(currentDate: int, a: seq<Timestamp>, t: Timestamp, b: seq<Timestamp>, vs: seq<TimestampValidation>)
    requires !HasOkValidation(t.id, vs)
    ensures BestSignatureTime(currentDate, a + [t] + b, vs) == BestSignatureTime(currentDate, a + b, vs)
  {
    var r1 := BestSignatureTime(currentDate, a + [t] + b, vs);
    var r2 := BestSignatureTime(currentDate, a + b, vs);
    BestSignatureTimeIsEarliestProof(currentDate, a + [t] + b, vs);
    BestSignatureTimeIsEarliestProof(currentDate, a + b, vs);
    assert IsEarliestProof(r1, currentDate, a + b, vs) by {
      forall u | u in a + [t] + b && HasOkValidation(u.id, vs)
        ensures u in a + b
      {
      }
      if r1 != currentDate {
        var w :| w in a + [t] + b && HasOkValidation(w.id, vs) && r1 == w.productionTime;
        assert w in a + b;
      }
    }
    EarliestProofUnique(r1, r2, currentDate, a + b, vs);
  }

  /** A time-stamp whose production time is not before the current value leaves it unchanged. */
  lemma {:induction false} NotEarlierTimestampIgnored(currentDate: int, s: seq<Timestamp>, t: Timestamp, vs: seq<TimestampValidation>)
    requires t.productionTime >= BestSignatureTime(currentDate, s, vs)
    ensures BestSignatureTime(currentDate, s + [t], vs) == BestSignatureTime(currentDate, s, vs)
  {
    assert (s + [t])[..|s + [t]| - 1] == s;
  }

  /** An earlier time-stamp with an OK validation record becomes the new best-signature-time. */
  lemma {:induction false} EarlierOkTimestampWins(currentDate: int, s: seq<Timestamp>, t: Timestamp, vs: seq<TimestampValidation>)
    requires HasOkValidation(t.id, vs) && t.productionTime < BestSignatureTime(currentDate, s, vs)
    ensures BestSignatureTime(currentDate, s + [t], vs) == t.productionTime
  {
    assert (s + [t])[..|s + [t]| - 1] == s;
  }

  /** A time-stamp is reported as missing exactly when it is admitted and no record names it. */
  lemma {:induction false} MissingValidationIff(admitted: seq<Timestamp>, vs: seq<TimestampValidation>, id: string)
    ensures id in MissingValidation(admitted, vs) <==>
            (exists t :: t in admitted && t.id == id) && !HasValidationRecord(id, vs)
  {
    if admitted != [] {
      var init, last := admitted[..|admitted| - 1], admitted[|admitted| - 1];
      MissingValidationIff(init, vs, id);
      assert admitted == init + [last];
      if id in MissingValidation(admitted, vs) && id !in MissingValidation(init, vs) {
        assert last in admitted;
      }
    }
  }

  /**
   * The loop nest of initChain that folds the admitted time-stamps into
   * best-signature-time: for every admitted time-stamp, every constraint of
   * every time-stamp validation report with the same identifier is inspected;
   * an OK one with a strictly earlier production time lowers the value and ends
   * the scan of that report's constraints. Time-stamps for which no constraint
   * was found are returned as the warnings the source logs.
   */
  method FoldBestSignatureTime(currentDate: int, allowedTimestamps: seq<Timestamp>, timestampValidations: seq<TimestampValidation>)
    returns (bestSignatureTime: int, missing: seq<string>)
    ensures bestSignatureTime == BestSignatureTime(currentDate, allowedTimestamps, timestampValidations)
    ensures IsEarliestProof(bestSignatureTime, currentDate, allowedTimestamps, timestampValidations)
    ensures missing == MissingValidation(allowedTimestamps, timestampValidations)
  {
    var vs := timestampValidations;
    bestSignatureTime, missing := currentDate, [];
    var i := 0;
    while i < |allowedTimestamps|
      invariant 0 <= i <= |allowedTimestamps|
      invariant bestSignatureTime == BestSignatureTime(currentDate, allowedTimestamps[..i], vs)
      invariant missing == MissingValidation(allowedTimestamps[..i], vs)
    {
      var tsp := allowedTimestamps[i];
      ghost var before := bestSignatureTime;
      var foundValidationTsp := false;
      var j := 0;
      while j < |vs|
        invariant 0 <= j <= |vs|
        invariant foundValidationTsp == HasValidationRecord(tsp.id, vs[..j])
        invariant bestSignatureTime ==
                  if HasOkValidation(tsp.id, vs[..j]) && tsp.productionTime < before then tsp.productionTime else before
      {
        var constraints := vs[j].constraints;
        assert vs[..j + 1] == vs[..j] + [vs[j]];
        var k := 0;
        while k < |constraints|
          invariant 0 <= k <= |constraints|
          invariant foundValidationTsp == (HasValidationRecord(tsp.id, vs[..j]) || HasRecordIn(tsp.id, constraints[..k]))
          invariant bestSignatureTime ==
                    if (HasOkValidation(tsp.id, vs[..j]) || HasOkRecordIn(tsp.id, constraints[..k])) && tsp.productionTime < before
                    then tsp.productionTime else before
        {
          var tspValidation := constraints[k];
          assert constraints[..k + 1] == constraints[..k] + [tspValidation];
          if tsp.id == tspValidation.id {
            foundValidationTsp := true;
            var productionTime := tsp.productionTime;
            if tspValidation.status == Ok && productionTime < bestSignatureTime {
              bestSignatureTime := productionTime;
              assert HasOkRecordIn(tsp.id, constraints) && HasRecordIn(tsp.id, constraints);
              assert HasOkRecordIn(tsp.id, constraints[..k + 1]);
              break;
            }
          }
          k := k + 1;
        }
        assert HasRecordIn(tsp.id, constraints[..k]) ==> HasRecordIn(tsp.id, constraints);
        assert HasOkRecordIn(tsp.id, constraints[..k]) ==> HasOkRecordIn(tsp.id, constraints);
        assert k == |constraints| ==> constraints[..k] == constraints;
        j := j + 1;
      }
      assert vs[..j] == vs;
      assert allowedTimestamps[..i + 1][..i] == allowedTimestamps[..i];
      if !foundValidationTsp {
        missing := missing + [tsp.id];
      }
      i := i + 1;
    }
    assert allowedTimestamps[..i] == allowedTimestamps;
    BestSignatureTimeIsEarliestProof(currentDate, allowedTimestamps, vs);
  }
}
