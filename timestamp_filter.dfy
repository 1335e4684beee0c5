/**
 * Step 3 a) of the process: signature time-stamp tokens whose message imprint
 * was not found, or does not match the signed data, are removed from the set.
 */
module TimestampFilter {
  import opened Types

  /** A time-stamp is kept when its message imprint was found and is intact. */
  predicate Admits(t: Timestamp)
  {
    t.messageImprintDataFound && t.messageImprintDataIntact
  }

  /** The admitted time-stamps, in the order of the input list. */
  function Admitted(ts: seq<Timestamp>): seq<Timestamp>
  {
    if ts == [] then []
    else Admitted(ts[..|ts| - 1]) + (if Admits(ts[|ts| - 1]) then [ts[|ts| - 1]] else [])
  }

  /** The identifiers of the time-stamps that are skipped, in input order. */
  function Skipped(ts: seq<Timestamp>): seq<string>
  {
    if ts == [] then []
    else Skipped(ts[..|ts| - 1]) + (if Admits(ts[|ts| - 1]) then [] else [ts[|ts| - 1].id])
  }

  /** A time-stamp is admitted exactly when it is in the input and passes both imprint checks. */
  lemma {:induction false} AdmittedIff(ts: seq<Timestamp>, t: Timestamp)
    ensures t in Admitted(ts) <==> t in ts && Admits(t)
  {
    if ts != [] {
      var init := ts[..|ts| - 1];
      AdmittedIff(init, t);
      assert ts == init + [ts[|ts| - 1]];
    }
  }

  /** Every admitted time-stamp passes the imprint checks. */
  lemma {:induction false} AdmittedAllAdmit(ts: seq<Timestamp>)
    ensures forall k :: 0 <= k < |Admitted(ts)| ==> Admits(Admitted(ts)[k])
    ensures |Admitted(ts)| <= |ts|
  {
    if ts != [] {
      AdmittedAllAdmit(ts[..|ts| - 1]);
    }
  }

  /** Filtering distributes over concatenation of the input list. */
  lemma {:induction false} AdmittedAppend(a: seq<Timestamp>, b: seq<Timestamp>)
    ensures Admitted(a + b) == Admitted(a) + Admitted(b)
  {
    if b == [] {
      assert a + b == a;
    } else {
      var init := b[..|b| - 1];
      AdmittedAppend(a, init);
      assert (a + b)[..|a + b| - 1] == a + init;
    }
  }

  /** A rejected time-stamp, wherever it stands in the list, leaves the admitted set unchanged. */
  lemma RejectedTimestampDropped(a: seq<Timestamp>, t: Timestamp, b: seq<Timestamp>)
    requires !Admits(t)
    ensures Admitted(a + [t] + b) == Admitted(a + b)
  {
    AdmittedAppend(a + [t], b);
    AdmittedAppend(a, [t]);
    AdmittedAppend(a, b);
    assert Admitted([t]) == [] by {
      assert [t][..0] == [];
    }
  }

  /**
   * filterInvalidMessageImprint: one pass over the list that keeps the time-stamps
   * with a found and intact message imprint; the identifiers of the others are
   * returned as the diagnostics the source logs.
   */
  method FilterInvalidMessageImprint(allTimestamps: seq<Timestamp>)
    returns (result: seq<Timestamp>, skipped: seq<string>)
    ensures result == Admitted(allTimestamps)
    ensures skipped == Skipped(allTimestamps)
    ensures |result| + |skipped| == |allTimestamps|
  {
    result, skipped := [], [];
    var i := 0;
    while i < |allTimestamps|
      invariant 0 <= i <= |allTimestamps|
      invariant result == Admitted(allTimestamps[..i])
      invariant skipped == Skipped(allTimestamps[..i])
      invariant |result| + |skipped| == i
    {
      var tsp := allTimestamps[i];
      assert allTimestamps[..i + 1][..i] == allTimestamps[..i];
      if tsp.messageImprintDataFound && tsp.messageImprintDataIntact {
        result := result + [tsp];
      } else {
        skipped := skipped + [tsp.id];
      }
      i := i + 1;
    }
    assert allTimestamps[..i] == allTimestamps;
  }
}
