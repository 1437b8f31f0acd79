/**
 * The decision part of `has_mx_record` in DNS.py. The resolver query itself is
 * not modelled: its outcome is given, either the answer's MX records in the
 * order the resolver returned them, or one of the caught lookup failures
 * (NoAnswer, NXDOMAIN, Timeout, socket.error) with the text `str(e)` gives.
 */
module MxLookup {
  import opened Wrappers

  /** One MX record: its preference (lower is preferred) and its exchange host as text. */
  datatype MxRecord = MxRecord(preference: nat, exchange: string)

  datatype MxAnswer =
    | Records(records: seq<MxRecord>)
    | LookupFailure(diagnostic: string)

  /** The pair `has_mx_record` returns: whether a record was found, and the host or the diagnostic. */
  datatype MxCheck = MxCheck(found: bool, record: string)

  /**
   * `has_mx_record`. The tuple takes the first record in returned order; an
   * answer without records makes `mx_records[0]` raise IndexError, which is
   * not among the caught exceptions: that case gives None (nothing returned).
   */
  function HasMxRecord(answer: MxAnswer): (r: Option<MxCheck>)
    ensures r.None? <==> answer == Records([])
    ensures r.Some? ==> (r.value.found <==> answer.Records? && |answer.records| > 0)
    ensures r.Some? && r.value.found ==> r.value.record == answer.records[0].exchange
    ensures r.Some? && !r.value.found ==> r.value.record == answer.diagnostic
  {
    match answer
    case Records(rs) => if |rs| == 0 then None else Some(MxCheck(|rs| > 0, rs[0].exchange))
    case LookupFailure(text) => Some(MxCheck(false, text))
  }

  /** Records listed from the most preferred (lowest value) on. */
  predicate ByPreference(rs: seq<MxRecord>) {
    forall i :: 0 < i < |rs| ==> rs[i - 1].preference <= rs[i].preference
  }

  lemma {:induction false} FirstIsLowest(rs: seq<MxRecord>)
    requires |rs| > 0 && ByPreference(rs)
    ensures forall i :: 0 <= i < |rs| ==> rs[0].preference <= rs[i].preference
    decreases |rs|
  {
    if |rs| > 1 {
      var front := rs[..|rs| - 1];
      assert ByPreference(front) by {
        forall i | 0 < i < |front| ensures front[i - 1].preference <= front[i].preference {
          assert front[i - 1] == rs[i - 1] && front[i] == rs[i];
        }
      }
      FirstIsLowest(front);
      forall i | 0 <= i < |rs| ensures rs[0].preference <= rs[i].preference {
        if i < |front| {
          assert rs[i] == front[i];
        } else {
          assert rs[i - 1] == front[i - 1];
        }
      }
    }
  }

  /**
   * When the resolver lists the records by preference, the chosen (first)
   * host has the lowest preference. FirstReturnedWinsOverPreference shows an
   * unordered answer, where the first host is chosen all the same.
   */
  lemma ChosenIsPreferredWhenOrdered(answer: MxAnswer)
    requires answer.Records? && |answer.records| > 0 && ByPreference(answer.records)
    ensures HasMxRecord(answer) == Some(MxCheck(true, answer.records[0].exchange))
    ensures forall i :: 0 <= i < |answer.records| ==>
              answer.records[0].preference <= answer.records[i].preference
  {
    FirstIsLowest(answer.records);
  }

  /** An answer listing a backup exchange first makes the backup the chosen host. */
  lemma FirstReturnedWinsOverPreference()
    ensures HasMxRecord(Records([MxRecord(20, "backup.example."), MxRecord(10, "primary.example.")]))
            == Some(MxCheck(true, "backup.example."))
  {
  }
}
