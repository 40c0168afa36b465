/**
  The classification of one liveness probe. The probe itself (a HEAD
  request with a timeout) is outside the model: its outcome is an input,
  either a response with a status code or a failed request.
 */
module Validator {
  import opened Entries

  /** A response status code, a three-digit number. */
  type StatusCode = s: int | 100 <= s <= 999 witness 200

  datatype ProbeFailure = TimedOut | Transport

  datatype ProbeOutcome = Responded(status: StatusCode) | Failed(failure: ProbeFailure)

  /** Status 200 to 299. */
  predicate IsSuccess(status: StatusCode) {
    200 <= status < 300
  }

  /** Status 300 to 399. */
  predicate IsRedirection(status: StatusCode) {
    300 <= status < 400
  }

  datatype Rejection = BadStatus(status: StatusCode) | RequestFailed(failure: ProbeFailure)

  datatype Verdict = Valid(entry: Entry) | Invalid(entry: Entry, reason: Rejection)

  /**
    The verdict on an entry given its probe's outcome. Valid exactly when
    a response arrived whose status is in class 2xx (successful) or 3xx
    (redirection), the classes of section 15 of RFC 9110, which a status
    code's first digit names.
   */
  function Classify(entry: Entry, outcome: ProbeOutcome): (v: Verdict)
    ensures v.entry == entry
    ensures v.Valid? <==> outcome.Responded? && (outcome.status / 100 == 2 || outcome.status / 100 == 3)
    ensures v.Invalid? && outcome.Responded? ==> v.reason == BadStatus(outcome.status)
    ensures outcome.Failed? ==> v == Invalid(entry, RequestFailed(outcome.failure))
  {
    match outcome
    case Responded(status) =>
      if IsSuccess(status) || IsRedirection(status) then Valid(entry) else Invalid(entry, BadStatus(status))
    case Failed(failure) => Invalid(entry, RequestFailed(failure))
  }

  predicate Forwards(entry: Entry, outcome: ProbeOutcome) {
    Classify(entry, outcome).Valid?
  }

  /** The entries that are sent on to the writer, given each entry's probe outcome. */
  function Forwarded(entries: seq<Entry>, outcomes: seq<ProbeOutcome>): seq<Entry>
    requires |outcomes| == |entries|
    decreases |entries|
  {
    if entries == [] then []
    else
      (if Forwards(entries[0], outcomes[0]) then [entries[0]] else [])
      + Forwarded(entries[1..], outcomes[1..])
  }

  /**
    The validation partition: an entry is forwarded only if its own probe
    succeeded, every entry whose probe succeeded is forwarded, and with
    distinct URLs (as the extractor guarantees) each entry is forwarded
    exactly when its probe succeeded; failures of other probes play no part.
   */
  lemma {:induction false} ForwardedPartition(entries: seq<Entry>, outcomes: seq<ProbeOutcome>)
    requires |outcomes| == |entries|
    ensures forall e :: e in Forwarded(entries, outcomes) ==>
      exists k :: 0 <= k < |entries| && entries[k] == e && Forwards(e, outcomes[k])
    ensures forall k :: 0 <= k < |entries| && Forwards(entries[k], outcomes[k]) ==>
      entries[k] in Forwarded(entries, outcomes)
    ensures DistinctUrls(entries) ==> forall k :: 0 <= k < |entries| ==>
      (entries[k] in Forwarded(entries, outcomes) <==> Forwards(entries[k], outcomes[k]))
    decreases |entries|
  {
    if entries != [] {
      var rest, restOutcomes := entries[1..], outcomes[1..];
      ForwardedPartition(rest, restOutcomes);
      var head := if Forwards(entries[0], outcomes[0]) then [entries[0]] else [];
      assert Forwarded(entries, outcomes) == head + Forwarded(rest, restOutcomes);
      forall e | e in Forwarded(entries, outcomes)
        ensures exists k :: 0 <= k < |entries| && entries[k] == e && Forwards(e, outcomes[k])
      {
        if e !in head {
          var k :| 0 <= k < |rest| && rest[k] == e && Forwards(e, restOutcomes[k]);
          assert entries[k + 1] == e && outcomes[k + 1] == restOutcomes[k];
        }
      }
      forall k | 0 <= k < |entries| && Forwards(entries[k], outcomes[k])
        ensures entries[k] in Forwarded(entries, outcomes)
      {
        if k > 0 {
          assert rest[k - 1] == entries[k] && restOutcomes[k - 1] == outcomes[k];
        }
      }
      if DistinctUrls(entries) {
        forall k | 0 <= k < |entries| && entries[k] in Forwarded(entries, outcomes)
          ensures Forwards(entries[k], outcomes[k])
        {
          var j :| 0 <= j < |entries| && entries[j] == entries[k] && Forwards(entries[k], outcomes[j]);
          assert j == k;
        }
      }
    }
  }
}
