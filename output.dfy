/**
  The output playlist: each forwarded entry is written, as it arrives, as
  its description line and its URL line, each ended by `\n`.
 */
module Output {
  import opened Entries
  import opened TextLines
  import opened Parser
  import opened ParserProperties
  import opened Validator

  /** The text written for one entry. */
  function Record(entry: Entry): string {
    entry.description + "\n" + entry.url + "\n"
  }

  /** The output file after the entries have arrived in the order given. */
  function OutputText(arrived: seq<Entry>): string
    decreases |arrived|
  {
    if arrived == [] then [] else Record(arrived[0]) + OutputText(arrived[1..])
  }

  lemma {:induction false} OutputTextAppend(arrived: seq<Entry>, entry: Entry)
    ensures OutputText(arrived + [entry]) == OutputText(arrived) + Record(entry)
    decreases |arrived|
  {
    if arrived == [] {
      assert arrived + [entry] == [entry];
    } else {
      assert (arrived + [entry])[1..] == arrived[1..] + [entry];
      OutputTextAppend(arrived[1..], entry);
    }
  }

  /** The collector: appends one record per entry received from the channel, in arrival order. */
  method WriteOutput(arrived: seq<Entry>) returns (file: string)
    ensures file == OutputText(arrived)
  {
    file := "";
    var k := 0;
    while k < |arrived|
      invariant k <= |arrived|
      invariant file == OutputText(arrived[..k])
    {
      OutputTextAppend(arrived[..k], arrived[k]);
      assert arrived[..k + 1] == arrived[..k] + [arrived[k]];
      file := file + Record(arrived[k]);
      k := k + 1;
    }
    assert arrived[..k] == arrived;
  }

  /** The lines of a playlist that holds `entries` pair by pair. */
  function PairLines(entries: seq<Entry>): (lines: seq<string>)
    ensures |lines| == 2 * |entries|
    decreases |entries|
  {
    if entries == [] then [] else [entries[0].description] + ([entries[0].url] + PairLines(entries[1..]))
  }

  lemma {:induction false} PairLinesAt(entries: seq<Entry>, k: nat)
    requires k < |entries|
    ensures PairLines(entries)[2 * k] == entries[k].description
    ensures PairLines(entries)[2 * k + 1] == entries[k].url
    decreases |entries|
  {
    if k > 0 {
      PairLinesAt(entries[1..], k - 1);
    }
  }

  /** An entry whose two lines read back unchanged once written. */
  predicate IsPlainEntry(entry: Entry) {
    IsPlainLine(entry.description) && IsPlainLine(entry.url)
  }

  /** One record in front of more text adds exactly its two lines. */
  lemma LinesOfRecord(entry: Entry, rest: string)
    requires IsPlainEntry(entry)
    ensures Lines(Record(entry) + rest) == [entry.description] + ([entry.url] + Lines(rest))
  {
    var tail := entry.url + "\n" + rest;
    assert Record(entry) + rest == entry.description + "\n" + tail;
    LinesOfTerminated(entry.description, tail);
    LinesOfTerminated(entry.url, rest);
  }

  /** The output's lines are the entries' lines, description then URL. */
  lemma {:induction false} OutputLines(arrived: seq<Entry>)
    requires forall e :: e in arrived ==> IsPlainEntry(e)
    ensures Lines(OutputText(arrived)) == PairLines(arrived)
    decreases |arrived|
  {
    if arrived != [] {
      var e := arrived[0];
      assert e in arrived;
      LinesOfRecord(e, OutputText(arrived[1..]));
      OutputLines(arrived[1..]);
    }
  }

  lemma {:induction false} CandidatesOfPairLines(entries: seq<Entry>, k: nat)
    requires k <= |entries|
    requires forall e :: e in entries ==> IsMarker(e.description) && IsAcceptedUrl(e.url)
    ensures CandidatesFrom(PairLines(entries), 2 * k) == entries[k..]
    decreases |entries| - k
  {
    var lines := PairLines(entries);
    if k == |entries| {
      assert entries[k..] == [];
    } else {
      var e := entries[k];
      PairLinesAt(entries, k);
      assert e in entries;
      CandidatesAtAcceptedPair(lines, 2 * k);
      CandidatesOfPairLines(entries, k + 1);
      assert entries[k..] == [e] + entries[k + 1..];
    }
  }

  /** The written text parses to the deduplication of the written entries, with an empty set. */
  lemma ReparseIsFirstOccurrences(arrived: seq<Entry>)
    requires forall e :: e in arrived ==> IsMarker(e.description) && IsAcceptedUrl(e.url) && IsPlainEntry(e)
    ensures Parse(Lines(OutputText(arrived)), {}) == FirstOccurrences(arrived, {})
  {
    OutputLines(arrived);
    CandidatesOfPairLines(arrived, 0);
    assert arrived[0..] == arrived;
  }

  /**
    The output is itself a playlist the extractor reads back: parsing the
    written text with an empty set yields the forwarded entries, in the
    order they were written.
   */
  lemma ReparseOutput(arrived: seq<Entry>)
    requires forall e :: e in arrived ==> IsMarker(e.description) && IsAcceptedUrl(e.url) && IsPlainEntry(e)
    requires DistinctUrls(arrived)
    ensures Parse(Lines(OutputText(arrived)), {}) == arrived
  {
    ReparseIsFirstOccurrences(arrived);
    FirstOccurrencesIdentity(arrived, {});
  }

  /** When a URL names a single entry, deduplication from an empty set drops no entry. */
  lemma FirstOccurrencesKeepsAll(candidates: seq<Entry>)
    requires forall e, f :: e in candidates && f in candidates && e.url == f.url ==> e == f
    ensures forall e :: e in candidates ==> e in FirstOccurrences(candidates, {})
  {
    var kept := FirstOccurrences(candidates, {});
    FirstOccurrencesSeen(candidates, {});
    FirstOccurrencesKeepsNew(candidates, {});
    forall e | e in candidates
      ensures e in kept
    {
      assert e.url in UrlsOf(candidates);
      assert e.url in UrlsOf(kept);
      var f :| f in kept && f.url == e.url;
    }
  }

  /**
    End to end: the writer receives the forwarded entries in some order
    (the channel delivers each forwarded entry once, in completion order).
    The entries have distinct URLs (`Scanner.ScanKeepsFirstOccurrence`) and the
    accepted-pair shape (`Scanner.ScanEntriesAreAcceptedPairs`), and their
    lines have no trailing `\r`. Then an extracted entry is in the output
    playlist, as read back by the extractor, exactly when its own probe got
    a 2xx or 3xx response.
   */
  lemma OutputIsForwarded(entries: seq<Entry>, outcomes: seq<ProbeOutcome>, arrived: seq<Entry>)
    requires |outcomes| == |entries|
    requires DistinctUrls(entries)
    requires forall e :: e in entries ==> IsMarker(e.description) && IsAcceptedUrl(e.url) && IsPlainEntry(e)
    requires multiset(arrived) == multiset(Forwarded(entries, outcomes))
    ensures forall k :: 0 <= k < |entries| ==>
      (entries[k] in Parse(Lines(OutputText(arrived)), {}) <==> Forwards(entries[k], outcomes[k]))
  {
    var forwarded := Forwarded(entries, outcomes);
    ForwardedPartition(entries, outcomes);
    assert forall e :: e in arrived <==> e in forwarded by {
      forall e
        ensures e in arrived <==> e in forwarded
      {
        assert e in arrived <==> e in multiset(arrived);
        assert e in forwarded <==> e in multiset(forwarded);
      }
    }
    assert forall e :: e in arrived ==> e in entries;
    forall e, f | e in arrived && f in arrived && e.url == f.url
      ensures e == f
    {
      var i :| 0 <= i < |entries| && entries[i] == e;
      var j :| 0 <= j < |entries| && entries[j] == f;
    }
    ReparseIsFirstOccurrences(arrived);
    FirstOccurrencesKeepsAll(arrived);
    FirstOccurrencesKeepsNew(arrived, {});
  }
}
