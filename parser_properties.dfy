/**
  What the extractor promises: where the index walk goes and which lines it
  consumes, the shape of every entry, and what deduplication keeps.
 */
module ParserProperties {
  import opened Entries
  import opened TextLines
  import opened Parser

  // ---------------------------------------------------------------------
  // The index walk

  /** At a line where the pair test passes, the pair is the next candidate and the walk resumes two lines on. */
  lemma CandidatesAtAcceptedPair(lines: seq<string>, i: nat)
    requires i < |lines| && IsMarker(lines[i]) && i + 1 < |lines| && IsAcceptedUrl(lines[i + 1])
    ensures CandidatesFrom(lines, i) == [Entry(lines[i], lines[i + 1])] + CandidatesFrom(lines, i + 2)
  {
    assert AcceptsPair(lines, i);
  }

  /** The pairs of lines starting at the given line numbers, in order. */
  function PairsAt(lines: seq<string>, starts: seq<nat>): seq<Entry>
    requires forall k :: 0 <= k < |starts| ==> starts[k] + 1 < |lines|
    decreases |starts|
  {
    if starts == [] then [] else [Entry(lines[starts[0]], lines[starts[0] + 1])] + PairsAt(lines, starts[1..])
  }

  lemma {:induction false} PairsAtIndex(lines: seq<string>, starts: seq<nat>)
    requires forall k :: 0 <= k < |starts| ==> starts[k] + 1 < |lines|
    ensures |PairsAt(lines, starts)| == |starts|
    ensures forall k :: 0 <= k < |starts| ==> PairsAt(lines, starts)[k] == Entry(lines[starts[k]], lines[starts[k] + 1])
    decreases |starts|
  {
    if starts != [] {
      var rest := starts[1..];
      PairsAtIndex(lines, rest);
      forall k | 1 <= k < |starts|
        ensures PairsAt(lines, starts)[k] == Entry(lines[starts[k]], lines[starts[k] + 1])
      {
        assert starts[k] == rest[k - 1];
      }
    }
  }

  lemma {:induction false} CandidatesArePairsAt(lines: seq<string>, i: nat)
    requires i <= |lines|
    ensures CandidatesFrom(lines, i) == PairsAt(lines, PairStarts(lines, i))
    decreases |lines| - i
  {
    if i < |lines| {
      if AcceptsPair(lines, i) {
        var starts := PairStarts(lines, i + 2);
        CandidatesArePairsAt(lines, i + 2);
        assert PairStarts(lines, i) == [i] + starts;
        assert ([i] + starts)[1..] == starts;
        assert CandidatesFrom(lines, i) == [Entry(lines[i], lines[i + 1])] + CandidatesFrom(lines, i + 2);
      } else {
        CandidatesArePairsAt(lines, i + 1);
      }
    }
  }

  /** The candidates are exactly the pairs at the accepted start lines, in the same order. */
  lemma CandidatesAtPairStarts(lines: seq<string>, i: nat)
    requires i <= |lines|
    ensures |CandidatesFrom(lines, i)| == |PairStarts(lines, i)|
    ensures forall k :: 0 <= k < |PairStarts(lines, i)| ==>
      PairStarts(lines, i)[k] + 1 < |lines| &&
      CandidatesFrom(lines, i)[k] == Entry(lines[PairStarts(lines, i)[k]], lines[PairStarts(lines, i)[k] + 1])
  {
    CandidatesArePairsAt(lines, i);
    PairsAtIndex(lines, PairStarts(lines, i));
  }

  /**
    Accepted pairs never overlap: the next accepted start is at least two
    lines further on, so a URL line is never read again as a description.
   */
  lemma {:induction false} PairStartsSpaced(lines: seq<string>, i: nat)
    requires i <= |lines|
    ensures forall j, k :: 0 <= j < k < |PairStarts(lines, i)| ==> PairStarts(lines, i)[j] + 2 <= PairStarts(lines, i)[k]
    decreases |lines| - i
  {
    if i < |lines| {
      if AcceptsPair(lines, i) {
        PairStartsSpaced(lines, i + 2);
      } else {
        PairStartsSpaced(lines, i + 1);
      }
    }
  }

  lemma {:induction false} ReachesTransitive(lines: seq<string>, i: nat, j: nat, k: nat)
    requires i <= j <= |lines|
    requires Reaches(lines, i, j) && Reaches(lines, j, k)
    ensures Reaches(lines, i, k)
    decreases j - i
  {
    if i < j {
      ReachesTransitive(lines, Next(lines, i), j, k);
    }
  }

  /** The walk is a single path: of two lines it examines, it goes from the earlier to the later. */
  lemma {:induction false} ReachesOrdered(lines: seq<string>, i: nat, j: nat, k: nat)
    requires i <= |lines|
    requires Reaches(lines, i, j) && Reaches(lines, i, k) && j <= k
    ensures j <= |lines| && Reaches(lines, j, k)
    decreases |lines| - i
  {
    if i < j {
      ReachesOrdered(lines, Next(lines, i), j, k);
    }
  }

  /** A line is the start of an accepted pair exactly when the walk examines it and the pair test passes. */
  lemma {:induction false} PairStartsAreReachedPairs(lines: seq<string>, i: nat, j: nat)
    requires i <= |lines|
    ensures j in PairStarts(lines, i) <==> j < |lines| && Reaches(lines, i, j) && AcceptsPair(lines, j)
    decreases |lines| - i
  {
    if i < |lines| {
      if AcceptsPair(lines, i) {
        PairStartsAreReachedPairs(lines, i + 2, j);
      } else {
        PairStartsAreReachedPairs(lines, i + 1, j);
      }
    }
  }

  /** A line whose predecessor is not a description is always examined. */
  lemma {:induction false} LineAfterNonMarkerReached(lines: seq<string>, i: nat, j: nat)
    requires i <= j <= |lines|
    requires 0 < j ==> !IsMarker(lines[j - 1])
    ensures Reaches(lines, i, j)
    decreases j - i
  {
    if i < j {
      LineAfterNonMarkerReached(lines, Next(lines, i), j);
    }
  }

  /**
    A description that is the last line, or is followed by an empty or an
    `https://` line, yields no pair, and the walk examines the next line.
   */
  lemma RejectedMarkerAdvancesByOne(lines: seq<string>, i: nat, j: nat)
    requires i <= j < |lines|
    requires Reaches(lines, i, j) && IsMarker(lines[j])
    requires j + 1 == |lines| || !IsAcceptedUrl(lines[j + 1])
    ensures j !in PairStarts(lines, i)
    ensures Reaches(lines, i, j + 1)
  {
    PairStartsAreReachedPairs(lines, i, j);
    assert Reaches(lines, j, j + 1);
    ReachesTransitive(lines, i, j, j + 1);
  }

  /** After an accepted pair, the URL line is consumed: the walk never examines it. */
  lemma UrlLineConsumed(lines: seq<string>, i: nat, j: nat)
    requires i <= j < |lines|
    requires Reaches(lines, i, j) && AcceptsPair(lines, j)
    ensures !Reaches(lines, i, j + 1)
  {
    if Reaches(lines, i, j + 1) {
      ReachesOrdered(lines, i, j, j + 1);
      assert false;
    }
  }

  /** A description line directly after an examined description is taken as its URL. */
  lemma MarkerAcceptedAsUrl(lines: seq<string>, j: nat)
    requires j + 1 < |lines|
    requires Reaches(lines, 0, j) && IsMarker(lines[j]) && IsMarker(lines[j + 1])
    ensures Entry(lines[j], lines[j + 1]) in Candidates(lines)
    ensures !Reaches(lines, 0, j + 1)
  {
    assert lines[j + 1][0] == MARKER[0] != HTTPS_PREFIX[0];
    assert AcceptsPair(lines, j);
    PairStartsAreReachedPairs(lines, 0, j);
    CandidatesAtPairStarts(lines, 0);
    var k :| 0 <= k < |PairStarts(lines, 0)| && PairStarts(lines, 0)[k] == j;
    assert Candidates(lines)[k] == Entry(lines[j], lines[j + 1]);
    UrlLineConsumed(lines, 0, j);
  }

  // ---------------------------------------------------------------------
  // Deduplication

  /** Kept entries are candidates, their URLs are new to the set, and no URL is kept twice. */
  lemma {:induction false} FirstOccurrencesKeepsNew(candidates: seq<Entry>, seen: set<string>)
    ensures forall e :: e in FirstOccurrences(candidates, seen) ==> e in candidates && e.url !in seen
    ensures DistinctUrls(FirstOccurrences(candidates, seen))
    decreases |candidates|
  {
    if candidates != [] {
      var c := candidates[0];
      if c.url in seen {
        FirstOccurrencesKeepsNew(candidates[1..], seen);
      } else {
        var rest := FirstOccurrences(candidates[1..], seen + {c.url});
        FirstOccurrencesKeepsNew(candidates[1..], seen + {c.url});
        assert FirstOccurrences(candidates, seen) == [c] + rest;
        assert forall k :: 0 <= k < |rest| ==> rest[k] in rest;
      }
    }
  }

  /** The set afterwards holds every candidate URL: insertion only, of exactly the kept URLs. */
  lemma {:induction false} FirstOccurrencesSeen(candidates: seq<Entry>, seen: set<string>)
    ensures seen + UrlsOf(FirstOccurrences(candidates, seen)) == seen + UrlsOf(candidates)
    decreases |candidates|
  {
    if candidates != [] {
      var c := candidates[0];
      assert candidates == [c] + candidates[1..];
      UrlsOfAppend([c], candidates[1..]);
      if c.url in seen {
        FirstOccurrencesSeen(candidates[1..], seen);
      } else {
        FirstOccurrencesSeen(candidates[1..], seen + {c.url});
        UrlsOfAppend([c], FirstOccurrences(candidates[1..], seen + {c.url}));
      }
    }
  }

  lemma UrlsOfFirst(entries: seq<Entry>)
    requires entries != []
    ensures UrlsOf(entries) == {entries[0].url} + UrlsOf(entries[1..])
  {
    assert entries == [entries[0]] + entries[1..];
    UrlsOfAppend([entries[0]], entries[1..]);
  }

  /** One step of deduplication, for each outcome of the membership test. */
  lemma FirstOccurrencesStep(candidates: seq<Entry>, seen: set<string>)
    requires candidates != []
    ensures candidates[0].url in seen ==>
      FirstOccurrences(candidates, seen) == FirstOccurrences(candidates[1..], seen)
    ensures candidates[0].url !in seen ==>
      FirstOccurrences(candidates, seen) == [candidates[0]] + FirstOccurrences(candidates[1..], seen + {candidates[0].url})
  {
  }

  lemma AppendParts(a: seq<Entry>, b: seq<Entry>)
    requires a != []
    ensures a + b != [] && (a + b)[0] == a[0] && (a + b)[1..] == a[1..] + b
  {
  }

  lemma ConsAssociates(c: Entry, x: seq<Entry>, y: seq<Entry>)
    ensures [c] + (x + y) == ([c] + x) + y
  {
  }

  /** Deduplicating two lists in turn, threading the set, is deduplicating their concatenation. */
  lemma {:induction false} FirstOccurrencesAppend(a: seq<Entry>, b: seq<Entry>, seen: set<string>)
    ensures FirstOccurrences(a + b, seen) == FirstOccurrences(a, seen) + FirstOccurrences(b, seen + UrlsOf(a))
    decreases |a|
  {
    if a == [] {
      assert a + b == b;
      assert UrlsOf(a) == {};
      assert seen + UrlsOf(a) == seen;
    } else {
      AppendParts(a, b);
      FirstOccurrencesStep(a, seen);
      FirstOccurrencesStep(a + b, seen);
      UrlsOfFirst(a);
      if a[0].url in seen {
        FirstOccurrencesAppend(a[1..], b, seen);
        assert seen + UrlsOf(a[1..]) == seen + UrlsOf(a);
      } else {
        var grown := seen + {a[0].url};
        FirstOccurrencesAppend(a[1..], b, grown);
        assert grown + UrlsOf(a[1..]) == seen + UrlsOf(a);
        ConsAssociates(a[0], FirstOccurrences(a[1..], grown), FirstOccurrences(b, grown + UrlsOf(a[1..])));
      }
    }
  }

  /** Candidate `k`'s URL is in the set grown by the earlier candidates exactly when it is not first and new. */
  lemma SeenBeforeIffNotFirstNew(candidates: seq<Entry>, seen: set<string>, k: nat)
    requires k < |candidates|
    ensures candidates[k].url in seen + UrlsOf(candidates[..k]) <==> !IsFirstNew(candidates, seen, k)
  {
    var c := candidates[k];
    if c.url in UrlsOf(candidates[..k]) {
      var e :| e in candidates[..k] && e.url == c.url;
      var m :| 0 <= m < k && candidates[..k][m] == e;
      assert candidates[m].url == c.url;
    }
    if exists m :: 0 <= m < k && candidates[m].url == c.url {
      var m :| 0 <= m < k && candidates[m].url == c.url;
      assert candidates[..k][m] == candidates[m];
    }
  }

  lemma {:induction false} FirstOccurrencesFromIndex(candidates: seq<Entry>, seen: set<string>, k: nat)
    requires k <= |candidates|
    ensures FirstOccurrences(candidates[k..], seen + UrlsOf(candidates[..k])) == SelectFirstNew(candidates, seen, k)
    decreases |candidates| - k
  {
    if k == |candidates| {
      assert candidates[k..] == [];
    } else {
      var c := candidates[k];
      var s := seen + UrlsOf(candidates[..k]);
      assert candidates[k..][0] == c;
      assert candidates[k..][1..] == candidates[k + 1..];
      assert candidates[..k + 1] == candidates[..k] + [c];
      UrlsOfAppend(candidates[..k], [c]);
      SeenBeforeIffNotFirstNew(candidates, seen, k);
      FirstOccurrencesFromIndex(candidates, seen, k + 1);
      if c.url in s {
        assert s == seen + UrlsOf(candidates[..k + 1]);
        assert FirstOccurrences(candidates[k..], s) == FirstOccurrences(candidates[k + 1..], s);
      } else {
        assert s + {c.url} == seen + UrlsOf(candidates[..k + 1]);
        assert FirstOccurrences(candidates[k..], s) == [c] + FirstOccurrences(candidates[k + 1..], s + {c.url});
      }
    }
  }

  /** First occurrence wins: deduplication keeps, in order, each candidate that is first and new. */
  lemma FirstOccurrencesIsSelect(candidates: seq<Entry>, seen: set<string>)
    ensures FirstOccurrences(candidates, seen) == SelectFirstNew(candidates, seen, 0)
  {
    FirstOccurrencesFromIndex(candidates, seen, 0);
    assert candidates[0..] == candidates;
    assert UrlsOf(candidates[..0]) == {};
    assert seen + UrlsOf(candidates[..0]) == seen;
  }

  /** Candidates with distinct URLs, none of them seen, all pass. */
  lemma {:induction false} FirstOccurrencesIdentity(candidates: seq<Entry>, seen: set<string>)
    requires DistinctUrls(candidates)
    requires forall e :: e in candidates ==> e.url !in seen
    ensures FirstOccurrences(candidates, seen) == candidates
    decreases |candidates|
  {
    if candidates != [] {
      var c := candidates[0];
      var rest := candidates[1..];
      forall e | e in rest
        ensures e.url !in seen + {c.url}
      {
        var m :| 0 <= m < |rest| && rest[m] == e;
        assert candidates[m + 1] == e;
      }
      FirstOccurrencesIdentity(rest, seen + {c.url});
      assert candidates == [c] + rest;
    }
  }

  // ---------------------------------------------------------------------
  // The extractor's result

  /**
    Every entry is a description line that the walk examined, paired with
    the line right after it, and that line passed the URL test.
   */
  lemma ParseEntriesAreAcceptedPairs(lines: seq<string>, seen: set<string>)
    ensures forall e :: e in Parse(lines, seen) ==>
      IsMarker(e.description) && IsAcceptedUrl(e.url) &&
      exists j :: 0 <= j < |lines| - 1 && Reaches(lines, 0, j) && lines[j] == e.description && lines[j + 1] == e.url
  {
    FirstOccurrencesKeepsNew(Candidates(lines), seen);
    CandidatesAtPairStarts(lines, 0);
    forall e | e in Parse(lines, seen)
      ensures IsMarker(e.description) && IsAcceptedUrl(e.url)
      ensures exists j :: 0 <= j < |lines| - 1 && Reaches(lines, 0, j) && lines[j] == e.description && lines[j + 1] == e.url
    {
      var k :| 0 <= k < |Candidates(lines)| && Candidates(lines)[k] == e;
      var j := PairStarts(lines, 0)[k];
      PairStartsAreReachedPairs(lines, 0, j);
      assert AcceptsPair(lines, j);
    }
  }

  /**
    Dedup within one playlist: no entry's URL was in the set on entry, the
    entries' URLs are pairwise distinct, and the set on exit is the set on
    entry plus the URLs of all accepted pairs, duplicates included.
   */
  lemma ParseDedup(lines: seq<string>, seen: set<string>)
    ensures forall e :: e in Parse(lines, seen) ==> e.url !in seen
    ensures DistinctUrls(Parse(lines, seen))
    ensures seen + UrlsOf(Parse(lines, seen)) == seen + UrlsOf(Candidates(lines))
  {
    FirstOccurrencesKeepsNew(Candidates(lines), seen);
    FirstOccurrencesSeen(Candidates(lines), seen);
  }

  /** Entries read from a text never hold a line break. */
  lemma ParsedEntriesHaveNoNewline(text: string, seen: set<string>)
    ensures forall e :: e in Parse(Lines(text), seen) ==> '\n' !in e.description && '\n' !in e.url
  {
    ParseEntriesAreAcceptedPairs(Lines(text), seen);
  }

  /** A two-pair playlist: the `http://` pair is extracted and the `https://` pair is rejected. */
  lemma HttpsPairRejectedExample()
    ensures Parse(["#EXTINF:,Channel A", "http://example.com/a.ts", "#EXTINF:,Channel B", "https://example.com/b.ts"], {})
      == [Entry("#EXTINF:,Channel A", "http://example.com/a.ts")]
  {
    var lines := ["#EXTINF:,Channel A", "http://example.com/a.ts", "#EXTINF:,Channel B", "https://example.com/b.ts"];
    assert lines[1][..8][4] != HTTPS_PREFIX[4];
    assert IsMarker(lines[0]) && IsAcceptedUrl(lines[1]);
    assert lines[3][..8][0] != MARKER[0];
    assert !IsMarker(lines[3]);
    assert !IsAcceptedUrl(lines[3]);
    assert CandidatesFrom(lines, 2) == [];
  }
}
