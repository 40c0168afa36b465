/**
  The playlist entry extractor: a scan over the lines of one playlist that
  pairs each accepted `#EXTINF:` line with the line after it, and a dedup
  set of URLs, shared with earlier playlists, that lets only the first
  occurrence of each URL through.

  The model splits the scan in two. `Candidates` lists the pairs
  the index walk accepts; it does not depend on the set, because the walk
  advances by two after an accepted pair whether or not its URL is new.
  `FirstOccurrences` then keeps the candidates whose URL is neither in the
  set nor seen earlier. `Parse` is their composition, and the method
  `ParseM3u8File` is proved to compute it.
 */
module Parser {
  import opened Entries
  import opened TextLines

  // ---------------------------------------------------------------------
  // The index walk

  /** Whether the scan, standing at line `i`, takes lines `i` and `i + 1` as a pair. */
  predicate AcceptsPair(lines: seq<string>, i: nat)
    requires i < |lines|
  {
    IsMarker(lines[i]) && i + 1 < |lines| && IsAcceptedUrl(lines[i + 1])
  }

  /** The line the scan examines after line `i`. */
  function Next(lines: seq<string>, i: nat): (j: nat)
    requires i < |lines|
    ensures i < j <= |lines|
  {
    if AcceptsPair(lines, i) then i + 2 else i + 1
  }

  /** Whether the scan, started at line `i`, examines line `j` (or ends there, for `j == |lines|`). */
  predicate Reaches(lines: seq<string>, i: nat, j: nat)
    requires i <= |lines|
    decreases |lines| - i
  {
    i == j || (i < j && i < |lines| && Reaches(lines, Next(lines, i), j))
  }

  /** The lines, from `i` on, at which the scan accepts a pair, in scan order. */
  function PairStarts(lines: seq<string>, i: nat): (starts: seq<nat>)
    requires i <= |lines|
    ensures forall k :: 0 <= k < |starts| ==> i <= starts[k] && starts[k] + 1 < |lines|
    decreases |lines| - i
  {
    if i == |lines| then []
    else if AcceptsPair(lines, i) then [i] + PairStarts(lines, i + 2)
    else PairStarts(lines, i + 1)
  }

  /** The pairs accepted from line `i` on, as entries, before deduplication. */
  function CandidatesFrom(lines: seq<string>, i: nat): seq<Entry>
    requires i <= |lines|
    decreases |lines| - i
  {
    if i == |lines| then []
    else if AcceptsPair(lines, i) then [Entry(lines[i], lines[i + 1])] + CandidatesFrom(lines, i + 2)
    else CandidatesFrom(lines, i + 1)
  }

  function Candidates(lines: seq<string>): seq<Entry> {
    CandidatesFrom(lines, 0)
  }

  // ---------------------------------------------------------------------
  // Deduplication against the shared set

  /** The candidates whose URL is not in `seen` and not carried by an earlier candidate. */
  function FirstOccurrences(candidates: seq<Entry>, seen: set<string>): seq<Entry>
    decreases |candidates|
  {
    if candidates == [] then []
    else if candidates[0].url in seen then FirstOccurrences(candidates[1..], seen)
    else [candidates[0]] + FirstOccurrences(candidates[1..], seen + {candidates[0].url})
  }

  /** Candidate `k` is kept: its URL is new to `seen` and to every earlier candidate. */
  predicate IsFirstNew(candidates: seq<Entry>, seen: set<string>, k: nat)
    requires k < |candidates|
  {
    candidates[k].url !in seen && forall m :: 0 <= m < k ==> candidates[m].url != candidates[k].url
  }

  /** Reference definition: the candidates from index `k` on that are first and new, in index order. */
  function SelectFirstNew(candidates: seq<Entry>, seen: set<string>, k: nat): seq<Entry>
    requires k <= |candidates|
    decreases |candidates| - k
  {
    if k == |candidates| then []
    else (if IsFirstNew(candidates, seen, k) then [candidates[k]] else []) + SelectFirstNew(candidates, seen, k + 1)
  }

  /** What the extractor returns for one playlist's lines, given the URLs seen before it. */
  function Parse(lines: seq<string>, seen: set<string>): seq<Entry> {
    FirstOccurrences(Candidates(lines), seen)
  }

  // ---------------------------------------------------------------------
  // The extractor

  /**
    Reads one playlist (`None` stands for a file that cannot be read as
    text) and extracts its new entries, threading the shared dedup set
    through: the set comes in as `seen` and goes out as `seen'`.
   */
  method ParseM3u8File(content: Option<string>, seen: set<string>)
    returns (result: Option<seq<Entry>>, seen': set<string>)
    ensures content.None? ==> result == None && seen' == seen
    ensures content.Some? ==> result == Some(Parse(Lines(content.value), seen))
    ensures content.Some? ==> seen' == seen + UrlsOf(result.value)
  {
    if content.None? {
      return None, seen;
    }
    var lines := Lines(content.value);
    var i := 0;
    var entries: seq<Entry> := [];
    seen' := seen;
    while i < |lines|
      invariant i <= |lines|
      invariant seen' == seen + UrlsOf(entries)
      invariant entries + FirstOccurrences(CandidatesFrom(lines, i), seen') == Parse(lines, seen)
    {
      if StartsWith(lines[i], MARKER) {
        if i + 1 < |lines| && lines[i + 1] != "" && !StartsWith(lines[i + 1], HTTPS_PREFIX) {
          var description := lines[i];
          var url := lines[i + 1];
          ghost var rest := CandidatesFrom(lines, i + 2);
          assert CandidatesFrom(lines, i) == [Entry(description, url)] + rest;
          if url !in seen' {
            seen' := seen' + {url};
            UrlsOfAppend(entries, [Entry(description, url)]);
            entries := entries + [Entry(description, url)];
          }
          i := i + 2;
        } else {
          i := i + 1;
        }
      } else {
        i := i + 1;
      }
    }
    assert CandidatesFrom(lines, i) == [];
    assert entries + [] == entries;
    result := Some(entries);
  }
}
