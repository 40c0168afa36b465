/**
  The scan over the input directory: only files named with the extension
  `m3u8` or `m3u` are parsed; one dedup set is threaded through all of
  them in directory order; a file that cannot be read adds nothing; a
  directory entry that cannot be read ends the run with an error.
 */
module Scanner {
  import opened Entries
  import opened TextLines
  import opened Parser
  import opened ParserProperties

  // ---------------------------------------------------------------------
  // The extension filter

  /** Index of the last `.` in `name`, or -1 when there is none. */
  function LastDot(name: string): (k: int)
    ensures -1 <= k < |name|
  {
    if name == [] then -1
    else if name[|name| - 1] == '.' then |name| - 1
    else LastDot(name[..|name| - 1])
  }

  /** `LastDot` finds a `.`, and no `.` comes after it. */
  lemma {:induction false} LastDotIsLast(name: string)
    ensures 0 <= LastDot(name) ==> name[LastDot(name)] == '.'
    ensures forall j :: LastDot(name) < j < |name| ==> name[j] != '.'
    decreases |name|
  {
    if name != [] && name[|name| - 1] != '.' {
      var init := name[..|name| - 1];
      LastDotIsLast(init);
      forall j | LastDot(name) < j < |name| - 1
        ensures name[j] != '.'
      {
        assert name[j] == init[j];
      }
    }
  }

  /**
    The extension of a file name: the text after its last `.`, except that
    a name with no `.`, or whose only `.` is its first character, has none.
   */
  function Extension(name: string): Option<string> {
    var k := LastDot(name);
    if k <= 0 then None else Some(name[k + 1..])
  }

  predicate IsPlaylistName(name: string) {
    Extension(name) == Some("m3u8") || Extension(name) == Some("m3u")
  }

  lemma ExtensionShowsSuffix(name: string, ext: string)
    requires Extension(name) == Some(ext)
    ensures |name| > |ext| + 1 && name[|name| - |ext| - 1..] == "." + ext
  {
    var k := LastDot(name);
    LastDotIsLast(name);
    assert name[k + 1..] == ext;
    assert name[k..] == [name[k]] + name[k + 1..];
  }

  lemma SuffixShowsExtension(name: string, ext: string)
    requires '.' !in ext
    requires |name| > |ext| + 1 && name[|name| - |ext| - 1..] == "." + ext
    ensures Extension(name) == Some(ext)
  {
    var d := |name| - |ext| - 1;
    var tail := name[d..];
    LastDotIsLast(name);
    assert name[d] == tail[0] == '.';
    forall j | d < j < |name|
      ensures name[j] != '.'
    {
      assert name[j] == tail[j - d] == ext[j - d - 1];
    }
    assert LastDot(name) == d;
    assert name[d + 1..] == tail[1..];
  }

  /** A name has extension `ext` exactly when it is a non-empty stem, a `.`, and `ext`. */
  lemma ExtensionIsSuffix(name: string, ext: string)
    requires '.' !in ext
    ensures Extension(name) == Some(ext) <==>
      |name| > |ext| + 1 && name[|name| - |ext| - 1..] == "." + ext
  {
    if Extension(name) == Some(ext) {
      ExtensionShowsSuffix(name, ext);
    }
    if |name| > |ext| + 1 && name[|name| - |ext| - 1..] == "." + ext {
      SuffixShowsExtension(name, ext);
    }
  }

  /** A name passes the filter exactly when it is a non-empty stem followed by `.m3u8` or `.m3u`. */
  lemma PlaylistNameSuffix(name: string)
    ensures IsPlaylistName(name) <==>
      (|name| > 5 && name[|name| - 5..] == ".m3u8") || (|name| > 4 && name[|name| - 4..] == ".m3u")
  {
    ExtensionIsSuffix(name, "m3u8");
    ExtensionIsSuffix(name, "m3u");
  }

  // ---------------------------------------------------------------------
  // The scan

  /**
    One item of the directory listing: an entry that could not be read, or
    a file with its name and its text (`None` when it cannot be read as text).
   */
  datatype DirItem = Unreadable | File(name: string, content: Option<string>)

  /** The scan's outcome: aborted by an unreadable directory entry, or the entries and the final set. */
  datatype ScanResult = Aborted | Scanned(entries: seq<Entry>, seen: set<string>)

  /** What one item adds, given the URLs seen before it. */
  function FileEntries(item: DirItem, seen: set<string>): seq<Entry>
    requires item.File?
  {
    if IsPlaylistName(item.name) && item.content.Some? then Parse(Lines(item.content.value), seen) else []
  }

  /** The scan of `items` in order, starting from the set `seen`. */
  function ScanFrom(items: seq<DirItem>, seen: set<string>): ScanResult
    decreases |items|
  {
    if items == [] then Scanned([], seen)
    else if items[0].Unreadable? then Aborted
    else
      var found := FileEntries(items[0], seen);
      Prepend(found, ScanFrom(items[1..], seen + UrlsOf(found)))
  }

  /** `entries` followed by what `result` found. */
  function Prepend(entries: seq<Entry>, result: ScanResult): ScanResult {
    match result
    case Aborted => Aborted
    case Scanned(rest, seen) => Scanned(entries + rest, seen)
  }

  lemma PrependTwice(a: seq<Entry>, b: seq<Entry>, result: ScanResult)
    ensures Prepend(a, Prepend(b, result)) == Prepend(a + b, result)
  {
    if result.Scanned? {
      assert a + (b + result.entries) == (a + b) + result.entries;
    }
  }

  /** One readable item of the scan: its entries, then the rest of the scan from the grown set. */
  lemma ScanStep(items: seq<DirItem>, k: nat, entries: seq<Entry>, seen: set<string>)
    requires k < |items| && items[k].File?
    ensures var added := FileEntries(items[k], seen);
      Prepend(entries, ScanFrom(items[k..], seen)) == Prepend(entries + added, ScanFrom(items[k + 1..], seen + UrlsOf(added)))
  {
    assert items[k..][0] == items[k] && items[k..][1..] == items[k + 1..];
    var added := FileEntries(items[k], seen);
    PrependTwice(entries, added, ScanFrom(items[k + 1..], seen + UrlsOf(added)));
  }

  lemma NothingAdded(entries: seq<Entry>, seen: set<string>)
    ensures entries + [] == entries && seen + UrlsOf([]) == seen
  {
    assert UrlsOf([]) == {};
  }

  /** Lists the directory's playlists' new entries, in directory order, with one shared set. */
  method ScanDirectory(items: seq<DirItem>) returns (result: ScanResult)
    ensures result == ScanFrom(items, {})
  {
    var entries: seq<Entry> := [];
    var seen: set<string> := {};
    var k := 0;
    while k < |items|
      invariant k <= |items|
      invariant ScanFrom(items, {}) == Prepend(entries, ScanFrom(items[k..], seen))
    {
      var item := items[k];
      if item.Unreadable? {
        assert items[k..][0] == item;
        return Aborted;
      }
      ScanStep(items, k, entries, seen);
      if IsPlaylistName(item.name) {
        var found, seen' := ParseM3u8File(item.content, seen);
        if found.Some? {
          entries := entries + found.value;
        } else {
          NothingAdded(entries, seen);
        }
        seen := seen';
      } else {
        NothingAdded(entries, seen);
      }
      k := k + 1;
    }
    assert items[k..] == [];
    assert entries + [] == entries;
    result := Scanned(entries, seen);
  }

  // ---------------------------------------------------------------------
  // Properties of the scan

  /** The run is aborted exactly when the listing holds an unreadable entry. */
  lemma {:induction false} ScanAbortsIffUnreadable(items: seq<DirItem>, seen: set<string>)
    ensures ScanFrom(items, seen).Aborted? <==> exists k :: 0 <= k < |items| && items[k].Unreadable?
    decreases |items|
  {
    if items != [] && items[0].File? {
      var after := seen + UrlsOf(FileEntries(items[0], seen));
      ScanAbortsIffUnreadable(items[1..], after);
      assert ScanFrom(items, seen).Aborted? <==> ScanFrom(items[1..], after).Aborted?;
      if k :| 0 <= k < |items| && items[k].Unreadable? {
        assert items[1..][k - 1] == items[k];
      }
      if k :| 0 <= k < |items[1..]| && items[1..][k].Unreadable? {
        assert items[k + 1] == items[1..][k];
      }
    }
  }

  /** The accepted pairs of all readable playlists, in directory order, before deduplication. */
  function AllCandidates(items: seq<DirItem>): seq<Entry>
    decreases |items|
  {
    if items == [] then []
    else
      var here :=
        if items[0].File? && IsPlaylistName(items[0].name) && items[0].content.Some?
        then Candidates(Lines(items[0].content.value)) else [];
      here + AllCandidates(items[1..])
  }

  /**
    Dedup across files: a completed scan keeps the first occurrence of each
    URL among all playlists' accepted pairs, in file order and then line
    order, and ends with every one of their URLs in the set.
   */
  lemma {:induction false} ScanIsFirstOccurrences(items: seq<DirItem>, seen: set<string>)
    requires forall k :: 0 <= k < |items| ==> items[k].File?
    ensures ScanFrom(items, seen) == Scanned(FirstOccurrences(AllCandidates(items), seen), seen + UrlsOf(AllCandidates(items)))
    decreases |items|
  {
    if items == [] {
      assert UrlsOf([]) == {};
    } else {
      var item := items[0];
      var here :=
        if IsPlaylistName(item.name) && item.content.Some? then Candidates(Lines(item.content.value)) else [];
      var found := FileEntries(item, seen);
      var rest := AllCandidates(items[1..]);
      assert found == FirstOccurrences(here, seen);
      FirstOccurrencesSeen(here, seen);
      ScanIsFirstOccurrences(items[1..], seen + UrlsOf(found));
      FirstOccurrencesAppend(here, rest, seen);
      UrlsOfAppend(here, rest);
      assert seen + UrlsOf(found) + UrlsOf(rest) == seen + UrlsOf(here + rest);
    }
  }

  /**
    The run's entry list holds no URL twice, and each kept entry is the
    first one, over all playlists in directory order, to carry its URL.
   */
  lemma ScanKeepsFirstOccurrence(items: seq<DirItem>)
    requires forall k :: 0 <= k < |items| ==> items[k].File?
    ensures ScanFrom(items, {}).Scanned?
    ensures ScanFrom(items, {}).entries == SelectFirstNew(AllCandidates(items), {}, 0)
    ensures DistinctUrls(ScanFrom(items, {}).entries)
  {
    ScanIsFirstOccurrences(items, {});
    FirstOccurrencesIsSelect(AllCandidates(items), {});
    FirstOccurrencesKeepsNew(AllCandidates(items), {});
  }

  /** Every accepted pair of one playlist is a description line and a URL line that passes the test. */
  lemma CandidatesShape(lines: seq<string>)
    ensures forall e :: e in Candidates(lines) ==> IsMarker(e.description) && IsAcceptedUrl(e.url)
  {
    CandidatesAtPairStarts(lines, 0);
    forall e | e in Candidates(lines)
      ensures IsMarker(e.description) && IsAcceptedUrl(e.url)
    {
      var k :| 0 <= k < |Candidates(lines)| && Candidates(lines)[k] == e;
      PairStartsAreReachedPairs(lines, 0, PairStarts(lines, 0)[k]);
    }
  }

  lemma {:induction false} AllCandidatesShape(items: seq<DirItem>)
    ensures forall e :: e in AllCandidates(items) ==> IsMarker(e.description) && IsAcceptedUrl(e.url)
    decreases |items|
  {
    if items != [] {
      AllCandidatesShape(items[1..]);
      if items[0].File? && IsPlaylistName(items[0].name) && items[0].content.Some? {
        CandidatesShape(Lines(items[0].content.value));
      }
    }
  }

  /**
    Across the whole directory: every entry of a completed scan is a
    description line paired with a URL line that passes the URL test.
   */
  lemma ScanEntriesAreAcceptedPairs(items: seq<DirItem>)
    requires forall k :: 0 <= k < |items| ==> items[k].File?
    ensures ScanFrom(items, {}).Scanned?
    ensures forall e :: e in ScanFrom(items, {}).entries ==> IsMarker(e.description) && IsAcceptedUrl(e.url)
  {
    ScanIsFirstOccurrences(items, {});
    FirstOccurrencesKeepsNew(AllCandidates(items), {});
    AllCandidatesShape(items);
  }
}
