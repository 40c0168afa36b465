/**
  Playlist entries and the tests the extractor applies to single lines of
  an M3U/M3U8 playlist.
 */
module Entries {

  datatype Option<+T> = None | Some(value: T)

  /** One extracted entry: the `#EXTINF:` line and the URL line after it. */
  datatype Entry = Entry(description: string, url: string)

  /** The prefix that marks a description line. */
  const MARKER: string := "#EXTINF:"

  /** A line with this prefix is never accepted as a URL. */
  const HTTPS_PREFIX: string := "https://"

  predicate StartsWith(s: string, prefix: string) {
    |prefix| <= |s| && s[..|prefix|] == prefix
  }

  /** A description line. */
  predicate IsMarker(line: string) {
    StartsWith(line, MARKER)
  }

  /** The test the line after a description must pass to become its URL. */
  predicate IsAcceptedUrl(line: string) {
    line != "" && !StartsWith(line, HTTPS_PREFIX)
  }

  /** The URLs carried by a list of entries. */
  function UrlsOf(entries: seq<Entry>): set<string> {
    set e | e in entries :: e.url
  }

  predicate DistinctUrls(entries: seq<Entry>) {
    forall j, k :: 0 <= j < k < |entries| ==> entries[j].url != entries[k].url
  }

  lemma UrlsOfAppend(a: seq<Entry>, b: seq<Entry>)
    ensures UrlsOf(a + b) == UrlsOf(a) + UrlsOf(b)
  {
    assert forall e :: e in a + b <==> e in a || e in b;
  }
}
