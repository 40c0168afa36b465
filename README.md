# m3u8-checker, modelled in Dafny

m3u8-checker reads every `.m3u8` / `.m3u` playlist in a directory and
extracts its entries. An entry is a description line that starts with
`#EXTINF:` together with the URL line right after it. A URL already seen,
in this playlist or an earlier one, is dropped. Each remaining URL gets one
HEAD request, and only entries whose response is a success or a redirection
are written to the output playlist.

This project models the sequential core of that pipeline and proves its
properties:

- `Entries` (`entries.dfy`): the entry record and the line tests. A
  description line starts with `#EXTINF:`. A line after it is accepted as
  its URL when it is non-empty and does not start with `https://`. This
  literal rule rejects HTTPS URLs, and the model keeps it as written.
- `TextLines` (`lines.dfy`): how a file's text is split into lines. Lines
  end at `\n`, a `\r` right before that `\n` is dropped, and the last line
  needs no terminator.
- `Parser` (`parser.dfy`): the extractor `ParseM3u8File`, an index loop
  that threads the shared dedup set in and out. It is proved equal to
  `Parse`, which is defined as `FirstOccurrences(Candidates(lines), seen)`.
  `Candidates` lists the pairs the index walk accepts. `FirstOccurrences`
  keeps those whose URL is new.
- `ParserProperties` (`parser_properties.dfy`): lemmas about the walk (which
  lines it examines and which it consumes), the shape of entries, and
  deduplication.
- `Scanner` (`scanner.dfy`): the extension filter and the directory scan.
  The scan threads one set through all files in directory order. A file
  that cannot be read adds nothing. A directory entry that cannot be read
  aborts the run.
- `Validator` (`validator.dfy`): how a probe outcome is classified, and
  which entries are forwarded.
- `Output` (`output.dfy`): the record format, the collector loop that
  writes records, and the proof that the output playlist parses back to the
  entries written. End to end, an extracted entry is in the output playlist
  exactly when its own probe got a 2xx or 3xx response. This holds for entries
  with distinct URLs and the accepted-pair shape, which the scan lemmas prove,
  and whose lines have no trailing `\r`.

The model's inputs stand for the program's outside world:

- the directory listing, as a sequence of `DirItem`s;
- each file's text, as `Option<string>`, where `None` means a read failure;
- each probe's outcome, as a `ProbeOutcome`;
- the order in which validated entries arrive at the writer.

A directory entry that cannot be read (`entry?`, src/main.rs:51) makes
`main` return the error, so nothing is probed. `ScanFrom` models this as
`Aborted`.

## Model

| member | source | states |
|---|---|---|
| `Parser.ParseM3u8File` | src/main.rs:79-113 | An unreadable file gives an error and leaves the set unchanged. Otherwise the result is `Parse` of the file's lines, and the set on exit is the set on entry plus exactly the emitted URLs (insertion only). The loop's bounds and termination are proved. |
| `ParserProperties.CandidatesAtPairStarts` | src/main.rs:89-103 | The accepted pairs are exactly `(lines[p], lines[p+1])` at the walk's accepted start lines `p`, in the same order. |
| `ParserProperties.PairStartsSpaced` | src/main.rs:89-109 | Accepted start lines are strictly increasing, at least two apart, and in bounds with `p + 1 < \|lines\|`. So pairs never overlap, and entries come out in line order. |
| `ParserProperties.PairStartsAreReachedPairs` | src/main.rs:89-109 | A line starts an accepted pair if and only if the index walk examines it and the pair test passes there. |
| `ParserProperties.LineAfterNonMarkerReached` | src/main.rs:89-109 | A line whose previous line is not a description is always examined by the walk. |
| `ParserProperties.RejectedMarkerAdvancesByOne` | src/main.rs:90-106 | A description that is the last line, or is followed by an empty or `https://` line, yields no entry, and the walk examines the next line. |
| `ParserProperties.UrlLineConsumed` | src/main.rs:98-103 | After an accepted pair, whether its URL was new or a duplicate, the walk never examines the URL line. |
| `ParserProperties.MarkerAcceptedAsUrl` | src/main.rs:90-96 | A description line that directly follows an examined description is taken as that description's URL, and is not examined itself. |
| `ParserProperties.FirstOccurrencesKeepsNew` | src/main.rs:98-101 | Every kept entry is a candidate, and its URL was not in the set on entry. The kept URLs are pairwise distinct. |
| `ParserProperties.FirstOccurrencesSeen` | src/main.rs:98-100 | The set on entry plus the kept URLs equals the set on entry plus all candidate URLs. So every accepted URL, duplicate or not, is in the set afterwards. |
| `ParserProperties.FirstOccurrencesAppend` | src/main.rs:48-61 | Deduplicating two lists one after the other, threading the set, gives the same result as deduplicating their concatenation. |
| `ParserProperties.FirstOccurrencesIsSelect` | src/main.rs:98-101 | First occurrence wins: deduplication keeps, in order, exactly the candidates whose URL is neither in the set nor carried by an earlier candidate. This is checked against an index-based reference definition. |
| `ParserProperties.ParseEntriesAreAcceptedPairs` | src/main.rs:90-96 | Every entry's description starts with `#EXTINF:`. Its URL is non-empty and does not start with `https://`. Both are lines `j` and `j + 1` of the input, for a line `j` that the walk examined. |
| `ParserProperties.ParseDedup` | src/main.rs:98-101 | Within one file: no emitted URL was in the set on entry, the emitted URLs are pairwise distinct, and the set afterwards contains every accepted URL. |
| `ParserProperties.ParsedEntriesHaveNoNewline` | src/main.rs:84 | No entry read from a text contains a line break. |
| `ParserProperties.HttpsPairRejectedExample` | src/main.rs:91-93 | In a concrete playlist, an `http://` pair is extracted and an `https://` pair is rejected. |
| `TextLines.Lines` | src/main.rs:84 | No line produced by the split contains `\n`. |
| `TextLines.LinesOfTerminated` | src/main.rs:84 | A line with no `\n` and no trailing `\r`, followed by `\n`, adds exactly that line in front of the rest. |
| `Scanner.ExtensionIsSuffix` | src/main.rs:54 | A name has extension `ext` if and only if it is a non-empty stem, then `.`, then `ext`. |
| `Scanner.PlaylistNameSuffix` | src/main.rs:54-55 | A file is read if and only if its name is a non-empty stem followed by `.m3u8` or `.m3u`. |
| `Scanner.ScanDirectory` | src/main.rs:47-61 | The loop over the listing computes `ScanFrom(items, {})`: entries from each playlist in turn, with one shared set. |
| `Scanner.ScanAbortsIffUnreadable` | src/main.rs:50-51 | The scan aborts if and only if some directory entry cannot be read. |
| `Scanner.ScanIsFirstOccurrences` | src/main.rs:48-61 | Dedup across files: a completed scan returns the first occurrences among all playlists' accepted pairs, in file order and then line order. The final set is the initial set plus all those URLs. |
| `Scanner.ScanKeepsFirstOccurrence` | src/main.rs:48-61 | The run's entry list has pairwise distinct URLs. Each entry is the first candidate, over all files in directory order, that carries its URL. |
| `Scanner.ScanEntriesAreAcceptedPairs` | src/main.rs:48-61 | Across all playlists, every entry of a completed scan has a description that starts with `#EXTINF:`. Its URL is non-empty and does not start with `https://`. |
| `Validator.Classify` | src/main.rs:124-133 | An entry is valid if and only if a response arrived whose status is in class 2xx or 3xx. Any other status is rejected with that status, and a failed request is rejected with its failure. |
| `Validator.ForwardedPartition` | src/main.rs:63-65 | An entry is forwarded only if its own probe succeeded, and every entry whose probe succeeded is forwarded. With distinct URLs, each entry is forwarded exactly when its probe succeeded. |
| `Output.WriteOutput` | src/main.rs:69-73 | The collector loop writes `description\nurl\n` for each arrived entry, in arrival order, and its result is `OutputText(arrived)`. |
| `Output.OutputLines` | src/main.rs:71 | The lines of the written text are the entries' description and URL lines, alternating. |
| `Output.ReparseOutput` | src/main.rs:71 | Parsing the written text with an empty set gives back exactly the written entries, in order. |
| `Output.OutputIsForwarded` | src/main.rs:62-73 | This lemma has three premises. (1) The writer receives the forwarded entries once each, in any order; this is stated as equal multisets. (2) The entries have distinct URLs, as `Scanner.ScanKeepsFirstOccurrence` proves of a completed scan. (3) The entries have the accepted-pair shape, as `Scanner.ScanEntriesAreAcceptedPairs` proves, and their lines read back unchanged (`IsPlainEntry`). Under these premises, reading the output playlist back gives an extracted entry if and only if that entry's own probe classified as valid. |

## Left out

- Concurrency: the tokio runtime, `tokio::spawn` and the `mpsc` channel (src/main.rs:46, 63-69, 116) are not modelled. Entries reach the writer in completion order, which is nondeterministic, so that order is an input of `Output.WriteOutput`. What arrives is tied to the probes only in `Output.OutputIsForwarded`. That lemma takes as a premise that the arrived entries are the forwarded entries in some order. The premise is stated as equal multisets: each forwarded entry is sent once and nothing else is sent.
- The HEAD request itself, the client construction with its `unwrap`, and the timeout (src/main.rs:117-123) are not modelled: they are network calls into a library. Their outcome is the abstract `ProbeOutcome`. A panic from building the client would end that task and drop its entry. The model has no case for it.
- Filesystem calls are not modelled: `File::create`, `read_dir`, `read_to_string` and `file.write`. The failure of `File::create` or `read_dir` ends the run before any scan. `file.write` can write partially, and its result is ignored. A file's text is an input `Option<string>`, where `None` stands for a read or UTF-8 failure.
- Paths are reduced to the file name. A file name that is not valid UTF-8 cannot be written as a Dafny `string`. The program applies `to_str` only to the extension (src/main.rs:54), so such a file is still read when its extension is `m3u8` or `m3u`. The model can stand for it with any name that has a non-empty stem and the same extension, because `IsPlaylistName` looks at nothing else.
- `Output.ReparseOutput`: requires entries whose lines have no trailing `\r` (`IsPlainEntry`). The split into lines can produce lines that end in `\r`: a line ended by `\r\r\n` keeps one `\r`, and so does an unterminated last line that ends in `\r`. When such an entry is written out and read back, the `\r` before the `\n` is dropped, so the entry does not come back unchanged.
- `Output.OutputLines`: requires `IsPlainEntry` of every entry, for the reason given for `Output.ReparseOutput`.
- `Output.OutputIsForwarded`: requires `IsPlainEntry` of every entry, for the reason given for `Output.ReparseOutput`.
- The HashMap is modelled as a `set<string>`; its values are all `()`.
- Command-line parsing and the console messages (`println!`, `eprintln!`) are left out. They are interface and logging only.
