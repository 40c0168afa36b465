/**
  The splitting of a file's text into lines that the extractor scans:
  lines end at `\n`; a `\r` just before that `\n` is dropped; the last line
  needs no terminator, and an empty text has no lines.
 */
module TextLines {

  /** Index of the first `\n` in `text`, or `|text|` when there is none. */
  function NewlineIndex(text: string): (k: nat)
    ensures k <= |text|
    ensures k < |text| ==> text[k] == '\n'
    ensures forall j :: 0 <= j < k ==> text[j] != '\n'
  {
    if text == [] then 0
    else if text[0] == '\n' then 0
    else 1 + NewlineIndex(text[1..])
  }

  /** Drops one trailing `\r`, the first half of a `\r\n` terminator. */
  function StripCarriageReturn(line: string): string {
    if line != [] && line[|line| - 1] == '\r' then line[..|line| - 1] else line
  }

  function Lines(text: string): (lines: seq<string>)
    ensures forall k :: 0 <= k < |lines| ==> '\n' !in lines[k]
    decreases |text|
  {
    if text == [] then []
    else
      var k := NewlineIndex(text);
      if k == |text| then [text]
      else [StripCarriageReturn(text[..k])] + Lines(text[k + 1..])
  }

  /** A line that a terminator can follow and that reads back unchanged. */
  predicate IsPlainLine(line: string) {
    '\n' !in line && (line == [] || line[|line| - 1] != '\r')
  }

  /** Writing a plain line and a `\n` in front of more text adds exactly that line. */
  lemma LinesOfTerminated(line: string, rest: string)
    requires IsPlainLine(line)
    ensures Lines(line + "\n" + rest) == [line] + Lines(rest)
  {
    var text := line + "\n" + rest;
    NewlineIndexOfTerminated(line, rest);
    assert text[..|line|] == line;
    assert text[|line| + 1..] == rest;
  }

  lemma {:induction false} NewlineIndexOfTerminated(line: string, rest: string)
    requires '\n' !in line
    ensures NewlineIndex(line + "\n" + rest) == |line|
    decreases |line|
  {
    var text := line + "\n" + rest;
    if line == [] {
      assert text[0] == '\n';
    } else {
      assert text[0] == line[0] != '\n';
      assert text[1..] == line[1..] + "\n" + rest;
      NewlineIndexOfTerminated(line[1..], rest);
    }
  }
}
