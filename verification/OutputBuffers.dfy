/** Output of child processes: the tail-keeping capture of scripts/control-ui-i18n.ts and the line splitter of
    scripts/bench-gateway-restart.ts. Neither depends on how the output was cut into chunks. */
module OutputBuffers {
  import opened Text

  datatype Capture = Capture(text: string, truncatedChars: nat)

  const EMPTY_CAPTURE := Capture("", 0)

  /** JavaScript's `s.slice(-n)`: the last `n` characters, but the whole text for `n == 0`. */
  function SliceFromEnd(s: string, n: nat): string {
    if n == 0 || |s| <= n then s else s[|s| - n..]
  }

  /** `appendBoundedProcessOutput`. */
  function AppendBounded(capture: Capture, chunk: string, maxChars: nat): Capture {
    var nextText := capture.text + chunk;
    if |nextText| <= maxChars then Capture(nextText, capture.truncatedChars)
    else Capture(SliceFromEnd(nextText, maxChars), capture.truncatedChars + |nextText| - maxChars)
  }

  /** The capture after a run of chunks. */
  function CaptureAll(chunks: seq<string>, maxChars: nat): Capture {
    if chunks == [] then EMPTY_CAPTURE
    else AppendBounded(CaptureAll(chunks[..|chunks| - 1], maxChars), chunks[|chunks| - 1], maxChars)
  }

  /** `capture` holds the last `min(maxChars, |output|)` characters of `output` and counts the rest. */
  ghost predicate IsTailOf(capture: Capture, output: string, maxChars: nat) {
    && |capture.text| == (if |output| <= maxChars then |output| else maxChars)
    && |capture.text| + capture.truncatedChars == |output|
    && capture.text == output[capture.truncatedChars..]
  }

  lemma {:induction false} AppendKeepsTail(capture: Capture, output: string, chunk: string, maxChars: nat)
    requires maxChars > 0 && IsTailOf(capture, output, maxChars)
    ensures IsTailOf(AppendBounded(capture, chunk, maxChars), output + chunk, maxChars)
  {
    var next := AppendBounded(capture, chunk, maxChars);
    assert (output + chunk)[capture.truncatedChars..] == capture.text + chunk;
    assert (output + chunk)[next.truncatedChars..]
        == (output + chunk)[capture.truncatedChars..][next.truncatedChars - capture.truncatedChars..];
  }

  /** Whatever the chunking, the capture is the tail of the whole output. With a limit of zero, which
      `resolveRunProcessOutputLimit` never hands out, it is so only while there is no output. */
  lemma {:induction false} CaptureIsTail(chunks: seq<string>, maxChars: nat)
    ensures IsTailOf(CaptureAll(chunks, maxChars), Flatten(chunks), maxChars) <==> maxChars > 0 || Flatten(chunks) == ""
  {
    if chunks != [] {
      var before, last := chunks[..|chunks| - 1], chunks[|chunks| - 1];
      assert chunks == before + [last];
      FlattenSnoc(before, last);
      CaptureIsTail(before, maxChars);
      if maxChars > 0 {
        AppendKeepsTail(CaptureAll(before, maxChars), Flatten(before), last, maxChars);
      } else {
        ZeroLimitKeepsAll(chunks);
      }
    }
  }

  lemma {:induction false} ZeroLimitKeepsAll(chunks: seq<string>)
    ensures CaptureAll(chunks, 0).text == Flatten(chunks)
  {
    if chunks != [] {
      var before, last := chunks[..|chunks| - 1], chunks[|chunks| - 1];
      assert chunks == before + [last];
      FlattenSnoc(before, last);
      ZeroLimitKeepsAll(before);
    }
  }

  datatype Lines = Lines(lines: seq<string>, carry: string)

  function AddLine(line: string, r: Lines): Lines { Lines([line] + r.lines, r.carry) }

  /** One more character at the front of the first part. */
  function AddChar(c: char, r: Lines): Lines {
    if r.lines == [] then Lines([], [c] + r.carry) else Lines([[c] + r.lines[0]] + r.lines[1..], r.carry)
  }

  /** JavaScript's `s.split(/\r?\n/)`, with the last part apart as the carry. */
  function SplitLines(s: string): Lines {
    if s == "" then Lines([], "")
    else if s[0] == '\n' then AddLine("", SplitLines(s[1..]))
    else if |s| > 1 && s[0] == '\r' && s[1] == '\n' then AddLine("", SplitLines(s[2..]))
    else AddChar(s[0], SplitLines(s[1..]))
  }

  /** `collectOutputLines`. */
  function CollectOutputLines(carry: string, chunk: string): Lines { SplitLines(carry + chunk) }

  /** Lines already complete, followed by what a later split gives. */
  function Then(done: seq<string>, r: Lines): Lines { Lines(done + r.lines, r.carry) }

  /** Lines and carry after a run of chunks. */
  function CollectAll(chunks: seq<string>): Lines {
    if chunks == [] then Lines([], "")
    else
      var before := CollectAll(chunks[..|chunks| - 1]);
      Then(before.lines, CollectOutputLines(before.carry, chunks[|chunks| - 1]))
  }

  lemma AddLineThen(line: string, done: seq<string>, r: Lines)
    ensures AddLine(line, Then(done, r)) == Then([line] + done, r)
  {
  }

  lemma AddCharThen(c: char, done: seq<string>, r: Lines)
    requires done != []
    ensures AddChar(c, Then(done, r)) == Then([[c] + done[0]] + done[1..], r)
  {
  }

  /** What was already split stays split; only the carry meets the new text, a trailing CR included. */
  lemma {:induction false} SplitLinesConcat(a: string, b: string)
    ensures SplitLines(a + b) == Then(SplitLines(a).lines, SplitLines(SplitLines(a).carry + b))
    decreases |a|
  {
    if SplitLines(a).lines == [] {
      CarryIsText(a);
      assert [] + SplitLines(a + b).lines == SplitLines(a + b).lines;
    } else {
      var k := if a[0] != '\n' && |a| > 1 && a[0] == '\r' && a[1] == '\n' then 2 else 1;
      var r := SplitLines(a[k..]);
      assert (a + b)[k..] == a[k..] + b;
      SplitLinesConcat(a[k..], b);
      if a[0] == '\n' || k == 2 {
        AddLineThen("", r.lines, SplitLines(r.carry + b));
      } else {
        assert |a| > 1 by { assert r.lines != []; }
        AddCharThen(a[0], r.lines, SplitLines(r.carry + b));
      }
    }
  }

  lemma {:induction false} CarryIsText(s: string)
    requires SplitLines(s).lines == []
    ensures SplitLines(s).carry == s
  {
    if s != "" {
      CarryIsText(s[1..]);
    }
  }

  /** Chunking does not matter: a cut anywhere, even between CR and LF, gives the lines and the carry of
      splitting the whole output once. */
  lemma {:induction false} ChunkingDoesNotMatter(chunks: seq<string>)
    ensures CollectAll(chunks) == SplitLines(Flatten(chunks))
  {
    if chunks != [] {
      var before, last := chunks[..|chunks| - 1], chunks[|chunks| - 1];
      assert chunks == before + [last];
      FlattenSnoc(before, last);
      ChunkingDoesNotMatter(before);
      SplitLinesConcat(Flatten(before), last);
    }
  }

  /** The text between the line feeds, for a reader of `SplitLines`: cutting at every line feed and dropping one CR
      at the end of each line gives the same lines; the carry keeps its CR. */
  function StripCr(line: string): string {
    if line != "" && line[|line| - 1] == '\r' then line[..|line| - 1] else line
  }

  lemma {:induction false} LinesAreCutAtLineFeeds(s: string)
    ensures AtLineFeeds(SplitLines(s), Split(s, '\n'))
  {
    if s == "" {
    } else if s[0] == '\n' {
      LinesAreCutAtLineFeeds(s[1..]);
      LineAtLineFeeds("", SplitLines(s[1..]), Split(s[1..], '\n'));
    } else if |s| > 1 && s[0] == '\r' && s[1] == '\n' {
      LinesAreCutAtLineFeeds(s[2..]);
      CrLfParts(s);
      LineAtLineFeeds("\r", SplitLines(s[2..]), Split(s[2..], '\n'));
    } else {
      LinesAreCutAtLineFeeds(s[1..]);
      var tail := Split(s[1..], '\n');
      if |tail| > 1 {
        StripCrCons(s, tail[0]);
      }
      CharAtLineFeeds(s[0], SplitLines(s[1..]), tail);
    }
  }

  lemma CrLfParts(s: string)
    requires |s| > 1 && s[0] == '\r' && s[1] == '\n'
    ensures Split(s, '\n') == ["\r"] + Split(s[2..], '\n')
  {
    assert s == "\r" + ['\n'] + s[2..];
    SplitNoSeparator("\r", '\n');
    SplitConcat("\r", s[2..], '\n');
  }

  lemma LineAtLineFeeds(part: string, r: Lines, parts: seq<string>)
    requires AtLineFeeds(r, parts)
    ensures AtLineFeeds(AddLine(StripCr(part), r), [part] + parts)
  {
  }

  lemma CharAtLineFeeds(c: char, r: Lines, parts: seq<string>)
    requires |parts| > 0 && AtLineFeeds(r, parts)
    requires |parts| > 1 ==> StripCr([c] + parts[0]) == [c] + StripCr(parts[0])
    ensures AtLineFeeds(AddChar(c, r), [[c] + parts[0]] + parts[1..])
  {
  }

  /** `parts` are the texts between line feeds that the lines and the carry come from. */
  ghost predicate AtLineFeeds(r: Lines, parts: seq<string>) {
    && |parts| > 0 && |r.lines| == |parts| - 1
    && r.carry == parts[|parts| - 1]
    && forall k :: 0 <= k < |r.lines| ==> r.lines[k] == StripCr(parts[k])
  }

  lemma StripCrCons(s: string, first: string)
    requires s != "" && |Split(s[1..], '\n')| > 1 && first == Split(s[1..], '\n')[0]
    requires s[0] != '\n' && !(|s| > 1 && s[0] == '\r' && s[1] == '\n')
    ensures StripCr([s[0]] + first) == [s[0]] + StripCr(first)
  {
  }
}
