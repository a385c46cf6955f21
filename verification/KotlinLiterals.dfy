/** Reading Kotlin string literals (scripts/native-app-i18n.ts), and what the printer of
    scripts/android-app-i18n.ts writes. */
module KotlinLiterals {
  import opened AndroidEscapes
  import opened Literals
  import opened Text

  /** The scan for the brace that closes an interpolation; only double quotes hide braces here. */
  datatype BraceScan = BraceScan(depth: nat, quoted: bool, escaped: bool)

  const OPENED := BraceScan(1, false, false)

  function BraceStep(b: BraceScan, c: char): BraceScan
    requires b.depth > 0
  {
    if b.escaped then b.(escaped := false)
    else if b.quoted && c == '\\' then b.(escaped := true)
    else if c == '"' then b.(quoted := !b.quoted)
    else if !b.quoted && c == '{' then b.(depth := b.depth + 1)
    else if !b.quoted && c == '}' then b.(depth := b.depth - 1)
    else b
  }

  /** The offset of the closing brace. */
  function ClosingBrace(source: string, i: nat, b: BraceScan): (r: Option<nat>)
    requires i <= |source| && b.depth > 0
    ensures r.Some? ==> i <= r.value < |source|
    decreases |source| - i
  {
    if i == |source| then None
    else
      var next := BraceStep(b, source[i]);
      if next.depth == 0 then Some(i) else ClosingBrace(source, i + 1, next)
  }

  /** What an escape sequence stands for. */
  function Unescaped(next: char): string {
    if next == 'n' then "\n" else if next == 'r' then "\r" else if next == 't' then "\t"
    else if next == '"' || next == '\\' || next == '$' then [next]
    else ['\\', next]
  }

  /** The rest of a literal whose content is read from offset `i` on. */
  function Content(source: string, i: nat): (r: Option<Literal>)
    requires i <= |source|
    ensures r.Some? ==> i < r.value.end <= |source|
    decreases |source| - i
  {
    if i == |source| then None
    else if source[i] == '$' && i + 1 < |source| && source[i + 1] == '{' then
      match ClosingBrace(source, i + 2, OPENED)
      case None => None
      case Some(end) => Before(source[i..end + 1], Content(source, end + 1))
    else if source[i] == '\\' then
      if i + 1 == |source| then None else Before(Unescaped(source[i + 1]), Content(source, i + 2))
    else if source[i] == '"' then Some(Literal(i + 1, ""))
    else Before([source[i]], Content(source, i + 1))
  }

  function KotlinLiteral(source: string, at: nat): (r: Option<Literal>)
    ensures r.Some? ==> at + 1 < r.value.end <= |source|
  {
    if at >= |source| || source[at] != '"' || StartsAt(source, at, "\"\"\"") then None else Content(source, at + 1)
  }

  /** The loop over `${...}` inside `readKotlinStringLiteral`. */
  method FindClosingBrace(source: string, start: nat) returns (r: Option<nat>)
    requires start <= |source|
    ensures r == ClosingBrace(source, start, OPENED)
    ensures r.Some? ==> start <= r.value < |source|
  {
    var depth: nat, quoted, escaped := 1, false, false;
    var end := start;
    while end < |source|
      invariant start <= end <= |source| && depth > 0
      invariant ClosingBrace(source, start, OPENED) == ClosingBrace(source, end, BraceScan(depth, quoted, escaped))
    {
      var character := source[end];
      if escaped {
        escaped := false;
      } else if quoted && character == '\\' {
        escaped := true;
      } else if character == '"' {
        quoted := !quoted;
      } else if !quoted && character == '{' {
        depth := depth + 1;
      } else if !quoted && character == '}' {
        depth := depth - 1;
        if depth == 0 {
          return Some(end);
        }
      }
      end := end + 1;
    }
    return None;
  }

  /** One round of the reader's loop: with `raw` read so far, one more piece of content and where it ends. */
  lemma ReadInterpolation(source: string, i: nat, raw: string, end: Option<nat>, grown: string)
    requires i + 1 < |source| && source[i] == '$' && source[i + 1] == '{' && end == ClosingBrace(source, i + 2, OPENED)
    requires end.Some? ==> grown == raw + source[i..end.value + 1]
    ensures end.None? ==> Before(raw, Content(source, i)) == None
    ensures end.Some? ==> Before(raw, Content(source, i)) == Before(grown, Content(source, end.value + 1))
  {
    if end.Some? {
      BeforeTwice(raw, source[i..end.value + 1], Content(source, end.value + 1));
    }
  }

  lemma ReadEscape(source: string, i: nat, raw: string)
    requires i < |source| && source[i] == '\\'
    ensures i + 1 == |source| ==> Before(raw, Content(source, i)) == None
    ensures i + 1 < |source| ==>
              Before(raw, Content(source, i)) == Before(raw + Unescaped(source[i + 1]), Content(source, i + 2))
  {
    if i + 1 < |source| {
      BeforeTwice(raw, Unescaped(source[i + 1]), Content(source, i + 2));
    }
  }

  lemma ReadPlain(source: string, i: nat, raw: string)
    requires i < |source| && source[i] != '\\' && source[i] != '"'
    requires !(source[i] == '$' && i + 1 < |source| && source[i + 1] == '{')
    ensures Before(raw, Content(source, i)) == Before(raw + [source[i]], Content(source, i + 1))
  {
    BeforeTwice(raw, [source[i]], Content(source, i + 1));
  }

  lemma ReadEnd(source: string, i: nat, raw: string)
    requires i <= |source| && (i < |source| ==> source[i] == '"')
    ensures Before(raw, Content(source, i)) == if i == |source| then None else Some(Literal(i + 1, raw))
  {
    assert raw + "" == raw;
  }

  /** `readKotlinStringLiteral`. */
  method ReadKotlinStringLiteral(source: string, openingQuote: nat) returns (r: Option<Literal>)
    ensures r == KotlinLiteral(source, openingQuote)
  {
    if openingQuote >= |source| || source[openingQuote] != '"' || StartsAt(source, openingQuote, "\"\"\"") {
      return None;
    }
    ghost var goal := KotlinLiteral(source, openingQuote);
    assert goal == Content(source, openingQuote + 1);
    hide *;
    var raw := "";
    var index := openingQuote + 1;
    BeforeTwice("", "", Content(source, index));
    while index < |source|
      invariant openingQuote < index <= |source|
      invariant goal == Before(raw, Content(source, index))
    {
      var character := source[index];
      if character == '$' && index + 1 < |source| && source[index + 1] == '{' {
        var end := FindClosingBrace(source, index + 2);
        if end.None? {
          ReadInterpolation(source, index, raw, end, "");
          return None;
        }
        var piece := source[index..end.value + 1];
        ReadInterpolation(source, index, raw, end, raw + piece);
        raw := raw + piece;
        index := end.value + 1;
        continue;
      }
      if character == '\\' {
        ReadEscape(source, index, raw);
        if index + 1 == |source| {
          return None;
        }
        raw := raw + Unescaped(source[index + 1]);
        index := index + 2;
        continue;
      }
      if character == '"' {
        ReadEnd(source, index, raw);
        return Some(Literal(index + 1, raw));
      }
      ReadPlain(source, index, raw);
      raw := raw + [character];
      index := index + 1;
    }
    ReadEnd(source, index, raw);
    return None;
  }

  lemma ContentOfBlock(source: string, i: nat, c: char)
    requires At(source, i, KotlinBlock(c))
    ensures Content(source, i) == Before([c], Content(source, i + |KotlinBlock(c)|))
  {
    var block := KotlinBlock(c);
    assert source[i] == source[i..i + |block|][0] == block[0];
    if |block| == 2 {
      assert source[i + 1] == source[i..i + |block|][1] == block[1];
    }
  }

  lemma ContentEnds(source: string, i: nat)
    requires At(source, i, "\"")
    ensures Content(source, i) == Some(Literal(i + 1, ""))
  {
  }

  /** The content of an escaped text is the text. */
  lemma {:induction false} ContentOfEscaped(source: string, i: nat, s: string)
    requires At(source, i, KotlinBlocks(s) + "\"")
    ensures Content(source, i) == Some(Literal(i + |KotlinBlocks(s)| + 1, s))
    decreases |s|
  {
    hide Content, KotlinBlock, At;
    if s == "" {
      assert KotlinBlocks(s) + "\"" == "\"";
      ContentEnds(source, i);
    } else {
      var block, rest := KotlinBlock(s[0]), KotlinBlocks(s[1..]) + "\"";
      assert KotlinBlocks(s) + "\"" == block + rest;
      AtConcat(source, i, block, rest);
      ContentOfBlock(source, i, s[0]);
      ContentOfEscaped(source, i + |block|, s[1..]);
      assert [s[0]] + s[1..] == s;
    }
  }

  /** A printed literal opens a multi-line literal only when it is empty and a further quote follows. */
  lemma PrintedOpens(source: string, at: nat, s: string)
    requires At(source, at, "\"" + (KotlinBlocks(s) + "\""))
    ensures at < |source| && source[at] == '"'
    ensures StartsAt(source, at, "\"\"\"") <==> s == "" && at + 2 < |source| && source[at + 2] == '"'
  {
    var printed, tail := "\"" + (KotlinBlocks(s) + "\""), source[at..];
    assert tail[0] == printed[0] && tail[1] == source[at..at + |printed|][1] == printed[1];
    if s != "" {
      assert printed[1] == KotlinBlock(s[0])[0] != '"';
    } else if |tail| > 2 {
      assert tail[2] == source[at + 2];
    }
  }

  /** A printed literal, embedded anywhere, reads back as its text and ends where it ends; the only exception is the
      empty text in front of a further quote, which opens a multi-line literal. */
  lemma LiteralRoundTrip(source: string, at: nat, s: string)
    requires At(source, at, "\"" + EscapeKotlin(s) + "\"")
    ensures var end := at + |EscapeKotlin(s)| + 2;
            KotlinLiteral(source, at) == Some(Literal(end, s))
            <==> s != "" || end == |source| || source[end] != '"'
  {
    EscapeKotlinIsOnePass(s);
    var blocks := KotlinBlocks(s);
    hide EscapeKotlin, Content, StartsAt, At;
    assert "\"" + blocks + "\"" == "\"" + (blocks + "\"");
    PrintedOpens(source, at, s);
    AtConcat(source, at, "\"", blocks + "\"");
    ContentOfEscaped(source, at + 1, s);
    AtFits(source, at + 1, blocks + "\"");
  }

  function Printed(s: string): string { "\"" + EscapeKotlin(s) + "\"" }
}
