/** Reading Swift string literals (scripts/native-app-i18n.ts). */
module SwiftLiterals {
  import opened ClosingDelimiter
  import opened Literals
  import opened Text

  /** What a Swift escape sequence stands for; an unknown one stands for itself. */
  function SwiftUnescaped(next: char): string {
    if next == 'n' then "\n" else if next == 'r' then "\r" else if next == 't' then "\t"
    else if next == '"' || next == '\\' then [next]
    else ['\\', next]
  }

  /** The rest of a literal whose content is read from offset `i` on; interpolations are kept as they stand. */
  function SwiftContent(source: string, i: nat): (r: Option<Literal>)
    requires i <= |source|
    ensures r.Some? ==> i < r.value.end <= |source|
    decreases |source| - i
  {
    if i == |source| then None
    else if source[i] == '\\' then
      if i + 1 == |source| then None
      else if source[i + 1] == '(' then
        match ClosingFrom(PARENS, source, i + 2, ONE_OPEN)
        case None => None
        case Some(end) => Before(source[i..end + 1], SwiftContent(source, end + 1))
      else Before(SwiftUnescaped(source[i + 1]), SwiftContent(source, i + 2))
    else if source[i] == '"' then Some(Literal(i + 1, ""))
    else Before([source[i]], SwiftContent(source, i + 1))
  }

  function SwiftLiteral(source: string, at: nat): (r: Option<Literal>)
    ensures r.Some? ==> at + 1 < r.value.end <= |source|
  {
    if at >= |source| || source[at] != '"' || StartsAt(source, at, "\"\"\"") then None else SwiftContent(source, at + 1)
  }

  /** The loop over `\(...)` inside `readSwiftStringLiteral`. */
  method FindClosingParen(source: string, start: nat) returns (r: Option<nat>)
    requires start <= |source|
    ensures r == ClosingFrom(PARENS, source, start, ONE_OPEN)
    ensures r.Some? ==> start <= r.value < |source|
  {
    var depth, quoted, escaped := 1, false, false;
    var end := start;
    while end < |source|
      invariant start <= end <= |source| && depth > 0
      invariant ClosingFrom(PARENS, source, start, ONE_OPEN)
             == ClosingFrom(PARENS, source, end, Depth(depth, quoted, escaped))
    {
      var character := source[end];
      if escaped {
        escaped := false;
      } else if quoted && character == '\\' {
        escaped := true;
      } else if character == '"' {
        quoted := !quoted;
      } else if !quoted && character == '(' {
        depth := depth + 1;
      } else if !quoted && character == ')' {
        depth := depth - 1;
        if depth == 0 {
          return Some(end);
        }
      }
      end := end + 1;
    }
    return None;
  }

  /** One round of the reader's loop: with `raw` read so far, one more piece of content and where it ends. */
  lemma ReadSwiftInterpolation(source: string, i: nat, raw: string, end: Option<nat>, grown: string)
    requires i + 1 < |source| && source[i] == '\\' && source[i + 1] == '('
    requires end == ClosingFrom(PARENS, source, i + 2, ONE_OPEN)
    requires end.Some? ==> grown == raw + source[i..end.value + 1]
    ensures end.None? ==> Before(raw, SwiftContent(source, i)) == None
    ensures end.Some? ==> Before(raw, SwiftContent(source, i)) == Before(grown, SwiftContent(source, end.value + 1))
  {
    if end.Some? {
      BeforeTwice(raw, source[i..end.value + 1], SwiftContent(source, end.value + 1));
    }
  }

  lemma ReadSwiftEscape(source: string, i: nat, raw: string)
    requires i < |source| && source[i] == '\\' && (i + 1 < |source| ==> source[i + 1] != '(')
    ensures i + 1 == |source| ==> Before(raw, SwiftContent(source, i)) == None
    ensures i + 1 < |source| ==>
              Before(raw, SwiftContent(source, i))
              == Before(raw + SwiftUnescaped(source[i + 1]), SwiftContent(source, i + 2))
  {
    if i + 1 < |source| {
      BeforeTwice(raw, SwiftUnescaped(source[i + 1]), SwiftContent(source, i + 2));
    }
  }

  lemma ReadSwiftPlain(source: string, i: nat, raw: string)
    requires i < |source| && source[i] != '\\' && source[i] != '"'
    ensures Before(raw, SwiftContent(source, i)) == Before(raw + [source[i]], SwiftContent(source, i + 1))
  {
    BeforeTwice(raw, [source[i]], SwiftContent(source, i + 1));
  }

  lemma ReadSwiftEnd(source: string, i: nat, raw: string)
    requires i <= |source| && (i < |source| ==> source[i] == '"')
    ensures Before(raw, SwiftContent(source, i)) == if i == |source| then None else Some(Literal(i + 1, raw))
  {
    assert raw + "" == raw;
  }

  /** `readSwiftStringLiteral`. */
  method ReadSwiftStringLiteral(source: string, openingQuote: nat) returns (r: Option<Literal>)
    ensures r == SwiftLiteral(source, openingQuote)
  {
    if openingQuote >= |source| || source[openingQuote] != '"' || StartsAt(source, openingQuote, "\"\"\"") {
      return None;
    }
    ghost var goal := SwiftLiteral(source, openingQuote);
    assert goal == SwiftContent(source, openingQuote + 1);
    hide *;
    var raw := "";
    var index := openingQuote + 1;
    BeforeTwice("", "", SwiftContent(source, index));
    while index < |source|
      invariant openingQuote < index <= |source|
      invariant goal == Before(raw, SwiftContent(source, index))
    {
      var character := source[index];
      if character == '\\' {
        if index + 1 == |source| {
          ReadSwiftEscape(source, index, raw);
          return None;
        }
        var next := source[index + 1];
        if next == '(' {
          var end := FindClosingParen(source, index + 2);
          if end.None? {
            ReadSwiftInterpolation(source, index, raw, end, "");
            return None;
          }
          ghost var before := raw;
          raw := raw + source[index..end.value + 1];
          ReadSwiftInterpolation(source, index, before, end, raw);
          index := end.value + 1;
          continue;
        }
        ReadSwiftEscape(source, index, raw);
        raw := raw + SwiftUnescaped(next);
        index := index + 2;
        continue;
      }
      if character == '"' {
        ReadSwiftEnd(source, index, raw);
        return Some(Literal(index + 1, raw));
      }
      ReadSwiftPlain(source, index, raw);
      raw := raw + [character];
      index := index + 1;
    }
    ReadSwiftEnd(source, index, raw);
    return None;
  }

  /** The spelling of a character that the reader understands. */
  function SwiftBlock(c: char): string {
    if c == '\\' then "\\\\" else if c == '"' then "\\\"" else if c == '\n' then "\\n"
    else if c == '\r' then "\\r" else if c == '\t' then "\\t" else [c]
  }

  function SwiftBlocks(s: string): string {
    if s == "" then "" else SwiftBlock(s[0]) + SwiftBlocks(s[1..])
  }

  lemma SwiftContentOfBlock(source: string, i: nat, c: char)
    requires At(source, i, SwiftBlock(c))
    ensures SwiftContent(source, i) == Before([c], SwiftContent(source, i + |SwiftBlock(c)|))
  {
    var block := SwiftBlock(c);
    assert source[i] == source[i..i + |block|][0] == block[0];
    if |block| == 2 {
      assert source[i + 1] == source[i..i + 2][1] == block[1];
    }
  }

  lemma SwiftContentEnds(source: string, i: nat)
    requires At(source, i, "\"")
    ensures SwiftContent(source, i) == Some(Literal(i + 1, ""))
  {
    assert source[i] == source[i..i + 1][0] == '"';
  }

  lemma {:induction false} SwiftContentOfBlocks(source: string, i: nat, s: string)
    requires At(source, i, SwiftBlocks(s) + "\"")
    ensures SwiftContent(source, i) == Some(Literal(i + |SwiftBlocks(s)| + 1, s))
    decreases |s|
  {
    hide SwiftBlock, SwiftContent, At;
    if s == "" {
      assert SwiftBlocks(s) + "\"" == "\"";
      SwiftContentEnds(source, i);
    } else {
      var block, rest := SwiftBlock(s[0]), SwiftBlocks(s[1..]) + "\"";
      assert SwiftBlocks(s) + "\"" == block + rest;
      AtConcat(source, i, block, rest);
      SwiftContentOfBlock(source, i, s[0]);
      SwiftContentOfBlocks(source, i + |block|, s[1..]);
      assert [s[0]] + s[1..] == s;
    }
  }

  /** Every text has a spelling that reads back, embedded anywhere, with the exact end; an empty one exactly when no
      further double quote follows. */
  lemma SwiftLiteralRoundTrip(source: string, at: nat, s: string)
    requires At(source, at, "\"" + SwiftBlocks(s) + "\"")
    ensures var end := at + |SwiftBlocks(s)| + 2;
            SwiftLiteral(source, at) == Some(Literal(end, s)) <==> s != "" || end == |source| || source[end] != '"'
  {
    var blocks := SwiftBlocks(s) + "\"";
    hide SwiftContent, SwiftBlocks, StartsAt, At;
    assert "\"" + SwiftBlocks(s) + "\"" == "\"" + blocks;
    SwiftOpens(source, at, s);
    AtConcat(source, at, "\"", blocks);
    SwiftContentOfBlocks(source, at + 1, s);
    AtFits(source, at + 1, blocks);
    assert s == "" ==> |SwiftBlocks(s)| == 0 by { SwiftBlocksOfNothing(); }
  }

  lemma SwiftBlocksOfNothing()
    ensures SwiftBlocks("") == ""
  {
  }

  lemma SwiftOpens(source: string, at: nat, s: string)
    requires At(source, at, "\"" + (SwiftBlocks(s) + "\""))
    ensures at < |source| && source[at] == '"'
    ensures StartsAt(source, at, "\"\"\"") <==> s == "" && at + 2 < |source| && source[at + 2] == '"'
  {
    var printed := "\"" + (SwiftBlocks(s) + "\"");
    assert source[at..at + |printed|][0] == source[at] && source[at..at + |printed|][1] == source[at + 1] == printed[1];
    assert StartsAt(source, at, "\"\"\"") <==>
           at + 2 < |source| && source[at] == '"' && source[at + 1] == '"' && source[at + 2] == '"' by {
      if at + 2 < |source| && source[at] == '"' && source[at + 1] == '"' && source[at + 2] == '"' {
        assert source[at..][..3] == "\"\"\"";
      }
    }
    if s != "" {
      assert printed[1] == SwiftBlock(s[0])[0];
    }
  }
}
