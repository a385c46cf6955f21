/** Nested code between a pair of brackets: what the scanners that look for a closing bracket accept, as a grammar. */
module Nesting {
  import opened Literals
  import opened QuotedText
  import opened Text

  /** A pair of brackets, and the characters that quote. */
  datatype Brackets = Brackets(opening: char, closing: char, quotes: set<char>) {
    predicate Valid() { opening != closing && opening !in quotes && closing !in quotes && '\\' !in quotes }
  }

  /** Code in which every bracket and every quote is closed again: plain characters, quoted runs, bracketed code. */
  datatype Code =
    | Nothing
    | Plain(c: char, rest: Code)
    | Quoted(quote: char, text: seq<QuotedChar>, rest: Code)
    | Nested(inner: Code, rest: Code)

  function Source(b: Brackets, code: Code): string {
    match code
    case Nothing => ""
    case Plain(c, rest) => [c] + Source(b, rest)
    case Quoted(quote, text, rest) => [quote] + (Spelled(text) + ([quote] + Source(b, rest)))
    case Nested(inner, rest) => [b.opening] + (Source(b, inner) + ([b.closing] + Source(b, rest)))
  }

  predicate WellFormed(b: Brackets, code: Code) {
    match code
    case Nothing => true
    case Plain(c, rest) => c != b.opening && c != b.closing && c !in b.quotes && WellFormed(b, rest)
    case Quoted(quote, text, rest) => quote in b.quotes && StaysInside(quote, text) && WellFormed(b, rest)
    case Nested(inner, rest) => WellFormed(b, inner) && WellFormed(b, rest)
  }

  /** The bracket at `end` closes what is open at offset `i`: between the two stands code. */
  ghost predicate ClosedAt(b: Brackets, source: string, i: nat, end: nat) {
    && i <= end < |source| && source[end] == b.closing
    && exists code :: WellFormed(b, code) && source[i..end] == Source(b, code)
  }

  // ---------- the scan ----------

  function Deeper(b: Brackets, q: Quote, depth: int, c: char): int {
    if q.Inside? then depth else if c == b.opening then depth + 1 else if c == b.closing then depth - 1 else depth
  }

  /** The offset of the bracket that closes `depth` open ones. */
  function Closing(b: Brackets, source: string, i: nat, depth: nat, q: Quote): (r: Option<nat>)
    requires i <= |source| && depth > 0
    ensures r.Some? ==> i <= r.value < |source|
    decreases |source| - i
  {
    if i == |source| then None
    else if Deeper(b, q, depth, source[i]) == 0 then Some(i)
    else Closing(b, source, i + 1, Deeper(b, q, depth, source[i]), NextQuote(b.quotes, q, source[i]))
  }

  lemma {:induction false} ClosingSkipsQuoted(b: Brackets, source: string, i: nat, depth: nat, quote: char,
                                              text: seq<QuotedChar>)
    requires depth > 0 && StaysInside(quote, text) && At(source, i, Spelled(text))
    ensures i + |Spelled(text)| <= |source|
    ensures Closing(b, source, i, depth, Inside(quote, false))
         == Closing(b, source, i + |Spelled(text)|, depth, Inside(quote, false))
    decreases |text|
  {
    AtFits(source, i, Spelled(text));
    if text != [] {
      var x := text[0];
      var block := Written(x);
      AtConcat(source, i, block, Spelled(text[1..]));
      assert source[i..i + |block|] == block;
      assert source[i] == block[0];
      if x.Escaped? {
        assert source[i + 1] == block[1];
      }
      ClosingSkipsQuoted(b, source, i + |block|, depth, quote, text[1..]);
    }
  }

  /** One step of the scan, outside of quotes. */
  lemma ClosingStep(b: Brackets, source: string, i: nat, depth: nat, c: char)
    requires b.Valid() && i < |source| && depth > 0 && source[i] == c
    ensures c == b.opening ==> Closing(b, source, i, depth, Outside) == Closing(b, source, i + 1, depth + 1, Outside)
    ensures c == b.closing ==>
              Closing(b, source, i, depth, Outside)
              == if depth == 1 then Some(i) else Closing(b, source, i + 1, depth - 1, Outside)
    ensures c in b.quotes ==>
              Closing(b, source, i, depth, Outside) == Closing(b, source, i + 1, depth, Inside(c, false))
    ensures c != b.opening && c != b.closing && c !in b.quotes ==>
              Closing(b, source, i, depth, Outside) == Closing(b, source, i + 1, depth, Outside)
  {
  }

  lemma QuoteCloses(b: Brackets, source: string, i: nat, depth: nat, quote: char)
    requires i < |source| && depth > 0 && source[i] == quote && quote != '\\'
    ensures Closing(b, source, i, depth, Inside(quote, false)) == Closing(b, source, i + 1, depth, Outside)
  {
  }

  /** The scan passes a quoted run. */
  lemma ClosingSkipsRun(b: Brackets, source: string, i: nat, depth: nat, quote: char, text: seq<QuotedChar>,
                        tail: string)
    requires b.Valid() && depth > 0 && quote in b.quotes && StaysInside(quote, text)
    requires At(source, i, [quote] + (Spelled(text) + ([quote] + tail)))
    ensures var behind := i + |Spelled(text)| + 2;
            && behind <= |source| && At(source, behind, tail)
            && Closing(b, source, i, depth, Outside) == Closing(b, source, behind, depth, Outside)
  {
    hide At, Closing, StaysInside, Spelled;
    var end := i + 1 + |Spelled(text)|;
    HeadAt(source, i, quote, Spelled(text) + ([quote] + tail));
    ClosingStep(b, source, i, depth, quote);
    AtConcat(source, i + 1, Spelled(text), [quote] + tail);
    ClosingSkipsQuoted(b, source, i + 1, depth, quote, text);
    HeadAt(source, end, quote, tail);
    QuoteCloses(b, source, end, depth, quote);
  }

  lemma PlainLayout(b: Brackets, c: char, rest: Code, tail: string)
    ensures |Source(b, Plain(c, rest))| == |Source(b, rest)| + 1
    ensures Source(b, Plain(c, rest)) + tail == [c] + (Source(b, rest) + tail)
  {
  }

  lemma QuotedLayout(b: Brackets, quote: char, text: seq<QuotedChar>, rest: Code, tail: string)
    ensures |Source(b, Quoted(quote, text, rest))| == |Spelled(text)| + |Source(b, rest)| + 2
    ensures Source(b, Quoted(quote, text, rest)) + tail
         == [quote] + (Spelled(text) + ([quote] + (Source(b, rest) + tail)))
  {
  }

  lemma NestedLayout(b: Brackets, inner: Code, rest: Code, tail: string)
    ensures |Source(b, Nested(inner, rest))| == |Source(b, inner)| + |Source(b, rest)| + 2
    ensures Source(b, Nested(inner, rest)) + tail
         == [b.opening] + (Source(b, inner) + ([b.closing] + (Source(b, rest) + tail)))
  {
  }

  /** The scan passes well-formed code. */
  lemma {:induction false} ClosingSkipsCode(b: Brackets, source: string, i: nat, depth: nat, code: Code, tail: string)
    requires b.Valid() && depth > 0 && WellFormed(b, code) && At(source, i, Source(b, code) + tail)
    ensures i + |Source(b, code)| <= |source| && At(source, i + |Source(b, code)|, tail)
    ensures Closing(b, source, i, depth, Outside) == Closing(b, source, i + |Source(b, code)|, depth, Outside)
    decreases code, 1
  {
    hide At, Closing, Source, StaysInside, Spelled;
    match code
    case Nothing =>
      NothingThere(b, []);
      assert "" + tail == tail;
      AtFits(source, i, tail);
    case Plain(c, rest) =>
      PlainLayout(b, c, rest, tail);
      HeadAt(source, i, c, Source(b, rest) + tail);
      ClosingStep(b, source, i, depth, c);
      ClosingSkipsCode(b, source, i + 1, depth, rest, tail);
    case Quoted(quote, text, rest) =>
      QuotedLayout(b, quote, text, rest, tail);
      ClosingSkipsRun(b, source, i, depth, quote, text, Source(b, rest) + tail);
      ClosingSkipsCode(b, source, i + |Spelled(text)| + 2, depth, rest, tail);
    case Nested(inner, rest) =>
      ClosingSkipsNested(b, source, i, depth, inner, rest, tail);
  }

  lemma {:induction false} ClosingSkipsNested(b: Brackets, source: string, i: nat, depth: nat, inner: Code, rest: Code,
                                              tail: string)
    requires b.Valid() && depth > 0 && WellFormed(b, inner) && WellFormed(b, rest)
    requires At(source, i, Source(b, Nested(inner, rest)) + tail)
    ensures var end := i + |Source(b, Nested(inner, rest))|;
            && end <= |source| && At(source, end, tail)
            && Closing(b, source, i, depth, Outside) == Closing(b, source, end, depth, Outside)
    decreases Nested(inner, rest), 0
  {
    hide At, Closing, Source, WellFormed;
    NestedLayout(b, inner, rest, tail);
    var behind, more := i + 1 + |Source(b, inner)|, Source(b, rest) + tail;
    HeadAt(source, i, b.opening, Source(b, inner) + ([b.closing] + more));
    ClosingStep(b, source, i, depth, b.opening);
    ClosingSkipsCode(b, source, i + 1, depth + 1, inner, [b.closing] + more);
    HeadAt(source, behind, b.closing, more);
    ClosingStep(b, source, behind, depth + 1, b.closing);
    ClosingSkipsCode(b, source, behind + 1, depth, rest, tail);
  }

  lemma HeadAt(source: string, i: nat, c: char, rest: string)
    requires At(source, i, [c] + rest)
    ensures i < |source| && source[i] == c && At(source, i + 1, rest)
  {
    AtConcat(source, i, [c], rest);
    assert source[i] == source[i..i + 1][0];
  }

  /** Inside of quotes, the scan that closes something finds the end of the quoted run first. */
  lemma {:induction false} QuotedRunEnds(b: Brackets, source: string, i: nat, depth: nat, quote: char)
    returns (text: seq<QuotedChar>, end: nat)
    requires i <= |source| && depth > 0 && Closing(b, source, i, depth, Inside(quote, false)).Some?
    ensures i <= end < |source| && source[end] == quote && source[i..end] == Spelled(text) && StaysInside(quote, text)
    ensures Closing(b, source, i, depth, Inside(quote, false)) == Closing(b, source, end + 1, depth, Outside)
    decreases |source| - i
  {
    if source[i] == '\\' {
      text, end := QuotedRunEnds(b, source, i + 2, depth, quote);
      SpelledCons(Escaped(source[i + 1]), text);
      assert source[i..end] == [source[i], source[i + 1]] + source[i + 2..end];
      text := [Escaped(source[i + 1])] + text;
    } else if source[i] == quote {
      text, end := [], i;
    } else {
      text, end := QuotedRunEnds(b, source, i + 1, depth, quote);
      SpelledCons(Bare(source[i]), text);
      assert source[i..end] == [source[i]] + source[i + 1..end];
      text := [Bare(source[i])] + text;
    }
  }

  predicate AllWellFormed(b: Brackets, codes: seq<Code>) { forall code <- codes :: WellFormed(b, code) }

  /** Codes with a closing bracket behind each. */
  function Levels(b: Brackets, codes: seq<Code>): string {
    if codes == [] then "" else Source(b, codes[0]) + ([b.closing] + Levels(b, codes[1..]))
  }

  /** The text from `i` to `stop` is well-formed codes, a closing bracket behind each. */
  predicate AreLevels(b: Brackets, source: string, i: nat, stop: nat, codes: seq<Code>) {
    i <= stop <= |source| && source[i..stop] == Levels(b, codes) && AllWellFormed(b, codes)
  }

  lemma LevelsCons(b: Brackets, code: Code, codes: seq<Code>)
    ensures Levels(b, [code] + codes) == Source(b, code) + ([b.closing] + Levels(b, codes))
  {
    assert ([code] + codes)[1..] == codes;
  }

  /** What was scanned up to the closing bracket of `depth` levels is that many codes. */
  lemma {:induction false} ScannedLevels(b: Brackets, source: string, i: nat, depth: nat, end: nat)
    returns (codes: seq<Code>)
    requires b.Valid() && i <= |source| && depth > 0 && Closing(b, source, i, depth, Outside) == Some(end)
    ensures |codes| == depth && AreLevels(b, source, i, end + 1, codes)
    decreases |source| - i
  {
    assert i < |source|;
    var c := source[i];
    ClosingStep(b, source, i, depth, c);
    hide Closing, AreLevels, StaysInside, Spelled;
    if c == b.closing {
      if depth == 1 {
        codes := NoLevels(b, source, i + 1);
      } else {
        codes := ScannedLevels(b, source, i + 1, depth - 1, end);
      }
      codes := BehindClosing(b, source, i, end + 1, codes);
    } else if c == b.opening {
      codes := ScannedLevels(b, source, i + 1, depth + 1, end);
      codes := BehindOpening(b, source, i, end + 1, codes);
    } else if c in b.quotes {
      var text, quoteEnd := QuotedRunEnds(b, source, i + 1, depth, c);
      codes := ScannedLevels(b, source, quoteEnd + 1, depth, end);
      codes := BehindQuoted(b, source, i, quoteEnd, end + 1, text, codes);
    } else {
      codes := ScannedLevels(b, source, i + 1, depth, end);
      codes := BehindPlain(b, source, i, end + 1, codes);
    }
  }

  lemma NoLevels(b: Brackets, source: string, i: nat) returns (codes: seq<Code>)
    requires i <= |source|
    ensures codes == [] && AreLevels(b, source, i, i, codes)
  {
    codes := [];
  }

  lemma NothingThere(b: Brackets, codes: seq<Code>)
    ensures WellFormed(b, Nothing) && Source(b, Nothing) == "" && AllWellFormed(b, [])
    ensures Levels(b, []) == "" && Levels(b, [Nothing] + codes) == [b.closing] + Levels(b, codes)
  {
    LevelsCons(b, Nothing, codes);
    assert "" + ([b.closing] + Levels(b, codes)) == [b.closing] + Levels(b, codes);
  }

  lemma FirstOff(source: string, i: nat, stop: nat)
    requires i < stop <= |source|
    ensures source[i..stop] == [source[i]] + source[i + 1..stop]
  {
  }

  lemma BehindClosing(b: Brackets, source: string, i: nat, stop: nat, more: seq<Code>) returns (codes: seq<Code>)
    requires i < |source| && source[i] == b.closing && AreLevels(b, source, i + 1, stop, more)
    ensures |codes| == |more| + 1 && AreLevels(b, source, i, stop, codes)
  {
    codes := [Nothing] + more;
    FirstOff(source, i, stop);
    NothingThere(b, more);
  }

  lemma BehindPlain(b: Brackets, source: string, i: nat, stop: nat, more: seq<Code>) returns (codes: seq<Code>)
    requires i < |source| && more != [] && AreLevels(b, source, i + 1, stop, more)
    requires source[i] != b.opening && source[i] != b.closing && source[i] !in b.quotes
    ensures |codes| == |more| && AreLevels(b, source, i, stop, codes)
  {
    var c, first, others := source[i], more[0], more[1..];
    codes := [Plain(c, first)] + others;
    FirstOff(source, i, stop);
    assert more == [first] + others;
    LevelsCons(b, first, others);
    LevelsCons(b, Plain(c, first), others);
    PlainLayout(b, c, first, [b.closing] + Levels(b, others));
  }

  lemma BehindOpening(b: Brackets, source: string, i: nat, stop: nat, more: seq<Code>) returns (codes: seq<Code>)
    requires i < |source| && source[i] == b.opening && |more| > 1 && AreLevels(b, source, i + 1, stop, more)
    ensures |codes| == |more| - 1 && AreLevels(b, source, i, stop, codes)
  {
    var inner, rest, others := more[0], more[1], more[2..];
    codes := [Nested(inner, rest)] + others;
    FirstOff(source, i, stop);
    assert more == [inner] + ([rest] + others);
    LevelsCons(b, inner, [rest] + others);
    LevelsCons(b, rest, others);
    LevelsCons(b, Nested(inner, rest), others);
    NestedLayout(b, inner, rest, [b.closing] + Levels(b, others));
  }

  lemma BehindQuoted(b: Brackets, source: string, i: nat, end: nat, stop: nat, text: seq<QuotedChar>,
                     more: seq<Code>) returns (codes: seq<Code>)
    requires i < end < |source| && more != [] && AreLevels(b, source, end + 1, stop, more)
    requires source[i] == source[end] && source[i] in b.quotes
    requires source[i + 1..end] == Spelled(text) && StaysInside(source[i], text)
    ensures |codes| == |more| && AreLevels(b, source, i, stop, codes)
  {
    var quote, first, others := source[i], more[0], more[1..];
    codes := [Quoted(quote, text, first)] + others;
    FirstOff(source, i, stop);
    assert source[i + 1..stop] == source[i + 1..end] + ([quote] + source[end + 1..stop]);
    assert more == [first] + others;
    LevelsCons(b, first, others);
    LevelsCons(b, Quoted(quote, text, first), others);
    QuotedLayout(b, quote, text, first, [b.closing] + Levels(b, others));
  }

  lemma FoundIsClosed(b: Brackets, source: string, i: nat, end: nat)
    requires b.Valid() && i <= |source| && Closing(b, source, i, 1, Outside) == Some(end)
    ensures ClosedAt(b, source, i, end)
  {
    var codes := ScannedLevels(b, source, i, 1, end);
    hide Closing, Source, Levels, WellFormed;
    var code := codes[0];
    assert codes == [code] + [];
    LevelsCons(b, code, []);
    NothingThere(b, []);
    var text, inner := source[i..end + 1], Source(b, code);
    assert text == inner + [b.closing];
    assert text[..|text| - 1] == source[i..end] && text[|text| - 1] == source[end];
  }

  /** The scan finds exactly the bracket behind well-formed code, for every text and offset; so it finds none exactly
      when no bracket stands behind such code. */
  lemma ClosingIsGrammatical(b: Brackets, source: string, i: nat, end: nat)
    requires b.Valid() && i <= |source|
    ensures Closing(b, source, i, 1, Outside) == Some(end) <==> ClosedAt(b, source, i, end)
  {
    if Closing(b, source, i, 1, Outside) == Some(end) {
      FoundIsClosed(b, source, i, end);
    }
    if ClosedAt(b, source, i, end) {
      var code :| WellFormed(b, code) && source[i..end] == Source(b, code);
      assert At(source, i, Source(b, code) + "");
      ClosingSkipsCode(b, source, i, 1, code, "");
    }
  }
}
