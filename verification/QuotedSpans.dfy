/** The characters of a text that stand outside of quotes: as a grammar of quoted runs and plain characters, and as what
    a scan from the left sees. */
module QuotedSpans {
  import opened QuotedText

  datatype Span = Plain(c: char) | InQuotes(quote: char, text: seq<QuotedChar>)

  function SpanText(span: Span): string {
    match span
    case Plain(c) => [c]
    case InQuotes(quote, text) => [quote] + Spelled(text) + [quote]
  }

  predicate SpanStands(quotes: set<char>, span: Span) {
    match span
    case Plain(c) => c !in quotes
    case InQuotes(quote, text) => quote in quotes && quote != '\\' && StaysInside(quote, text)
  }

  function SpansText(spans: seq<Span>): string {
    if spans == [] then "" else SpansText(spans[..|spans| - 1]) + SpanText(spans[|spans| - 1])
  }

  function Plains(spans: seq<Span>): string {
    if spans == [] then ""
    else
      var last := spans[|spans| - 1];
      Plains(spans[..|spans| - 1]) + if last.Plain? then [last.c] else ""
  }

  /** Every quoted run of the text is closed, and `plain` is what stands outside of them. */
  ghost predicate Unquoted(quotes: set<char>, text: string, plain: string) {
    exists spans :: AreSpans(quotes, text, plain, spans)
  }

  ghost predicate AreSpans(quotes: set<char>, text: string, plain: string, spans: seq<Span>) {
    (forall span <- spans :: SpanStands(quotes, span)) && SpansText(spans) == text && Plains(spans) == plain
  }

  // ---------- the scan ----------

  /** Where a scan stands, and the characters it saw outside of quotes. */
  datatype Seen = Seen(quote: Quote, plain: string)

  function SeeNext(quotes: set<char>, seen: Seen, c: char): Seen {
    Seen(NextQuote(quotes, seen.quote, c),
         seen.plain + if seen.quote == Outside && c !in quotes then [c] else "")
  }

  function SeenAfter(quotes: set<char>, text: string): Seen {
    if text == "" then Seen(Outside, "")
    else SeeNext(quotes, SeenAfter(quotes, text[..|text| - 1]), text[|text| - 1])
  }

  lemma SeenSnoc(quotes: set<char>, text: string, c: char)
    ensures SeenAfter(quotes, text + [c]) == SeeNext(quotes, SeenAfter(quotes, text), c)
  {
    assert (text + [c])[..|text|] == text;
  }

  lemma SpansSnoc(spans: seq<Span>, span: Span)
    ensures SpansText(spans + [span]) == SpansText(spans) + SpanText(span)
    ensures Plains(spans + [span]) == Plains(spans) + if span.Plain? then [span.c] else ""
  {
    assert (spans + [span])[..|spans|] == spans;
  }

  /** Inside of a run the scan stays inside, and sees nothing. */
  lemma CharIsScanned(quotes: set<char>, before: string, quote: char, x: QuotedChar)
    requires SeenAfter(quotes, before).quote == Inside(quote, false) && (x.Bare? ==> x.c != quote && x.c != '\\')
    ensures SeenAfter(quotes, before + Written(x)) == SeenAfter(quotes, before)
  {
    hide SeenAfter;
    var seen := SeenAfter(quotes, before);
    assert seen.plain + "" == seen.plain;
    if x.Bare? {
      SeenSnoc(quotes, before, x.c);
    } else {
      SeenSnoc(quotes, before, '\\');
      SeenSnoc(quotes, before + ['\\'], x.c);
      assert before + Written(x) == before + ['\\'] + [x.c];
    }
  }

  lemma {:induction false} RunIsScanned(quotes: set<char>, before: string, quote: char, text: seq<QuotedChar>)
    requires SeenAfter(quotes, before).quote == Inside(quote, false) && StaysInside(quote, text)
    ensures SeenAfter(quotes, before + Spelled(text)) == SeenAfter(quotes, before)
    decreases |text|
  {
    hide SeenAfter, Written;
    if text == [] {
      assert before + "" == before;
    } else {
      CharIsScanned(quotes, before, quote, text[0]);
      RunIsScanned(quotes, before + Written(text[0]), quote, text[1..]);
      assert before + Spelled(text) == before + Written(text[0]) + Spelled(text[1..]);
    }
  }

  lemma SpanIsScanned(quotes: set<char>, before: string, span: Span)
    requires SeenAfter(quotes, before).quote == Outside && SpanStands(quotes, span)
    ensures SeenAfter(quotes, before + SpanText(span))
         == Seen(Outside, SeenAfter(quotes, before).plain + if span.Plain? then [span.c] else "")
  {
    hide SeenAfter, Spelled, StaysInside;
    var seen := SeenAfter(quotes, before);
    assert seen.plain + "" == seen.plain;
    match span
    case Plain(c) =>
      SeenSnoc(quotes, before, c);
    case InQuotes(quote, text) =>
      SeenSnoc(quotes, before, quote);
      RunIsScanned(quotes, before + [quote], quote, text);
      SeenSnoc(quotes, before + [quote] + Spelled(text), quote);
      assert before + SpanText(span) == before + [quote] + Spelled(text) + [quote];
  }

  lemma {:induction false} SpansAreScanned(quotes: set<char>, spans: seq<Span>)
    requires forall span <- spans :: SpanStands(quotes, span)
    ensures SeenAfter(quotes, SpansText(spans)) == Seen(Outside, Plains(spans))
  {
    if spans != [] {
      hide SeenAfter, SpanStands, SpanText;
      var n := |spans| - 1;
      SpansAreScanned(quotes, spans[..n]);
      SpanIsScanned(quotes, SpansText(spans[..n]), spans[n]);
    }
  }

  /** Spans and the beginning of a quoted run. */
  ghost predicate Begun(quotes: set<char>, text: string, spans: seq<Span>, quote: char, open: seq<QuotedChar>) {
    quote in quotes && StaysInside(quote, open) && text == SpansText(spans) + [quote] + Spelled(open)
  }

  /** What was scanned: spans, and inside of quotes a run that has begun. */
  ghost predicate Scanned(quotes: set<char>, text: string, seen: Seen, spans: seq<Span>, open: seq<QuotedChar>) {
    && (forall span <- spans :: SpanStands(quotes, span)) && Plains(spans) == seen.plain
    && match seen.quote
       case Outside => text == SpansText(spans)
       case Inside(quote, escaped) =>
         if escaped then text != "" && text[|text| - 1] == '\\' && Begun(quotes, text[..|text| - 1], spans, quote, open)
         else Begun(quotes, text, spans, quote, open)
  }

  lemma RunGrows(quotes: set<char>, text: string, spans: seq<Span>, quote: char, open: seq<QuotedChar>, x: QuotedChar)
    requires Begun(quotes, text, spans, quote, open) && (x.Bare? ==> x.c != quote && x.c != '\\')
    ensures Begun(quotes, text + Written(x), spans, quote, open + [x])
  {
    SpelledSnoc(open, x);
    hide Written;
    var head, run := SpansText(spans) + [quote], Spelled(open);
    assert head + run + Written(x) == head + (run + Written(x));
  }

  lemma InFront(a: string, b: string, c: string)
    ensures a + b + c == a + (b + c)
  {
  }

  lemma RunCloses(quotes: set<char>, text: string, spans: seq<Span>, quote: char, open: seq<QuotedChar>)
    requires Begun(quotes, text, spans, quote, open) && quote != '\\'
    ensures SpanStands(quotes, InQuotes(quote, open)) && text + [quote] == SpansText(spans + [InQuotes(quote, open)])
    ensures Plains(spans + [InQuotes(quote, open)]) == Plains(spans)
  {
    hide SpansText, Plains, Spelled, StaysInside;
    SpansSnoc(spans, InQuotes(quote, open));
    assert Plains(spans) + "" == Plains(spans);
    InFront(SpansText(spans), [quote] + Spelled(open), [quote]);
    InFront(SpansText(spans), [quote], Spelled(open));
  }

  lemma {:induction false} ScanIsSpans(quotes: set<char>, text: string)
    returns (spans: seq<Span>, open: seq<QuotedChar>)
    requires '\\' !in quotes
    ensures Scanned(quotes, text, SeenAfter(quotes, text), spans, open)
  {
    if text == "" {
      spans, open := [], [];
    } else {
      hide Scanned, SeeNext, SeenAfter;
      var before, c := text[..|text| - 1], text[|text| - 1];
      assert text == before + [c];
      SeenSnoc(quotes, before, c);
      spans, open := ScanIsSpans(quotes, before);
      var seen := SeenAfter(quotes, before);
      if seen.quote == Outside {
        spans, open := OneMoreOutside(quotes, before, seen, c, spans, open);
      } else {
        spans, open := OneMoreInside(quotes, before, seen, c, spans, open);
      }
    }
  }

  lemma OneMoreOutside(quotes: set<char>, before: string, seen: Seen, c: char, spans: seq<Span>, open: seq<QuotedChar>)
    returns (spans': seq<Span>, open': seq<QuotedChar>)
    requires seen.quote == Outside && Scanned(quotes, before, seen, spans, open)
    ensures Scanned(quotes, before + [c], SeeNext(quotes, seen, c), spans', open')
  {
    spans', open' := spans, [];
    assert seen.plain + "" == seen.plain;
    if c in quotes {
      assert before + [c] == SpansText(spans) + [c] + Spelled([]) + "";
    } else {
      SpansSnoc(spans, Plain(c));
      spans' := spans + [Plain(c)];
    }
  }

  lemma OneMoreInside(quotes: set<char>, before: string, seen: Seen, c: char, spans: seq<Span>, open: seq<QuotedChar>)
    returns (spans': seq<Span>, open': seq<QuotedChar>)
    requires '\\' !in quotes && seen.quote != Outside && Scanned(quotes, before, seen, spans, open)
    ensures Scanned(quotes, before + [c], SeeNext(quotes, seen, c), spans', open')
  {
    spans', open' := spans, open;
    var quote, escaped := seen.quote.quote, seen.quote.escaped;
    assert seen.plain + "" == seen.plain;
    hide Begun, Plains, SpanStands, SpansText;
    if escaped {
      var n := |before| - 1;
      RunGrows(quotes, before[..n], spans, quote, open, Escaped(c));
      open' := open + [Escaped(c)];
      assert before + [c] == before[..n] + ['\\', c];
    } else if c == '\\' {
      assert (before + [c])[..|before|] == before;
    } else if c == quote {
      assert quote != '\\';
      RunCloses(quotes, before, spans, quote, open);
      spans' := spans + [InQuotes(quote, open)];
    } else {
      RunGrows(quotes, before, spans, quote, open, Bare(c));
      open' := open + [Bare(c)];
    }
  }

  /** A scan that ends outside of quotes has seen exactly the characters outside of the quoted runs. */
  lemma ScanIsGrammatical(quotes: set<char>, text: string, plain: string)
    requires '\\' !in quotes
    ensures SeenAfter(quotes, text) == Seen(Outside, plain) <==> Unquoted(quotes, text, plain)
  {
    hide SeenAfter, SpanStands;
    if SeenAfter(quotes, text) == Seen(Outside, plain) {
      var spans, open := ScanIsSpans(quotes, text);
      assert AreSpans(quotes, text, plain, spans);
    }
    if Unquoted(quotes, text, plain) {
      var spans :| AreSpans(quotes, text, plain, spans);
      SpansAreScanned(quotes, spans);
    }
  }
}
