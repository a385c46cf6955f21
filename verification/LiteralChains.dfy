/** Chains of string literals joined by plus signs, on either surface (scripts/native-app-i18n.ts). */
module LiteralChains {
  import opened AndroidEscapes
  import opened KotlinLiterals
  import opened Literals
  import opened SwiftLiterals
  import opened Text

  function IndexOf(source: string, p: string, i: nat): (r: Option<nat>)
    ensures r.Some? ==> i <= r.value && r.value + |p| <= |source|
    decreases |source| - i
  {
    if i > |source| then None
    else if p <= source[i..] then Some(i)
    else IndexOf(source, p, i + 1)
  }

  /** `readMultilineStringLiteral`, for any decoding of what is between the triple quotes. */
  function MultilineLiteral(decode: string -> string, source: string, at: nat): (r: Option<Literal>)
    ensures r.Some? ==> at + 1 < r.value.end <= |source|
  {
    if !StartsAt(source, at, "\"\"\"") then None
    else
      match IndexOf(source, "\"\"\"", at + 3)
      case None => None
      case Some(close) => Some(Literal(close + 3, decode(source[at + 3..close])))
  }

  /** What a reader depends on: the surface, and the decoding of multi-line literals. */
  datatype Reader = Reader(surface: Surface, decode: string -> string)

  /** `readNativeStringLiteral`. */
  function NativeLiteral(reader: Reader, source: string, at: nat): (r: Option<Literal>)
    ensures r.Some? ==> at + 1 < r.value.end <= |source|
  {
    var multiline := MultilineLiteral(reader.decode, source, at);
    if multiline.Some? then multiline
    else if reader.surface.Apple? then SwiftLiteral(source, at) else KotlinLiteral(source, at)
  }

  function SkipSpaces(source: string, i: nat): (j: nat)
    requires i <= |source|
    ensures i <= j <= |source| && (j < |source| ==> !IsSpace(source[j]))
    ensures forall k :: i <= k < j ==> IsSpace(source[k])
    decreases |source| - i
  {
    if i < |source| && IsSpace(source[i]) then SkipSpaces(source, i + 1) else i
  }

  /** The offset behind a separator, the pattern `^\s*\+\s*` at `i`; None without a plus sign. */
  function SkipPlus(source: string, i: nat): (j: Option<nat>)
    requires i <= |source|
    ensures j.Some? ==> i < j.value <= |source|
  {
    var plus := SkipSpaces(source, i);
    if plus < |source| && source[plus] == '+' then Some(SkipSpaces(source, plus + 1)) else None
  }

  datatype Chain = Chain(end: nat, fragments: nat, value: string)

  /** The chain whose first part, of `fragments` literals with value `value`, ends at `cursor`. */
  function ChainFrom(reader: Reader, source: string, cursor: nat, fragments: nat,
                     value: string): (r: Option<Chain>)
    requires cursor <= |source|
    ensures r.Some? ==> cursor <= r.value.end <= |source|
    decreases |source| - cursor
  {
    match SkipPlus(source, cursor)
    case None => Some(Chain(cursor, fragments, value))
    case Some(at) =>
      match NativeLiteral(reader, source, at)
      case None => None
      case Some(next) => ChainFrom(reader, source, next.end, fragments + 1, value + next.value)
  }

  function AdjacentLiterals(reader: Reader, source: string, at: nat): Option<Chain> {
    match NativeLiteral(reader, source, at)
    case None => None
    case Some(first) => ChainFrom(reader, source, first.end, 1, first.value)
  }

  /** `readAdjacentStringLiterals`. */
  method ReadAdjacentStringLiterals(reader: Reader, source: string, openingQuote: nat)
    returns (r: Option<Chain>)
    ensures r == AdjacentLiterals(reader, source, openingQuote)
  {
    var first := NativeLiteral(reader, source, openingQuote);
    if first.None? {
      return None;
    }
    hide NativeLiteral, SkipPlus;
    var values := [first.value.value];
    var cursor := first.value.end;
    assert values[1..] == [] && values[0] + [] == values[0];
    while true
      invariant cursor <= |source|
      invariant AdjacentLiterals(reader, source, openingQuote)
             == ChainFrom(reader, source, cursor, |values|, Flatten(values))
      decreases |source| - cursor
    {
      var separator := SkipPlus(source, cursor);
      if separator.None? {
        return Some(Chain(cursor, |values|, Flatten(values)));
      }
      var next := NativeLiteral(reader, source, separator.value);
      if next.None? {
        return None;
      }
      FlattenSnoc(values, next.value.value);
      values := values + [next.value.value];
      cursor := next.value.end;
    }
  }

  predicate AllSpaces(s: string) { forall c <- s :: IsSpace(c) }

  /** A text spelled as a literal of the surface. */
  function Spelled(surface: Surface, s: string): string {
    "\"" + (if surface.Apple? then SwiftBlocks(s) else EscapeKotlin(s)) + "\""
  }

  /** Printed literals joined by plus signs, each with any white space around it. */
  function PrintedChain(surface: Surface, texts: seq<string>, gaps: seq<(string, string)>): string
    requires texts != [] && |gaps| == |texts| - 1
  {
    if |texts| == 1 then Spelled(surface, texts[0])
    else Spelled(surface, texts[0]) + (gaps[0].0 + "+" + gaps[0].1 + PrintedChain(surface, texts[1..], gaps[1..]))
  }

  lemma {:induction false} SkipSpacesOver(source: string, i: nat, gap: string)
    requires AllSpaces(gap) && At(source, i, gap)
    requires i + |gap| == |source| || !IsSpace(source[i + |gap|])
    ensures SkipSpaces(source, i) == i + |gap|
    decreases |gap|
  {
  }

  lemma SkipPlusOver(source: string, i: nat, gap: (string, string))
    requires AllSpaces(gap.0) && AllSpaces(gap.1) && At(source, i, gap.0 + "+" + gap.1 + "\"")
    ensures SkipPlus(source, i) == Some(i + |gap.0| + 1 + |gap.1|)
  {
    AtConcat(source, i, gap.0 + "+" + gap.1, "\"");
    AtConcat(source, i, gap.0 + "+", gap.1);
    AtConcat(source, i, gap.0, "+");
    var plus := i + |gap.0|;
    assert source[plus] == source[plus..plus + 1][0] == '+';
    var quote := plus + 1 + |gap.1|;
    assert source[quote] == source[quote..quote + 1][0] == '"';
    SkipSpacesOver(source, i, gap.0);
    SkipSpacesOver(source, plus + 1, gap.1);
  }

  /** A printed non-empty text is never mistaken for a multi-line literal. */
  lemma NativeOfSpelled(reader: Reader, source: string, at: nat, s: string)
    requires s != "" && At(source, at, Spelled(reader.surface, s))
    ensures NativeLiteral(reader, source, at) == Some(Literal(at + |Spelled(reader.surface, s)|, s))
  {
    if reader.surface.Apple? {
      SwiftLiteralRoundTrip(source, at, s);
    } else {
      LiteralRoundTrip(source, at, s);
    }
  }

  lemma PrintedChainStarts(surface: Surface, texts: seq<string>, gaps: seq<(string, string)>)
    requires texts != [] && |gaps| == |texts| - 1
    ensures PrintedChain(surface, texts, gaps) != "" && PrintedChain(surface, texts, gaps)[0] == '"'
  {
  }

  /** Non-empty texts, with white space before and after every plus sign. */
  predicate Chainable(texts: seq<string>, gaps: seq<(string, string)>) {
    && texts != [] && |gaps| == |texts| - 1
    && (forall k :: 0 <= k < |texts| ==> texts[k] != "")
    && (forall k :: 0 <= k < |gaps| ==> AllSpaces(gaps[k].0) && AllSpaces(gaps[k].1))
  }

  lemma ChainableTail(texts: seq<string>, gaps: seq<(string, string)>)
    requires Chainable(texts, gaps) && |texts| > 1
    ensures Chainable(texts[1..], gaps[1..]) && texts[1] != "" && AllSpaces(gaps[0].0) && AllSpaces(gaps[0].1)
  {
  }

  /** Where the pieces of a printed chain lie: behind the first literal, a separator leads to the rest. */
  lemma {:induction false} ChainLayout(surface: Surface, source: string, at: nat, texts: seq<string>,
                                       gaps: seq<(string, string)>)
    requires |texts| > 1 && |gaps| == |texts| - 1 && At(source, at, PrintedChain(surface, texts, gaps))
    requires AllSpaces(gaps[0].0) && AllSpaces(gaps[0].1)
    ensures var cursor := at + |Spelled(surface, texts[0])|;
            && At(source, at, Spelled(surface, texts[0])) && cursor <= |source|
            && SkipPlus(source, cursor).Some?
            && var next := SkipPlus(source, cursor).value;
               && At(source, next, PrintedChain(surface, texts[1..], gaps[1..]))
               && next + |PrintedChain(surface, texts[1..], gaps[1..])| == at + |PrintedChain(surface, texts, gaps)|
  {
    hide At, Spelled, SkipPlus, AllSpaces;
    var gap, rest := gaps[0], PrintedChain(surface, texts[1..], gaps[1..]);
    var sep, cursor := gap.0 + "+" + gap.1, at + |Spelled(surface, texts[0])|;
    AtConcat(source, at, Spelled(surface, texts[0]), sep + rest);
    AtFits(source, at, Spelled(surface, texts[0]));
    AtConcat(source, cursor, sep, rest);
    assert rest != "" && rest[0] == '"' by { PrintedChainStarts(surface, texts[1..], gaps[1..]); }
    QuoteFollows(source, cursor, sep, rest);
    SkipPlusOver(source, cursor, gap);
  }

  lemma {:induction false} FirstPrinted(surface: Surface, source: string, at: nat, texts: seq<string>,
                                        gaps: seq<(string, string)>)
    requires texts != [] && |gaps| == |texts| - 1 && At(source, at, PrintedChain(surface, texts, gaps))
    ensures At(source, at, Spelled(surface, texts[0]))
  {
    hide At, Spelled;
    if |texts| > 1 {
      AtConcat(source, at, Spelled(surface, texts[0]),
               gaps[0].0 + "+" + gaps[0].1 + PrintedChain(surface, texts[1..], gaps[1..]));
    }
  }

  /** From the end of the first literal on, the chain is read to its end. */
  lemma {:induction false} ChainRoundTripFrom(reader: Reader, source: string, at: nat, texts: seq<string>,
                                              gaps: seq<(string, string)>, fragments: nat, value: string)
    requires Chainable(texts, gaps) && At(source, at, PrintedChain(reader.surface, texts, gaps))
    ensures at + |Spelled(reader.surface, texts[0])| <= |source|
            && at + |PrintedChain(reader.surface, texts, gaps)| <= |source|
    ensures ChainFrom(reader, source, at + |Spelled(reader.surface, texts[0])|, fragments + 1, value + texts[0])
         == ChainFrom(reader, source, at + |PrintedChain(reader.surface, texts, gaps)|, fragments + |texts|,
             value + Flatten(texts))
    decreases |texts|
  {
    hide At, Spelled, NativeLiteral, SkipPlus, AllSpaces, ChainFrom, Flatten;
    AtFits(source, at, PrintedChain(reader.surface, texts, gaps));
    FirstPrinted(reader.surface, source, at, texts, gaps);
    AtFits(source, at, Spelled(reader.surface, texts[0]));
    ValueStep(value, texts);
    if |texts| == 1 {
      NoValue(value + texts[0]);
      assert texts[1..] == [];
    } else {
      ChainableTail(texts, gaps);
      ChainLayout(reader.surface, source, at, texts, gaps);
      hide PrintedChain;
      var cursor := at + |Spelled(reader.surface, texts[0])|;
      var next := SkipPlus(source, cursor).value;
      var rest := texts[1..];
      assert rest[0] == texts[1];
      FirstPrinted(reader.surface, source, next, rest, gaps[1..]);
      NativeOfSpelled(reader, source, next, rest[0]);
      ChainStep(reader, source, cursor, fragments + 1, value + texts[0]);
      ChainRoundTripFrom(reader, source, next, rest, gaps[1..], fragments + 1, value + texts[0]);
    }
  }

  lemma NoValue(value: string)
    ensures value + Flatten<char>([]) == value
  {
  }

  lemma ValueStep(value: string, texts: seq<string>)
    requires texts != []
    ensures value + texts[0] + Flatten(texts[1..]) == value + Flatten(texts)
  {
  }

  lemma ChainStep(reader: Reader, source: string, cursor: nat, fragments: nat, value: string)
    requires cursor <= |source| && SkipPlus(source, cursor).Some?
    requires NativeLiteral(reader, source, SkipPlus(source, cursor).value).Some?
    ensures var next := NativeLiteral(reader, source, SkipPlus(source, cursor).value).value;
            ChainFrom(reader, source, cursor, fragments, value)
            == ChainFrom(reader, source, next.end, fragments + 1, value + next.value)
  {
  }

  lemma QuoteFollows(source: string, i: nat, sep: string, rest: string)
    requires At(source, i, sep) && At(source, i + |sep|, rest) && rest != "" && rest[0] == '"'
    ensures At(source, i, sep + "\"")
  {
  }

  /** A chain of printed non-empty literals, embedded anywhere, reads back as the concatenation of their texts with the
      right fragment count and end, exactly when no further plus sign follows. */
  lemma ChainRoundTrip(reader: Reader, source: string, at: nat, texts: seq<string>,
                       gaps: seq<(string, string)>)
    requires Chainable(texts, gaps) && At(source, at, PrintedChain(reader.surface, texts, gaps))
    ensures var end := at + |PrintedChain(reader.surface, texts, gaps)|;
            AdjacentLiterals(reader, source, at) == Some(Chain(end, |texts|, Flatten(texts)))
            <==> SkipPlus(source, end).None?
  {
    hide At, Spelled, NativeLiteral, SkipPlus, PrintedChain, ChainFrom, Flatten;
    ChainRoundTripFrom(reader, source, at, texts, gaps, 0, "");
    assert texts[0] in texts;
    FirstPrinted(reader.surface, source, at, texts, gaps);
    NativeOfSpelled(reader, source, at, texts[0]);
    assert "" + texts[0] == texts[0] && "" + Flatten(texts) == Flatten(texts);
    AtFits(source, at, PrintedChain(reader.surface, texts, gaps));
    ChainStops(reader, source, at + |PrintedChain(reader.surface, texts, gaps)|, |texts|, Flatten(texts));
  }

  lemma ChainStops(reader: Reader, source: string, cursor: nat, fragments: nat, value: string)
    requires cursor <= |source|
    ensures ChainFrom(reader, source, cursor, fragments, value) == Some(Chain(cursor, fragments, value))
            <==> SkipPlus(source, cursor).None?
  {
  }
}
