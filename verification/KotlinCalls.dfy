/** How `findClosingDelimiter` (scripts/android-app-i18n.ts), the literal printer, the literal reader and the splitter
    work together: a printed call is read back exactly. */
module KotlinCalls {
  import opened AndroidEscapes
  import opened ClosingDelimiter
  import opened KotlinLiterals
  import opened Literals
  import opened Text
  import opened TopLevelCommas
  import Segments = KotlinSegments

  // ---------- printed literals ----------

  /** Inside a literal, what the printer emits for a text leaves the depth scan inside the literal. */
  lemma {:induction false} BlocksStayQuoted(d: Delimiters, depth: int, s: string, rest: string)
    ensures Through(d, Depth(depth, true, false), KotlinBlocks(s) + rest) == Through(d, Depth(depth, true, false), rest)
  {
    if s == "" {
      assert KotlinBlocks(s) + rest == rest;
    } else {
      var block, more := KotlinBlock(s[0]), KotlinBlocks(s[1..]) + rest;
      assert KotlinBlocks(s) + rest == block + more;
      BlocksStayQuoted(d, depth, s[1..], rest);
      BlockStaysQuoted(d, depth, s[0]);
      ThroughConcat(d, Depth(depth, true, false), block, more);
    }
  }

  lemma BlockStaysQuoted(d: Delimiters, depth: int, c: char)
    ensures Through(d, Depth(depth, true, false), KotlinBlock(c)) == Some(Depth(depth, true, false))
  {
    var block, quoted := KotlinBlock(c), Depth(depth, true, false);
    if |block| == 1 {
      assert block[1..] == "";
    } else {
      assert block == ['\\', block[1]] && block[1..] == [block[1]] && block[1..][1..] == "";
      assert Through(d, quoted.(escaped := true), block[1..]) == Through(d, quoted, "");
    }
  }

  /** A printed literal is balanced, whatever delimiters, commas or quotes its text holds. */
  lemma PrintedIsBalanced(d: Delimiters, s: string)
    requires d.Valid()
    ensures Balanced(d, Printed(s))
  {
    EscapeKotlinIsOnePass(s);
    var tail := KotlinBlocks(s) + "\"";
    assert Printed(s) == "\"" + tail && Printed(s)[1..] == tail;
    BlocksStayQuoted(d, 1, s, "\"");
    assert "\""[1..] == "";
    assert Through(d, ONE_OPEN, "\"") == Some(Depth(1, true, false));
    assert Through(d, Depth(1, true, false), "\"") == Some(ONE_OPEN);
  }

  /** The same for the splitter's scan: a printed literal is a closed argument. */
  lemma PrintedIsClosedArgument(track: bool, s: string)
    ensures ClosedArg(Segments.Kotlin(track), Printed(s))
  {
    var m := Segments.Kotlin(track);
    var quoted := Segments.START.(quoted := true);
    EscapeKotlinIsOnePass(s);
    var tail := KotlinBlocks(s) + "\"";
    assert Printed(s) == "\"" + tail && Printed(s)[1..] == tail;
    RunBlocks(track, s, "\"");
    assert "\""[1..] == "";
    assert Run(m, quoted, "\"") == Some(Segments.START);
  }

  lemma RunBlock(track: bool, c: char, more: string)
    ensures var m, quoted := Segments.Kotlin(track), Segments.START.(quoted := true);
            Run(m, quoted, KotlinBlock(c) + more) == Run(m, quoted, more)
  {
  }

  lemma {:induction false} RunBlocks(track: bool, s: string, rest: string)
    ensures var m, quoted := Segments.Kotlin(track), Segments.START.(quoted := true);
            Run(m, quoted, KotlinBlocks(s) + rest) == Run(m, quoted, rest)
  {
    hide Run, Segments.Kotlin, KotlinBlock;
    var m, quoted := Segments.Kotlin(track), Segments.START.(quoted := true);
    if s == "" {
      assert KotlinBlocks(s) + rest == rest;
    } else {
      var block, more := KotlinBlock(s[0]), KotlinBlocks(s[1..]) + rest;
      assert KotlinBlocks(s) + rest == block + more;
      RunBlock(track, s[0], more);
      RunBlocks(track, s[1..], rest);
    }
  }

  // ---------- a printed call is read back ----------

  function AllPrinted(texts: seq<string>): (args: seq<string>)
    ensures |args| == |texts| && forall k :: 0 <= k < |args| ==> args[k] == Printed(texts[k])
  {
    seq(|texts|, k requires 0 <= k < |texts| => Printed(texts[k]))
  }

  /** A call with a list of printed literals, embedded anywhere. */
  function PrintedCall(before: string, texts: seq<string>, after: string): string
    requires texts != []
  {
    before + "(" + Join(AllPrinted(texts), ',') + ")" + after
  }

  /** For any texts: the closing parenthesis is found, the splitter cuts the arguments exactly between the literals, and
      reading each argument where it starts gives its text and ends where the argument ends. */
  lemma PrintedCallRoundTrip(track: bool, before: string, texts: seq<string>, after: string)
    requires texts != []
    ensures var source, open := PrintedCall(before, texts, after), |before|;
            var close := open + 1 + |Join(AllPrinted(texts), ',')|;
            && close < |source|
            && ClosingFrom(PARENS, source, open, OUTSIDE) == Some(close)
            && var arguments := Segments.SegmentsFrom(track, source, open + 1, close, Segments.START, open + 1);
               && |arguments| == |texts|
               && forall k :: 0 <= k < |texts| ==>
                    KotlinLiteral(source, arguments[k].start) == Some(Literal(arguments[k].end, texts[k]))
  {
    hide Segments.SegmentsFrom, ClosingFrom, Balanced, Printed, Join, KotlinLiteral, Segments.Adjacent;
    var source, open, inner := PrintedCall(before, texts, after), |before|, Join(AllPrinted(texts), ',');
    var close := open + 1 + |inner|;
    assert source[open] == '(' && source[close] == ')' && source[open + 1..close] == inner;
    forall k | 0 <= k < |texts|
      ensures Balanced(PARENS, AllPrinted(texts)[k]) && ClosedArg(Segments.Kotlin(track), AllPrinted(texts)[k])
    {
      PrintedIsBalanced(PARENS, texts[k]);
      PrintedIsClosedArgument(track, texts[k]);
    }
    JoinIsBalanced(PARENS, AllPrinted(texts));
    ClosingEndsBalanced(PARENS, source, open, close);
    Segments.SegmentsOfJoinedArguments(track, source, open + 1, close, AllPrinted(texts));
    var arguments := Segments.SegmentsFrom(track, source, open + 1, close, Segments.START, open + 1);
    forall k | 0 <= k < |texts|
      ensures KotlinLiteral(source, arguments[k].start) == Some(Literal(arguments[k].end, texts[k]))
    {
      ArgumentReadsBack(track, source, open + 1, close, texts, k);
    }
  }

  lemma ArgumentReadsBack(track: bool, source: string, start: nat, end: nat, texts: seq<string>, k: nat)
    requires start <= end < |source| && source[end] == ')' && k < |texts|
    requires Segments.Values(Segments.SegmentsFrom(track, source, start, end, Segments.START, start))
             == AllPrinted(texts)
    ensures var argument := Segments.SegmentsFrom(track, source, start, end, Segments.START, start)[k];
            KotlinLiteral(source, argument.start) == Some(Literal(argument.end, texts[k]))
  {
    hide *;
    var arguments := Segments.SegmentsFrom(track, source, start, end, Segments.START, start);
    Segments.SegmentsCutAtTopLevelCommas(track, source, start, end);
    assert arguments[k].value == AllPrinted(texts)[k] == Printed(texts[k]);
    ArgumentEnds(track, source, start, end, arguments, k);
    PrintedReadsBack(source, arguments[k].start, arguments[k].end, texts[k]);
  }

  /** Behind an argument stands a comma or the closing parenthesis. */
  lemma ArgumentEnds(track: bool, source: string, start: nat, end: nat, arguments: seq<Segments.Segment>, k: nat)
    requires start <= end < |source| && source[end] == ')' && k < |arguments|
    requires Segments.Adjacent(source, start, end, arguments)
    requires forall k | start <= k < end ::
               Segments.IsBoundary(arguments, k) ==>
                 TopLevelComma(Segments.Kotlin(track), source[start..end], k - start)
    ensures arguments[k].start <= arguments[k].end < |source|
    ensures source[arguments[k].start..arguments[k].end] == arguments[k].value && source[arguments[k].end] != '"'
  {
    hide Segments.Kotlin, StateAt;
    var e := arguments[k].end;
    if k < |arguments| - 1 {
      assert Segments.IsBoundary(arguments, e);
      assert arguments[k + 1].start == e + 1;
      assert TopLevelComma(Segments.Kotlin(track), source[start..end], e - start);
    }
  }

  lemma PrintedReadsBack(source: string, start: nat, end: nat, text: string)
    requires start <= end < |source| && source[start..end] == Printed(text) && source[end] != '"'
    ensures KotlinLiteral(source, start) == Some(Literal(end, text))
  {
    hide KotlinLiteral, EscapeKotlin;
    assert At(source, start, "\"" + EscapeKotlin(text) + "\"");
    LiteralRoundTrip(source, start, text);
  }
}
