/** The four scans of the scripts that look for a closing bracket, each against the grammar of nested code. */
module BracketGrammar {
  import opened Nesting
  import opened QuotedText
  import opened Text
  import Arguments = ArgumentLists
  import Delimiter = ClosingDelimiter
  import Kotlin = KotlinLiterals

  const DOUBLE_QUOTE := {'"'}

  function DelimiterBrackets(d: Delimiter.Delimiters): Brackets { Brackets(d.opening, d.closing, DOUBLE_QUOTE) }

  /** Inside or outside of double quotes. */
  function DoubleQuoted(quoted: bool, escaped: bool): Quote { if quoted then Inside('"', escaped) else Outside }

  lemma {:induction false} ClosingFromIsClosing(d: Delimiter.Delimiters, source: string, i: nat, st: Delimiter.Depth)
    requires d.Valid() && i <= |source| && st.depth > 0 && (st.escaped ==> st.quoted)
    ensures Delimiter.ClosingFrom(d, source, i, st)
         == Closing(DelimiterBrackets(d), source, i, st.depth, DoubleQuoted(st.quoted, st.escaped))
    decreases |source| - i
  {
    if i < |source| && !Delimiter.Closes(d, st, source[i]) {
      ClosingFromIsClosing(d, source, i + 1, Delimiter.Deeper(d, st, source[i]));
    }
  }

  /** `findClosingDelimiter` from an opening delimiter finds exactly the closing one behind well-formed code. */
  lemma DelimiterIsGrammatical(d: Delimiter.Delimiters, source: string, at: nat, end: nat)
    requires d.Valid() && at < |source| && source[at] == d.opening
    ensures Delimiter.ClosingFrom(d, source, at, Delimiter.OUTSIDE) == Some(end) <==>
            ClosedAt(DelimiterBrackets(d), source, at + 1, end)
  {
    ClosingFromIsClosing(d, source, at + 1, Delimiter.ONE_OPEN);
    ClosingIsGrammatical(DelimiterBrackets(d), source, at + 1, end);
  }

  const KOTLIN_BRACES := Brackets('{', '}', DOUBLE_QUOTE)

  lemma {:induction false} ClosingBraceIsClosing(source: string, i: nat, st: Kotlin.BraceScan)
    requires i <= |source| && st.depth > 0 && (st.escaped ==> st.quoted)
    ensures Kotlin.ClosingBrace(source, i, st)
         == Closing(KOTLIN_BRACES, source, i, st.depth, DoubleQuoted(st.quoted, st.escaped))
    decreases |source| - i
  {
    if i < |source| {
      var next := Kotlin.BraceStep(st, source[i]);
      if next.depth > 0 {
        ClosingBraceIsClosing(source, i + 1, next);
      }
    }
  }

  /** The end of an interpolation in a Kotlin literal is exactly the brace behind well-formed code. */
  lemma KotlinInterpolationIsGrammatical(source: string, i: nat, end: nat)
    requires i <= |source|
    ensures Kotlin.ClosingBrace(source, i, Kotlin.OPENED) == Some(end) <==> ClosedAt(KOTLIN_BRACES, source, i, end)
  {
    ClosingBraceIsClosing(source, i, Kotlin.OPENED);
    ClosingIsGrammatical(KOTLIN_BRACES, source, i, end);
  }

  const SWIFT_PARENS := Brackets('(', ')', DOUBLE_QUOTE)

  /** The end of an interpolation in a Swift literal is exactly the parenthesis behind well-formed code. */
  lemma SwiftInterpolationIsGrammatical(source: string, i: nat, end: nat)
    requires i <= |source|
    ensures Delimiter.ClosingFrom(Delimiter.PARENS, source, i, Delimiter.ONE_OPEN) == Some(end) <==>
            ClosedAt(SWIFT_PARENS, source, i, end)
  {
    ClosingFromIsClosing(Delimiter.PARENS, source, i, Delimiter.ONE_OPEN);
    ClosingIsGrammatical(SWIFT_PARENS, source, i, end);
  }

  /** Single quotes, double quotes and backquotes. */
  const CALL_PARENS := Brackets('(', ')', {'\'', '"', '`'})

  function QuoteOf(q: Arguments.Quote): Quote {
    match q case Outside => Outside case Inside(quote, escaped) => Inside(quote, escaped)
  }

  lemma {:induction false} MatchingFromIsClosing(source: string, i: nat, q: Arguments.Quote, depth: nat)
    requires i <= |source| && depth > 0
    ensures Arguments.MatchingFrom(source, i, q, depth) == Closing(CALL_PARENS, source, i, depth, QuoteOf(q))
    decreases |source| - i
  {
    if i < |source| {
      var after := Arguments.NextDepth(q, depth, source[i]);
      assert after == Deeper(CALL_PARENS, QuoteOf(q), depth, source[i]);
      if after > 0 {
        MatchingFromIsClosing(source, i + 1, Arguments.NextQuote(q, source[i]), after);
      }
    }
  }

  /** `findMatchingParen` finds exactly the parenthesis behind well-formed code. */
  lemma MatchingParenIsGrammatical(source: string, i: nat, end: nat)
    requires i <= |source|
    ensures Arguments.MatchingFrom(source, i, Arguments.Outside, 1) == Some(end) <==>
            ClosedAt(CALL_PARENS, source, i, end)
  {
    MatchingFromIsClosing(source, i, Arguments.Outside, 1);
    ClosingIsGrammatical(CALL_PARENS, source, i, end);
  }
}
