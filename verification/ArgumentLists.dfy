/** The quote-aware scanners of scripts/check-temp-path-guardrails.ts: finding a call's closing parenthesis and
    cutting its argument list at top-level commas. */
module ArgumentLists {
  import opened Text
  import opened TopLevelCommas

  /** A quote scan as a value: outside of quotes, or inside one, with the next character escaped or not. */
  datatype Quote = Outside | Inside(quote: char, escaped: bool)

  predicate IsQuote(c: char) { c == '\'' || c == '"' || c == '`' }

  function NextQuote(q: Quote, c: char): Quote {
    match q
    case Outside => if IsQuote(c) then Inside(c, false) else Outside
    case Inside(quote, escaped) =>
      if escaped then Inside(quote, false)
      else if c == '\\' then Inside(quote, true)
      else if c == quote then Outside
      else q
  }

  /** `QuoteScanState`. */
  class QuoteScanState {
    var quote: Option<char>
    var escaped: bool

    ghost predicate Valid()
      reads this
    {
      escaped ==> quote.Some?
    }

    ghost function View(): Quote
      reads this
    {
      if quote.None? then Outside else Inside(quote.value, escaped)
    }

    constructor ()
      ensures Valid() && View() == Outside
    {
      quote := None;
      escaped := false;
    }

    /** `beginQuotedSection`: a quote character opens a section of its kind, wherever it is called. A character still
        waiting for its escape inside an open section keeps waiting. */
    method BeginQuotedSection(c: char) returns (began: bool)
      requires Valid()
      modifies this
      ensures Valid() && began == IsQuote(c)
      ensures View() == if began then Inside(c, old(escaped)) else old(View())
      ensures old(View()).Outside? ==> View() == NextQuote(Outside, c)
    {
      if c != '\'' && c != '"' && c != '`' {
        return false;
      }
      quote := Some(c);
      return true;
    }

    /** `consumeQuotedChar`. */
    method ConsumeQuotedChar(c: char) returns (consumed: bool)
      requires Valid()
      modifies this
      ensures Valid() && consumed == old(View()).Inside?
      ensures View() == if consumed then NextQuote(old(View()), c) else Outside
    {
      if quote.None? {
        return false;
      }
      if escaped {
        escaped := false;
        return true;
      }
      if c == '\\' {
        escaped := true;
        return true;
      }
      if c == quote.value {
        quote := None;
      }
      return true;
    }
  }

  /** Depth of open parentheses after `c`; quoted ones do not count. */
  function NextDepth(q: Quote, depth: nat, c: char): nat {
    if q.Inside? then depth
    else if c == '(' then depth + 1
    else if c == ')' && depth > 0 then depth - 1
    else depth
  }

  /** The offset of the parenthesis that closes the one open at the start of the scan. */
  function MatchingFrom(source: string, i: nat, q: Quote, depth: nat): (r: Option<nat>)
    requires i <= |source| && depth > 0
    ensures r.Some? ==> i <= r.value < |source| && source[r.value] == ')'
    decreases |source| - i
  {
    if i == |source| then None
    else
      var after := NextDepth(q, depth, source[i]);
      if after == 0 then Some(i) else MatchingFrom(source, i + 1, NextQuote(q, source[i]), after)
  }

  /** `findMatchingParen`; None for the source's -1. */
  method FindMatchingParen(source: string, openIndex: nat) returns (r: Option<nat>)
    ensures r == if openIndex < |source| then MatchingFrom(source, openIndex + 1, Outside, 1) else None
  {
    if openIndex >= |source| {
      return None;
    }
    var depth: nat := 1;
    var quoteState := new QuoteScanState();
    var i := openIndex + 1;
    while i < |source|
      invariant openIndex < i <= |source| && depth > 0 && quoteState.Valid() && fresh(quoteState)
      invariant MatchingFrom(source, i, quoteState.View(), depth) == MatchingFrom(source, openIndex + 1, Outside, 1)
    {
      var c := source[i];
      var consumed := quoteState.ConsumeQuotedChar(c);
      if consumed {
        i := i + 1;
        continue;
      }
      var began := quoteState.BeginQuotedSection(c);
      if began {
        i := i + 1;
        continue;
      }
      if c == '(' {
        depth := depth + 1;
      } else if c == ')' {
        depth := depth - 1;
        if depth == 0 {
          return Some(i);
        }
      }
      i := i + 1;
    }
    return None;
  }

  datatype State = State(quote: Quote, paren: nat, bracket: nat, brace: nat)

  const START := State(Outside, 0, 0, 0)

  /** Closers without an opener are ignored. */
  function Down(depth: nat): nat { if depth > 0 then depth - 1 else 0 }

  function Next(st: State, c: char): State {
    if st.quote.Inside? || IsQuote(c) then st.(quote := NextQuote(st.quote, c))
    else if c == '(' then st.(paren := st.paren + 1)
    else if c == ')' then st.(paren := Down(st.paren))
    else if c == '[' then st.(bracket := st.bracket + 1)
    else if c == ']' then st.(bracket := Down(st.bracket))
    else if c == '{' then st.(brace := st.brace + 1)
    else if c == '}' then st.(brace := Down(st.brace))
    else st
  }

  const ARGUMENTS: Scanner<State> := Scanner(START, (st, c) => Next(st, c), st => st == START)

  function Trimmed(pieces: seq<string>): (r: seq<string>)
    ensures |r| == |pieces| && forall k :: 0 <= k < |r| ==> r[k] == Trim(pieces[k])
  {
    seq(|pieces|, k requires 0 <= k < |pieces| => Trim(pieces[k]))
  }

  /** The list without a blank last argument. */
  function DropBlankLast(args: seq<string>): seq<string> {
    if args != [] && args[|args| - 1] == "" then args[..|args| - 1] else args
  }

  lemma TrimmedCons(pieces: seq<string>)
    requires |pieces| > 1
    ensures DropBlankLast(Trimmed(pieces)) == [Trim(pieces[0])] + DropBlankLast(Trimmed(pieces[1..]))
  {
    assert Trimmed(pieces) == [Trim(pieces[0])] + Trimmed(pieces[1..]);
  }

  function Arguments(source: string): seq<string> { DropBlankLast(Trimmed(Pieces(ARGUMENTS, START, source))) }

  /** What is still to come, with `current` read since the last cut. */
  function Rest(current: string, st: State, text: string): seq<string> {
    DropBlankLast(Trimmed(Prefixed(current, Pieces(ARGUMENTS, st, text))))
  }

  lemma RestStarts(source: string)
    ensures Rest("", START, source) == Arguments(source)
  {
    PrefixedTwice("", "", Pieces(ARGUMENTS, START, source));
  }

  lemma RestReads(current: string, st: State, c: char, text: string)
    requires !Cuts(ARGUMENTS, st, c)
    ensures Rest(current, st, [c] + text) == Rest(current + [c], Next(st, c), text)
  {
    assert ([c] + text)[1..] == text;
    PrefixedTwice(current, [c], Pieces(ARGUMENTS, Next(st, c), text));
  }

  lemma RestCuts(current: string, text: string)
    ensures Rest(current, START, "," + text) == [Trim(current)] + Rest("", START, text)
  {
    var rest := Pieces(ARGUMENTS, START, text);
    assert ("," + text)[1..] == text && current + "" == current;
    assert ([""] + rest)[1..] == rest;
    assert Prefixed(current, [""] + rest) == [current] + rest;
    assert ([current] + rest)[1..] == rest;
    TrimmedCons([current] + rest);
    PrefixedTwice("", "", rest);
  }

  lemma RestEnds(current: string, st: State)
    ensures Rest(current, st, "") == if Trim(current) == "" then [] else [Trim(current)]
  {
    assert current + "" == current;
  }

  /** `splitTopLevelArguments`: the pieces between top-level commas, trimmed, without a blank last one. */
  method SplitTopLevelArguments(source: string) returns (out: seq<string>)
    ensures out == Arguments(source)
  {
    hide Rest, Trim, Arguments;
    out := [];
    var current := "";
    var paren: nat, bracket: nat, brace: nat := 0, 0, 0;
    var quoteState := new QuoteScanState();
    RestStarts(source);
    assert source[0..] == source;
    for i := 0 to |source|
      invariant quoteState.Valid() && fresh(quoteState)
      invariant out + Rest(current, State(quoteState.View(), paren, bracket, brace), source[i..]) == Arguments(source)
    {
      var c := source[i];
      assert source[i..] == [c] + source[i + 1..];
      ghost var st := State(quoteState.View(), paren, bracket, brace);
      if !Cuts(ARGUMENTS, st, c) {
        RestReads(current, st, c, source[i + 1..]);
      }
      if quoteState.quote.Some? {
        current := current + [c];
        var _ := quoteState.ConsumeQuotedChar(c);
        continue;
      }
      var began := quoteState.BeginQuotedSection(c);
      if began {
        current := current + [c];
        continue;
      }
      if c == ',' && paren == 0 && bracket == 0 && brace == 0 {
        RestCuts(current, source[i + 1..]);
        out := out + [Trim(current)];
        current := "";
        continue;
      }
      if c == '(' {
        paren := paren + 1;
      } else if c == ')' {
        paren := if paren > 0 then paren - 1 else paren;
      } else if c == '[' {
        bracket := bracket + 1;
      } else if c == ']' {
        bracket := if bracket > 0 then bracket - 1 else bracket;
      } else if c == '{' {
        brace := brace + 1;
      } else if c == '}' {
        brace := if brace > 0 then brace - 1 else brace;
      }
      current := current + [c];
    }
    assert source[|source|..] == "";
    RestEnds(current, State(quoteState.View(), paren, bracket, brace));
    if Trim(current) != "" {
      out := out + [Trim(current)];
    }
  }

  // ---------- joining and splitting ----------

  function Commas(s: string): nat { if s == "" then 0 else (if s[0] == ',' then 1 else 0) + Commas(s[1..]) }

  lemma {:induction false} CommasConcat(a: string, b: string)
    ensures Commas(a + b) == Commas(a) + Commas(b)
  {
    if a == "" {
      assert a + b == b;
    } else {
      assert (a + b)[1..] == a[1..] + b;
      CommasConcat(a[1..], b);
    }
  }

  /** Trimming takes no comma away. */
  lemma TrimKeepsCommas(s: string)
    ensures Commas(Trim(s)) == Commas(s)
  {
    TrimStartKeepsCommas(s);
    TrimEndKeepsCommas(TrimStart(s));
  }

  lemma {:induction false} TrimStartKeepsCommas(s: string)
    ensures Commas(TrimStart(s)) == Commas(s)
  {
    if s != "" && IsSpace(s[0]) {
      TrimStartKeepsCommas(s[1..]);
    }
  }

  lemma {:induction false} TrimEndKeepsCommas(s: string)
    ensures Commas(TrimEnd(s)) == Commas(s)
  {
    if s != "" && IsSpace(s[|s| - 1]) {
      var before, last := s[..|s| - 1], s[|s| - 1];
      TrimEndKeepsCommas(before);
      CommasConcat(before, [last]);
      assert s == before + [last] && Commas([last]) == 0 + Commas("");
    }
  }

  /** All commas inside of the parts. */
  function CommasInside(parts: seq<string>): nat {
    if parts == [] then 0 else Commas(parts[0]) + CommasInside(parts[1..])
  }

  lemma {:induction false} CommasOfJoin(parts: seq<string>)
    requires parts != []
    ensures Commas(Join(parts, ',')) == |parts| - 1 + CommasInside(parts)
  {
    if |parts| > 1 {
      CommasOfJoin(parts[1..]);
      CommasConcat(parts[0], "," + Join(parts[1..], ','));
      assert parts[0] + [','] + Join(parts[1..], ',') == parts[0] + ("," + Join(parts[1..], ','));
    }
  }

  lemma {:induction false} CommasOfTrimmed(parts: seq<string>)
    ensures CommasInside(DropBlankLast(Trimmed(parts))) == CommasInside(parts)
  {
    hide Trim;
    if |parts| > 1 {
      CommasOfTrimmed(parts[1..]);
      TrimmedCons(parts);
      TrimKeepsCommas(parts[0]);
      var rest := DropBlankLast(Trimmed(parts[1..]));
      assert ([Trim(parts[0])] + rest)[1..] == rest;
    } else if |parts| == 1 {
      TrimKeepsCommas(parts[0]);
      assert Trimmed(parts) == [Trim(parts[0])] && parts == [parts[0]] && parts[1..] == [];
      assert [Trim(parts[0])][1..] == [];
    }
  }

  /** Two ways to cut one text at commas that agree up to trimming are the same. */
  lemma {:induction false} TrimmedCutsAreEqual(p: seq<string>, q: seq<string>)
    requires p != [] && q != [] && Join(p, ',') == Join(q, ',') && Trimmed(p) == Trimmed(q)
    ensures p == q
  {
    assert |p| == |Trimmed(p)| == |q|;
    if |p| > 1 {
      assert Trimmed(p)[0] == Trim(p[0]) == Trim(q[0]);
      var x, y := Join(p[1..], ','), Join(q[1..], ',');
      SameHead(p[0], x, q[0], y);
      hide Join;
      forall k | 0 <= k < |p| - 1 ensures Trimmed(p[1..])[k] == Trimmed(q[1..])[k] {
        assert Trimmed(p)[k + 1] == Trimmed(q)[k + 1];
      }
      TrimmedCutsAreEqual(p[1..], q[1..]);
      assert p == [p[0]] + p[1..] && q == [q[0]] + q[1..];
    } else {
      assert p == [p[0]] && q == [q[0]];
    }
  }

  lemma SameHead(a: string, x: string, b: string, y: string)
    requires a + [','] + x == b + [','] + y && Trim(a) == Trim(b)
    ensures a == b && x == y
  {
    TrimKeepsCommas(a);
    TrimKeepsCommas(b);
    hide Trim;
    if |a| < |b| {
      NoLongerHead(a, x, b, y);
    } else if |b| < |a| {
      NoLongerHead(b, y, a, x);
    }
    var s := a + [','] + x;
    assert a == s[..|a|] && b == s[..|b|] && x == s[|a| + 1..] && y == s[|b| + 1..];
  }

  /** A longer head holds the comma behind the shorter one. */
  lemma NoLongerHead(a: string, x: string, b: string, y: string)
    requires a + [','] + x == b + [','] + y && Commas(a) == Commas(b)
    ensures |a| >= |b|
  {
    if |a| < |b| {
      ShorterHead(a, x, b, y);
      var rest := b[|a|..];
      assert rest[0] == ',' && b == b[..|a|] + rest;
      CommasConcat(a, rest);
    }
  }

  lemma ShorterHead(a: string, x: string, b: string, y: string)
    requires a + [','] + x == b + [','] + y && |a| < |b|
    ensures b[..|a|] == a && b[|a|] == ','
  {
    var s := a + [','] + x;
    assert b == s[..|b|];
    assert s[..|a|] == a && s[|a|] == ',';
  }

  /** Splitting a comma-joined list gives the trimmed arguments back, without a blank last one, exactly when no argument
      has a top-level comma and all but the last are closed. */
  lemma SplitOfJoinedArguments(args: seq<string>)
    requires args != []
    ensures Arguments(Join(args, ','))
         == (if Blank(args[|args| - 1]) then Trimmed(args)[..|args| - 1] else Trimmed(args))
         <==> Separable(ARGUMENTS, args)
  {
    hide Trim, Join, Pieces, Separable;
    var pieces := Pieces(ARGUMENTS, START, Join(args, ','));
    SplitOfJoin(ARGUMENTS, args);
    PiecesJoin(ARGUMENTS, START, Join(args, ','));
    if DropBlankLast(Trimmed(pieces)) == DropBlankLast(Trimmed(args)) {
      CommasOfJoin(pieces);
      CommasOfJoin(args);
      CommasOfTrimmed(pieces);
      CommasOfTrimmed(args);
      SameTrimmed(pieces, args);
      TrimmedCutsAreEqual(pieces, args);
    }
  }

  lemma SameTrimmed(p: seq<string>, q: seq<string>)
    requires |p| == |q| && DropBlankLast(Trimmed(p)) == DropBlankLast(Trimmed(q))
    ensures Trimmed(p) == Trimmed(q)
  {
    hide Trim;
    var x, y := Trimmed(p), Trimmed(q);
    if p != [] {
      assert x == x[..|x| - 1] + [x[|x| - 1]] && y == y[..|y| - 1] + [y[|y| - 1]];
    }
  }

  /** Parentheses never close below the start, outside of quotes, and quotes and parentheses end closed. */
  function ParenRun(text: string, q: Quote, depth: nat): Option<(Quote, nat)> {
    if text == "" then Some((q, depth))
    else if q.Outside? && text[0] == ')' && depth == 0 then None
    else ParenRun(text[1..], NextQuote(q, text[0]), NextDepth(q, depth, text[0]))
  }

  predicate Balanced(text: string) { ParenRun(text, Outside, 0) == Some((Outside, 0)) }

  lemma {:induction false} MatchingSkips(source: string, i: nat, text: string, q: Quote, depth: nat)
    requires i + |text| <= |source| && source[i..i + |text|] == text
    requires ParenRun(text, q, depth).Some?
    ensures var (q2, d2) := ParenRun(text, q, depth).value;
            MatchingFrom(source, i, q, depth + 1) == MatchingFrom(source, i + |text|, q2, d2 + 1)
    decreases |text|
  {
    if text != "" {
      assert source[i] == text[0];
      assert source[i + 1..i + 1 + |text[1..]|] == text[1..];
      MatchingSkips(source, i + 1, text[1..], NextQuote(q, text[0]), NextDepth(q, depth, text[0]));
    }
  }

  /** A call's parenthesized text, embedded in a source. */
  function Call(before: string, inner: string, after: string): string { before + "(" + inner + ")" + after }

  lemma CallParts(before: string, inner: string, after: string)
    ensures var source, i := Call(before, inner, after), |before| + 1;
            i + |inner| < |source| && source[i..i + |inner|] == inner && source[i + |inner|] == ')'
  {
  }

  /** The scanner finds the call's own closing parenthesis: for a balanced argument text between `(` and `)`, wherever
      it is embedded. */
  lemma MatchingParenOfCall(before: string, inner: string, after: string)
    requires Balanced(inner)
    ensures |before| < |Call(before, inner, after)|
    ensures MatchingFrom(Call(before, inner, after), |before| + 1, Outside, 1) == Some(|before| + 1 + |inner|)
  {
    CallParts(before, inner, after);
    hide Call;
    MatchingSkips(Call(before, inner, after), |before| + 1, inner, Outside, 0);
  }

  lemma {:induction false} ParenRunConcat(a: string, b: string, q: Quote, depth: nat)
    ensures ParenRun(a + b, q, depth) ==
            match ParenRun(a, q, depth) case None => None case Some((q2, d2)) => ParenRun(b, q2, d2)
  {
    if a == "" {
      assert a + b == b;
    } else {
      assert (a + b)[1..] == a[1..] + b;
      ParenRunConcat(a[1..], b, NextQuote(q, a[0]), NextDepth(q, depth, a[0]));
    }
  }

  lemma {:induction false} JoinBalanced(args: seq<string>)
    requires args != [] && forall arg <- args :: Balanced(arg)
    ensures Balanced(Join(args, ','))
  {
    assert args[0] in args;
    if |args| > 1 {
      JoinBalanced(args[1..]);
      var rest := Join(args[1..], ',');
      assert args[0] + "," + rest == args[0] + ("," + rest);
      ParenRunConcat(args[0], "," + rest, Outside, 0);
      assert ("," + rest)[1..] == rest;
    }
  }

  /** A call written with any closed, balanced arguments is read back: the closing parenthesis is found, and the text
      up to it splits into the arguments. */
  lemma CallRoundTrip(before: string, args: seq<string>, after: string)
    requires args != [] && Separable(ARGUMENTS, args) && forall arg <- args :: Balanced(arg)
    ensures var source := Call(before, Join(args, ','), after);
            && |before| < |source|
            && var close := MatchingFrom(source, |before| + 1, Outside, 1);
               && close.Some?
               && Arguments(source[|before| + 1..close.value])
                  == if Blank(args[|args| - 1]) then Trimmed(args)[..|args| - 1] else Trimmed(args)
  {
    hide Arguments, Trimmed, MatchingFrom, Balanced, Join, Trim, Separable, Call;
    JoinBalanced(args);
    MatchingParenOfCall(before, Join(args, ','), after);
    CallParts(before, Join(args, ','), after);
    SplitOfJoinedArguments(args);
  }
}
