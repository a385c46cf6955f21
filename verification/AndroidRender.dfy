/** Compiling a translation into an Android resource value (scripts/android-app-i18n.ts): the interpolation
    scanner, the renderer, and the proof that formatting the resource gives the translation back. */
module AndroidRender {
  import opened Text
  import opened AndroidEscapes

  predicate IsIdentStart(c: char) { 'A' <= c <= 'Z' || 'a' <= c <= 'z' || c == '_' }

  predicate IsIdentPart(c: char) { IsIdentStart(c) || IsDigit(c) }

  datatype Interpolation = Interpolation(start: nat, end: nat, value: string)

  /** `$name` or `${` starts at `i`. */
  predicate Opens(s: string, i: nat) {
    i + 1 < |s| && s[i] == '$' && (s[i + 1] == '{' || IsIdentStart(s[i + 1]))
  }

  function IdentEnd(s: string, i: nat): (e: nat)
    requires i <= |s|
    ensures i <= e <= |s|
    ensures forall k :: i <= k < e ==> IsIdentPart(s[k])
    ensures e < |s| ==> !IsIdentPart(s[e])
    decreases |s| - i
  {
    if i < |s| && IsIdentPart(s[i]) then IdentEnd(s, i + 1) else i
  }

  /** The state of the brace scan inside `${...}`. */
  datatype BraceScan = BraceScan(depth: nat, quote: Option<char>, escaped: bool)

  const BRACE_OPENED := BraceScan(1, None, false)

  function BraceStep(b: BraceScan, c: char): BraceScan
    requires b.depth > 0
  {
    if b.escaped then b.(escaped := false)
    else if b.quote.Some? && c == '\\' then b.(escaped := true)
    else if b.quote == Some(c) then b.(quote := None)
    else if b.quote.None? && (c == '"' || c == '\'') then b.(quote := Some(c))
    else if b.quote.None? && c == '{' then b.(depth := b.depth + 1)
    else if b.quote.None? && c == '}' then b.(depth := b.depth - 1)
    else b
  }

  /** The offset behind the brace that closes the interpolation whose scan is at `i`. */
  function BraceEnd(s: string, i: nat, b: BraceScan): (e: Option<nat>)
    requires i <= |s| && b.depth > 0
    ensures e.Some? ==> i < e.value <= |s| && s[e.value - 1] == '}'
    decreases |s| - i
  {
    if i == |s| then None
    else
      var next := BraceStep(b, s[i]);
      if next.depth == 0 then Some(i + 1) else BraceEnd(s, i + 1, next)
  }

  /** The offset behind the interpolation that opens at `i`; None when its braces never close. */
  function TokenEnd(s: string, i: nat): (e: Option<nat>)
    requires Opens(s, i)
    ensures e.Some? ==> i + 1 < e.value <= |s|
  {
    if s[i + 1] == '{' then BraceEnd(s, i + 2, BRACE_OPENED) else Some(IdentEnd(s, i + 2))
  }

  /** The interpolations of `s` from offset `i` on; None when one of them is unbalanced. */
  function Interpolations(s: string, i: nat): Option<seq<Interpolation>>
    requires i <= |s|
    decreases |s| - i
  {
    if i == |s| then Some([])
    else if Opens(s, i) then
      match TokenEnd(s, i)
      case None => None
      case Some(e) =>
        match Interpolations(s, e)
        case None => None
        case Some(rest) => Some([Interpolation(i, e, s[i..e])] + rest)
    else Interpolations(s, i + 1)
  }

  /** The interpolations already collected, followed by the ones still to be found. */
  function Prepend(done: seq<Interpolation>, rest: Option<seq<Interpolation>>): Option<seq<Interpolation>> {
    match rest case None => None case Some(more) => Some(done + more)
  }

  lemma InterpolationsStep(s: string, i: nat)
    requires i <= |s|
    ensures i == |s| ==> Interpolations(s, i) == Some([])
    ensures i < |s| && !Opens(s, i) ==> Interpolations(s, i) == Interpolations(s, i + 1)
    ensures i < |s| && Opens(s, i) && TokenEnd(s, i).None? ==> Interpolations(s, i) == None
  {
  }

  lemma PrependNothing(done: seq<Interpolation>, rest: Option<seq<Interpolation>>)
    ensures Prepend(done, None) == None
    ensures Prepend([], rest) == rest && Prepend(done, Some([])) == Some(done)
  {
    if rest.Some? {
      assert [] + rest.value == rest.value;
    }
    assert done + [] == done;
  }

  lemma PrependStep(s: string, i: nat, done: seq<Interpolation>)
    requires Opens(s, i) && TokenEnd(s, i).Some?
    ensures var e := TokenEnd(s, i).value;
            Prepend(done, Interpolations(s, i)) == Prepend(done + [Interpolation(i, e, s[i..e])], Interpolations(s, e))
  {
    var e := TokenEnd(s, i).value;
    if Interpolations(s, e).Some? {
      var more := Interpolations(s, e).value;
      assert done + ([Interpolation(i, e, s[i..e])] + more) == done + [Interpolation(i, e, s[i..e])] + more;
    }
  }

  /** `readKotlinInterpolations`. */
  method ReadKotlinInterpolations(source: string) returns (r: Option<seq<Interpolation>>)
    ensures r == Interpolations(source, 0)
  {
    var interpolations: seq<Interpolation> := [];
    var index := 0;
    PrependNothing([], Interpolations(source, 0));
    hide Interpolations, Prepend;
    while index < |source|
      invariant 0 <= index <= |source|
      invariant Interpolations(source, 0) == Prepend(interpolations, Interpolations(source, index))
    {
      InterpolationsStep(source, index);
      PrependNothing(interpolations, None);
      if source[index] != '$' {
        index := index + 1;
        continue;
      }
      if index + 1 == |source| || (source[index + 1] != '{' && !IsIdentStart(source[index + 1])) {
        index := index + 1;
        continue;
      }
      var start := index;
      if TokenEnd(source, start).Some? {
        PrependStep(source, start, interpolations);
      }
      if source[index + 1] != '{' {
        index := index + 2;
        while index < |source| && IsIdentPart(source[index])
          invariant start + 2 <= index <= |source|
          invariant IdentEnd(source, start + 2) == IdentEnd(source, index)
        {
          index := index + 1;
        }
        interpolations := interpolations + [Interpolation(start, index, source[start..index])];
        continue;
      }
      var depth, quote, escaped := 1, None, false;
      index := index + 2;
      while index < |source| && depth != 0
        invariant start + 2 <= index <= |source| && depth >= 0
        invariant BraceEnd(source, start + 2, BRACE_OPENED)
               == if depth == 0 then Some(index) else BraceEnd(source, index, BraceScan(depth, quote, escaped))
      {
        var character := source[index];
        if escaped {
          escaped := false;
        } else if quote != None && character == '\\' {
          escaped := true;
        } else if quote == Some(character) {
          quote := None;
        } else if quote == None && (character == '"' || character == '\'') {
          quote := Some(character);
        } else if quote == None && character == '{' {
          depth := depth + 1;
        } else if quote == None && character == '}' {
          depth := depth - 1;
        }
        index := index + 1;
      }
      if depth != 0 {
        return None;
      }
      interpolations := interpolations + [Interpolation(start, index, source[start..index])];
    }
    InterpolationsStep(source, index);
    PrependNothing(interpolations, None);
    return Some(interpolations);
  }

  /** Interpolations found from offset `from` on: in order, disjoint, inside the text, opened where they start. */
  ghost predicate Placed(s: string, from: nat, ints: seq<Interpolation>) {
    && (forall k :: 0 <= k < |ints| ==>
          && from <= ints[k].start < ints[k].end <= |s|
          && Opens(s, ints[k].start)
          && TokenEnd(s, ints[k].start) == Some(ints[k].end)
          && ints[k].value == s[ints[k].start..ints[k].end])
    && (forall k :: 0 < k < |ints| ==> ints[k - 1].end <= ints[k].start)
  }

  lemma {:induction false} InterpolationsPlaced(s: string, i: nat)
    requires i <= |s|
    ensures Interpolations(s, i).Some? ==> Placed(s, i, Interpolations(s, i).value)
    decreases |s| - i
  {
    if i < |s| {
      if !Opens(s, i) {
        InterpolationsPlaced(s, i + 1);
      } else if TokenEnd(s, i).Some? {
        var e := TokenEnd(s, i).value;
        InterpolationsPlaced(s, e);
        if Interpolations(s, e).Some? {
          PlacedCons(s, i, e, Interpolations(s, e).value);
        }
      }
    }
  }

  lemma PlacedCons(s: string, i: nat, e: nat, rest: seq<Interpolation>)
    requires i < |s| && Opens(s, i) && TokenEnd(s, i) == Some(e) && Placed(s, e, rest)
    ensures Placed(s, i, [Interpolation(i, e, s[i..e])] + rest)
  {
  }

  /** Nothing is missed: every place where an interpolation opens lies inside a reported one. */
  lemma {:induction false} InterpolationsComplete(s: string, i: nat, p: nat)
    requires i <= p && Opens(s, p) && Interpolations(s, i).Some?
    ensures exists k :: 0 <= k < |Interpolations(s, i).value|
                        && Interpolations(s, i).value[k].start <= p < Interpolations(s, i).value[k].end
    decreases |s| - i
  {
    var r := Interpolations(s, i).value;
    if Opens(s, i) {
      var e := TokenEnd(s, i).value;
      if p < e {
        assert r[0].start <= p < r[0].end;
      } else {
        InterpolationsComplete(s, e, p);
        var rest := Interpolations(s, e).value;
        var k :| 0 <= k < |rest| && rest[k].start <= p < rest[k].end;
        assert r[k + 1] == rest[k];
      }
    } else {
      InterpolationsComplete(s, i + 1, p);
    }
  }

  function Tokens(ints: seq<Interpolation>): (tokens: seq<string>)
    ensures |tokens| == |ints|
    ensures forall k :: 0 <= k < |ints| ==> tokens[k] == ints[k].value
  {
    seq(|ints|, k requires 0 <= k < |ints| => ints[k].value)
  }

  /** The 1-based positions at which `token` occurs, in order. */
  function IndicesOf(tokens: seq<string>, token: string): seq<nat> {
    if tokens == [] then []
    else
      var before := tokens[..|tokens| - 1];
      IndicesOf(before, token) + (if tokens[|tokens| - 1] == token then [|tokens|] else [])
  }

  /** How often `token` occurs. */
  function Count(tokens: seq<string>, token: string): nat { multiset(tokens)[token] }

  lemma CountSnoc(tokens: seq<string>, token: string)
    requires tokens != []
    ensures Count(tokens, token)
         == Count(tokens[..|tokens| - 1], token) + (if tokens[|tokens| - 1] == token then 1 else 0)
  {
    assert tokens == tokens[..|tokens| - 1] + [tokens[|tokens| - 1]];
  }

  /** `p` is the position of the occurrence of `token` that `k` others precede. */
  ghost predicate IsOccurrence(tokens: seq<string>, token: string, k: nat, p: nat) {
    1 <= p <= |tokens| && tokens[p - 1] == token && Count(tokens[..p - 1], token) == k
  }

  lemma {:induction false} IndicesOfMeaning(tokens: seq<string>, token: string)
    ensures |IndicesOf(tokens, token)| == Count(tokens, token)
    ensures forall k :: 0 <= k < |IndicesOf(tokens, token)| ==>
              IsOccurrence(tokens, token, k, IndicesOf(tokens, token)[k])
  {
    if tokens != [] {
      hide Count;
      var n := |tokens| - 1;
      var before := tokens[..n];
      CountSnoc(tokens, token);
      IndicesOfMeaning(before, token);
      forall k | 0 <= k < |IndicesOf(tokens, token)|
        ensures IsOccurrence(tokens, token, k, IndicesOf(tokens, token)[k])
      {
        var p := IndicesOf(tokens, token)[k];
        if k < |IndicesOf(before, token)| {
          assert p == IndicesOf(before, token)[k];
          assert IsOccurrence(before, token, k, p);
          assert tokens[..p - 1] == before[..p - 1];
        }
      }
    }
  }

  lemma {:induction false} IndicesOfPosition(tokens: seq<string>, j: nat)
    requires j < |tokens|
    ensures Count(tokens[..j], tokens[j]) < |IndicesOf(tokens, tokens[j])|
    ensures IndicesOf(tokens, tokens[j])[Count(tokens[..j], tokens[j])] == j + 1
  {
    hide Count;
    var n := |tokens| - 1;
    var before := tokens[..n];
    IndicesOfMeaning(before, tokens[j]);
    if j < n {
      IndicesOfPosition(before, j);
      assert before[..j] == tokens[..j];
    }
  }

  /** The argument position given to each interpolation of the translation: occurrence for occurrence. */
  function Position(source: seq<string>, translated: seq<string>, i: nat): nat
    requires multiset(source) == multiset(translated) && i < |translated|
  {
    OccurrenceExists(source, translated, i);
    IndicesOf(source, translated[i])[Count(translated[..i], translated[i])]
  }

  lemma OccurrenceExists(source: seq<string>, translated: seq<string>, i: nat)
    requires multiset(source) == multiset(translated) && i < |translated|
    ensures Count(translated[..i], translated[i]) < |IndicesOf(source, translated[i])|
  {
    IndicesOfMeaning(source, translated[i]);
    assert translated == translated[..i] + [translated[i]] + translated[i + 1..];
  }

  function Positions(source: seq<string>, translated: seq<string>): (ps: seq<nat>)
    requires multiset(source) == multiset(translated)
    ensures |ps| == |translated|
    ensures forall i :: 0 <= i < |ps| ==> ps[i] == Position(source, translated, i)
  {
    seq(|translated|, i requires 0 <= i < |translated| => Position(source, translated, i))
  }

  lemma CountGrows(tokens: seq<string>, i: nat, j: nat)
    requires i < j <= |tokens|
    ensures Count(tokens[..i], tokens[i]) < Count(tokens[..j], tokens[i])
  {
    assert tokens[..j] == tokens[..i] + [tokens[i]] + tokens[i + 1..j];
  }

  lemma PositionMeaning(source: seq<string>, translated: seq<string>, i: nat)
    requires multiset(source) == multiset(translated) && i < |translated|
    ensures IsOccurrence(source, translated[i], Count(translated[..i], translated[i]), Position(source, translated, i))
  {
    OccurrenceExists(source, translated, i);
    IndicesOfMeaning(source, translated[i]);
  }

  /** Every argument position is emitted: by the interpolation that is its token's same occurrence. */
  lemma PositionsCover(source: seq<string>, translated: seq<string>, p: nat)
    requires multiset(source) == multiset(translated) && 1 <= p <= |source|
    ensures p in Positions(source, translated)
  {
    hide Count, IndicesOf;
    PositionMeaning(translated, source, p - 1);
    var i := Position(translated, source, p - 1) - 1;
    IndicesOfPosition(source, p - 1);
    assert Positions(source, translated)[i] == p;
  }

  /** The emitted positions are a permutation of 1..n, and each refers to an argument with the same token. */
  lemma PositionsArePermutation(source: seq<string>, translated: seq<string>)
    requires multiset(source) == multiset(translated)
    ensures var ps := Positions(source, translated);
            && |ps| == |source|
            && (forall i :: 0 <= i < |ps| ==> 1 <= ps[i] <= |source| && source[ps[i] - 1] == translated[i])
            && (forall i, j :: 0 <= i < j < |ps| ==> ps[i] != ps[j])
            && (forall p :: 1 <= p <= |source| ==> p in ps)
  {
    hide Count, Position;
    var ps := Positions(source, translated);
    assert |multiset(source)| == |multiset(translated)|;
    forall i | 0 <= i < |ps| ensures IsOccurrence(source, translated[i], Count(translated[..i], translated[i]), ps[i]) {
      PositionMeaning(source, translated, i);
    }
    forall i, j | 0 <= i < j < |ps| ensures ps[i] != ps[j] {
      CountGrows(translated, i, j);
    }
    forall p | 1 <= p <= |source| ensures p in ps {
      PositionsCover(source, translated, p);
    }
  }

  function DoublePercent(s: string): string { ReplaceAll(s, "%", "%%") }

  /** The format text from interpolation `i` and offset `cursor` on. */
  function FormatText(translated: string, ints: seq<Interpolation>, ps: seq<nat>, i: nat, cursor: nat): string
    requires |ps| == |ints| && i <= |ints| && cursor <= |translated|
    requires Placed(translated, cursor, ints[i..])
    decreases |ints| - i
  {
    if i == |ints| then DoublePercent(translated[cursor..])
    else
      assert ints[i] == ints[i..][0];
      PlacedRest(translated, cursor, ints, i);
      DoublePercent(translated[cursor..ints[i].start]) + "%" + Decimal(ps[i]) + "$s"
      + FormatText(translated, ints, ps, i + 1, ints[i].end)
  }

  lemma PlacedRest(s: string, cursor: nat, ints: seq<Interpolation>, i: nat)
    requires i < |ints| && Placed(s, cursor, ints[i..])
    ensures cursor <= ints[i].start < ints[i].end <= |s|
    ensures Placed(s, ints[i].end, ints[i + 1..])
  {
    var here, rest := ints[i..], ints[i + 1..];
    assert here[0] == ints[i];
    assert forall k :: 0 <= k < |rest| ==> rest[k] == here[k + 1];
    var k := 0;
    while k < |rest|
      invariant 0 <= k <= |rest|
      invariant forall j :: 0 <= j < k ==> ints[i].end <= rest[j].start
    {
      assert here[k].end <= here[k + 1].start;
      k := k + 1;
    }
  }

  /** The translation from offset `cursor` on, each interpolation replaced by the value of its token. */
  function Substituted(translated: string, ints: seq<Interpolation>, values: string -> string, i: nat,
                       cursor: nat): string
    requires i <= |ints| && cursor <= |translated|
    requires Placed(translated, cursor, ints[i..])
    decreases |ints| - i
  {
    if i == |ints| then translated[cursor..]
    else
      assert ints[i] == ints[i..][0];
      PlacedRest(translated, cursor, ints, i);
      translated[cursor..ints[i].start] + values(ints[i].value)
      + Substituted(translated, ints, values, i + 1, ints[i].end)
  }

  /** Leading digits. */
  function DigitRun(s: string): (n: nat)
    ensures n <= |s| && AllDigits(s[..n])
  {
    if s != "" && IsDigit(s[0]) then
      assert s[..1 + DigitRun(s[1..])] == [s[0]] + s[1..][..DigitRun(s[1..])];
      1 + DigitRun(s[1..])
    else 0
  }

  function Before(head: string, rest: Option<string>): Option<string> {
    match rest case None => None case Some(r) => Some(head + r)
  }

  lemma BeforeConcat(a: string, b: string, rest: Option<string>)
    ensures Before(a + b, rest) == Before(a, Before(b, rest))
  {
    if rest.Some? {
      assert a + b + rest.value == a + (b + rest.value);
    }
  }

  /** Formatting as `java.util.Formatter` reads the two specifiers the renderer writes, `%%` and `%k$s`;
      None for any other use of the percent sign. */
  function Format(f: string, args: seq<string>): Option<string> {
    if f == "" then Some("")
    else if f[0] != '%' then Before([f[0]], Format(f[1..], args))
    else if |f| > 1 && f[1] == '%' then Before("%", Format(f[2..], args))
    else
      var n := DigitRun(f[1..]);
      var k := ToNat(f[1..][..n]);
      if n == 0 || |f| < n + 3 || f[n + 1] != '$' || f[n + 2] != 's' || !(1 <= k <= |args|) then None
      else Before(args[k - 1], Format(f[n + 3..], args))
  }

  lemma {:induction false} FormatLiteral(s: string, rest: string, args: seq<string>)
    ensures Format(DoublePercent(s) + rest, args) == Before(s, Format(rest, args))
  {
    if s == "" {
      assert DoublePercent(s) + rest == rest;
      if Format(rest, args).Some? {
        assert "" + Format(rest, args).value == Format(rest, args).value;
      }
    } else {
      var c, tail := s[0], DoublePercent(s[1..]) + rest;
      ReplaceCharStep(s, '%', "%%");
      FormatLiteral(s[1..], rest, args);
      assert DoublePercent(s) + rest == (if c == '%' then "%%" else [c]) + tail;
      FormatHead(c, tail, args);
      BeforeConcat([c], s[1..], Format(rest, args));
      assert s == [c] + s[1..];
    }
  }

  lemma FormatHead(c: char, tail: string, args: seq<string>)
    ensures Format((if c == '%' then "%%" else [c]) + tail, args) == Before([c], Format(tail, args))
  {
  }

  lemma {:induction false} DigitRunOf(digits: string, rest: string)
    requires AllDigits(digits) && (rest != "" ==> !IsDigit(rest[0]))
    ensures DigitRun(digits + rest) == |digits|
  {
    if digits != "" {
      assert (digits + rest)[1..] == digits[1..] + rest;
      DigitRunOf(digits[1..], rest);
    }
  }

  lemma FormatPosition(p: nat, rest: string, args: seq<string>)
    requires 1 <= p <= |args|
    ensures Format("%" + Decimal(p) + "$s" + rest, args) == Before(args[p - 1], Format(rest, args))
  {
    var d, tail := Decimal(p), "$s" + rest;
    var f := "%" + d + "$s" + rest;
    assert f[1..] == d + tail;
    DigitRunOf(d, tail);
    assert (d + tail)[..|d|] == d;
    DecimalRoundTrip(p);
    assert f[1] == d[0] && IsDigit(d[0]);
    assert f[|d| + 1] == '$' && f[|d| + 2] == 's';
    assert f[|d| + 3..] == rest;
  }

  lemma FormatPiece(literal: string, p: nat, rest: string, args: seq<string>)
    requires 1 <= p <= |args|
    ensures Format(DoublePercent(literal) + "%" + Decimal(p) + "$s" + rest, args)
         == Before(literal + args[p - 1], Format(rest, args))
  {
    hide Format, DoublePercent, Decimal;
    var spec := "%" + Decimal(p) + "$s" + rest;
    assert DoublePercent(literal) + "%" + Decimal(p) + "$s" + rest == DoublePercent(literal) + spec;
    FormatPosition(p, rest, args);
    FormatLiteral(literal, spec, args);
    BeforeConcat(literal, args[p - 1], Format(rest, args));
  }

  /** Formatting the format text with the values at the positions it names gives the substituted text. */
  lemma {:induction false} FormatFormatText(translated: string, ints: seq<Interpolation>, ps: seq<nat>,
                                            values: string -> string, args: seq<string>, i: nat, cursor: nat)
    requires |ps| == |ints| && i <= |ints| && cursor <= |translated|
    requires Placed(translated, cursor, ints[i..])
    requires forall k :: 0 <= k < |ints| ==> 1 <= ps[k] <= |args| && args[ps[k] - 1] == values(ints[k].value)
    ensures Format(FormatText(translated, ints, ps, i, cursor), args)
         == Some(Substituted(translated, ints, values, i, cursor))
    decreases |ints| - i
  {
    if i == |ints| {
      var s := translated[cursor..];
      assert DoublePercent(s) + "" == DoublePercent(s);
      FormatLiteral(s, "", args);
      assert s + "" == s;
    } else {
      PlacedRest(translated, cursor, ints, i);
      FormatFormatText(translated, ints, ps, values, args, i + 1, ints[i].end);
      hide Format, DoublePercent, Decimal, Placed;
      FormatPiece(translated[cursor..ints[i].start], ps[i],
                  FormatText(translated, ints, ps, i + 1, ints[i].end), args);
    }
  }

  datatype RenderError = Unbalanced | ChangedPlaceholders

  /** What the renderer returns, over the interpolations of both texts. */
  function Rendered(source: string, translated: string): Result<string, RenderError> {
    match (Interpolations(source, 0), Interpolations(translated, 0))
    case (Some(s), Some(t)) =>
      if multiset(Tokens(s)) != multiset(Tokens(t)) then Failure(ChangedPlaceholders)
      else if s == [] then Success(EscapeAndroid(translated))
      else
        InterpolationsPlaced(translated, 0);
        assert t[0..] == t;
        Success(EscapeAndroid(FormatText(translated, t, Positions(Tokens(s), Tokens(t)), 0, 0)))
    case _ => Failure(Unbalanced)
  }

  /** `tokenCounts`: how often each token occurs. */
  method TokenCounts(tokens: seq<string>) returns (counts: map<string, nat>)
    ensures counts.Keys == set t <- tokens
    ensures forall t <- counts :: counts[t] == Count(tokens, t)
  {
    counts := map[];
    for i := 0 to |tokens|
      invariant counts.Keys == set t <- tokens[..i]
      invariant forall t <- counts :: counts[t] == Count(tokens[..i], t)
    {
      var token := tokens[i];
      assert tokens[..i + 1] == tokens[..i] + [token];
      counts := counts[token := (if token in counts then counts[token] else 0) + 1];
    }
    assert tokens[..|tokens|] == tokens;
  }

  lemma EqualCounts(a: seq<string>, b: seq<string>, ca: map<string, nat>, cb: map<string, nat>)
    requires ca.Keys == (set t <- a) && forall t <- ca :: ca[t] == Count(a, t)
    requires cb.Keys == (set t <- b) && forall t <- cb :: cb[t] == Count(b, t)
    ensures ca == cb <==> multiset(a) == multiset(b)
  {
    if ca == cb {
      forall t ensures multiset(a)[t] == multiset(b)[t] {
        assert t in ca <==> t in a;
        assert t in cb <==> t in b;
      }
    }
    if multiset(a) == multiset(b) {
      forall t ensures t in ca <==> t in cb {
        assert t in a <==> t in multiset(a);
        assert t in b <==> t in multiset(b);
      }
      assert ca.Keys == cb.Keys;
    }
  }

  function Listed(indices: map<string, seq<nat>>, token: string): seq<nat> {
    if token in indices then indices[token] else []
  }

  /** `sourceIndices`: the 1-based positions of every source token. */
  method SourceIndices(tokens: seq<string>) returns (indices: map<string, seq<nat>>)
    ensures forall t :: Listed(indices, t) == IndicesOf(tokens, t)
  {
    indices := map[];
    for i := 0 to |tokens|
      invariant forall t :: Listed(indices, t) == IndicesOf(tokens[..i], t)
    {
      var token := tokens[i];
      assert tokens[..i + 1][..i] == tokens[..i];
      var known := Listed(indices, token);
      ghost var before := indices;
      indices := indices[token := known + [i + 1]];
      forall t ensures Listed(indices, t) == IndicesOf(tokens[..i + 1], t) {
        assert Listed(before, t) == IndicesOf(tokens[..i], t);
      }
    }
    assert tokens[..|tokens|] == tokens;
  }

  /** The loop of `renderAndroidResourceValue` over the translation's interpolations. The fallback that would emit a
      token verbatim is never taken: the index is always there. */
  method RenderPieces(translated: string, ints: seq<Interpolation>, sourceTokens: seq<string>,
                      sourceIndices: map<string, seq<nat>>) returns (rendered: string)
    requires Placed(translated, 0, ints[0..])
    requires multiset(sourceTokens) == multiset(Tokens(ints))
    requires forall t :: Listed(sourceIndices, t) == IndicesOf(sourceTokens, t)
    ensures rendered == FormatText(translated, ints, Positions(sourceTokens, Tokens(ints)), 0, 0)
  {
    hide IndicesOf, Placed, Count, FormatText;
    var tokens := Tokens(ints);
    var occurrences: map<string, nat> := map[];
    var cursor: nat := 0;
    rendered := "";
    ghost var ps := Positions(sourceTokens, tokens);
    CountNone(tokens);
    assert "" + FormatText(translated, ints, ps, 0, 0) == FormatText(translated, ints, ps, 0, 0);
    for i := 0 to |ints|
      invariant cursor <= |translated| && Placed(translated, cursor, ints[i..])
      invariant rendered + FormatText(translated, ints, ps, i, cursor) == FormatText(translated, ints, ps, 0, 0)
      invariant forall t :: Times(occurrences, t) == Count(tokens[..i], t)
    {
      PlacedRest(translated, cursor, ints, i);
      var literal := DoublePercent(translated[cursor..ints[i].start]);
      var token := ints[i].value;
      var occurrence := Times(occurrences, token);
      assert occurrence == Count(tokens[..i], token);
      ghost var before := occurrences;
      occurrences := occurrences[token := occurrence + 1];
      forall t ensures Times(occurrences, t) == Count(tokens[..i + 1], t) {
        assert Times(before, t) == Count(tokens[..i], t);
        CountPrefix(tokens, i, t);
      }
      OccurrenceExists(sourceTokens, tokens, i);
      assert token in sourceIndices;
      var index := sourceIndices[token][occurrence];
      assert index == ps[i];
      AppendPiece(rendered, translated, ints, ps, i, cursor);
      rendered := rendered + literal + ("%" + Decimal(index) + "$s");
      cursor := ints[i].end;
    }
    AppendTail(rendered, translated, ints, ps, cursor);
    rendered := rendered + DoublePercent(translated[cursor..]);
  }

  function Times(occurrences: map<string, nat>, token: string): nat {
    if token in occurrences then occurrences[token] else 0
  }

  lemma CountNone(tokens: seq<string>)
    ensures forall t :: Count(tokens[..0], t) == 0
  {
  }

  lemma AppendPiece(done: string, translated: string, ints: seq<Interpolation>, ps: seq<nat>, i: nat, cursor: nat)
    requires |ps| == |ints| && i < |ints| && cursor <= |translated|
    requires Placed(translated, cursor, ints[i..])
    ensures cursor <= ints[i].start < ints[i].end <= |translated| && Placed(translated, ints[i].end, ints[i + 1..])
    ensures done + DoublePercent(translated[cursor..ints[i].start]) + ("%" + Decimal(ps[i]) + "$s")
              + FormatText(translated, ints, ps, i + 1, ints[i].end)
         == done + FormatText(translated, ints, ps, i, cursor)
  {
    hide Placed, DoublePercent, Decimal;
    PlacedRest(translated, cursor, ints, i);
    var lit, spec := DoublePercent(translated[cursor..ints[i].start]), "%" + Decimal(ps[i]) + "$s";
    var rest := FormatText(translated, ints, ps, i + 1, ints[i].end);
    assert FormatText(translated, ints, ps, i, cursor) == lit + "%" + Decimal(ps[i]) + "$s" + rest;
    assert done + lit + spec + rest == done + (lit + "%" + Decimal(ps[i]) + "$s" + rest);
  }

  lemma AppendTail(done: string, translated: string, ints: seq<Interpolation>, ps: seq<nat>, cursor: nat)
    requires |ps| == |ints| && cursor <= |translated|
    requires Placed(translated, cursor, ints[|ints|..])
    ensures FormatText(translated, ints, ps, |ints|, cursor) == DoublePercent(translated[cursor..])
  {
  }

  lemma CountPrefix(tokens: seq<string>, i: nat, t: string)
    requires i < |tokens|
    ensures Count(tokens[..i + 1], t) == Count(tokens[..i], t) + (if t == tokens[i] then 1 else 0)
  {
    assert tokens[..i + 1] == tokens[..i] + [tokens[i]];
  }

  /** `renderAndroidResourceValue`. The source compares sorted JSON lists of token counts, which are equal exactly
      when the count maps are. */
  method RenderAndroidResourceValue(source: string, translated: string) returns (r: Result<string, RenderError>)
    ensures r == Rendered(source, translated)
  {
    var rendered := translated;
    var sourceInterpolations := ReadKotlinInterpolations(source);
    var translatedInterpolations := ReadKotlinInterpolations(translated);
    if sourceInterpolations == None || translatedInterpolations == None {
      return Failure(Unbalanced);
    }
    var ints := translatedInterpolations.value;
    var sourceTokens, translatedTokens := Tokens(sourceInterpolations.value), Tokens(ints);
    var sourceCounts := TokenCounts(sourceTokens);
    var translatedCounts := TokenCounts(translatedTokens);
    EqualCounts(sourceTokens, translatedTokens, sourceCounts, translatedCounts);
    if sourceCounts != translatedCounts {
      return Failure(ChangedPlaceholders);
    }
    if |sourceTokens| > 0 {
      var sourceIndices := SourceIndices(sourceTokens);
      InterpolationsPlaced(translated, 0);
      assert ints[0..] == ints;
      rendered := RenderPieces(translated, ints, sourceTokens, sourceIndices);
    }
    return Success(EscapeAndroid(rendered));
  }

  /** The arguments the app passes: the values of the source's tokens, in source order. */
  function Arguments(source: string, values: string -> string): seq<string>
    requires Interpolations(source, 0).Some?
  {
    var tokens := Tokens(Interpolations(source, 0).value);
    seq(|tokens|, k requires 0 <= k < |tokens| => values(tokens[k]))
  }

  /** The translation with every interpolation replaced by the value of its token. */
  function Meaning(translated: string, values: string -> string): string
    requires Interpolations(translated, 0).Some?
  {
    InterpolationsPlaced(translated, 0);
    var ints := Interpolations(translated, 0).value;
    assert ints[0..] == ints;
    Substituted(translated, ints, values, 0, 0)
  }

  /** Rendering preserves meaning: for every valuation, reading the resource back and formatting it with the values
      of the source's tokens gives the translation with every token replaced by its value. A source without
      interpolations is shown verbatim, without formatting. */
  lemma RenderingPreservesMeaning(source: string, translated: string, values: string -> string)
    requires Rendered(source, translated).Success?
    ensures Interpolations(source, 0).Some? && Interpolations(translated, 0).Some?
    ensures var shown := ReadAndroid(Rendered(source, translated).value);
            if Interpolations(source, 0).value == [] then shown == Meaning(translated, values) == translated
            else Format(shown, Arguments(source, values)) == Some(Meaning(translated, values))
  {
    var s, t := Interpolations(source, 0).value, Interpolations(translated, 0).value;
    if s == [] {
      ReadAndroidRoundTrip(translated);
      assert |multiset(Tokens(t))| == |multiset(Tokens(s))| == 0;
    } else {
      var ps := Positions(Tokens(s), Tokens(t));
      InterpolationsPlaced(translated, 0);
      assert t[0..] == t;
      PositionsArePermutation(Tokens(s), Tokens(t));
      ReadAndroidRoundTrip(FormatText(translated, t, ps, 0, 0));
      FormatFormatText(translated, t, ps, values, Arguments(source, values), 0, 0);
    }
  }

  /** The renderer refuses exactly the texts with an unclosed `${` and the translations that do not have the source's
      tokens, each as often as the source. */
  lemma RenderingSucceedsExactly(source: string, translated: string)
    ensures var (s, t) := (Interpolations(source, 0), Interpolations(translated, 0));
            Rendered(source, translated).Success? <==>
            && s.Some? && t.Some?
            && forall token :: |IndicesOf(Tokens(s.value), token)| == |IndicesOf(Tokens(t.value), token)|
  {
    var (s, t) := (Interpolations(source, 0), Interpolations(translated, 0));
    if s.Some? && t.Some? {
      SameIndexCounts(Tokens(s.value), Tokens(t.value));
    }
  }

  lemma SameIndexCounts(a: seq<string>, b: seq<string>)
    ensures multiset(a) == multiset(b) <==> forall token :: |IndicesOf(a, token)| == |IndicesOf(b, token)|
  {
    hide IndicesOf;
    if multiset(a) == multiset(b) {
      forall token ensures |IndicesOf(a, token)| == |IndicesOf(b, token)| {
        IndicesOfMeaning(a, token);
        IndicesOfMeaning(b, token);
      }
    } else {
      var token :| multiset(a)[token] != multiset(b)[token];
      IndicesOfMeaning(a, token);
      IndicesOfMeaning(b, token);
    }
  }
}
