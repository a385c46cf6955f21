/** Whole literals, multi-line ones included, and chains of them joined by plus signs, as grammars (the readers of
    scripts/native-app-i18n.ts accept exactly that). */
module ChainGrammar {
  import opened LiteralChains
  import opened LiteralGrammar
  import opened Literals
  import opened Text
  import Kotlin = KotlinLiterals
  import Swift = SwiftLiterals

  /** Three double quotes stand at the offset. */
  predicate TripleAt(source: string, i: nat) {
    i + 3 <= |source| && source[i] == '"' && source[i + 1] == '"' && source[i + 2] == '"'
  }

  /** A literal stands between the two offsets: a multi-line one up to the next three double quotes, or a double quote,
      content and the closing quote. */
  ghost predicate IsLiteral(reader: Reader, source: string, at: nat, end: nat, value: string) {
    if TripleAt(source, at) then
      && at + 6 <= end && TripleAt(source, end - 3) && (forall k :: at + 3 <= k < end - 3 ==> !TripleAt(source, k))
      && value == reader.decode(source[at + 3..end - 3])
    else at < |source| && source[at] == '"' && Contains(reader.surface, source, at + 1, end, value)
  }

  lemma StartsAtTriple(source: string, i: nat)
    ensures StartsAt(source, i, "\"\"\"") <==> TripleAt(source, i)
  {
    if TripleAt(source, i) {
      assert source[i..][..3] == "\"\"\"";
    }
    if StartsAt(source, i, "\"\"\"") {
      assert source[i..][0] == '"' && source[i..][1] == '"' && source[i..][2] == '"';
    }
  }

  lemma {:induction false} IndexOfTriple(source: string, i: nat, close: nat)
    ensures IndexOf(source, "\"\"\"", i) == Some(close) <==>
            i <= close && TripleAt(source, close) && forall k :: i <= k < close ==> !TripleAt(source, k)
    decreases |source| - i
  {
    StartsAtTriple(source, i);
    if i <= |source| && !TripleAt(source, i) {
      IndexOfTriple(source, i + 1, close);
    }
  }

  lemma MultilineEndsExactly(reader: Reader, source: string, at: nat, end: nat, value: string)
    requires TripleAt(source, at)
    ensures MultilineLiteral(reader.decode, source, at) == Some(Literal(end, value)) <==>
            IsLiteral(reader, source, at, end, value)
  {
    StartsAtTriple(source, at);
    var found := IndexOf(source, "\"\"\"", at + 3);
    if found.Some? {
      IndexOfTriple(source, at + 3, found.value);
    }
    if end >= 3 {
      IndexOfTriple(source, at + 3, end - 3);
    }
    hide IndexOf;
  }

  /** The reader accepts exactly the literals, with their end and value. */
  lemma LiteralIsGrammatical(reader: Reader, source: string, at: nat, end: nat, value: string)
    ensures NativeLiteral(reader, source, at) == Some(Literal(end, value)) <==>
            IsLiteral(reader, source, at, end, value)
  {
    StartsAtTriple(source, at);
    if TripleAt(source, at) {
      MultilineEndsExactly(reader, source, at, end, value);
    } else if at < |source| && source[at] == '"' {
      hide Contains, Kotlin.Content, Swift.SwiftContent;
      ContentIsGrammatical(reader.surface, source, at + 1, end, value);
    }
  }

  /** From `i` to `j`: white space, a plus sign, and all the white space behind it. */
  ghost predicate Separates(source: string, i: nat, j: nat) {
    && j <= |source| && (j < |source| ==> !IsSpace(source[j]))
    && exists plus :: i <= plus < j && source[plus] == '+'
                      && (forall k :: i <= k < plus ==> IsSpace(source[k]))
                      && (forall k :: plus < k < j ==> IsSpace(source[k]))
  }

  lemma SkipPlusExactly(source: string, i: nat, j: nat)
    requires i <= |source|
    ensures SkipPlus(source, i) == Some(j) <==> Separates(source, i, j)
  {
    var plus := SkipSpaces(source, i);
    if Separates(source, i, j) {
      var p :| i <= p < j && source[p] == '+' && (forall k :: i <= k < p ==> IsSpace(source[k]))
               && (forall k :: p < k < j ==> IsSpace(source[k]));
      assert !IsSpace('+');
      assert plus == p;
    }
  }

  lemma NoPlusExactly(source: string, i: nat)
    requires i <= |source|
    ensures SkipPlus(source, i).None? <==> forall j: nat :: !Separates(source, i, j)
  {
    hide SkipPlus, Separates;
    forall j: nat ensures SkipPlus(source, i) == Some(j) <==> Separates(source, i, j) {
      SkipPlusExactly(source, i, j);
    }
    if SkipPlus(source, i).Some? {
      SkipPlusExactly(source, i, SkipPlus(source, i).value);
    }
  }

  /** Literals with the given values, joined by plus signs, stand between the two offsets; no plus sign follows. */
  ghost predicate IsChain(reader: Reader, source: string, at: nat, end: nat, values: seq<string>)
    decreases |values|, 0
  {
    && values != []
    && exists stop :: IsLiteral(reader, source, at, stop, values[0])
                      && Continues(reader, source, stop, end, values[1..])
  }

  /** What may follow a literal: nothing but no plus sign, or a plus sign and the literals of the other values. */
  ghost predicate Continues(reader: Reader, source: string, stop: nat, end: nat, rest: seq<string>)
    decreases |rest|, 1
  {
    if rest == [] then end == stop && forall j: nat :: !Separates(source, stop, j)
    else exists next :: Separates(source, stop, next) && IsChain(reader, source, next, end, rest)
  }

  lemma LiteralIsInside(reader: Reader, source: string, at: nat, end: nat, value: string)
    requires IsLiteral(reader, source, at, end, value)
    ensures at < end <= |source|
  {
  }

  lemma {:induction false} ContinuationIsRead(reader: Reader, source: string, cursor: nat, fragments: nat,
                                              value: string, end: nat, rest: seq<string>)
    requires cursor <= |source| && Continues(reader, source, cursor, end, rest)
    ensures ChainFrom(reader, source, cursor, fragments, value)
         == Some(Chain(end, fragments + |rest|, value + Flatten(rest)))
    decreases |rest|
  {
    hide Separates, IsLiteral, NativeLiteral, SkipPlus, ChainFrom, Flatten, Continues, IsChain;
    if rest == [] {
      ContinuationStops(reader, source, cursor, end);
      ChainStops(reader, source, cursor, fragments, value);
      NoValue(value);
    } else {
      var next, stop := ContinuationStep(reader, source, cursor, end, rest);
      ChainStep(reader, source, cursor, fragments, value);
      ContinuationIsRead(reader, source, stop, fragments + 1, value + rest[0], end, rest[1..]);
      ValueStep(value, rest);
    }
  }

  lemma ContinuationStops(reader: Reader, source: string, cursor: nat, end: nat)
    requires cursor <= |source| && Continues(reader, source, cursor, end, [])
    ensures SkipPlus(source, cursor).None? && end == cursor
  {
    NoPlusExactly(source, cursor);
  }

  lemma ContinuationStep(reader: Reader, source: string, cursor: nat, end: nat, rest: seq<string>)
    returns (next: nat, stop: nat)
    requires cursor <= |source| && rest != [] && Continues(reader, source, cursor, end, rest)
    ensures SkipPlus(source, cursor) == Some(next) && stop <= |source|
    ensures NativeLiteral(reader, source, next) == Some(Literal(stop, rest[0]))
    ensures Continues(reader, source, stop, end, rest[1..])
  {
    hide Separates, IsLiteral, NativeLiteral, SkipPlus;
    next :| Separates(source, cursor, next) && IsChain(reader, source, next, end, rest);
    stop :| IsLiteral(reader, source, next, stop, rest[0]) && Continues(reader, source, stop, end, rest[1..]);
    SkipPlusExactly(source, cursor, next);
    LiteralIsGrammatical(reader, source, next, stop, rest[0]);
    LiteralIsInside(reader, source, next, stop, rest[0]);
  }

  lemma {:induction false} ReadContinues(reader: Reader, source: string, cursor: nat, fragments: nat, value: string,
                                         chain: Chain) returns (rest: seq<string>)
    requires cursor <= |source| && ChainFrom(reader, source, cursor, fragments, value) == Some(chain)
    ensures Continues(reader, source, cursor, chain.end, rest)
    ensures chain.fragments == fragments + |rest| && chain.value == value + Flatten(rest)
    decreases |source| - cursor
  {
    hide Separates, IsLiteral, NativeLiteral, SkipPlus;
    if SkipPlus(source, cursor).None? {
      rest := [];
      NoPlusExactly(source, cursor);
      assert value + [] == value;
    } else {
      var next := SkipPlus(source, cursor).value;
      var l := NativeLiteral(reader, source, next).value;
      SkipPlusExactly(source, cursor, next);
      LiteralIsGrammatical(reader, source, next, l.end, l.value);
      var more := ReadContinues(reader, source, l.end, fragments + 1, value + l.value, chain);
      rest := [l.value] + more;
      assert rest[1..] == more;
      assert IsChain(reader, source, next, chain.end, rest);
      ValueStep(value, rest);
    }
  }

  lemma ChainIsRead(reader: Reader, source: string, at: nat, end: nat, values: seq<string>)
    requires IsChain(reader, source, at, end, values)
    ensures AdjacentLiterals(reader, source, at) == Some(Chain(end, |values|, Flatten(values)))
  {
    hide IsLiteral, NativeLiteral, ChainFrom;
    var stop :| IsLiteral(reader, source, at, stop, values[0]) && Continues(reader, source, stop, end, values[1..]);
    hide Continues, IsChain;
    LiteralIsGrammatical(reader, source, at, stop, values[0]);
    LiteralIsInside(reader, source, at, stop, values[0]);
    ContinuationIsRead(reader, source, stop, 1, values[0], end, values[1..]);
  }

  /** The chain reader accepts exactly the chains, with their end, their number of literals and the concatenation of
      their values; so it rejects every chain in which something else than a literal follows a plus sign. */
  lemma ChainIsGrammatical(reader: Reader, source: string, at: nat, end: nat, fragments: nat, value: string)
    ensures AdjacentLiterals(reader, source, at) == Some(Chain(end, fragments, value)) <==>
            exists values ::
              IsChain(reader, source, at, end, values) && |values| == fragments && Flatten(values) == value
  {
    hide IsLiteral, NativeLiteral, ChainFrom, Continues;
    if AdjacentLiterals(reader, source, at) == Some(Chain(end, fragments, value)) {
      var first := NativeLiteral(reader, source, at).value;
      LiteralIsGrammatical(reader, source, at, first.end, first.value);
      var rest := ReadContinues(reader, source, first.end, 1, first.value, Chain(end, fragments, value));
      var values := [first.value] + rest;
      assert values[1..] == rest;
      assert IsChain(reader, source, at, end, values);
    }
    if values :| IsChain(reader, source, at, end, values) && |values| == fragments && Flatten(values) == value {
      ChainIsRead(reader, source, at, end, values);
    }
  }
}
