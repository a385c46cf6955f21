/** What `readKotlinInterpolations` (scripts/android-app-i18n.ts) finds, as a grammar of interpolations that knows
    nothing of the scan. */
module InterpolationGrammar {
  import opened AndroidEscapes
  import opened AndroidRender
  import opened Nesting
  import opened QuotedText
  import opened Text

  /** Braces inside of single or double quotes do not count. */
  const BRACES := Brackets('{', '}', {'"', '\''})

  predicate NameStart(c: char) { 'A' <= c <= 'Z' || 'a' <= c <= 'z' || c == '_' }

  predicate NamePart(c: char) { NameStart(c) || '0' <= c <= '9' }

  /** Letters, digits and underscores, the first one no digit. */
  predicate IsName(s: string) { s != "" && NameStart(s[0]) && forall c <- s :: NamePart(c) }

  /** An interpolation stands between the two offsets: `$` and a name that does not go on behind `end`, or `${`, code
      and the closing brace. */
  ghost predicate IsInterpolation(s: string, start: nat, end: nat) {
    && start + 1 < end <= |s| && s[start] == '$'
    && if s[start + 1] == '{' then ClosedAt(BRACES, s, start + 2, end - 1)
       else IsName(s[start + 1..end]) && (end < |s| ==> !NamePart(s[end]))
  }

  /** A place where an interpolation must start, unless it is inside of one. */
  predicate StartsOne(s: string, p: nat) {
    p + 1 < |s| && s[p] == '$' && (s[p + 1] == '{' || NameStart(s[p + 1]))
  }

  ghost predicate IsReported(s: string, x: Interpolation) {
    IsInterpolation(s, x.start, x.end) && x.value == s[x.start..x.end]
  }

  /** The interpolations of `s` from offset `from` on: disjoint, in order, and every place where one must start is in
      one of them. */
  ghost predicate AreInterpolations(s: string, from: nat, ints: seq<Interpolation>) {
    && (forall k :: 0 <= k < |ints| ==> from <= ints[k].start && IsReported(s, ints[k]))
    && (forall k :: 0 < k < |ints| ==> ints[k - 1].end <= ints[k].start)
    && (forall p :: from <= p < |s| && StartsOne(s, p) ==> Covered(ints, p))
  }

  ghost predicate Covered(ints: seq<Interpolation>, p: nat) {
    exists k :: 0 <= k < |ints| && ints[k].start <= p < ints[k].end
  }

  /** The states of the two scans that go together. */
  predicate Meets(b: BraceScan, depth: nat, q: Quote) {
    && b.depth == depth && b.quote != Some('\\')
    && if b.quote.None? then q == Outside && !b.escaped else q == Inside(b.quote.value, b.escaped)
  }

  lemma StepMeets(b: BraceScan, depth: nat, q: Quote, c: char)
    requires Meets(b, depth, q) && depth > 0
    ensures Meets(BraceStep(b, c), Deeper(BRACES, q, depth, c), NextQuote(BRACES.quotes, q, c))
  {
  }

  /** The brace scan looks for the closing bracket. */
  lemma {:induction false} BraceEndIsClosing(s: string, i: nat, b: BraceScan, depth: nat, q: Quote)
    requires i <= |s| && depth > 0 && Meets(b, depth, q)
    ensures BraceEnd(s, i, b) ==
            match Closing(BRACES, s, i, depth, q) case None => None case Some(e) => Some(e + 1)
    decreases |s| - i
  {
    if i < |s| {
      hide BraceStep, NextQuote, Deeper;
      var next := BraceStep(b, s[i]);
      StepMeets(b, depth, q, s[i]);
      if next.depth > 0 {
        BraceEndIsClosing(s, i + 1, next, next.depth, NextQuote(BRACES.quotes, q, s[i]));
      }
    }
  }

  lemma {:induction false} NameEnds(s: string, i: nat, e: nat)
    requires i <= |s|
    ensures IdentEnd(s, i) == e <==>
            i <= e <= |s| && (forall k :: i <= k < e ==> NamePart(s[k])) && (e < |s| ==> !NamePart(s[e]))
    decreases |s| - i
  {
  }

  /** Where an interpolation ends, for each of the two forms. */
  lemma TokenEndsExactly(s: string, i: nat, e: nat)
    requires Opens(s, i)
    ensures TokenEnd(s, i) == Some(e) <==> IsInterpolation(s, i, e)
  {
    if s[i + 1] == '{' {
      BraceEndIsClosing(s, i + 2, BRACE_OPENED, 1, Outside);
      if e > i + 2 {
        ClosingIsGrammatical(BRACES, s, i + 2, e - 1);
      }
    } else {
      NameEnds(s, i + 2, e);
      if i + 1 < e <= |s| {
        var name := s[i + 1..e];
        assert forall k :: i + 1 <= k < e ==> s[k] == name[k - i - 1];
        assert forall c <- name :: c == s[i + 1] || c in s[i + 2..e];
      }
    }
  }

  lemma ReadingStarts(s: string, i: nat, e: nat)
    requires i < |s|
    ensures Opens(s, i) <==> StartsOne(s, i)
    ensures !Opens(s, i) ==> !IsInterpolation(s, i, e)
  {
  }

  /** Nothing starts at `i`. */
  lemma ReadingSkips(s: string, i: nat, ints: seq<Interpolation>)
    requires i < |s| && !Opens(s, i)
    ensures AreInterpolations(s, i, ints) <==> AreInterpolations(s, i + 1, ints)
  {
    ReadingStarts(s, i, 0);
    forall x: Interpolation | x in ints && IsReported(s, x) ensures x.start != i {
      ReadingStarts(s, i, x.end);
    }
  }

  /** An interpolation starts at `i`: it is the first. */
  lemma ReadingTakes(s: string, i: nat, ints: seq<Interpolation>)
    requires i < |s| && Opens(s, i) && AreInterpolations(s, i, ints)
    ensures ints != [] && TokenEnd(s, i) == Some(ints[0].end)
    ensures ints[0] == Interpolation(i, ints[0].end, s[i..ints[0].end])
    ensures AreInterpolations(s, ints[0].end, ints[1..])
  {
    ReadingStarts(s, i, 0);
    assert Covered(ints, i);
    hide StartsOne, IsInterpolation, Opens, TokenEnd;
    var k :| 0 <= k < |ints| && ints[k].start <= i < ints[k].end;
    assert k == 0 by {
      if k > 0 {
        OthersStartLater(s, i, ints, k);
      }
    }
    TokenEndsExactly(s, i, ints[0].end);
    ReadingTail(s, i, ints);
  }

  lemma OthersStartLater(s: string, i: nat, ints: seq<Interpolation>, k: nat)
    requires AreInterpolations(s, i, ints) && 0 < k < |ints|
    ensures i < ints[k].start
  {
    assert ints[k - 1].end <= ints[k].start && i <= ints[k - 1].start && IsReported(s, ints[k - 1]);
  }

  lemma ReadingTail(s: string, i: nat, ints: seq<Interpolation>)
    requires AreInterpolations(s, i, ints) && ints != []
    ensures AreInterpolations(s, ints[0].end, ints[1..])
  {
    hide StartsOne, IsInterpolation;
    var e, rest := ints[0].end, ints[1..];
    forall k | 0 <= k < |rest| ensures e <= rest[k].start && IsReported(s, rest[k]) {
      EndsBefore(s, i, ints, k + 1);
    }
    forall k | 0 < k < |rest| ensures rest[k - 1].end <= rest[k].start {
      assert ints[k].end <= ints[k + 1].start;
    }
    forall p | e <= p < |s| && StartsOne(s, p) ensures Covered(rest, p) {
      assert i <= ints[0].start && IsReported(s, ints[0]);
      assert i <= p by { GoesForward(s, ints[0]); }
      assert Covered(ints, p);
      var k :| 0 <= k < |ints| && ints[k].start <= p < ints[k].end;
      assert rest[k - 1] == ints[k];
    }
  }

  lemma GoesForward(s: string, x: Interpolation)
    requires IsReported(s, x)
    ensures x.start < x.end
  {
  }

  lemma {:induction false} EndsBefore(s: string, i: nat, ints: seq<Interpolation>, k: nat)
    requires AreInterpolations(s, i, ints) && 0 < k < |ints|
    ensures ints[0].end <= ints[k].start
  {
    hide IsInterpolation, StartsOne;
    assert ints[k - 1].end <= ints[k].start;
    if k > 1 {
      EndsBefore(s, i, ints, k - 1);
      assert IsReported(s, ints[k - 1]);
      GoesForward(s, ints[k - 1]);
    }
  }

  lemma ReadingCons(s: string, i: nat, e: nat, rest: seq<Interpolation>)
    requires i < e <= |s| && IsInterpolation(s, i, e) && AreInterpolations(s, e, rest)
    ensures AreInterpolations(s, i, [Interpolation(i, e, s[i..e])] + rest)
  {
    hide IsInterpolation, StartsOne;
    var ints := [Interpolation(i, e, s[i..e])] + rest;
    assert IsReported(s, ints[0]);
    forall p | i <= p < |s| && StartsOne(s, p) ensures Covered(ints, p) {
      if p < e {
        assert ints[0].start <= p < ints[0].end;
      } else {
        assert Covered(rest, p);
        var k :| 0 <= k < |rest| && rest[k].start <= p < rest[k].end;
        assert ints[k + 1] == rest[k];
      }
    }
  }

  lemma LeavesRoom(s: string, from: nat, ints: seq<Interpolation>)
    requires AreInterpolations(s, from, ints) && ints != []
    ensures from < |s|
  {
    assert from <= ints[0].start && IsReported(s, ints[0]);
  }

  lemma NothingLeft(s: string, ints: seq<Interpolation>)
    ensures AreInterpolations(s, |s|, ints) <==> ints == []
  {
    if ints != [] && AreInterpolations(s, |s|, ints) {
      LeavesRoom(s, |s|, ints);
    }
  }

  /** The scan finds exactly the interpolations of the text from any offset on; so it gives up exactly when there is no
      such list, that is, when an interpolation that must start does not end. */
  lemma {:induction false} ReadingIsExact(s: string, i: nat, ints: seq<Interpolation>)
    requires i <= |s|
    ensures Interpolations(s, i) == Some(ints) <==> AreInterpolations(s, i, ints)
    decreases |s| - i
  {
    hide AreInterpolations, Opens, TokenEnd;
    if i == |s| {
      NothingLeft(s, ints);
    } else if !Opens(s, i) {
      ReadingIsExact(s, i + 1, ints);
      ReadingSkips(s, i, ints);
    } else {
      if AreInterpolations(s, i, ints) {
        ReadingTakes(s, i, ints);
        ReadingIsExact(s, ints[0].end, ints[1..]);
        assert ints == [ints[0]] + ints[1..];
      }
      if Interpolations(s, i) == Some(ints) {
        var e := TokenEnd(s, i).value;
        var rest := Interpolations(s, e).value;
        TokenEndsExactly(s, i, e);
        ReadingIsExact(s, e, rest);
        ReadingCons(s, i, e, rest);
      }
    }
  }

  /** The renderer succeeds exactly if both texts have interpolations to read and, in any order, the same ones; it calls
      them unbalanced exactly if one of the texts has none to read. */
  lemma RenderingExactly(source: string, translated: string)
    ensures Rendered(source, translated).Success? <==>
            exists a, b :: AreInterpolations(source, 0, a) && AreInterpolations(translated, 0, b)
                           && multiset(Tokens(a)) == multiset(Tokens(b))
    ensures Rendered(source, translated) == Failure(Unbalanced) <==>
            (forall a :: !AreInterpolations(source, 0, a)) || (forall b :: !AreInterpolations(translated, 0, b))
  {
    hide Interpolations, AreInterpolations, Tokens, FormatText, EscapeAndroid;
    forall a ensures Interpolations(source, 0) == Some(a) <==> AreInterpolations(source, 0, a) {
      ReadingIsExact(source, 0, a);
    }
    forall b ensures Interpolations(translated, 0) == Some(b) <==> AreInterpolations(translated, 0, b) {
      ReadingIsExact(translated, 0, b);
    }
    if Interpolations(source, 0).Some? && Interpolations(translated, 0).Some? {
      assert AreInterpolations(source, 0, Interpolations(source, 0).value);
      assert AreInterpolations(translated, 0, Interpolations(translated, 0).value);
    }
  }

  /** A translation means itself when every token means itself. */
  lemma MeaningOfItself(translated: string)
    requires Interpolations(translated, 0).Some?
    ensures Meaning(translated, token => token) == translated
  {
    InterpolationsPlaced(translated, 0);
    var ints := Interpolations(translated, 0).value;
    assert ints[0..] == ints;
    SubstitutedByItself(translated, ints, 0, 0);
    assert translated[0..] == translated;
  }

  lemma {:induction false} SubstitutedByItself(translated: string, ints: seq<Interpolation>, i: nat, cursor: nat)
    requires i <= |ints| && cursor <= |translated| && Placed(translated, cursor, ints[i..])
    ensures Substituted(translated, ints, token => token, i, cursor) == translated[cursor..]
    decreases |ints| - i
  {
    if i < |ints| {
      PlacedRest(translated, cursor, ints, i);
      SubstitutedByItself(translated, ints, i + 1, ints[i].end);
      var x := ints[i];
      assert x == ints[i..][0] && x.value == translated[x.start..x.end];
      hide Placed;
      InThree(translated, cursor, x.start, x.end);
    }
  }

  lemma InThree(s: string, a: nat, b: nat, c: nat)
    requires a <= b <= c <= |s|
    ensures s[a..] == s[a..b] + s[b..c] + s[c..]
  {
  }
}
