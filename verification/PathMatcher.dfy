/** Dotted path patterns: `**` stands for any run of parts, `*` for exactly one part, anything else for itself. */
module PathMatcher {
  import opened Text

  const ANY_RUN := "**"
  const ANY_PART := "*"

  /** The recursion over the two lists of parts; the search loop of a `**` is a bounded existential. */
  predicate MatchesParts(pattern: seq<string>, value: seq<string>)
    decreases |pattern|
  {
    if pattern == [] then value == []
    else if pattern[0] == ANY_RUN then
      if |pattern| == 1 then true
      else exists index | 0 <= index <= |value| :: MatchesParts(pattern[1..], value[index..])
    else if value == [] then false
    else if pattern[0] != ANY_PART && pattern[0] != value[0] then false
    else MatchesParts(pattern[1..], value[1..])
  }

  predicate PathMatchesPattern(pattern: string, value: string) {
    MatchesParts(Split(pattern, '.'), Split(value, '.'))
  }

  // ---------- what a pattern means ----------

  /** A pattern part admits a run of value parts. */
  predicate Admits(part: string, run: seq<string>) {
    part == ANY_RUN || (|run| == 1 && (part == ANY_PART || run == [part]))
  }

  /** The value, cut into one run per pattern part. */
  ghost predicate Reading(runs: seq<seq<string>>, pattern: seq<string>, value: seq<string>) {
    && |runs| == |pattern|
    && Flatten(runs) == value
    && forall i :: 0 <= i < |runs| ==> Admits(pattern[i], runs[i])
  }

  ghost predicate Denotes(pattern: seq<string>, value: seq<string>) {
    exists runs :: Reading(runs, pattern, value)
  }

  lemma ReadingCons(run: seq<string>, runs: seq<seq<string>>, pattern: seq<string>, rest: seq<string>)
    requires pattern != [] && Admits(pattern[0], run) && Reading(runs, pattern[1..], rest)
    ensures Denotes(pattern, run + rest)
  {
    var all := [run] + runs;
    assert all[1..] == runs;
    forall i | 0 <= i < |all| ensures Admits(pattern[i], all[i]) {
      assert i > 0 ==> pattern[i] == pattern[1..][i - 1] && all[i] == runs[i - 1];
    }
    assert Reading(all, pattern, run + rest);
  }

  lemma ReadingTail(runs: seq<seq<string>>, pattern: seq<string>, value: seq<string>)
    requires pattern != [] && Reading(runs, pattern, value)
    ensures |runs[0]| <= |value| && value[..|runs[0]|] == runs[0]
    ensures Admits(pattern[0], runs[0]) && Reading(runs[1..], pattern[1..], value[|runs[0]|..])
  {
  }

  /** The recursion decides exactly whether the value can be cut into runs the pattern parts admit. */
  lemma {:induction false} MatchingIsReading(pattern: seq<string>, value: seq<string>)
    ensures MatchesParts(pattern, value) <==> Denotes(pattern, value)
    decreases |pattern|
  {
    if MatchesParts(pattern, value) {
      MatchIsRead(pattern, value);
    }
    if Denotes(pattern, value) {
      var runs :| Reading(runs, pattern, value);
      ReadIsMatch(runs, pattern, value);
    }
  }

  lemma {:induction false} MatchIsRead(pattern: seq<string>, value: seq<string>)
    requires MatchesParts(pattern, value)
    ensures Denotes(pattern, value)
    decreases |pattern|
  {
    if pattern == [] {
      assert Reading([], pattern, value);
    } else if pattern == [ANY_RUN] {
      assert Flatten<string>([]) == [];
      assert Reading([], pattern[1..], []);
      ReadingCons(value, [], pattern, []);
      assert value + [] == value;
    } else {
      var index: nat := 1;
      if pattern[0] == ANY_RUN {
        index :| 0 <= index <= |value| && MatchesParts(pattern[1..], value[index..]);
      }
      MatchIsRead(pattern[1..], value[index..]);
      var runs :| Reading(runs, pattern[1..], value[index..]);
      ReadingCons(value[..index], runs, pattern, value[index..]);
      assert value[..index] + value[index..] == value;
    }
  }

  lemma {:induction false} ReadIsMatch(runs: seq<seq<string>>, pattern: seq<string>, value: seq<string>)
    requires Reading(runs, pattern, value)
    ensures MatchesParts(pattern, value)
    decreases |pattern|
  {
    if pattern != [] {
      ReadingTail(runs, pattern, value);
      ReadIsMatch(runs[1..], pattern[1..], value[|runs[0]|..]);
    }
  }

  // ---------- patterns compose ----------

  /** A concatenated pattern matches exactly when the value can be cut between the two halves. */
  lemma {:induction false} ConcatenationSplits(p: seq<string>, q: seq<string>, value: seq<string>)
    ensures MatchesParts(p + q, value) <==>
            exists i :: 0 <= i <= |value| && MatchesParts(p, value[..i]) && MatchesParts(q, value[i..])
  {
    hide MatchesParts;
    MatchingIsReading(p + q, value);
    if Denotes(p + q, value) {
      var runs :| Reading(runs, p + q, value);
      var i := CutReading(runs, p, q, value);
      MatchingIsReading(p, value[..i]);
      MatchingIsReading(q, value[i..]);
    }
    if i :| 0 <= i <= |value| && MatchesParts(p, value[..i]) && MatchesParts(q, value[i..]) {
      MatchingIsReading(p, value[..i]);
      MatchingIsReading(q, value[i..]);
      var left :| Reading(left, p, value[..i]);
      var right :| Reading(right, q, value[i..]);
      JoinReadings(left, right, p, q, value[..i], value[i..]);
      assert value[..i] + value[i..] == value;
    }
  }

  lemma CutReading(runs: seq<seq<string>>, p: seq<string>, q: seq<string>, value: seq<string>) returns (i: nat)
    requires Reading(runs, p + q, value)
    ensures i <= |value| && Denotes(p, value[..i]) && Denotes(q, value[i..])
  {
    var left, right := runs[..|p|], runs[|p|..];
    assert runs == left + right;
    FlattenConcat(left, right);
    i := |Flatten(left)|;
    assert value[..i] == Flatten(left) && value[i..] == Flatten(right);
    forall k | 0 <= k < |right| ensures Admits(q[k], right[k]) {
      assert q[k] == (p + q)[|p| + k];
    }
    forall k | 0 <= k < |left| ensures Admits(p[k], left[k]) {
      assert p[k] == (p + q)[k];
    }
    assert Reading(left, p, value[..i]) && Reading(right, q, value[i..]);
  }

  lemma JoinReadings(left: seq<seq<string>>, right: seq<seq<string>>, p: seq<string>, q: seq<string>,
                     a: seq<string>, b: seq<string>)
    requires Reading(left, p, a) && Reading(right, q, b)
    ensures Denotes(p + q, a + b)
  {
    FlattenConcat(left, right);
    assert Reading(left + right, p + q, a + b);
  }

  /** Patterns may be replaced, inside any larger pattern, by patterns that match the same values. */
  ghost predicate Equivalent(p: seq<string>, q: seq<string>) {
    forall value :: MatchesParts(p, value) <==> MatchesParts(q, value)
  }

  lemma EquivalentInContext(before: seq<string>, p: seq<string>, q: seq<string>, after: seq<string>)
    requires Equivalent(p, q)
    ensures Equivalent(before + p + after, before + q + after)
  {
    hide MatchesParts;
    forall value ensures MatchesParts(before + p + after, value) <==> MatchesParts(before + q + after, value) {
      ReplaceMiddle(before, p, q, after, value);
      ReplaceMiddle(before, q, p, after, value);
    }
  }

  lemma ReplaceMiddle(before: seq<string>, p: seq<string>, q: seq<string>, after: seq<string>, value: seq<string>)
    requires Equivalent(p, q)
    ensures MatchesParts(before + p + after, value) ==> MatchesParts(before + q + after, value)
  {
    hide MatchesParts;
    if MatchesParts(before + p + after, value) {
      ConcatenationSplits(before + p, after, value);
      var j :| 0 <= j <= |value| && MatchesParts(before + p, value[..j]) && MatchesParts(after, value[j..]);
      ConcatenationSplits(before, p, value[..j]);
      ConcatenationSplits(before, q, value[..j]);
      ConcatenationSplits(before + q, after, value);
    }
  }

  /** A doubled `**` says no more than one. */
  lemma DoubledRunCollapses(before: seq<string>, after: seq<string>)
    ensures Equivalent(before + [ANY_RUN, ANY_RUN] + after, before + [ANY_RUN] + after)
  {
    forall value ensures MatchesParts([ANY_RUN, ANY_RUN], value) <==> MatchesParts([ANY_RUN], value) {
      assert value[0..] == value;
      assert [ANY_RUN, ANY_RUN][1..] == [ANY_RUN];
      assert MatchesParts([ANY_RUN], value[0..]);
    }
    EquivalentInContext(before, [ANY_RUN, ANY_RUN], [ANY_RUN], after);
  }

  /** `*.**` and `**.*` both ask for at least one part, anywhere in a pattern. */
  lemma PartAndRunCommute(before: seq<string>, after: seq<string>)
    ensures Equivalent(before + [ANY_PART, ANY_RUN] + after, before + [ANY_RUN, ANY_PART] + after)
  {
    forall value
      ensures MatchesParts([ANY_PART, ANY_RUN], value) <==> value != []
      ensures MatchesParts([ANY_RUN, ANY_PART], value) <==> value != []
    {
      assert [ANY_PART, ANY_RUN][1..] == [ANY_RUN] && [ANY_RUN, ANY_PART][1..] == [ANY_PART];
      if value != [] {
        var last := value[|value| - 1..];
        assert [ANY_PART][1..] == [] && last[1..] == [];
        assert MatchesParts([ANY_PART], last);
      }
    }
    EquivalentInContext(before, [ANY_PART, ANY_RUN], [ANY_RUN, ANY_PART], after);
  }

  /** A pattern with no stars matches itself and nothing else. */
  lemma {:induction false} LiteralMatchesItself(pattern: seq<string>, value: seq<string>)
    requires ANY_RUN !in pattern && ANY_PART !in pattern
    ensures MatchesParts(pattern, value) <==> pattern == value
    decreases |pattern|
  {
    if pattern != [] && value != [] {
      LiteralMatchesItself(pattern[1..], value[1..]);
      assert pattern == [pattern[0]] + pattern[1..] && value == [value[0]] + value[1..];
    }
  }

  // ---------- on dotted strings ----------

  /** Dotted patterns matched by two paths are matched, joined with a dot, by the joined path. */
  lemma JoinedPathsMatch(p: string, q: string, a: string, b: string)
    requires PathMatchesPattern(p, a) && PathMatchesPattern(q, b)
    ensures PathMatchesPattern(p + "." + q, a + "." + b)
  {
    hide MatchesParts;
    SplitConcat(p, q, '.');
    SplitConcat(a, b, '.');
    var value := Split(a, '.') + Split(b, '.');
    var i := |Split(a, '.')|;
    assert value[..i] == Split(a, '.') && value[i..] == Split(b, '.');
    ConcatenationSplits(Split(p, '.'), Split(q, '.'), value);
  }

  ghost predicate CoversAPrefix(pattern: seq<string>, value: seq<string>) {
    exists i :: 0 <= i <= |value| && MatchesParts(pattern, value[..i])
  }

  lemma PrefixThenAnything(p: seq<string>, value: seq<string>)
    ensures MatchesParts(p + [ANY_RUN], value) <==> CoversAPrefix(p, value)
  {
    ConcatenationSplits(p, [ANY_RUN], value);
    forall i | 0 <= i <= |value| ensures MatchesParts([ANY_RUN], value[i..]) {
    }
  }

  /** `p.**` covers a path exactly when some prefix of the path's parts is covered by `p`. */
  lemma SubtreeOfPattern(p: string, value: string)
    ensures PathMatchesPattern(p + ".**", value) <==> CoversAPrefix(Split(p, '.'), Split(value, '.'))
  {
    hide MatchesParts, Split;
    SplitConcat(p, ANY_RUN, '.');
    SplitNoSeparator(ANY_RUN, '.');
    assert p + ['.'] + ANY_RUN == p + ".**";
    PrefixThenAnything(Split(p, '.'), Split(value, '.'));
  }

  /** Repeated `**` and the two orders of `*` and `**` are interchangeable in dotted patterns. */
  lemma DottedPatternsSimplify(p: string, q: string, value: string)
    ensures PathMatchesPattern(p + ".**.**." + q, value) <==> PathMatchesPattern(p + ".**." + q, value)
    ensures PathMatchesPattern(p + ".*.**." + q, value) <==> PathMatchesPattern(p + ".**.*." + q, value)
  {
    hide MatchesParts, Split;
    var before, after := Split(p, '.'), Split(q, '.');
    DottedSplit(p, "**", q);
    DottedSplit(p, "**.**", q);
    DottedSplit(p, "*.**", q);
    DottedSplit(p, "**.*", q);
    DottedPair("**", "**");
    assert "**" + "." + "**" == "**.**";
    DottedPair("*", "**");
    assert "*" + "." + "**" == "*.**";
    DottedPair("**", "*");
    assert "**" + "." + "*" == "**.*";
    SplitNoSeparator("**", '.');
    DoubledRunCollapses(before, after);
    PartAndRunCommute(before, after);
    assert p + ".**.**." + q == p + "." + "**.**" + "." + q && p + ".**." + q == p + "." + "**" + "." + q;
    assert p + ".*.**." + q == p + "." + "*.**" + "." + q && p + ".**.*." + q == p + "." + "**.*" + "." + q;
  }

  lemma DottedSplit(p: string, middle: string, q: string)
    ensures Split(p + "." + middle + "." + q, '.') == Split(p, '.') + Split(middle, '.') + Split(q, '.')
  {
    SplitConcat(p + "." + middle, q, '.');
    SplitConcat(p, middle, '.');
  }

  lemma DottedPair(a: string, b: string)
    requires '.' !in a && '.' !in b
    ensures Split(a + "." + b, '.') == [a, b]
  {
    SplitConcat(a, b, '.');
    SplitNoSeparator(a, '.');
    SplitNoSeparator(b, '.');
  }
}
