/** Where the two splitters of the scripts cut, told by the characters outside of quotes alone: both cut at exactly the
    commas in front of which nothing is open. */
module CommaGrammar {
  import opened QuotedSpans
  import opened QuotedText
  import opened Text
  import opened TopLevelCommas
  import Arguments = ArgumentLists
  import Segments = KotlinSegments

  function Times(c: char, s: string): nat { multiset(s)[c] }

  /** How many more brackets are opened than closed. */
  function Excess(opening: char, closing: char, s: string): int { Times(opening, s) - Times(closing, s) }

  /** Nothing is open at the end: from no point on, more is opened than closed. Closers without an opener are
      ignored. */
  ghost predicate NoneOpen(opening: char, closing: char, s: string) {
    forall j :: 0 <= j <= |s| ==> Excess(opening, closing, s[j..]) <= 0
  }

  /** As many opening as closing brackets of each kind. */
  predicate AllEven(s: string) { Excess('(', ')', s) == Excess('[', ']', s) == Excess('{', '}', s) == 0 }

  /** A default value has begun: at an equals sign with nothing open. Type arguments are not looked for from there
      on. */
  ghost predicate DefaultBegun(s: string) {
    exists k :: 0 <= k < |s| && s[k] == '=' && AllEven(s[..k]) && NoneOpen('<', '>', s[..k])
  }

  /** Brackets are even, and no type argument is open, if they are looked for. */
  ghost predicate SettledPlain(track: bool, plain: string) {
    AllEven(plain) && (track ==> DefaultBegun(plain) || NoneOpen('<', '>', plain))
  }

  /** Nothing is open at the end of the text, for the Kotlin splitter. */
  ghost predicate KotlinSettled(track: bool, text: string) {
    exists plain :: Unquoted({'"'}, text, plain) && SettledPlain(track, plain)
  }

  /** Nothing is open at the end of the text, for the argument splitter. */
  ghost predicate ArgumentsSettled(text: string) {
    exists plain :: Unquoted({'\'', '"', '`'}, text, plain)
                    && NoneOpen('(', ')', plain) && NoneOpen('[', ']', plain) && NoneOpen('{', '}', plain)
  }

  // ---------- counting ----------

  /** What one more character adds. */
  function Added(opening: char, closing: char, c: char): int
    requires opening != closing
  {
    if c == opening then 1 else if c == closing then -1 else 0
  }

  lemma ExcessSnoc(opening: char, closing: char, s: string, c: char)
    requires opening != closing
    ensures Excess(opening, closing, "") == 0
    ensures Excess(opening, closing, s + [c]) == Excess(opening, closing, s) + Added(opening, closing, c)
  {
  }

  /** How much is open, for a counter that never goes below zero. */
  function Open(opening: char, closing: char, s: string): nat
    requires opening != closing
  {
    if s == "" then 0
    else
      var after := Open(opening, closing, s[..|s| - 1]) + Added(opening, closing, s[|s| - 1]);
      if after < 0 then 0 else after
  }

  /** The counter is the most that is opened and not closed from any point on. */
  lemma {:induction false} OpenIsMost(opening: char, closing: char, s: string) returns (from: nat)
    requires opening != closing
    ensures forall j :: 0 <= j <= |s| ==> Excess(opening, closing, s[j..]) <= Open(opening, closing, s)
    ensures from <= |s| && Excess(opening, closing, s[from..]) == Open(opening, closing, s)
  {
    hide Excess;
    ExcessSnoc(opening, closing, "", ' ');
    assert s[|s|..] == "";
    from := |s|;
    if s != "" {
      var n := |s| - 1;
      var k := OpenIsMost(opening, closing, s[..n]);
      forall j | 0 <= j <= n
        ensures Excess(opening, closing, s[j..])
             == Excess(opening, closing, s[..n][j..]) + Added(opening, closing, s[n])
      {
        assert s[j..] == s[..n][j..] + [s[n]];
        ExcessSnoc(opening, closing, s[..n][j..], s[n]);
      }
      from := if Open(opening, closing, s[..n]) + Added(opening, closing, s[n]) < 0 then |s| else k;
    }
  }

  lemma NoneOpenExactly(opening: char, closing: char, s: string)
    requires opening != closing
    ensures Open(opening, closing, s) == 0 <==> NoneOpen(opening, closing, s)
  {
    hide Excess;
    var from := OpenIsMost(opening, closing, s);
  }

  // ---------- the argument splitter ----------

  lemma {:induction false} RunSnoc<S>(m: Scanner<S>, st: S, text: string, c: char)
    ensures Run(m, st, text + [c]) ==
            match Run(m, st, text)
            case None => None
            case Some(after) => if Cuts(m, after, c) then None else Some(m.next(after, c))
  {
    if text == "" {
      assert ([c])[1..] == "" && text + [c] == [c];
    } else {
      assert (text + [c])[1..] == text[1..] + [c];
      if !Cuts(m, st, text[0]) {
        RunSnoc(m, m.next(st, text[0]), text[1..], c);
      }
    }
  }

  const CALL_QUOTES := {'\'', '"', '`'}

  function ArgumentQuote(q: Quote): Arguments.Quote {
    match q case Outside => Arguments.Outside case Inside(quote, escaped) => Arguments.Inside(quote, escaped)
  }

  /** The state that goes with what a scan saw. */
  function ArgumentState(seen: Seen): Arguments.State {
    Arguments.State(ArgumentQuote(seen.quote), Open('(', ')', seen.plain), Open('[', ']', seen.plain),
                    Open('{', '}', seen.plain))
  }

  lemma OpenSnoc(opening: char, closing: char, s: string, c: char)
    requires opening != closing
    ensures Open(opening, closing, s + [c]) ==
            if Open(opening, closing, s) + Added(opening, closing, c) < 0 then 0
            else Open(opening, closing, s) + Added(opening, closing, c)
  {
    assert (s + [c])[..|s|] == s;
  }

  lemma ArgumentStep(seen: Seen, c: char)
    ensures Arguments.Next(ArgumentState(seen), c) == ArgumentState(SeeNext(CALL_QUOTES, seen, c))
  {
    hide Open;
    assert seen.plain + "" == seen.plain;
    OpenSnoc('(', ')', seen.plain, c);
    OpenSnoc('[', ']', seen.plain, c);
    OpenSnoc('{', '}', seen.plain, c);
  }

  lemma {:induction false} ArgumentRun(text: string)
    requires Run(Arguments.ARGUMENTS, Arguments.START, text).Some?
    ensures Run(Arguments.ARGUMENTS, Arguments.START, text).value == ArgumentState(SeenAfter(CALL_QUOTES, text))
  {
    if text != "" {
      hide Run, Arguments.Next, SeeNext, ArgumentState;
      var n := |text| - 1;
      assert text == text[..n] + [text[n]];
      RunSnoc(Arguments.ARGUMENTS, Arguments.START, text[..n], text[n]);
      ArgumentRun(text[..n]);
      ArgumentStep(SeenAfter(CALL_QUOTES, text[..n]), text[n]);
    }
  }

  /** At the end of a text without cut, the splitter is at top level exactly if nothing is open. */
  lemma ArgumentsQuietExactly(text: string)
    requires Run(Arguments.ARGUMENTS, Arguments.START, text).Some?
    ensures Arguments.ARGUMENTS.quiet(Run(Arguments.ARGUMENTS, Arguments.START, text).value) <==> ArgumentsSettled(text)
  {
    ArgumentRun(text);
    hide Run, NoneOpen, Open;
    var seen := SeenAfter(CALL_QUOTES, text);
    ScanIsGrammatical(CALL_QUOTES, text, seen.plain);
    NoneOpenExactly('(', ')', seen.plain);
    NoneOpenExactly('[', ']', seen.plain);
    NoneOpenExactly('{', '}', seen.plain);
    forall plain | Unquoted(CALL_QUOTES, text, plain) ensures plain == seen.plain && seen.quote == Outside {
      ScanIsGrammatical(CALL_QUOTES, text, plain);
    }
  }

  // ---------- the Kotlin splitter ----------

  /** What a scan of type arguments keeps: how many are open, and whether a default value has begun. */
  datatype Types = Types(depth: nat, inDefault: bool)

  function TypesStep(t: Types, even: bool, c: char): Types {
    if c == '<' && !t.inDefault then t.(depth := t.depth + 1)
    else if c == '>' && t.depth > 0 then t.(depth := t.depth - 1)
    else if c == '=' && t.depth == 0 && even then t.(inDefault := true)
    else t
  }

  function TypesAfter(s: string): Types {
    if s == "" then Types(0, false) else TypesStep(TypesAfter(s[..|s| - 1]), AllEven(s[..|s| - 1]), s[|s| - 1])
  }

  lemma DefaultBegunSnoc(s: string, c: char)
    ensures DefaultBegun(s + [c]) <==> DefaultBegun(s) || (c == '=' && AllEven(s) && NoneOpen('<', '>', s))
  {
    hide AllEven, NoneOpen;
    var more := s + [c];
    assert more[..|s|] == s;
    forall k | 0 <= k < |s| ensures more[k] == s[k] && more[..k] == s[..k] {
    }
    if DefaultBegun(s) {
      var k :| 0 <= k < |s| && s[k] == '=' && AllEven(s[..k]) && NoneOpen('<', '>', s[..k]);
      assert more[k] == '=';
    }
    if c == '=' && AllEven(s) && NoneOpen('<', '>', s) {
      assert more[|s|] == '=';
    }
  }

  lemma {:induction false} TypesExactly(s: string)
    ensures TypesAfter(s).inDefault <==> DefaultBegun(s)
    ensures TypesAfter(s).inDefault ==> TypesAfter(s).depth == 0
    ensures !TypesAfter(s).inDefault ==> TypesAfter(s).depth == Open('<', '>', s)
  {
    if s != "" {
      hide DefaultBegun, AllEven;
      var n := |s| - 1;
      var before, c := s[..n], s[n];
      assert s == before + [c];
      TypesExactly(before);
      OpenSnoc('<', '>', before, c);
      DefaultBegunSnoc(before, c);
      NoneOpenExactly('<', '>', before);
    }
  }

  function KotlinState(track: bool, seen: Seen): Segments.State {
    var t := if track then TypesAfter(seen.plain) else Types(0, false);
    Segments.State(seen.quote.Inside?, seen.quote.Inside? && seen.quote.escaped, t.depth, t.inDefault,
                   Excess('(', ')', seen.plain), Excess('[', ']', seen.plain), Excess('{', '}', seen.plain))
  }

  lemma KotlinStepInside(track: bool, seen: Seen, c: char)
    requires seen.quote.Inside? && seen.quote.quote == '"'
    ensures Segments.Next(track, KotlinState(track, seen), c) == KotlinState(track, SeeNext({'"'}, seen, c))
  {
    hide Excess, TypesAfter;
    assert seen.plain + "" == seen.plain;
  }

  /** What one plain character does to the counts. */
  lemma PlainSnoc(plain: string, c: char)
    ensures TypesAfter(plain + [c]) == TypesStep(TypesAfter(plain), AllEven(plain), c)
    ensures Excess('(', ')', plain + [c]) == Excess('(', ')', plain) + Added('(', ')', c)
    ensures Excess('[', ']', plain + [c]) == Excess('[', ']', plain) + Added('[', ']', c)
    ensures Excess('{', '}', plain + [c]) == Excess('{', '}', plain) + Added('{', '}', c)
  {
    assert (plain + [c])[..|plain|] == plain;
    ExcessSnoc('(', ')', plain, c);
    ExcessSnoc('[', ']', plain, c);
    ExcessSnoc('{', '}', plain, c);
  }

  /** The step outside of quotes, on the counts alone. */
  lemma NextPlain(track: bool, st: Segments.State, c: char)
    requires !st.quoted && !st.escaped && c != '"' && (!track ==> st.typeArgumentDepth == 0 && !st.inDefaultValue)
    ensures var t := Types(st.typeArgumentDepth, st.inDefaultValue);
            var after := if track then TypesStep(t, Segments.DepthsZero(st), c) else t;
            Segments.Next(track, st, c)
            == Segments.State(false, false, after.depth, after.inDefault, st.paren + Added('(', ')', c),
                              st.bracket + Added('[', ']', c), st.brace + Added('{', '}', c))
  {
  }

  lemma PlainSeen(seen: Seen, c: char)
    requires seen.quote.Outside? && c != '"'
    ensures SeeNext({'"'}, seen, c) == Seen(Outside, seen.plain + [c])
  {
  }

  lemma EvenDepths(track: bool, seen: Seen)
    ensures Segments.DepthsZero(KotlinState(track, seen)) == AllEven(seen.plain)
  {
    hide Excess, TypesAfter;
  }

  lemma KotlinStepOutside(track: bool, seen: Seen, c: char)
    requires seen.quote.Outside? && c != '"'
    ensures Segments.Next(track, KotlinState(track, seen), c) == KotlinState(track, SeeNext({'"'}, seen, c))
  {
    hide Excess, TypesAfter, SeeNext, Segments.Next, Added, TypesStep, AllEven, Segments.DepthsZero;
    var plain := seen.plain;
    PlainSnoc(plain, c);
    NextPlain(track, KotlinState(track, seen), c);
    assert SeeNext({'"'}, seen, c) == Seen(Outside, plain + [c]) by { PlainSeen(seen, c); }
    assert Segments.DepthsZero(KotlinState(track, seen)) == AllEven(plain) by { EvenDepths(track, seen); }
  }

  lemma KotlinStep(track: bool, seen: Seen, c: char)
    requires seen.quote.Inside? ==> seen.quote.quote == '"'
    ensures Segments.Next(track, KotlinState(track, seen), c) == KotlinState(track, SeeNext({'"'}, seen, c))
  {
    if seen.quote.Inside? {
      KotlinStepInside(track, seen, c);
    } else if c == '"' {
      hide Excess, TypesAfter;
      assert seen.plain + "" == seen.plain;
    } else {
      KotlinStepOutside(track, seen, c);
    }
  }

  lemma {:induction false} OnlyQuote(text: string)
    ensures SeenAfter({'"'}, text).quote.Inside? ==> SeenAfter({'"'}, text).quote.quote == '"'
  {
    if text != "" {
      OnlyQuote(text[..|text| - 1]);
    }
  }

  lemma {:induction false} KotlinRun(track: bool, text: string)
    requires Run(Segments.Kotlin(track), Segments.START, text).Some?
    ensures Run(Segments.Kotlin(track), Segments.START, text).value == KotlinState(track, SeenAfter({'"'}, text))
  {
    if text != "" {
      hide Run, Segments.Next, SeeNext, KotlinState;
      var n := |text| - 1;
      assert text == text[..n] + [text[n]];
      RunSnoc(Segments.Kotlin(track), Segments.START, text[..n], text[n]);
      KotlinRun(track, text[..n]);
      OnlyQuote(text[..n]);
      KotlinStep(track, SeenAfter({'"'}, text[..n]), text[n]);
    }
  }

  lemma QuietStateExactly(track: bool, seen: Seen)
    ensures Segments.Quiet(KotlinState(track, seen)) <==> seen.quote == Outside && SettledPlain(track, seen.plain)
  {
    TypesExactly(seen.plain);
    NoneOpenExactly('<', '>', seen.plain);
    hide NoneOpen, Open, Excess, DefaultBegun, TypesAfter;
  }

  lemma KotlinQuietExactly(track: bool, text: string)
    requires Run(Segments.Kotlin(track), Segments.START, text).Some?
    ensures Segments.Quiet(Run(Segments.Kotlin(track), Segments.START, text).value) <==> KotlinSettled(track, text)
  {
    var seen := SeenAfter({'"'}, text);
    KotlinRun(track, text);
    QuietStateExactly(track, seen);
    hide Run, SettledPlain, Segments.Quiet, KotlinState, SeenAfter, Unquoted;
    ScanIsGrammatical({'"'}, text, seen.plain);
    forall plain | Unquoted({'"'}, text, plain) ensures plain == seen.plain && seen.quote == Outside {
      ScanIsGrammatical({'"'}, text, plain);
    }
  }

  // ---------- where both cut ----------

  /** A comma with nothing open in front of it, in a text without an earlier one. */
  lemma {:induction false} RunStopsExactly<S>(m: Scanner<S>, text: string)
    ensures Whole(m, text) <==>
            forall k :: 0 <= k < |text| && text[k] == ',' && Run(m, m.initial, text[..k]).Some? ==>
              !m.quiet(Run(m, m.initial, text[..k]).value)
  {
    if text == "" {
    } else {
      var n := |text| - 1;
      var before := text[..n];
      assert text == before + [text[n]];
      RunSnoc(m, m.initial, before, text[n]);
      RunStopsExactly(m, before);
      forall k | 0 <= k < n ensures before[..k] == text[..k] && before[k] == text[k] {
      }
    }
  }

  lemma {:induction false} WholePrefix<S>(m: Scanner<S>, text: string, k: nat)
    requires Whole(m, text) && k <= |text|
    ensures Whole(m, text[..k])
    decreases |text|
  {
    if k < |text| {
      var n := |text| - 1;
      assert text == text[..n] + [text[n]];
      RunSnoc(m, m.initial, text[..n], text[n]);
      assert text[..n][..k] == text[..k];
      WholePrefix(m, text[..n], k);
    } else {
      assert text[..k] == text;
    }
  }

  /** For every text: the argument splitter cuts nothing exactly if something is open in front of every comma, and
      leaves nothing open exactly if, besides, nothing is open at the end. */
  lemma ArgumentCutsExactly(text: string)
    ensures Whole(Arguments.ARGUMENTS, text) <==>
            forall k :: 0 <= k < |text| && text[k] == ',' ==> !ArgumentsSettled(text[..k])
    ensures ClosedArg(Arguments.ARGUMENTS, text) <==> Whole(Arguments.ARGUMENTS, text) && ArgumentsSettled(text)
  {
    hide Run, ArgumentsSettled;
    RunStopsExactly(Arguments.ARGUMENTS, text);
    forall k | 0 <= k <= |text| && Run(Arguments.ARGUMENTS, Arguments.START, text[..k]).Some?
      ensures Arguments.ARGUMENTS.quiet(Run(Arguments.ARGUMENTS, Arguments.START, text[..k]).value)
              <==> ArgumentsSettled(text[..k])
    {
      ArgumentsQuietExactly(text[..k]);
    }
    if Whole(Arguments.ARGUMENTS, text) {
      forall k | 0 <= k <= |text| ensures Run(Arguments.ARGUMENTS, Arguments.START, text[..k]).Some? {
        WholePrefix(Arguments.ARGUMENTS, text, k);
      }
    }
    assert text[..|text|] == text;
  }

  /** The same for the Kotlin splitter, with and without type arguments. */
  lemma KotlinCutsExactly(track: bool, text: string)
    ensures Whole(Segments.Kotlin(track), text) <==>
            forall k :: 0 <= k < |text| && text[k] == ',' ==> !KotlinSettled(track, text[..k])
    ensures ClosedArg(Segments.Kotlin(track), text) <==>
              Whole(Segments.Kotlin(track), text) && KotlinSettled(track, text)
  {
    hide Run, KotlinSettled;
    var m := Segments.Kotlin(track);
    RunStopsExactly(m, text);
    forall k | 0 <= k <= |text| && Run(m, m.initial, text[..k]).Some?
      ensures m.quiet(Run(m, m.initial, text[..k]).value) <==> KotlinSettled(track, text[..k])
    {
      KotlinQuietExactly(track, text[..k]);
    }
    if Whole(m, text) {
      forall k | 0 <= k <= |text| ensures Run(m, m.initial, text[..k]).Some? {
        WholePrefix(m, text, k);
      }
    }
    assert text[..|text|] == text;
  }

  /** No cut between `from` and `k`, and one directly in front of `from`, unless that is the start. */
  ghost predicate SinceCut<S>(m: Scanner<S>, text: string, from: nat, k: nat) {
    && from <= k <= |text| && (from > 0 ==> TopLevelComma(m, text, from - 1))
    && forall j :: from <= j < k ==> !TopLevelComma(m, text, j)
  }

  lemma {:induction false} StateSinceCut<S>(m: Scanner<S>, text: string, from: nat, k: nat)
    requires SinceCut(m, text, from, k)
    ensures Run(m, m.initial, text[from..k]) == Some(StateAt(m, text, k))
    decreases k
  {
    if from < k {
      StateSinceCut(m, text, from, k - 1);
      assert text[from..k] == text[from..k - 1] + [text[k - 1]];
      RunSnoc(m, m.initial, text[from..k - 1], text[k - 1]);
      assert !TopLevelComma(m, text, k - 1);
    } else {
      assert text[from..k] == "";
    }
  }

  /** Cut by cut: behind a cut, or from the start, the next one is the first comma in front of which nothing is open
      since then. */
  lemma TopLevelCommasExactly(track: bool, text: string, from: nat, k: nat)
    requires SinceCut(Segments.Kotlin(track), text, from, k) && k < |text|
    ensures TopLevelComma(Segments.Kotlin(track), text, k) <==>
            text[k] == ',' && KotlinSettled(track, text[from..k])
  {
    StateSinceCut(Segments.Kotlin(track), text, from, k);
    KotlinQuietExactly(track, text[from..k]);
    hide Run, KotlinSettled, StateAt;
  }
}
