/** Escaping of Android resource values and Kotlin literals (scripts/android-app-i18n.ts): the chained `replaceAll`
    calls, the one-pass character maps they amount to, and what undoes them. */
module AndroidEscapes {
  import opened Text

  /** One `.replaceAll(target, replacement)` with a one-character target. */
  datatype Rule = Rule(target: char, replacement: string)

  /** The calls chained from left to right. */
  function Chain(rules: seq<Rule>, s: string): string {
    if rules == [] then s
    else Chain(rules[1..], ReplaceAll(s, [rules[0].target], rules[0].replacement))
  }

  /** The escaping chain at the end of `renderAndroidResourceValue`. */
  const ANDROID_RULES := [
    Rule('\\', "\\\\"), Rule('\n', "\\n"), Rule('\'', "\\'"), Rule('"', "\\\""),
    Rule('&', "&amp;"), Rule('<', "&lt;"), Rule('>', "&gt;")
  ]

  /** The chain of `escapeKotlin`. */
  const KOTLIN_RULES := [Rule('\\', "\\\\"), Rule('"', "\\\""), Rule('$', "\\$"), Rule('\n', "\\n")]

  function EscapeAndroid(s: string): string { Chain(ANDROID_RULES, s) }

  function EscapeKotlin(s: string): string { Chain(KOTLIN_RULES, s) }

  /** `decodeXml`: eight replacements in this order. */
  function DecodeXml(s: string): string {
    var s1 := ReplaceAll(s, "&lt;", "<");
    var s2 := ReplaceAll(s1, "&gt;", ">");
    var s3 := ReplaceAll(s2, "&quot;", "\"");
    var s4 := ReplaceAll(s3, "&amp;", "&");
    var s5 := ReplaceAll(s4, "\\n", "\n");
    var s6 := ReplaceAll(s5, "\\'", "'");
    var s7 := ReplaceAll(s6, "\\\"", "\"");
    ReplaceAll(s7, "\\\\", "\\")
  }

  /** What one character becomes while `k` of the decoder's replacements have been undone: with `k == 0` the fully
      escaped form, with `k == 8` the character itself. */
  function Block(k: nat, c: char): string {
    if c == '\\' then (if k < 8 then "\\\\" else "\\")
    else if c == '\n' then (if k < 5 then "\\n" else "\n")
    else if c == '\'' then (if k < 6 then "\\'" else "'")
    else if c == '"' then (if k < 7 then "\\\"" else "\"")
    else if c == '&' then (if k < 4 then "&amp;" else "&")
    else if c == '<' then (if k < 1 then "&lt;" else "<")
    else if c == '>' then (if k < 2 then "&gt;" else ">")
    else [c]
  }

  /** The character map `Block(k, _)` applied to a text. */
  function Blocks(k: nat, s: string): string {
    if s == "" then "" else Block(k, s[0]) + Blocks(k, s[1..])
  }

  function KotlinBlock(c: char): string {
    if c == '\\' then "\\\\" else if c == '"' then "\\\"" else if c == '$' then "\\$"
    else if c == '\n' then "\\n" else [c]
  }

  function KotlinBlocks(s: string): string {
    if s == "" then "" else KotlinBlock(s[0]) + KotlinBlocks(s[1..])
  }

  /** The character map a chain amounts to: every character is replaced by the first rule that targets it. */
  function MapChar(rules: seq<Rule>, c: char): string {
    if rules == [] then [c]
    else if rules[0].target == c then rules[0].replacement
    else MapChar(rules[1..], c)
  }

  function OnePass(rules: seq<Rule>, s: string): string {
    if s == "" then "" else MapChar(rules, s[0]) + OnePass(rules, s[1..])
  }

  /** No rule targets a character that an earlier rule writes. */
  ghost predicate Layered(rules: seq<Rule>) {
    forall i, j :: 0 <= i < j < |rules| ==> rules[j].target !in rules[i].replacement
  }

  lemma {:induction false} ChainAbsent(rules: seq<Rule>, s: string)
    requires forall rule <- rules :: rule.target !in s
    ensures Chain(rules, s) == s
  {
    if rules != [] {
      ReplaceAbsent(s, rules[0].target, rules[0].replacement);
      ChainAbsent(rules[1..], s);
    }
  }

  lemma {:induction false} ChainConcat(rules: seq<Rule>, a: string, b: string)
    ensures Chain(rules, a + b) == Chain(rules, a) + Chain(rules, b)
  {
    hide ReplaceAll;
    if rules != [] {
      var c, r := rules[0].target, rules[0].replacement;
      ReplaceCharConcat(a, b, c, r);
      ChainConcat(rules[1..], ReplaceAll(a, [c], r), ReplaceAll(b, [c], r));
    }
  }

  lemma {:induction false} ChainChar(rules: seq<Rule>, c: char)
    requires Layered(rules)
    ensures Chain(rules, [c]) == MapChar(rules, c)
  {
    if rules != [] {
      var r := rules[0].replacement;
      ReplaceCharStep([c], rules[0].target, r);
      assert [c][1..] == "" && r + "" == r;
      if rules[0].target == c {
        ChainAbsent(rules[1..], rules[0].replacement);
      } else {
        ChainChar(rules[1..], c);
      }
    }
  }

  /** Chained replacements are one pass of a character map, provided no call touches what an earlier one wrote. */
  lemma {:induction false} ChainIsOnePass(rules: seq<Rule>, s: string)
    requires Layered(rules)
    ensures Chain(rules, s) == OnePass(rules, s)
  {
    if s == "" {
      ChainAbsent(rules, s);
    } else {
      assert s == [s[0]] + s[1..];
      ChainConcat(rules, [s[0]], s[1..]);
      ChainChar(rules, s[0]);
      ChainIsOnePass(rules, s[1..]);
    }
  }

  lemma {:induction false} OnePassIsBlocks(s: string)
    ensures OnePass(ANDROID_RULES, s) == Blocks(0, s)
  {
    if s != "" {
      MapAndroid(s[0]);
      OnePassIsBlocks(s[1..]);
    }
  }

  lemma MapAndroid(c: char)
    ensures MapChar(ANDROID_RULES, c) == Block(0, c)
  {
    var rules := ANDROID_RULES;
    assert rules[6..][1..] == [];
    assert MapChar(rules[6..], c) == if c == '>' then "&gt;" else [c];
    assert rules[5..][1..] == rules[6..];
    assert MapChar(rules[5..], c) == if c == '<' then "&lt;" else MapChar(rules[6..], c);
    assert rules[4..][1..] == rules[5..];
    assert MapChar(rules[4..], c) == if c == '&' then "&amp;" else MapChar(rules[5..], c);
    assert rules[3..][1..] == rules[4..];
    assert MapChar(rules[3..], c) == if c == '"' then "\\\"" else MapChar(rules[4..], c);
    assert rules[2..][1..] == rules[3..];
    assert MapChar(rules[2..], c) == if c == '\'' then "\\'" else MapChar(rules[3..], c);
    assert rules[1..][1..] == rules[2..];
    assert MapChar(rules[1..], c) == if c == '\n' then "\\n" else MapChar(rules[2..], c);
  }

  /** The seven sequential replacements of `renderAndroidResourceValue` are one pass of a character map. */
  lemma EscapeAndroidIsOnePass(s: string)
    ensures EscapeAndroid(s) == Blocks(0, s)
  {
    hide Chain, OnePass, Blocks;
    AndroidRulesLayered();
    ChainIsOnePass(ANDROID_RULES, s);
    OnePassIsBlocks(s);
  }

  lemma AndroidRulesLayered()
    ensures Layered(ANDROID_RULES)
  {
  }

  lemma {:induction false} OnePassIsKotlinBlocks(s: string)
    ensures OnePass(KOTLIN_RULES, s) == KotlinBlocks(s)
  {
    if s != "" {
      var c, rules := s[0], KOTLIN_RULES;
      assert rules[1..][1..] == rules[2..] && rules[2..][1..] == rules[3..] && rules[3..][1..] == [];
      assert MapChar(rules[3..], c) == if c == '\n' then "\\n" else [c];
      assert MapChar(rules[2..], c) == if c == '$' then "\\$" else MapChar(rules[3..], c);
      assert MapChar(rules[1..], c) == if c == '"' then "\\\"" else MapChar(rules[2..], c);
      OnePassIsKotlinBlocks(s[1..]);
    }
  }

  lemma EscapeKotlinIsOnePass(s: string)
    ensures EscapeKotlin(s) == KotlinBlocks(s)
  {
    ChainIsOnePass(KOTLIN_RULES, s);
    OnePassIsKotlinBlocks(s);
  }

  /** A backslash of the text directly followed by the letter n. */
  ghost predicate BackslashBeforeN(s: string) {
    exists i :: 0 <= i < |s| - 1 && s[i] == '\\' && s[i + 1] == 'n'
  }

  lemma BackslashBeforeNStep(s: string)
    requires s != ""
    ensures BackslashBeforeN(s) <==> ((s[0] == '\\' && |s| > 1 && s[1] == 'n') || BackslashBeforeN(s[1..]))
  {
  }

  /** The decoder's replacement number `k`. */
  function Pattern(k: nat): (p: string)
    ensures |p| > 0
  {
    if k == 0 then "&lt;" else if k == 1 then "&gt;" else if k == 2 then "&quot;" else if k == 3 then "&amp;"
    else if k == 4 then "\\n" else if k == 5 then "\\'" else if k == 6 then "\\\"" else "\\\\"
  }

  function Replacement(k: nat): string {
    if k == 0 then "<" else if k == 1 then ">" else if k == 2 then "\"" else if k == 3 then "&"
    else if k == 4 then "\n" else if k == 5 then "'" else if k == 6 then "\"" else "\\"
  }

  /** The text behind a doubled backslash does not start with the second character of pattern `k`. */
  lemma NoCrossing(k: nat, rest: string)
    requires 4 <= k < 7
    requires k == 4 ==> rest == "" || rest[0] != 'n'
    ensures NoStart("\\\\" + Blocks(k, rest), 2, Pattern(k))
  {
    var tail := Blocks(k, rest);
    var s := "\\\\" + tail;
    assert s[0..][1] == '\\';
    if tail != "" {
      assert rest != "";
      assert tail[0] == Block(k, rest[0])[0];
      assert s[1..][1] == tail[0];
    }
  }

  lemma PatternAbsent(k: nat, c: char, tail: string)
    requires k < 8 && Block(k + 1, c) == Block(k, c) && c != '\\'
    ensures NoStart(Block(k, c) + tail, |Block(k, c)|, Pattern(k))
  {
    var block, p := Block(k, c), Pattern(k);
    assert |p| > 1 && (|block| > 1 ==> p[0] != block[0] || p[1] != block[1]);
    assert forall i :: 0 < i < |block| ==> block[i] != p[0];
    assert |block| == 1 ==> block[0] != p[0];
    hide Block, Pattern;
    var s := block + tail;
    forall i | 0 <= i < |block| ensures !(p <= s[i..]) {
      assert s[i..][0] == block[i];
      if |block| > 1 && i == 0 {
        assert s[i..][1] == block[1];
      }
    }
  }

  /** A block the replacement leaves alone is skipped. */
  lemma KeptBlock(k: nat, s: string)
    requires k < 8 && s != "" && Block(k + 1, s[0]) == Block(k, s[0])
    requires k == 4 && s[0] == '\\' && |s| > 1 ==> s[1] != 'n'
    ensures NoStart(Block(k, s[0]) + Blocks(k, s[1..]), |Block(k, s[0])|, Pattern(k))
  {
    var whole := Block(k, s[0]) + Blocks(k, s[1..]);
    if s[0] != '\\' {
      PatternAbsent(k, s[0], Blocks(k, s[1..]));
    } else if k < 4 {
      forall i | 0 <= i < 2 ensures !(Pattern(k) <= whole[i..]) {
        assert whole[i..][0] == '\\';
      }
    } else {
      NoCrossing(k, s[1..]);
    }
  }

  lemma MatchedBlock(p: string, r: string, rest: string)
    requires |p| > 0
    ensures ReplaceAll(p + rest, p, r) == r + ReplaceAll(rest, p, r)
  {
  }

  /** One replacement of the decoder takes `Blocks(k, _)` to `Blocks(k + 1, _)`; only the fifth, for `\n`, can go wrong,
      by pairing the second backslash of an escaped backslash with a following letter n. */
  lemma {:induction false} DecodeStage(k: nat, s: string)
    requires k < 8
    requires k == 4 ==> !BackslashBeforeN(s)
    ensures ReplaceAll(Blocks(k, s), Pattern(k), Replacement(k)) == Blocks(k + 1, s)
  {
    if s != "" {
      hide ReplaceAll;
      if k == 4 {
        BackslashBeforeNStep(s);
      }
      var c, rest := s[0], Blocks(k, s[1..]);
      DecodeStage(k, s[1..]);
      if Block(k + 1, c) != Block(k, c) {
        assert Block(k, c) == Pattern(k) && Block(k + 1, c) == Replacement(k);
        MatchedBlock(Pattern(k), Replacement(k), rest);
      } else {
        KeptBlock(k, s);
        ReplaceSkips(Block(k, c), rest, Pattern(k), Replacement(k));
      }
    }
  }

  lemma {:induction false} BlocksDone(s: string)
    ensures Blocks(8, s) == s
  {
    if s != "" {
      BlocksDone(s[1..]);
    }
  }

  /** How many letters n a text holds. */
  function CountN(s: string): nat {
    if s == "" then 0 else (if s[0] == 'n' then 1 else 0) + CountN(s[1..])
  }

  lemma {:induction false} CountNConcat(a: string, b: string)
    ensures CountN(a + b) == CountN(a) + CountN(b)
  {
    if a == "" {
      assert a + b == b;
    } else {
      assert (a + b)[1..] == a[1..] + b;
      CountNConcat(a[1..], b);
    }
  }

  lemma {:induction false} CountNAbsent(s: string)
    requires 'n' !in s
    ensures CountN(s) == 0
  {
    if s != "" {
      CountNAbsent(s[1..]);
    }
  }

  lemma {:induction false} ReplaceKeepsN(s: string, p: string, r: string)
    requires |p| > 0 && 'n' !in p && 'n' !in r
    ensures CountN(ReplaceAll(s, p, r)) == CountN(s)
  {
    if s != "" {
      if p <= s {
        assert s == p + s[|p|..];
        CountNConcat(p, s[|p|..]);
        CountNAbsent(p);
        CountNConcat(r, ReplaceAll(s[|p|..], p, r));
        CountNAbsent(r);
        ReplaceKeepsN(s[|p|..], p, r);
      } else {
        CountNConcat([s[0]], ReplaceAll(s[1..], p, r));
        ReplaceKeepsN(s[1..], p, r);
      }
    }
  }

  lemma ReplaceEmpty(p: string, r: string)
    requires |p| > 0
    ensures ReplaceAll("", p, r) == ""
  {
  }

  lemma SwallowedN(rest: string)
    ensures ReplaceAll("\\\\n" + rest, "\\n", "\n") == "\\\n" + ReplaceAll(rest, "\\n", "\n")
  {
    hide ReplaceAll;
    var tail := "\\n" + rest;
    var whole := "\\" + tail;
    assert whole == "\\\\n" + rest;
    assert whole[0..][1] == '\\';
    ReplaceSkips("\\", tail, "\\n", "\n");
    MatchedBlock("\\n", "\n", rest);
    assert "\\" + ("\n" + ReplaceAll(rest, "\\n", "\n")) == "\\\n" + ReplaceAll(rest, "\\n", "\n");
  }

  lemma BlockKeepsN(c: char)
    requires c != '\n'
    ensures CountN(Block(4, c)) == CountN([c])
  {
  }

  lemma KeptBlockKeepsN(s: string)
    requires s != "" && (s[0] == '\\' && |s| > 1 ==> s[1] != 'n')
    ensures CountN(ReplaceAll(Blocks(4, s), Pattern(4), "\n"))
         == CountN([s[0]]) + CountN(ReplaceAll(Blocks(4, s[1..]), Pattern(4), "\n"))
  {
    hide ReplaceAll, CountN;
    var c, rest := s[0], Blocks(4, s[1..]);
    if c == '\n' {
      CountNAbsent("\n");
      MatchedBlock("\\n", "\n", rest);
      CountNConcat("\n", ReplaceAll(rest, "\\n", "\n"));
    } else {
      KeptBlock(4, s);
      ReplaceSkips(Block(4, c), rest, Pattern(4), "\n");
      CountNConcat(Block(4, c), ReplaceAll(rest, Pattern(4), "\n"));
      BlockKeepsN(c);
    }
  }

  lemma SwallowedBlockLosesN(s: string)
    requires |s| > 1 && s[0] == '\\' && s[1] == 'n'
    ensures CountN(ReplaceAll(Blocks(4, s), Pattern(4), "\n"))
         == CountN(ReplaceAll(Blocks(4, s[2..]), Pattern(4), "\n"))
  {
    hide ReplaceAll, CountN;
    var rest2 := Blocks(4, s[2..]);
    assert s[1..][1..] == s[2..];
    assert Blocks(4, s[1..]) == "n" + rest2;
    assert Blocks(4, s) == "\\\\" + Blocks(4, s[1..]);
    hide Blocks, Block;
    Regroup("\\\\", "n", rest2);
    assert "\\\\" + "n" == "\\\\n" && Blocks(4, s) == "\\\\n" + rest2;
    CountNAbsent("\\\n");
    SwallowedN(rest2);
    CountNConcat("\\\n", ReplaceAll(rest2, "\\n", "\n"));
  }

  lemma OneN()
    ensures CountN("\\n") == 1
  {
    assert "\\n"[1..] == "n" && CountN("n") == 1;
  }

  /** The `\n` replacement swallows every letter n that directly follows a backslash of the text. */
  lemma {:induction false} NewlineStageLosesN(s: string)
    ensures CountN(ReplaceAll(Blocks(4, s), Pattern(4), "\n")) <= CountN(s)
    ensures BackslashBeforeN(s) ==> CountN(ReplaceAll(Blocks(4, s), Pattern(4), "\n")) < CountN(s)
  {
    if s == "" {
      ReplaceEmpty(Pattern(4), "\n");
    } else {
      hide ReplaceAll, Blocks, Block, Pattern, BackslashBeforeN, CountN;
      BackslashBeforeNStep(s);
      if s[0] == '\\' && |s| > 1 && s[1] == 'n' {
        SwallowedBlockLosesN(s);
        NewlineStageLosesN(s[2..]);
        assert s == "\\n" + s[2..];
        CountNConcat("\\n", s[2..]);
        OneN();
      } else {
        KeptBlockKeepsN(s);
        NewlineStageLosesN(s[1..]);
        assert s == [s[0]] + s[1..];
        CountNConcat([s[0]], s[1..]);
      }
    }
  }

  /** The entity half of the decoder always undoes the entity half of the escaping. */
  lemma DecodeEntities(s: string)
    ensures ReplaceAll(ReplaceAll(ReplaceAll(ReplaceAll(EscapeAndroid(s), "&lt;", "<"), "&gt;", ">"),
                                  "&quot;", "\""), "&amp;", "&") == Blocks(4, s)
  {
    EscapeAndroidIsOnePass(s);
    DecodeStage(0, s);
    DecodeStage(1, s);
    DecodeStage(2, s);
    DecodeStage(3, s);
  }

  /** `decodeXml` recovers an escaped text exactly when no backslash of it is directly followed by the letter n. */
  lemma DecodeXmlRoundTrip(s: string)
    ensures DecodeXml(EscapeAndroid(s)) == s <==> !BackslashBeforeN(s)
  {
    hide ReplaceAll;
    DecodeEntities(s);
    if !BackslashBeforeN(s) {
      DecodeStage(4, s);
      DecodeStage(5, s);
      DecodeStage(6, s);
      DecodeStage(7, s);
      BlocksDone(s);
    } else {
      NewlineStageLosesN(s);
      var s5 := ReplaceAll(Blocks(4, s), "\\n", "\n");
      ReplaceKeepsN(s5, "\\'", "'");
      var s6 := ReplaceAll(s5, "\\'", "'");
      ReplaceKeepsN(s6, "\\\"", "\"");
      var s7 := ReplaceAll(s6, "\\\"", "\"");
      ReplaceKeepsN(s7, "\\\\", "\\");
    }
  }

  /** Reading back what the renderer writes: entities first (all five of section 4.6 of XML 1.0), then backslash
      escapes, each in one pass from the left. */
  function ReadEntities(s: string): string {
    if s == "" then ""
    else if "&lt;" <= s then "<" + ReadEntities(s[4..])
    else if "&gt;" <= s then ">" + ReadEntities(s[4..])
    else if "&amp;" <= s then "&" + ReadEntities(s[5..])
    else if "&quot;" <= s then "\"" + ReadEntities(s[6..])
    else if "&apos;" <= s then "'" + ReadEntities(s[6..])
    else [s[0]] + ReadEntities(s[1..])
  }

  function ReadBackslashes(s: string): string {
    if s == "" then ""
    else if s[0] == '\\' && |s| > 1 then
      [if s[1] == 'n' then '\n' else s[1]] + ReadBackslashes(s[2..])
    else [s[0]] + ReadBackslashes(s[1..])
  }

  function ReadAndroid(s: string): string { ReadBackslashes(ReadEntities(s)) }

  lemma ReadEntitiesSkips(c: char, rest: string)
    requires c != '&'
    ensures ReadEntities([c] + rest) == [c] + ReadEntities(rest)
  {
  }

  lemma ReadEntity(c: char, rest: string)
    requires c == '&' || c == '<' || c == '>'
    ensures ReadEntities(Block(0, c) + rest) == [c] + ReadEntities(rest)
  {
    var s := Block(0, c) + rest;
    assert s[|Block(0, c)|..] == rest;
    if c != '<' {
      assert s[1] != 'l';
    }
    if c == '&' {
      assert s[1] != 'g';
    }
  }

  lemma ReadEntitiesBlock(c: char, rest: string)
    ensures ReadEntities(Block(0, c) + rest) == Block(4, c) + ReadEntities(rest)
  {
    hide ReadEntities;
    if c == '&' || c == '<' || c == '>' {
      ReadEntity(c, rest);
    } else {
      var block := Block(0, c);
      if |block| == 2 {
        assert block == [block[0]] + [block[1]];
        assert block + rest == [block[0]] + ([block[1]] + rest);
        ReadEntitiesSkips(block[0], [block[1]] + rest);
        ReadEntitiesSkips(block[1], rest);
      } else {
        ReadEntitiesSkips(c, rest);
      }
    }
  }

  lemma {:induction false} ReadEntitiesBlocks(s: string)
    ensures ReadEntities(Blocks(0, s)) == Blocks(4, s)
  {
    if s != "" {
      hide ReadEntities, Block;
      ReadEntitiesBlocks(s[1..]);
      ReadEntitiesBlock(s[0], Blocks(0, s[1..]));
    }
  }

  lemma {:induction false} ReadBackslashesBlocks(s: string)
    ensures ReadBackslashes(Blocks(4, s)) == s
  {
    if s != "" {
      var c, rest := s[0], Blocks(4, s[1..]);
      var whole := Block(4, c) + rest;
      ReadBackslashesBlocks(s[1..]);
      if |Block(4, c)| == 2 {
        assert whole[2..] == rest;
      } else {
        assert whole[1..] == rest;
      }
    }
  }

  /** The one-pass reader recovers every escaped text, the backslash-n ones included. */
  lemma ReadAndroidRoundTrip(s: string)
    ensures ReadAndroid(EscapeAndroid(s)) == s
  {
    EscapeAndroidIsOnePass(s);
    ReadEntitiesBlocks(s);
    ReadBackslashesBlocks(s);
  }

  // ---------- character by character ----------

  /** What the renderer writes for each character. */
  lemma EscapeAndroidByCharacter(c: char, s: string)
    ensures EscapeAndroid("") == ""
    ensures EscapeAndroid([c] + s) == (match c
                                       case '\\' => "\\\\"
                                       case '\n' => "\\n"
                                       case '\'' => "\\'"
                                       case '"' => "\\\""
                                       case '&' => "&amp;"
                                       case '<' => "&lt;"
                                       case '>' => "&gt;"
                                       case _ => [c]) + EscapeAndroid(s)
  {
    EscapeAndroidIsOnePass("");
    EscapeAndroidIsOnePass(s);
    EscapeAndroidIsOnePass([c] + s);
    assert ([c] + s)[1..] == s;
    hide EscapeAndroid;
  }

  /** What the Kotlin printer writes for each character. */
  lemma EscapeKotlinByCharacter(c: char, s: string)
    ensures EscapeKotlin("") == ""
    ensures EscapeKotlin([c] + s) == (match c
                                      case '\\' => "\\\\"
                                      case '"' => "\\\""
                                      case '$' => "\\$"
                                      case '\n' => "\\n"
                                      case _ => [c]) + EscapeKotlin(s)
  {
    EscapeKotlinIsOnePass("");
    EscapeKotlinIsOnePass(s);
    EscapeKotlinIsOnePass([c] + s);
    assert ([c] + s)[1..] == s;
    hide EscapeKotlin;
  }

  /** The character at `i` is no markup, ends no string and breaks no line: an ampersand starts one of the entities, and
      a quote stands behind a backslash. */
  ghost predicate InertAt(e: string, i: nat)
    requires i < |e|
  {
    && e[i] != '<' && e[i] != '>' && e[i] != '\n'
    && (e[i] == '&' ==> "&amp;" <= e[i..] || "&lt;" <= e[i..] || "&gt;" <= e[i..])
    && (e[i] == '\'' || e[i] == '"' ==> i > 0 && e[i - 1] == '\\')
  }

  ghost predicate Inert(e: string) { forall i: nat :: i < |e| ==> InertAt(e, i) }

  lemma InertBehind(block: string, rest: string, i: nat)
    requires i < |rest| && InertAt(rest, i)
    ensures InertAt(block + rest, |block| + i)
  {
    assert (block + rest)[|block| + i..] == rest[i..];
  }

  lemma BlockIsInert(c: char, rest: string, i: nat)
    requires i < |Block(0, c)|
    ensures InertAt(Block(0, c) + rest, i)
  {
    var e := Block(0, c) + rest;
    assert e[0..] == e && e[..|Block(0, c)|] == Block(0, c);
  }

  lemma InertCons(c: char, rest: string)
    requires Inert(rest)
    ensures Inert(Block(0, c) + rest)
  {
    hide InertAt, Block;
    var block := Block(0, c);
    forall i: nat | i < |block + rest| ensures InertAt(block + rest, i) {
      if i < |block| {
        BlockIsInert(c, rest, i);
      } else {
        InertBehind(block, rest, i - |block|);
      }
    }
  }

  /** The escaped text is inert, whatever the text. */
  lemma {:induction false} EscapedIsInert(s: string)
    ensures Inert(EscapeAndroid(s))
  {
    EscapeAndroidIsOnePass(s);
    if s != "" {
      EscapedIsInert(s[1..]);
      EscapeAndroidIsOnePass(s[1..]);
      hide EscapeAndroid, Inert;
      InertCons(s[0], Blocks(0, s[1..]));
    }
  }

  // ---------- entities the renderer does not write ----------

  /** Replacing on both sides of a place where no match can straddle. */
  lemma {:induction false} ReplaceBothSides(a: string, t: string, p: string, r: string)
    requires |p| > 0 && t != "" && t[0] !in p[1..]
    ensures ReplaceAll(a + t, p, r) == ReplaceAll(a, p, r) + ReplaceAll(t, p, r)
    decreases |a|
  {
    hide ReplaceAll;
    if a == "" {
      ReplaceEmpty(p, r);
      assert a + t == t && "" + ReplaceAll(t, p, r) == ReplaceAll(t, p, r);
    } else {
      NoStraddling(a, t, p);
      ReplaceStep(a, p, r);
      ReplaceStep(a + t, p, r);
      var n, out := if p <= a then |p| else 1, if p <= a then r else [a[0]];
      DropFirst(a, t, n);
      ReplaceBothSides(a[n..], t, p, r);
      Regroup(out, ReplaceAll(a[n..], p, r), ReplaceAll(t, p, r));
    }
  }

  lemma DropFirst(a: string, t: string, n: nat)
    requires n <= |a|
    ensures (a + t)[n..] == a[n..] + t && (n > 0 ==> (a + t)[0] == a[0])
  {
  }

  lemma Regroup(a: string, b: string, c: string)
    ensures a + (b + c) == a + b + c
  {
  }

  lemma ReplaceStep(s: string, p: string, r: string)
    requires s != "" && |p| > 0
    ensures ReplaceAll(s, p, r)
         == if p <= s then r + ReplaceAll(s[|p|..], p, r) else [s[0]] + ReplaceAll(s[1..], p, r)
  {
  }

  lemma NoStraddling(a: string, t: string, p: string)
    requires a != "" && t != "" && p != "" && t[0] !in p[1..]
    ensures p <= a + t <==> p <= a
  {
    if |p| > |a| {
      assert (a + t)[|a|] == t[0];
      assert p[1..][|a| - 1] == p[|a|];
    } else {
      assert (a + t)[..|p|] == a[..|p|];
    }
  }

  /** A replacement that does not touch the double quote or its entity. */
  lemma QuotStays(a: string, b: string, p: string, r: string)
    requires p == "&lt;" || p == "&gt;"
    ensures ReplaceAll(a + ("&quot;" + b), p, r) == ReplaceAll(a, p, r) + ("&quot;" + ReplaceAll(b, p, r))
    ensures ReplaceAll(a + ("\"" + b), p, r) == ReplaceAll(a, p, r) + ("\"" + ReplaceAll(b, p, r))
  {
    ReplaceBothSides(a, "&quot;" + b, p, r);
    ReplaceBothSides(a, "\"" + b, p, r);
    assert NoStart("&quot;" + b, 6, p) by {
      forall i | 0 <= i < 6 ensures !(p <= ("&quot;" + b)[i..]) {
        assert ("&quot;" + b)[i..][0] == "&quot;"[i];
        assert i == 0 ==> ("&quot;" + b)[i..][1] == 'q';
      }
    }
    ReplaceSkips("&quot;", b, p, r);
    assert NoStart("\"" + b, 1, p) by {
      assert ("\"" + b)[0..][0] == '"';
    }
    ReplaceSkips("\"", b, p, r);
  }

  /** The decoder reads the entity of a double quote, which the renderer does not write, as a double quote, anywhere. */
  lemma DecodeXmlReadsQuot(a: string, b: string)
    ensures DecodeXml(a + "&quot;" + b) == DecodeXml(a + "\"" + b)
  {
    hide ReplaceAll;
    assert a + "&quot;" + b == a + ("&quot;" + b) && a + "\"" + b == a + ("\"" + b);
    QuotStays(a, b, "&lt;", "<");
    var a1, b1 := ReplaceAll(a, "&lt;", "<"), ReplaceAll(b, "&lt;", "<");
    QuotStays(a1, b1, "&gt;", ">");
    var a2, b2 := ReplaceAll(a1, "&gt;", ">"), ReplaceAll(b1, "&gt;", ">");
    ReplaceBothSides(a2, "&quot;" + b2, "&quot;", "\"");
    ReplaceBothSides(a2, "\"" + b2, "&quot;", "\"");
    MatchedBlock("&quot;", "\"", b2);
    assert NoStart("\"" + b2, 1, "&quot;") by {
      assert ("\"" + b2)[0..][0] == '"';
    }
    ReplaceSkips("\"", b2, "&quot;", "\"");
  }
}
