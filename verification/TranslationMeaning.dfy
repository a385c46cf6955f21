/** What the translation engine (scripts/control-ui-i18n.ts) guarantees of the texts it returns: which placeholders they
    hold, and which replies they come from. */
module TranslationMeaning {
  import opened Batching
  import opened Text
  import opened TranslationEngine

  predicate WordChar(c: char) { 'a' <= c <= 'z' || 'A' <= c <= 'Z' || '0' <= c <= '9' || c == '_' }

  /** A name in braces stands at the offset. */
  ghost predicate NamedAt(s: string, i: nat, name: string) {
    && i + |name| + 1 < |s| && s[i] == '{' && s[i + 1..i + 1 + |name|] == name && s[i + |name| + 1] == '}'
    && name != "" && forall c <- name :: WordChar(c)
  }

  /** The text holds a placeholder of this name. */
  ghost predicate HoldsName(s: string, name: string) { exists i: nat :: NamedAt(s, i, name) }

  lemma {:induction false} WordRunEnds(s: string)
    ensures forall k :: 0 <= k < WordRun(s) ==> WordChar(s[k])
    ensures WordRun(s) < |s| ==> !WordChar(s[WordRun(s)])
  {
    if s != "" && IsWordChar(s[0]) {
      WordRunEnds(s[1..]);
      forall k | 0 <= k < WordRun(s) ensures WordChar(s[k]) {
        assert k > 0 ==> s[k] == s[1..][k - 1];
      }
    }
  }

  /** A name in braces at the start is the one the matcher sees. */
  lemma NamedAtStart(s: string, name: string)
    ensures NamedAt(s, 0, name) <==>
            && s != "" && s[0] == '{' && WordRun(s[1..]) > 0
            && WordRun(s[1..]) + 1 < |s| && s[WordRun(s[1..]) + 1] == '}' && name == s[1..WordRun(s[1..]) + 1]
  {
    if s != "" {
      WordRunEnds(s[1..]);
      var n := WordRun(s[1..]);
      assert forall k :: 0 <= k < |s| - 1 ==> s[1..][k] == s[k + 1];
      if NamedAt(s, 0, name) {
        assert forall k :: 0 <= k < |name| ==> s[k + 1] == name[k];
        assert n == |name|;
      }
    }
  }

  lemma NamedFurther(s: string, k: nat, i: nat, name: string)
    requires k <= |s|
    ensures NamedAt(s[k..], i, name) <==> NamedAt(s, k + i, name)
  {
    if i + |name| + 1 < |s| - k {
      assert s[k..][i + 1..i + 1 + |name|] == s[k + i + 1..k + i + 1 + |name|];
    }
  }

  /** Between the braces of a name stands no brace. */
  lemma NoBraceInside(s: string, k: nat, i: nat)
    requires 0 < |s| && k <= |s| && k <= 2 + WordRun(s[1..]) && (k > 1 ==> s[k - 1] == '}')
    ensures 0 < i < k ==> s[i] != '{'
  {
    WordRunEnds(s[1..]);
    if 0 < i < k {
      assert s[i] == s[1..][i - 1];
    }
  }

  /** The matcher finds exactly the names that stand in braces somewhere in the text. */
  lemma {:induction false} PlaceholdersAreNames(s: string, name: string)
    ensures name in Placeholders(s) <==> HoldsName(s, name)
    decreases |s|
  {
    if s != "" {
      NamedAtStart(s, name);
      var n := WordRun(s[1..]);
      var k := if s[0] == '{' && n > 0 && n + 1 < |s| && s[n + 1] == '}' then n + 2 else 1;
      PlaceholdersAreNames(s[k..], name);
      hide WordRun;
      forall i: nat ensures NamedAt(s[k..], i, name) <==> NamedAt(s, k + i, name) {
        NamedFurther(s, k, i, name);
      }
      forall i: nat | NamedAt(s, i, name) ensures i == 0 || i >= k {
        NoBraceInside(s, k, i);
      }
      if i: nat :| NamedAt(s, i, name) && i >= k {
        assert NamedAt(s[k..], i - k, name);
      }
    }
  }

  /** The last item of each key gives its text. */
  lemma {:induction false} TextsAreLast(items: seq<Item>, k: nat)
    requires k < |items| && forall j :: k < j < |items| ==> items[j].key != items[k].key
    ensures items[k].key in Texts(items) && Texts(items)[items[k].key] == items[k].text
  {
    var n := |items| - 1;
    if k < n {
      TextsAreLast(items[..n], k);
    }
  }

  /** A text and a translation that agree in their names. */
  ghost predicate SameNames(a: string, b: string) { forall name :: HoldsName(a, name) <==> HoldsName(b, name) }

  lemma SamePlaceholders(a: string, b: string)
    ensures Placeholders(a) == Placeholders(b) <==> SameNames(a, b)
  {
    hide Placeholders, HoldsName;
    forall name ensures name in Placeholders(a) <==> HoldsName(a, name) {
      PlaceholdersAreNames(a, name);
    }
    forall name ensures name in Placeholders(b) <==> HoldsName(b, name) {
      PlaceholdersAreNames(b, name);
    }
  }

  /** What a reply must say for each item, last of its key: a text that is not blank and holds `{name}` for exactly the
      names that the item's text holds. */
  ghost predicate IsAnswered(values: map<string, JsonValue>, item: Item) {
    && item.key in values && values[item.key].Str? && !Blank(values[item.key].text)
    && SameNames(item.text, values[item.key].text)
  }

  ghost predicate IsLastOfKey(items: seq<Item>, k: nat) {
    k < |items| && forall j :: k < j < |items| ==> items[j].key != items[k].key
  }

  lemma {:induction false} KeyHasLast(items: seq<Item>, key: string) returns (k: nat)
    requires key in Texts(items)
    ensures IsLastOfKey(items, k) && items[k].key == key
  {
    var n := |items| - 1;
    if items[n].key == key {
      k := n;
    } else {
      k := KeyHasLast(items[..n], key);
      assert forall j :: k < j < n ==> items[j] == items[..n][j];
    }
  }

  /** The parser accepts exactly the replies that answer every item, whatever else they say. */
  lemma RepliesExactly(values: map<string, JsonValue>, items: seq<Item>)
    ensures Parsed(values, items).Some? <==> forall k: nat :: IsLastOfKey(items, k) ==> IsAnswered(values, items[k])
  {
    hide Texts, Placeholders, SameNames, Blank;
    forall k: nat | IsLastOfKey(items, k)
      ensures items[k].key in Texts(items) && Texts(items)[items[k].key] == items[k].text
    {
      TextsAreLast(items, k);
    }
    forall a, b ensures Placeholders(a) == Placeholders(b) <==> SameNames(a, b) {
      SamePlaceholders(a, b);
    }
    if forall k: nat :: IsLastOfKey(items, k) ==> IsAnswered(values, items[k]) {
      forall key | key in Texts(items)
        ensures key in values && values[key].Str? && GoodFor(Texts(items)[key], values[key].text)
      {
        var k := KeyHasLast(items, key);
        assert IsAnswered(values, items[k]);
      }
    }
    if Answers(values, items) {
      forall k: nat | IsLastOfKey(items, k) ensures IsAnswered(values, items[k]) {
        assert items[k].key in Texts(items);
      }
    }
  }

  /** Halving `lo..hi`, the first half the larger one, leads to `a..b`. */
  predicate IsPart(lo: nat, hi: nat, a: nat, b: nat)
    decreases hi - lo
  {
    || (a == lo && b == hi)
    || (hi > lo + 1 && var middle := lo + (hi - lo + 1) / 2; IsPart(lo, middle, a, b) || IsPart(middle, hi, a, b))
  }

  /** One of the prompts `from..to` asked for a part of the items and was answered with this text for the key. */
  ghost predicate IsReplied(provider: Provider, items: seq<Item>, from: nat, to: nat, lo: nat, hi: nat, key: string,
                            text: string)
  {
    exists p: nat, a: nat, b: nat ::
      && from <= p < to && IsPart(lo, hi, a, b) && a < b <= |items|
      && SaysFor(provider(p, items[a..b]), key, text)
  }

  predicate SaysFor(outcome: Outcome, key: string, text: string) {
    outcome.Reply? && key in outcome.values && outcome.values[key] == Str(text)
  }

  /** What was replied for a half was replied for the whole. */
  lemma RepliedWithin(provider: Provider, items: seq<Item>, from: nat, to: nat, lo: nat, hi: nat, from2: nat, to2: nat,
                      lo2: nat, hi2: nat, key: string, text: string)
    requires from <= from2 && to2 <= to && IsReplied(provider, items, from2, to2, lo2, hi2, key, text)
    requires forall a: nat, b: nat :: IsPart(lo2, hi2, a, b) ==> IsPart(lo, hi, a, b)
    ensures IsReplied(provider, items, from, to, lo, hi, key, text)
  {
    hide IsPart, SaysFor;
    var p: nat, a: nat, b: nat :| from2 <= p < to2 && IsPart(lo2, hi2, a, b) && a < b <= |items|
                                  && SaysFor(provider(p, items[a..b]), key, text);
    assert IsPart(lo, hi, a, b);
  }

  lemma HalvesAreParts(lo: nat, hi: nat)
    requires lo + 1 < hi
    ensures var middle := lo + (hi - lo + 1) / 2;
            && lo < middle < hi
            && (forall a: nat, b: nat :: IsPart(lo, middle, a, b) ==> IsPart(lo, hi, a, b))
            && (forall a: nat, b: nat :: IsPart(middle, hi, a, b) ==> IsPart(lo, hi, a, b))
  {
  }

  /** Every text a batch returns is what the provider replied to one of its prompts, for the batch or for a part of it
      that halving leads to. */
  lemma {:induction false} TextsAreReplies(provider: Provider, items: seq<Item>, lo: nat, hi: nat, start: nat,
                                           attempt: nat, key: string)
    requires lo < hi <= |items| && Translation(provider, items[lo..hi], start, attempt).0.Some?
    requires key in Translation(provider, items[lo..hi], start, attempt).0.value
    ensures var (r, next) := Translation(provider, items[lo..hi], start, attempt);
            IsReplied(provider, items, start, next, lo, hi, key, r.value[key])
    decreases hi - lo, TRANSLATE_MAX_ATTEMPTS - attempt
  {
    var batch := items[lo..hi];
    var (r, next) := Translation(provider, batch, start, attempt);
    var outcome := provider(start, batch);
    if Accepted(outcome, batch).Some? {
      assert SaysFor(outcome, key, r.value[key]) && IsPart(lo, hi, lo, hi);
    } else if !ReadsAsTimeout(outcome) {
      TextsAreReplies(provider, items, lo, hi, start + 1, attempt + 1, key);
      RepliedWithin(provider, items, start, next, lo, hi, start + 1, next, lo, hi, key, r.value[key]);
    } else {
      var half := (|batch| + 1) / 2;
      var middle := lo + half;
      assert batch[..half] == items[lo..middle] && batch[half..] == items[middle..hi];
      var (left, afterLeft) := Translation(provider, items[lo..middle], start + 1, 0);
      var (right, _) := Translation(provider, items[middle..hi], afterLeft, 0);
      PromptsAreBounded(provider, items[lo..middle], start + 1, 0);
      PromptsAreBounded(provider, items[middle..hi], afterLeft, 0);
      HalvesAreParts(lo, hi);
      hide IsReplied, IsPart, Translation, Accepted;
      if key in right.value {
        TextsAreReplies(provider, items, middle, hi, afterLeft, 0, key);
        RepliedWithin(provider, items, start, next, lo, hi, afterLeft, next, middle, hi, key, r.value[key]);
      } else {
        TextsAreReplies(provider, items, lo, middle, start + 1, 0, key);
        RepliedWithin(provider, items, start, next, lo, hi, start + 1, afterLeft, lo, middle, key, r.value[key]);
      }
    }
  }

  /** A returned text is not blank, holds `{name}` for exactly the names that the last item of its key holds, and comes
      from a reply; and there is one for every item. */
  lemma TranslationsAreFaithful(provider: Provider, items: seq<Item>, start: nat, k: nat)
    requires |items| > 0 && Translation(provider, items, start, 0).0.Some? && IsLastOfKey(items, k)
    ensures var (r, next) := Translation(provider, items, start, 0);
            && items[k].key in r.value
            && var text := r.value[items[k].key];
               && !Blank(text) && SameNames(items[k].text, text)
               && IsReplied(provider, items, start, next, 0, |items|, items[k].key, text)
  {
    var (r, next) := Translation(provider, items, start, 0);
    TranslationIsComplete(provider, items, start, 0);
    TextsAreLast(items, k);
    assert items[0..|items|] == items;
    SamePlaceholders(items[k].text, r.value[items[k].key]);
    TextsAreReplies(provider, items, 0, |items|, start, 0, items[k].key);
  }

  /** Both halves of a batch, one after the other; nothing for a single item. */
  ghost function Halves(provider: Provider, items: seq<Item>, next: nat): (Option<map<string, string>>, nat)
    requires items != []
  {
    if |items| == 1 then (None, next)
    else
      var half := (|items| + 1) / 2;
      var (left, afterLeft) := Translation(provider, items[..half], next, 0);
      if left.None? then (None, afterLeft)
      else
        var (right, afterRight) := Translation(provider, items[half..], afterLeft, 0);
        (if right.None? then None else Some(left.value + right.value), afterRight)
  }

  /** What a batch does, prompt by prompt: a fitting reply ends it, a timeout splits it or ends it for a single item,
      and anything else gets it a second prompt, but no third. */
  lemma AttemptsExactly(provider: Provider, items: seq<Item>, start: nat)
    requires items != []
    ensures var (first, second) := (provider(start, items), provider(start + 1, items));
            Translation(provider, items, start, 0) ==
            if Accepted(first, items).Some? then (Accepted(first, items), start + 1)
            else if ReadsAsTimeout(first) then Halves(provider, items, start + 1)
            else if Accepted(second, items).Some? then (Accepted(second, items), start + 2)
            else if ReadsAsTimeout(second) then Halves(provider, items, start + 2)
            else (None, start + 2)
  {
    hide Accepted;
    var first, second := provider(start, items), provider(start + 1, items);
    if Accepted(first, items).None? && !ReadsAsTimeout(first) {
      assert Translation(provider, items, start, 0) == Translation(provider, items, start + 1, 1);
      if Accepted(second, items).None? && !ReadsAsTimeout(second) {
        assert Translation(provider, items, start + 1, 1) == Translation(provider, items, start + 2, 2);
      }
    }
  }
}
