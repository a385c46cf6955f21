/** The retry-and-split translation of batches (scripts/control-ui-i18n.ts) against any model provider. */
module TranslationEngine {
  import opened Text
  import opened Batching

  const TRANSLATE_MAX_ATTEMPTS: nat := 2

  /** A value of the reply's JSON object, as far as the parser looks at it. */
  datatype JsonValue = Str(text: string) | Other

  /** What comes of one prompt: a reply that parses as an object, with whether the error it may be rejected with reads
      as a timeout ("timed out" can occur in a key); or no usable reply, with the same flag for its error. */
  datatype Outcome =
    | Reply(values: map<string, JsonValue>, rejectionReadsAsTimeout: bool)
    | NoReply(readsAsTimeout: bool)

  /** The provider: the outcome of every prompt, by its number and the items asked for. Nothing is assumed about it. */
  type Provider = (nat, seq<Item>) -> Outcome

  /** `new Map(items.map(...))`: the last item of a key gives its text. */
  function Texts(items: seq<Item>): (m: map<string, string>)
    ensures m.Keys == set item <- items :: item.key
  {
    if items == [] then map[]
    else
      var last := items[|items| - 1];
      assert items == items[..|items| - 1] + [last];
      Texts(items[..|items| - 1])[last.key := last.text]
  }

  predicate IsWordChar(c: char) { 'A' <= c <= 'Z' || 'a' <= c <= 'z' || IsDigit(c) || c == '_' }

  function WordRun(s: string): (n: nat)
    ensures n <= |s|
  {
    if s != "" && IsWordChar(s[0]) then 1 + WordRun(s[1..]) else 0
  }

  /** The names in `{name}` placeholders: the matches of `\{(\w+)\}`, as a set. */
  function Placeholders(s: string): set<string> {
    if s == "" then {}
    else
      var n := WordRun(s[1..]);
      if s[0] == '{' && n > 0 && n + 1 < |s| && s[n + 1] == '}' then {s[1..n + 1]} + Placeholders(s[n + 2..])
      else Placeholders(s[1..])
  }

  /** A translation fit for its text: not blank, with exactly its placeholders. */
  predicate GoodFor(text: string, translation: string) {
    !Blank(translation) && Placeholders(translation) == Placeholders(text)
  }

  /** A complete result for `items`: exactly their keys, every value fit for its text. */
  ghost predicate Complete(items: seq<Item>, result: map<string, string>) {
    && result.Keys == Texts(items).Keys
    && forall key <- result :: GoodFor(Texts(items)[key], result[key])
  }

  /** The values a reply must hold for every key of `items`. */
  ghost predicate Answers(values: map<string, JsonValue>, items: seq<Item>) {
    forall key <- Texts(items) :: key in values && values[key].Str? && GoodFor(Texts(items)[key], values[key].text)
  }

  /** `parseTranslationBatchReply`, on a reply that is a JSON object: it accepts exactly the replies that answer every
      key fittingly, and returns their values for the keys asked for. */
  method ParseTranslationBatchReply(values: map<string, JsonValue>, items: seq<Item>)
    returns (r: Option<map<string, string>>)
    ensures r == Parsed(values, items)
  {
    hide Placeholders, Blank;
    var translated: map<string, string> := map[];
    for i := 0 to |items|
      invariant translated.Keys == Texts(items[..i]).Keys
      invariant forall key <- translated ::
                  key in values && values[key] == Str(translated[key]) && !Blank(translated[key])
    {
      var key := items[i].key;
      assert items[..i + 1][..i] == items[..i];
      if key !in values || values[key].Other? || Blank(values[key].text) {
        assert key in Texts(items) by { assert items[i] in items; }
        return None;
      }
      translated := translated[key := values[key].text];
    }
    assert items[..|items|] == items;
    var sourceFlat := Texts(items);
    if forall key <- sourceFlat :: Placeholders(sourceFlat[key]) == Placeholders(translated[key]) {
      assert Answers(values, items);
      assert translated == map key <- sourceFlat :: values[key].text;
      return Some(translated);
    }
    assert !Answers(values, items) by {
      var key :| key in sourceFlat && Placeholders(sourceFlat[key]) != Placeholders(translated[key]);
      assert values[key] == Str(translated[key]);
    }
    return None;
  }

  ghost function Parsed(values: map<string, JsonValue>, items: seq<Item>): Option<map<string, string>> {
    if Answers(values, items) then Some(map key <- Texts(items) :: values[key].text) else None
  }

  lemma {:induction false} TextsConcat(a: seq<Item>, b: seq<Item>)
    ensures Texts(a + b) == Texts(a) + Texts(b)
  {
    if b == [] {
      assert a + b == a;
    } else {
      assert (a + b)[..|a + b| - 1] == a + b[..|b| - 1];
      TextsConcat(a, b[..|b| - 1]);
    }
  }

  /** Later results override earlier ones, as their items' texts do. */
  lemma CompleteConcat(a: seq<Item>, b: seq<Item>, ra: map<string, string>, rb: map<string, string>)
    requires Complete(a, ra) && Complete(b, rb)
    ensures Complete(a + b, ra + rb)
  {
    TextsConcat(a, b);
  }

  /** Does a failed prompt count as timed out? */
  function ReadsAsTimeout(outcome: Outcome): bool {
    match outcome
    case Reply(_, rejection) => rejection
    case NoReply(timeout) => timeout
  }

  ghost function Accepted(outcome: Outcome, items: seq<Item>): Option<map<string, string>> {
    if outcome.Reply? then Parsed(outcome.values, items) else None
  }

  /** Translation of a batch from attempt `attempt` and prompt number `start` on, with the number of the next prompt:
      a timeout splits a batch of several items into halves and ends the attempts for a single item. */
  ghost function Translation(provider: Provider, items: seq<Item>, start: nat, attempt: nat)
    : (Option<map<string, string>>, nat)
    requires |items| > 0
    decreases |items|, TRANSLATE_MAX_ATTEMPTS - attempt
  {
    if attempt >= TRANSLATE_MAX_ATTEMPTS then (None, start)
    else
      var outcome := provider(start, items);
      var accepted := Accepted(outcome, items);
      if accepted.Some? then (accepted, start + 1)
      else if !ReadsAsTimeout(outcome) then Translation(provider, items, start + 1, attempt + 1)
      else if |items| == 1 then (None, start + 1)
      else
        var midpoint := (|items| + 1) / 2;
        var (left, afterLeft) := Translation(provider, items[..midpoint], start + 1, 0);
        if left.None? then (None, afterLeft)
        else
          var (right, afterRight) := Translation(provider, items[midpoint..], afterLeft, 0);
          (if right.None? then None else Some(left.value + right.value), afterRight)
  }

  /** `translateBatch`; `next` counts the prompts. */
  method TranslateBatch(provider: Provider, items: seq<Item>, start: nat)
    returns (r: Option<map<string, string>>, next: nat)
    requires |items| > 0
    ensures (r, next) == Translation(provider, items, start, 0)
    decreases |items|
  {
    next := start;
    for attempt := 0 to TRANSLATE_MAX_ATTEMPTS
      invariant Translation(provider, items, start, 0) == Translation(provider, items, next, attempt)
    {
      var outcome := provider(next, items);
      next := next + 1;
      if outcome.Reply? {
        var translated := ParseTranslationBatchReply(outcome.values, items);
        if translated.Some? {
          return translated, next;
        }
      }
      if ReadsAsTimeout(outcome) && |items| > 1 {
        var midpoint := (|items| + 1) / 2;
        var left, afterLeft := TranslateBatch(provider, items[..midpoint], next);
        if left.None? {
          return None, afterLeft;
        }
        var right, afterRight := TranslateBatch(provider, items[midpoint..], afterLeft);
        if right.None? {
          return None, afterRight;
        }
        return Some(left.value + right.value), afterRight;
      }
      if ReadsAsTimeout(outcome) {
        return None, next;
      }
    }
    return None, next;
  }

  /** Whatever the provider does, a returned map is complete: exactly the keys asked for, every value fit. */
  lemma {:induction false} TranslationIsComplete(provider: Provider, items: seq<Item>, start: nat, attempt: nat)
    requires |items| > 0 && Translation(provider, items, start, attempt).0.Some?
    ensures Complete(items, Translation(provider, items, start, attempt).0.value)
    decreases |items|, TRANSLATE_MAX_ATTEMPTS - attempt
  {
    var outcome := provider(start, items);
    if Accepted(outcome, items).None? {
      if !ReadsAsTimeout(outcome) {
        TranslationIsComplete(provider, items, start + 1, attempt + 1);
      } else {
        var midpoint := (|items| + 1) / 2;
        var (left, afterLeft) := Translation(provider, items[..midpoint], start + 1, 0);
        var (right, _) := Translation(provider, items[midpoint..], afterLeft, 0);
        TranslationIsComplete(provider, items[..midpoint], start + 1, 0);
        TranslationIsComplete(provider, items[midpoint..], afterLeft, 0);
        CompleteConcat(items[..midpoint], items[midpoint..], left.value, right.value);
        assert items[..midpoint] + items[midpoint..] == items;
      }
    }
  }

  /** Whatever the provider does, `n` items cost at least one and at most `4n - 2` prompts. */
  lemma {:induction false} PromptsAreBounded(provider: Provider, items: seq<Item>, start: nat, attempt: nat)
    requires |items| > 0 && attempt <= TRANSLATE_MAX_ATTEMPTS
    ensures start <= Translation(provider, items, start, attempt).1 <= start + 4 * |items| - 2 - attempt
    ensures attempt == 0 ==> start < Translation(provider, items, start, attempt).1
    decreases |items|, TRANSLATE_MAX_ATTEMPTS - attempt
  {
    if attempt < TRANSLATE_MAX_ATTEMPTS {
      var outcome := provider(start, items);
      if Accepted(outcome, items).None? {
        if !ReadsAsTimeout(outcome) {
          PromptsAreBounded(provider, items, start + 1, attempt + 1);
        } else if |items| > 1 {
          var midpoint := (|items| + 1) / 2;
          PromptsAreBounded(provider, items[..midpoint], start + 1, 0);
          var afterLeft := Translation(provider, items[..midpoint], start + 1, 0).1;
          PromptsAreBounded(provider, items[midpoint..], afterLeft, 0);
        }
      }
    }
  }

  /** The reply that repeats every text. */
  function Echo(items: seq<Item>): map<string, JsonValue> {
    var texts := Texts(items);
    map key <- texts :: Str(texts[key])
  }

  /** A provider that fails every even prompt, times out on every odd one for several items, and echoes single ones. */
  function SlowProvider(): Provider {
    (k, items) =>
      if k % 2 == 0 then NoReply(false) else if |items| > 1 then NoReply(true) else Reply(Echo(items), false)
  }

  lemma EchoAnswers(items: seq<Item>)
    requires |items| == 1 && !Blank(items[0].text)
    ensures Accepted(Reply(Echo(items), false), items).Some?
  {
  }

  /** The bound is sharp: for every batch of non-blank texts some provider makes it succeed after `4n - 2` prompts. */
  lemma {:induction false} BoundIsReached(items: seq<Item>, start: nat)
    requires |items| > 0 && start % 2 == 0 && forall item <- items :: !Blank(item.text)
    ensures Translation(SlowProvider(), items, start, 0).0.Some?
    ensures Translation(SlowProvider(), items, start, 0).1 == start + 4 * |items| - 2
    decreases |items|
  {
    var p := SlowProvider();
    assert Translation(p, items, start, 0) == Translation(p, items, start + 1, 1);
    if |items| == 1 {
      EchoAnswers(items);
    } else {
      hide Accepted;
      var midpoint := (|items| + 1) / 2;
      BoundIsReached(items[..midpoint], start + 2);
      BoundIsReached(items[midpoint..], start + 4 * midpoint);
      assert Translation(p, items, start + 1, 1).1 == start + 4 * |items| - 2;
    }
  }

  /** The provider answers single items fittingly, and fails larger prompts only by timing out. */
  ghost predicate OnlyTooSlow(provider: Provider, items: seq<Item>) {
    forall k: nat, asked: seq<Item> :: asked != [] && (forall item <- asked :: item in items) ==>
      || Accepted(provider(k, asked), asked).Some?
      || (|asked| > 1 && ReadsAsTimeout(provider(k, asked)))
  }

  /** Splitting pays: a provider that is only too slow for large prompts always gets the batch done, with at most
      `2n - 1` prompts. */
  lemma {:induction false} SplittingSurvivesTimeouts(provider: Provider, items: seq<Item>, start: nat)
    requires |items| > 0 && OnlyTooSlow(provider, items)
    ensures Translation(provider, items, start, 0).0.Some?
    ensures Translation(provider, items, start, 0).1 <= start + 2 * |items| - 1
    decreases |items|
  {
    if Accepted(provider(start, items), items).None? {
      var midpoint := (|items| + 1) / 2;
      assert |items| > 1 && ReadsAsTimeout(provider(start, items));
      SplittingSurvivesTimeouts(provider, items[..midpoint], start + 1);
      var afterLeft := Translation(provider, items[..midpoint], start + 1, 0).1;
      SplittingSurvivesTimeouts(provider, items[midpoint..], afterLeft);
    }
  }

  /** The batches one after the other, as `translateNativeEntries` runs them. */
  ghost function TranslationOfAll(provider: Provider, batches: seq<seq<Item>>, start: nat)
    : (Option<map<string, string>>, nat)
    requires forall batch <- batches :: |batch| > 0
  {
    if batches == [] then (Some(map[]), start)
    else
      var n := |batches| - 1;
      var (before, next) := TranslationOfAll(provider, batches[..n], start);
      if before.None? then (None, next)
      else
        var (last, after) := Translation(provider, batches[n], next, 0);
        (if last.None? then None else Some(before.value + last.value), after)
  }

  lemma {:induction false} AllComplete(provider: Provider, batches: seq<seq<Item>>, start: nat)
    requires forall batch <- batches :: |batch| > 0
    ensures var (r, next) := TranslationOfAll(provider, batches, start);
            && (r.Some? ==> Complete(Flatten(batches), r.value))
            && start <= next <= start + 4 * |Flatten(batches)| - 2 * |batches|
  {
    if batches != [] {
      var n := |batches| - 1;
      AllComplete(provider, batches[..n], start);
      var (before, next) := TranslationOfAll(provider, batches[..n], start);
      assert batches == batches[..n] + [batches[n]];
      FlattenSnoc(batches[..n], batches[n]);
      if before.Some? {
        PromptsAreBounded(provider, batches[n], next, 0);
        var (last, _) := Translation(provider, batches[n], next, 0);
        if last.Some? {
          TranslationIsComplete(provider, batches[n], next, 0);
          CompleteConcat(Flatten(batches[..n]), batches[n], before.value, last.value);
        }
      } else {
        assert |batches[n]| > 0;
      }
    }
  }

  /** `translateNativeEntries`: if it returns, every entry got exactly one translation, fit for its source, and no
      other id got one; the entries cost at most four prompts each. */
  method TranslateNativeEntries(provider: Provider, entries: seq<Item>, budget: int)
    returns (r: Option<map<string, string>>, ghost batches: seq<seq<Item>>, prompts: nat)
    ensures IsPartition(batches, entries, budget)
    ensures forall other :: IsPartition(other, entries, budget) ==> |batches| <= |other|
    ensures (r, prompts) == TranslationOfAll(provider, batches, 0)
    ensures r.Some? ==> Complete(entries, r.value)
    ensures prompts <= 4 * |entries| - 2 * |batches|
  {
    var todo := BuildTranslationBatches(entries, budget);
    batches := todo;
    assert forall batch <- todo :: |batch| > 0 by { assert forall batch <- todo :: Fits(batch, budget); }
    var translated: map<string, string> := map[];
    prompts := 0;
    AllComplete(provider, todo, 0);
    for i := 0 to |todo|
      invariant (Some(translated), prompts) == TranslationOfAll(provider, todo[..i], 0)
    {
      assert todo[..i + 1][..i] == todo[..i];
      var result;
      result, prompts := TranslateBatch(provider, todo[i], prompts);
      if result.None? {
        FailureStays(provider, todo, i + 1, 0);
        return None, batches, prompts;
      }
      translated := translated + result.value;
    }
    assert todo[..|todo|] == todo;
    return Some(translated), batches, prompts;
  }

  lemma {:induction false} FailureStays(provider: Provider, batches: seq<seq<Item>>, i: nat, start: nat)
    requires forall batch <- batches :: |batch| > 0
    requires i <= |batches| && TranslationOfAll(provider, batches[..i], start).0.None?
    ensures TranslationOfAll(provider, batches, start) == TranslationOfAll(provider, batches[..i], start)
    decreases |batches|
  {
    if i == |batches| {
      assert batches[..i] == batches;
    } else {
      var n := |batches| - 1;
      assert batches[..n][..i] == batches[..i];
      FailureStays(provider, batches[..n], i, start);
    }
  }
}
