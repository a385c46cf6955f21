/** Building the iOS string catalog (scripts/apple-app-i18n.ts), and the choice among competing translations that it
    shares with scripts/android-app-i18n.ts. */
module AppleCatalog {
  import opened Lists
  import opened Sorting
  import opened Text

  function Occurrences(values: seq<string>, v: string): nat { multiset(values)[v] }

  /** The comparator of `chooseTranslation`: the untranslated source last, then the most frequent, then by
      code units. */
  predicate Better(source: string, values: seq<string>, a: string, b: string) {
    var (pa, pb) := (a == source, b == source);
    || (!pa && pb)
    || (pa == pb && (Occurrences(values, a) > Occurrences(values, b)
                     || (Occurrences(values, a) == Occurrences(values, b) && StringLess(a, b))))
  }

  /** The comparator of `selectDeterministicTranslation`. */
  predicate MoreFrequent(values: seq<string>, a: string, b: string) {
    || Occurrences(values, a) > Occurrences(values, b)
    || (Occurrences(values, a) == Occurrences(values, b) && StringLess(a, b))
  }

  lemma MoreFrequentIsOrder(values: seq<string>)
    ensures StrictTotalOrder((a, b) => MoreFrequent(values, a, b))
  {
    forall a ensures !MoreFrequent(values, a, a) {
      StringLessIrreflexive(a);
    }
    forall a, b ensures MoreFrequent(values, a, b) || a == b || MoreFrequent(values, b, a) {
      StringLessTotal(a, b);
    }
    forall a, b, c | MoreFrequent(values, a, b) && MoreFrequent(values, b, c) ensures MoreFrequent(values, a, c) {
      if StringLess(a, b) && StringLess(b, c) {
        StringLessTransitive(a, b, c);
      }
    }
  }

  lemma BetterIsOrder(source: string, values: seq<string>)
    ensures StrictTotalOrder((a, b) => Better(source, values, a, b))
  {
    MoreFrequentIsOrder(values);
    var frequent := (a, b) => MoreFrequent(values, a, b);
    assert forall a, b :: Better(source, values, a, b) <==>
             (a != source && b == source) || ((a == source) == (b == source) && frequent(a, b));
  }

  /** A candidate that beats every other one. */
  ghost predicate IsBest(source: string, values: seq<string>, v: string) {
    v in values && forall w <- values :: w == v || Better(source, values, v, w)
  }

  lemma BestIsUnique(source: string, values: seq<string>, v: string, w: string)
    requires IsBest(source, values, v) && IsBest(source, values, w)
    ensures v == w
  {
    BetterIsOrder(source, values);
    var less := (a, b) => Better(source, values, a, b);
    assert less(v, w) && less(w, v) ==> less(v, v);
  }

  /** What is chosen depends only on how often each value occurs. */
  lemma BestIgnoresOrder(source: string, a: seq<string>, b: seq<string>, v: string)
    requires multiset(a) == multiset(b) && IsBest(source, a, v)
    ensures IsBest(source, b, v)
  {
    SameElements(a, b);
  }

  /** `new Map` of counts, as its entries in insertion order. */
  method CountValues(values: seq<string>) returns (keys: seq<string>, counts: map<string, nat>)
    ensures forall v :: v in keys <==> v in values
    ensures keys == [] <==> values == []
    ensures forall v :: v in counts <==> v in values
    ensures forall v <- counts :: counts[v] == Occurrences(values, v)
  {
    keys := [];
    counts := map[];
    for i := 0 to |values|
      invariant forall v :: v in keys <==> v in values[..i]
      invariant keys == [] <==> i == 0
      invariant forall v :: v in counts <==> v in values[..i]
      invariant forall v <- counts :: counts[v] == Occurrences(values[..i], v)
    {
      var v := values[i];
      assert values[..i + 1] == values[..i] + [v];
      if v !in counts {
        keys := keys + [v];
      }
      counts := counts[v := (if v in counts then counts[v] else 0) + 1];
    }
    assert values[..|values|] == values;
  }

  /** The translation for a source among its candidates; the source itself when there is none. */
  ghost function Chosen(source: string, values: seq<string>): (r: string)
    ensures values == [] ==> r == source
    ensures values != [] ==> IsBest(source, values, r)
  {
    if values == [] then source
    else
      BestExists(source, values);
      var v :| IsBest(source, values, v);
      v
  }

  lemma BestExists(source: string, values: seq<string>)
    requires values != []
    ensures exists v :: IsBest(source, values, v)
  {
    var less := (a, b) => Better(source, values, a, b);
    BetterIsOrder(source, values);
    SortedFirst(less, values);
    assert IsBest(source, values, SortBy(less, values)[0]);
  }

  /** `chooseTranslation`. */
  method ChooseTranslation(source: string, translations: seq<string>) returns (r: string)
    ensures r == Chosen(source, translations)
  {
    var keys, counts := CountValues(translations);
    if keys == [] {
      return source;
    }
    var less := (a, b) => Better(source, translations, a, b);
    BetterIsOrder(source, translations);
    SortedFirst(less, keys);
    r := SortBy(less, keys)[0];
    assert IsBest(source, translations, r);
    BestIsUnique(source, translations, r, Chosen(source, translations));
  }

  /** The values that differ from the source, in order. */
  function Translated(source: string, values: seq<string>): (r: seq<string>)
    ensures forall v :: v in r <==> v in values && v != source
  {
    if values == [] then []
    else
      var n := |values| - 1;
      assert values == values[..n] + [values[n]];
      Translated(source, values[..n]) + (if values[n] != source then [values[n]] else [])
  }

  lemma {:induction false} TranslatedCounts(source: string, values: seq<string>, v: string)
    requires v != source
    ensures Occurrences(Translated(source, values), v) == Occurrences(values, v)
  {
    if values != [] {
      var n := |values| - 1;
      assert values == values[..n] + [values[n]];
      TranslatedCounts(source, values[..n], v);
    }
  }

  function Candidates(source: string, values: seq<string>): seq<string> {
    if |Translated(source, values)| > 0 then Translated(source, values) else values
  }

  /** A candidate that is more frequent, or as frequent and smaller, than every other one. */
  ghost predicate IsMostFrequent(candidates: seq<string>, v: string) {
    v in candidates && forall w <- candidates :: w == v || MoreFrequent(candidates, v, w)
  }

  /** Android's choice: the source is a candidate only when there is no other; "" without candidates. */
  ghost function Selected(source: string, values: seq<string>): (r: string)
    ensures values == [] ==> r == ""
    ensures values != [] ==> IsMostFrequent(Candidates(source, values), r)
  {
    if values == [] then ""
    else
      MostFrequentExists(Candidates(source, values));
      var v :| IsMostFrequent(Candidates(source, values), v);
      v
  }

  lemma MostFrequentExists(candidates: seq<string>)
    requires candidates != []
    ensures exists v :: IsMostFrequent(candidates, v)
  {
    var less := (a, b) => MoreFrequent(candidates, a, b);
    MoreFrequentIsOrder(candidates);
    SortedFirst(less, candidates);
    assert IsMostFrequent(candidates, SortBy(less, candidates)[0]);
  }

  lemma MostFrequentIsUnique(candidates: seq<string>, v: string, w: string)
    requires IsMostFrequent(candidates, v) && IsMostFrequent(candidates, w)
    ensures v == w
  {
    MoreFrequentIsOrder(candidates);
    var less := (a, b) => MoreFrequent(candidates, a, b);
    assert less(v, w) && less(w, v) ==> less(v, v);
  }

  /** `selectDeterministicTranslation`. */
  method SelectDeterministicTranslation(source: string, values: seq<string>) returns (r: string)
    ensures r == Selected(source, values)
  {
    var translated := Translated(source, values);
    var candidates := if |translated| > 0 then translated else values;
    var keys, counts := CountValues(candidates);
    if keys == [] {
      return "";
    }
    var less := (a, b) => MoreFrequent(candidates, a, b);
    MoreFrequentIsOrder(candidates);
    SortedFirst(less, keys);
    r := SortBy(less, keys)[0];
    assert IsMostFrequent(candidates, r);
    MostFrequentIsUnique(candidates, r, Selected(source, values));
  }

  lemma SelectedIsBest(source: string, values: seq<string>, v: string)
    requires IsMostFrequent(Candidates(source, values), v)
    ensures IsBest(source, values, v)
  {
    var translated := Translated(source, values);
    if |translated| > 0 {
      forall w | w in values && w != v ensures Better(source, values, v, w) {
        TranslatedCounts(source, values, v);
        if w != source {
          TranslatedCounts(source, values, w);
        }
      }
    } else {
      assert forall x <- values :: x != source ==> x in translated;
    }
  }

  /** The two scripts choose alike, whatever the candidates; only without any candidate they differ, unless the source
      is empty. */
  lemma ChoicesAgree(source: string, values: seq<string>)
    ensures Chosen(source, values) == Selected(source, values) <==> values != [] || source == ""
  {
    if values != [] {
      SelectedIsBest(source, values, Selected(source, values));
      BestIsUnique(source, values, Selected(source, values), Chosen(source, values));
    }
  }

  /** Shuffled candidates lead to the same choice. */
  lemma ChoiceIgnoresOrder(source: string, a: seq<string>, b: seq<string>)
    requires multiset(a) == multiset(b)
    ensures Chosen(source, a) == Chosen(source, b)
  {
    if a != [] {
      assert a[0] in multiset(b);
      BestIgnoresOrder(source, a, b, Chosen(source, a));
      BestIsUnique(source, b, Chosen(source, a), Chosen(source, b));
    } else {
      assert b == [] by { assert |multiset(b)| == 0; }
    }
  }

  datatype StringUnit = StringUnit(state: string, value: string)

  /** Source to locale to unit; missing parts of the catalog are missing keys. */
  type Catalog = map<string, map<string, StringUnit>>

  datatype NativeEntry = NativeEntry(id: string, source: string)

  datatype Translation = Translation(id: string, source: string, translated: string)

  datatype Artifact = Artifact(locale: string, entries: seq<Translation>)

  /** What the build is run with. `catalogValue` stands for `appleCatalogValue`, `isCatalogEntry` for
      `isIosCatalogEntry` on the inventory's entries; both are any functions. */
  datatype Inputs = Inputs(
    catalogValue: string -> string,
    isCatalogEntry: NativeEntry -> bool,
    inventory: seq<NativeEntry>,
    artifacts: seq<Artifact>,
    requiredLocales: seq<string>)

  /** The catalog keys of the inventory, and the ids behind each. */
  function Sources(inputs: Inputs): set<string> {
    set e <- inputs.inventory | inputs.isCatalogEntry(e) :: inputs.catalogValue(e.source)
  }

  predicate IsAppleId(inputs: Inputs, source: string, id: string) {
    exists e <- inputs.inventory :: inputs.isCatalogEntry(e) && inputs.catalogValue(e.source) == source && e.id == id
  }

  /** What one artifact entry offers for a source: one value or none. */
  function Offer(inputs: Inputs, e: Translation, source: string): seq<string> {
    if inputs.catalogValue(e.source) == source && source in Sources(inputs) && IsAppleId(inputs, source, e.id)
    then [inputs.catalogValue(e.translated)] else []
  }

  /** The translations one artifact offers for a source, in order. */
  function Offers(inputs: Inputs, entries: seq<Translation>, source: string): seq<string> {
    Collect(e => Offer(inputs, e, source), entries)
  }

  /** `translationsByLocale.get(locale)?.get(source) ?? []`: the last artifact of a locale counts. */
  function OffersFor(inputs: Inputs, artifacts: seq<Artifact>, locale: string, source: string): seq<string> {
    if artifacts == [] then []
    else
      var n := |artifacts| - 1;
      if artifacts[n].locale == locale then Offers(inputs, artifacts[n].entries, source)
      else OffersFor(inputs, artifacts[..n], locale, source)
  }

  function Unit(catalog: Catalog, source: string, locale: string): Option<StringUnit> {
    if source in catalog && locale in catalog[source] then Some(catalog[source][locale]) else None
  }

  /** A shipped translation: state `translated` and a value that is not empty. */
  predicate Shipped(unit: Option<StringUnit>) {
    unit.Some? && unit.value.state == "translated" && unit.value.value != ""
  }

  /** The unit of one source and locale in the new catalog. */
  ghost function NextUnit(inputs: Inputs, existing: Catalog, source: string, locale: string): StringUnit {
    var unit := Unit(existing, source, locale);
    if Shipped(unit) then unit.value
    else if locale == "en" then StringUnit("translated", source)
    else
      var value := Chosen(source, OffersFor(inputs, inputs.artifacts, locale, source));
      StringUnit(if value == source then "new" else "translated", value)
  }

  /** The localizations of one source. */
  ghost function Localizations(inputs: Inputs, existing: Catalog, source: string): map<string, StringUnit> {
    map locale | locale in inputs.requiredLocales :: NextUnit(inputs, existing, source, locale)
  }

  ghost function NextCatalog(inputs: Inputs, existing: Catalog): Catalog {
    map source | source in Sources(inputs) :: Localizations(inputs, existing, source)
  }

  /** A reported contradiction: the distinct translations offered for one source in one locale, sorted. */
  datatype Contradiction = Contradiction(locale: string, source: string, translations: seq<string>)

  datatype ConflictKey = ConflictKey(source: string, locale: string)

  /** The comparator of the report: source, then locale. */
  predicate KeyLess(a: ConflictKey, b: ConflictKey) {
    StringLess(a.source, b.source) || (a.source == b.source && StringLess(a.locale, b.locale))
  }

  predicate ContradictionLess(a: Contradiction, b: Contradiction) {
    KeyLess(ConflictKey(a.source, a.locale), ConflictKey(b.source, b.locale))
  }

  function DistinctOffers(inputs: Inputs, source: string, locale: string): seq<string> {
    SortStrings(Distinct(OffersFor(inputs, inputs.artifacts, locale, source)))
  }

  function Found(inputs: Inputs, key: ConflictKey): Contradiction {
    Contradiction(key.locale, key.source, DistinctOffers(inputs, key.source, key.locale))
  }

  /** What one source and locale add to the report. */
  function KeyOf(inputs: Inputs, source: string, locale: string): seq<ConflictKey> {
    if |DistinctOffers(inputs, source, locale)| > 1 then [ConflictKey(source, locale)] else []
  }

  function KeysOf(inputs: Inputs, source: string): seq<ConflictKey> {
    Collect(locale => KeyOf(inputs, source, locale), inputs.requiredLocales)
  }

  function Keys(inputs: Inputs, sources: seq<string>): seq<ConflictKey> {
    Collect(source => KeysOf(inputs, source), sources)
  }

  /** The values of the catalog's inventory entries, in order. */
  function CatalogValues(inputs: Inputs): seq<string> {
    Collect(e => if inputs.isCatalogEntry(e) then [inputs.catalogValue(e.source)] else [], inputs.inventory)
  }

  /** The catalog keys, sorted. */
  function SourceList(inputs: Inputs): seq<string> { SortStrings(Distinct(CatalogValues(inputs))) }

  function AllFound(inputs: Inputs, keys: seq<ConflictKey>): (r: seq<Contradiction>)
    ensures |r| == |keys| && forall k :: 0 <= k < |r| ==> r[k] == Found(inputs, keys[k])
  {
    seq(|keys|, k requires 0 <= k < |keys| => Found(inputs, keys[k]))
  }

  /** The report: every contradiction, by source and locale. */
  function Contradictions(inputs: Inputs): seq<Contradiction> {
    AllFound(inputs, SortKeys(Keys(inputs, SourceList(inputs))))
  }

  function SortKeys(keys: seq<ConflictKey>): seq<ConflictKey> { SortBy((a, b) => KeyLess(a, b), keys) }

  function SortContradictions(found: seq<Contradiction>): seq<Contradiction> {
    SortBy((a, b) => ContradictionLess(a, b), found)
  }

  lemma FoundCons(inputs: Inputs, key: ConflictKey, keys: seq<ConflictKey>)
    ensures AllFound(inputs, [key] + keys) == [Found(inputs, key)] + AllFound(inputs, keys)
  {
  }

  lemma FoundOrder(inputs: Inputs, a: ConflictKey, b: ConflictKey)
    ensures ContradictionLess(Found(inputs, a), Found(inputs, b)) == KeyLess(a, b)
  {
  }

  lemma {:induction false} InsertFound(inputs: Inputs, key: ConflictKey, keys: seq<ConflictKey>)
    ensures Insert((a, b) => ContradictionLess(a, b), Found(inputs, key), AllFound(inputs, keys))
         == AllFound(inputs, Insert((a, b) => KeyLess(a, b), key, keys))
  {
    hide KeyLess, ContradictionLess, Found, AllFound;
    if keys == [] {
      FoundCons(inputs, key, []);
      assert [key] + [] == [key];
    } else {
      var head, tail := keys[0], keys[1..];
      assert keys == [head] + tail;
      FoundCons(inputs, head, tail);
      FoundOrder(inputs, key, head);
      assert AllFound(inputs, keys)[1..] == AllFound(inputs, tail);
      if KeyLess(key, head) {
        FoundCons(inputs, key, keys);
      } else {
        InsertFound(inputs, key, tail);
        FoundCons(inputs, head, Insert((a, b) => KeyLess(a, b), key, tail));
      }
    }
  }

  lemma FoundSnoc(inputs: Inputs, keys: seq<ConflictKey>)
    requires keys != []
    ensures var (n, found) := (|keys| - 1, AllFound(inputs, keys));
            |found| == |keys| && found[..n] == AllFound(inputs, keys[..n]) && found[n] == Found(inputs, keys[n])
  {
  }

  /** Sorting the contradictions is sorting their keys. */
  lemma {:induction false} SortFound(inputs: Inputs, keys: seq<ConflictKey>)
    ensures SortContradictions(AllFound(inputs, keys)) == AllFound(inputs, SortKeys(keys))
  {
    if keys != [] {
      hide KeyLess, ContradictionLess, Found, AllFound, Insert;
      var n := |keys| - 1;
      SortFound(inputs, keys[..n]);
      FoundSnoc(inputs, keys);
      InsertFound(inputs, keys[n], SortKeys(keys[..n]));
    } else {
      assert AllFound(inputs, keys) == [];
    }
  }

  lemma FoundConcat(inputs: Inputs, a: seq<ConflictKey>, b: seq<ConflictKey>)
    ensures AllFound(inputs, a + b) == AllFound(inputs, a) + AllFound(inputs, b)
  {
  }

  lemma {:induction false} CatalogValuesMeaning(inputs: Inputs, entries: seq<NativeEntry>, v: string)
    ensures v in Collect(e => if inputs.isCatalogEntry(e) then [inputs.catalogValue(e.source)] else [], entries) <==>
            exists e <- entries :: inputs.isCatalogEntry(e) && inputs.catalogValue(e.source) == v
  {
    if entries != [] {
      var n := |entries| - 1;
      CatalogValuesMeaning(inputs, entries[..n], v);
      assert entries == entries[..n] + [entries[n]];
    }
  }

  /** The sorted sources are the catalog keys, each once. */
  lemma SourceListMeaning(inputs: Inputs)
    ensures forall v :: v in SourceList(inputs) <==> v in Sources(inputs)
    ensures Increasing(SourceList(inputs))
  {
    hide SortStrings, Distinct;
    SortedDistinctMeaning(CatalogValues(inputs));
    forall v ensures v in SourceList(inputs) <==> v in Sources(inputs) {
      CatalogValuesMeaning(inputs, inputs.inventory, v);
    }
  }

  /** `buildIosCatalog`: the loops over sources and locales that fill the catalog and report contradictions. */
  method BuildIosCatalog(inputs: Inputs, existing: Catalog)
    returns (catalog: Catalog, contradictions: seq<Contradiction>)
    ensures catalog == NextCatalog(inputs, existing) && contradictions == Contradictions(inputs)
  {
    hide Localizations, Sources, SourceList, KeysOf, Found, SortContradictions, SortKeys;
    var sources := SourceList(inputs);
    catalog := map[];
    contradictions := [];
    for i := 0 to |sources|
      invariant forall v :: v in catalog <==> v in sources[..i]
      invariant forall v <- catalog :: catalog[v] == Localizations(inputs, existing, v)
      invariant contradictions == AllFound(inputs, Keys(inputs, sources[..i]))
    {
      var source := sources[i];
      var localizations, conflicts := BuildLocalizations(inputs, existing, source);
      assert sources[..i + 1] == sources[..i] + [source];
      CollectSnoc(v => KeysOf(inputs, v), sources[..i], source);
      FoundConcat(inputs, Keys(inputs, sources[..i]), KeysOf(inputs, source));
      catalog := catalog[source := localizations];
      contradictions := contradictions + conflicts;
    }
    assert sources[..|sources|] == sources;
    SourceListMeaning(inputs);
    SortFound(inputs, Keys(inputs, sources));
    contradictions := SortContradictions(contradictions);
  }

  method BuildLocalizations(inputs: Inputs, existing: Catalog, source: string)
    returns (localizations: map<string, StringUnit>, conflicts: seq<Contradiction>)
    ensures localizations == Localizations(inputs, existing, source)
    ensures conflicts == AllFound(inputs, KeysOf(inputs, source))
  {
    hide DistinctOffers, OffersFor, FoundIn, Distinct, SortStrings, KeysOf, AllFound;
    var locales := inputs.requiredLocales;
    FoundInAll(inputs, source);
    localizations := map[];
    conflicts := [];
    for i := 0 to |locales|
      invariant forall l :: l in localizations <==> l in locales[..i]
      invariant forall l <- localizations :: localizations[l] == NextUnit(inputs, existing, source, l)
      invariant conflicts == FoundIn(inputs, source, locales[..i])
    {
      var locale := locales[i];
      assert locales[..i + 1] == locales[..i] + [locale];
      FoundInNext(inputs, source, locales[..i], locale);
      var candidates := OffersFor(inputs, inputs.artifacts, locale, source);
      var distinct := SortStrings(Distinct(candidates));
      assert distinct == DistinctOffers(inputs, source, locale) by { OffersAre(inputs, source, locale); }
      if |distinct| > 1 {
        conflicts := conflicts + [Contradiction(locale, source, distinct)];
      }
      var existingUnit := Unit(existing, source, locale);
      if existingUnit.Some? && existingUnit.value.value != "" && existingUnit.value.state == "translated" {
        localizations := localizations[locale := existingUnit.value];
        continue;
      }
      if locale == "en" {
        localizations := localizations[locale := StringUnit("translated", source)];
        continue;
      }
      var value := ChooseTranslation(source, candidates);
      localizations := localizations[locale := StringUnit(if value == source then "new" else "translated", value)];
    }
    assert locales[..|locales|] == locales;
  }

  lemma OffersAre(inputs: Inputs, source: string, locale: string)
    ensures DistinctOffers(inputs, source, locale)
         == SortStrings(Distinct(OffersFor(inputs, inputs.artifacts, locale, source)))
  {
  }

  /** What one source adds to the report for some of the locales. */
  function FoundIn(inputs: Inputs, source: string, locales: seq<string>): seq<Contradiction> {
    AllFound(inputs, Collect(l => KeyOf(inputs, source, l), locales))
  }

  lemma FoundInAll(inputs: Inputs, source: string)
    ensures FoundIn(inputs, source, inputs.requiredLocales[..0]) == []
    ensures FoundIn(inputs, source, inputs.requiredLocales) == AllFound(inputs, KeysOf(inputs, source))
  {
  }

  lemma FoundInNext(inputs: Inputs, source: string, before: seq<string>, locale: string)
    ensures FoundIn(inputs, source, before + [locale]) == FoundIn(inputs, source, before)
            + if |DistinctOffers(inputs, source, locale)| > 1
              then [Contradiction(locale, source, DistinctOffers(inputs, source, locale))] else []
  {
    hide DistinctOffers;
    CollectSnoc(l => KeyOf(inputs, source, l), before, locale);
    FoundConcat(inputs, Collect(l => KeyOf(inputs, source, l), before), KeyOf(inputs, source, locale));
  }

  lemma KeysMeaning(inputs: Inputs, key: ConflictKey)
    ensures key in Keys(inputs, SourceList(inputs)) <==>
            && key.source in Sources(inputs) && key.locale in inputs.requiredLocales
            && |DistinctOffers(inputs, key.source, key.locale)| > 1
  {
    hide DistinctOffers, SourceList, Sources;
    SourceListMeaning(inputs);
    CollectedFrom(source => KeysOf(inputs, source), SourceList(inputs), key);
    forall source ensures key in KeysOf(inputs, source) <==>
                            source == key.source && key.locale in inputs.requiredLocales
                            && |DistinctOffers(inputs, key.source, key.locale)| > 1
    {
      CollectedFrom(locale => KeyOf(inputs, source, locale), inputs.requiredLocales, key);
    }
  }

  /** The report holds exactly the sources and locales with more than one distinct offer, each with its offers in order,
      and is sorted by source and locale. */
  lemma ReportMeaning(inputs: Inputs)
    ensures forall x :: x in Contradictions(inputs) <==>
              && x.source in Sources(inputs) && x.locale in inputs.requiredLocales
              && x.translations == DistinctOffers(inputs, x.source, x.locale) && |x.translations| > 1
    ensures forall x <- Contradictions(inputs) ::
              && Increasing(x.translations)
              && forall v :: v in x.translations <==> v in OffersFor(inputs, inputs.artifacts, x.locale, x.source)
    ensures Sorted((a, b) => ContradictionLess(a, b), Contradictions(inputs))
  {
    var keys := Keys(inputs, SourceList(inputs));
    var sorted := SortKeys(keys);
    KeyOrder();
    SortBySorts((a, b) => KeyLess(a, b), keys);
    SameElements(keys, sorted);
    hide Keys, SourceList, SortKeys, KeyLess, Sources, OffersFor, Increasing;
    var report := Contradictions(inputs);
    assert report == AllFound(inputs, sorted);
    forall x ensures x in report <==>
                       && x.source in Sources(inputs) && x.locale in inputs.requiredLocales
                       && x.translations == DistinctOffers(inputs, x.source, x.locale) && |x.translations| > 1
    {
      KeysMeaning(inputs, ConflictKey(x.source, x.locale));
      InReport(inputs, sorted, x);
    }
    forall x | x in report
      ensures Increasing(x.translations)
      ensures forall v :: v in x.translations <==> v in OffersFor(inputs, inputs.artifacts, x.locale, x.source)
    {
      SortedDistinctMeaning(OffersFor(inputs, inputs.artifacts, x.locale, x.source));
    }
  }

  lemma InReport(inputs: Inputs, keys: seq<ConflictKey>, x: Contradiction)
    ensures x in AllFound(inputs, keys) <==>
            ConflictKey(x.source, x.locale) in keys && x.translations == DistinctOffers(inputs, x.source, x.locale)
  {
    hide DistinctOffers;
    var found := AllFound(inputs, keys);
    if ConflictKey(x.source, x.locale) in keys && x.translations == DistinctOffers(inputs, x.source, x.locale) {
      var k :| 0 <= k < |keys| && keys[k] == ConflictKey(x.source, x.locale);
      assert found[k] == x;
    }
    if x in found {
      var k :| 0 <= k < |found| && found[k] == x;
      assert keys[k] in keys;
    }
  }

  /** Building is a fixpoint: run on its own output with the same inputs it changes nothing. */
  lemma BuildIsFixpoint(inputs: Inputs, existing: Catalog)
    ensures NextCatalog(inputs, NextCatalog(inputs, existing)) == NextCatalog(inputs, existing)
  {
    hide Sources, Chosen, OffersFor;
    var once := NextCatalog(inputs, existing);
    forall source | source in Sources(inputs)
      ensures Localizations(inputs, once, source) == Localizations(inputs, existing, source)
    {
      forall locale | locale in inputs.requiredLocales
        ensures NextUnit(inputs, once, source, locale) == NextUnit(inputs, existing, source, locale)
      {
        RebuiltUnit(inputs, existing, source, locale);
      }
    }
  }

  /** The unit a build put into the catalog is the one the next build puts there. */
  lemma RebuiltUnit(inputs: Inputs, existing: Catalog, source: string, locale: string)
    requires source in Sources(inputs) && locale in inputs.requiredLocales
    ensures var once := NextCatalog(inputs, existing);
            NextUnit(inputs, once, source, locale) == NextUnit(inputs, existing, source, locale)
  {
  }

  /** A shipped translation is never overwritten, by any number of builds with any inputs, as long as its source is in
      the inventory and its locale is required. */
  lemma {:induction false} ShippedStays(runs: seq<Inputs>, existing: Catalog, source: string, locale: string)
    requires Shipped(Unit(existing, source, locale))
    requires forall inputs <- runs :: source in Sources(inputs) && locale in inputs.requiredLocales
    ensures Unit(Builds(runs, existing), source, locale) == Unit(existing, source, locale)
  {
    if runs != [] {
      var n := |runs| - 1;
      ShippedStays(runs[..n], existing, source, locale);
      assert runs[n] in runs;
    }
  }

  /** The catalog after a run of builds, each on the output of the one before. */
  ghost function Builds(runs: seq<Inputs>, existing: Catalog): Catalog {
    if runs == [] then existing else NextCatalog(runs[|runs| - 1], Builds(runs[..|runs| - 1], existing))
  }

  /** The entries of the artifact that counts for a locale: the last one. */
  function EntriesOf(artifacts: seq<Artifact>, locale: string): Option<seq<Translation>> {
    if artifacts == [] then None
    else
      var n := |artifacts| - 1;
      if artifacts[n].locale == locale then Some(artifacts[n].entries) else EntriesOf(artifacts[..n], locale)
  }

  /** The same entries, in any order. */
  ghost predicate Shuffled(a: Option<seq<Translation>>, b: Option<seq<Translation>>) {
    a.Some? == b.Some? && (a.Some? ==> multiset(a.value) == multiset(b.value))
  }

  /** Reordered inputs: the inventory and the required locales in any order, and for every locale an artifact that
      counts with the same entries in any order. */
  ghost predicate Reordered(a: Inputs, b: Inputs) {
    && a.catalogValue == b.catalogValue && a.isCatalogEntry == b.isCatalogEntry
    && multiset(a.requiredLocales) == multiset(b.requiredLocales)
    && multiset(a.inventory) == multiset(b.inventory)
    && forall locale :: Shuffled(EntriesOf(a.artifacts, locale), EntriesOf(b.artifacts, locale))
  }

  lemma SameInventory(a: Inputs, b: Inputs)
    requires Reordered(a, b)
    ensures Sources(a) == Sources(b) && forall source, id :: IsAppleId(a, source, id) == IsAppleId(b, source, id)
  {
    SameElements(a.inventory, b.inventory);
  }

  lemma OffersOfReordered(a: Inputs, b: Inputs, x: seq<Translation>, y: seq<Translation>, source: string)
    requires Reordered(a, b) && multiset(x) == multiset(y)
    ensures multiset(Offers(a, x, source)) == multiset(Offers(b, y, source))
  {
    SameInventory(a, b);
    CollectShuffled(e => Offer(a, e, source), x, y);
    CollectSame(e => Offer(a, e, source), e => Offer(b, e, source), y);
  }

  lemma {:induction false} OffersForEntries(inputs: Inputs, artifacts: seq<Artifact>, locale: string, source: string)
    ensures OffersFor(inputs, artifacts, locale, source) ==
            match EntriesOf(artifacts, locale) case None => [] case Some(entries) => Offers(inputs, entries, source)
  {
    if artifacts != [] {
      OffersForEntries(inputs, artifacts[..|artifacts| - 1], locale, source);
    }
  }

  lemma OffersForReordered(a: Inputs, b: Inputs, locale: string, source: string)
    requires Reordered(a, b)
    ensures multiset(OffersFor(a, a.artifacts, locale, source)) == multiset(OffersFor(b, b.artifacts, locale, source))
  {
    OffersForEntries(a, a.artifacts, locale, source);
    OffersForEntries(b, b.artifacts, locale, source);
    var x, y := EntriesOf(a.artifacts, locale), EntriesOf(b.artifacts, locale);
    hide OffersFor, EntriesOf, Offers;
    assert Shuffled(x, y);
    if x.Some? {
      OffersOfReordered(a, b, x.value, y.value, source);
    }
  }

  /** Building is order-free: reordering the inventory, the required locales and the entries of the artifacts that
      count changes neither the catalog nor the reported contradictions. */
  lemma BuildIgnoresOrder(a: Inputs, b: Inputs, existing: Catalog)
    requires Reordered(a, b)
    ensures NextCatalog(a, existing) == NextCatalog(b, existing) && Contradictions(a) == Contradictions(b)
  {
    ReportIgnoresOrder(a, b);
    assert Sources(a) == Sources(b) by { SameInventory(a, b); }
    hide Sources, Reordered, Localizations, Contradictions;
    forall source | source in Sources(a)
      ensures Localizations(a, existing, source) == Localizations(b, existing, source)
    {
      LocalizationsIgnoreOrder(a, b, existing, source);
    }
  }

  lemma LocalizationsIgnoreOrder(a: Inputs, b: Inputs, existing: Catalog, source: string)
    requires Reordered(a, b)
    ensures Localizations(a, existing, source) == Localizations(b, existing, source)
  {
    hide Reordered, NextUnit;
    SameLocales(a, b);
    forall locale | locale in a.requiredLocales
      ensures NextUnit(a, existing, source, locale) == NextUnit(b, existing, source, locale)
    {
      UnitIgnoresOrder(a, b, existing, source, locale);
    }
  }

  lemma KeyOrder()
    ensures StrictTotalOrder((a, b) => KeyLess(a, b))
  {
    forall a ensures !KeyLess(a, a) {
      StringLessIrreflexive(a.source);
      StringLessIrreflexive(a.locale);
    }
    forall a, b ensures KeyLess(a, b) || a == b || KeyLess(b, a) {
      StringLessTotal(a.source, b.source);
      StringLessTotal(a.locale, b.locale);
    }
    forall a, b, c | KeyLess(a, b) && KeyLess(b, c) ensures KeyLess(a, c) {
      if StringLess(a.source, b.source) && StringLess(b.source, c.source) {
        StringLessTransitive(a.source, b.source, c.source);
      } else if StringLess(a.locale, b.locale) && StringLess(b.locale, c.locale) {
        StringLessTransitive(a.locale, b.locale, c.locale);
      }
    }
  }

  lemma OffersIgnoreOrder(a: Inputs, b: Inputs, source: string, locale: string)
    requires Reordered(a, b)
    ensures DistinctOffers(a, source, locale) == DistinctOffers(b, source, locale)
    ensures KeyOf(a, source, locale) == KeyOf(b, source, locale)
  {
    OffersForReordered(a, b, locale, source);
    var va, vb := OffersFor(a, a.artifacts, locale, source), OffersFor(b, b.artifacts, locale, source);
    hide OffersFor, Reordered;
    SameElements(va, vb);
    SortedDistinctOfSame(va, vb);
  }

  lemma SourcesIgnoreOrder(a: Inputs, b: Inputs)
    requires Reordered(a, b)
    ensures SourceList(a) == SourceList(b)
  {
    SameElements(a.inventory, b.inventory);
    forall v ensures v in CatalogValues(a) <==> v in CatalogValues(b) {
      CatalogValuesMeaning(a, a.inventory, v);
      CatalogValuesMeaning(b, b.inventory, v);
    }
    SortedDistinctOfSame(CatalogValues(a), CatalogValues(b));
  }

  lemma {:induction false} KeysIgnoreOrder(a: Inputs, b: Inputs, sources: seq<string>)
    requires Reordered(a, b)
    ensures multiset(Keys(a, sources)) == multiset(Keys(b, sources))
  {
    if sources != [] {
      var n, source := |sources| - 1, sources[|sources| - 1];
      KeysIgnoreOrder(a, b, sources[..n]);
      CollectShuffled(l => KeyOf(a, source, l), a.requiredLocales, b.requiredLocales);
      forall l ensures KeyOf(a, source, l) == KeyOf(b, source, l) {
        OffersIgnoreOrder(a, b, source, l);
      }
      CollectSame(l => KeyOf(a, source, l), l => KeyOf(b, source, l), b.requiredLocales);
    }
  }

  /** The report lists the same contradictions in the same order. */
  lemma ReportIgnoresOrder(a: Inputs, b: Inputs)
    requires Reordered(a, b)
    ensures Contradictions(a) == Contradictions(b)
  {
    SourcesIgnoreOrder(a, b);
    var keysA, keysB := Keys(a, SourceList(a)), Keys(b, SourceList(a));
    KeysIgnoreOrder(a, b, SourceList(a));
    KeyOrder();
    SortIgnoresOrder((x, y) => KeyLess(x, y), keysA, keysB);
    hide Keys, SourceList, KeyLess, DistinctOffers, Reordered;
    var keys := SortKeys(keysA);
    assert keys == SortKeys(keysB);
    forall k | 0 <= k < |keys| ensures AllFound(a, keys)[k] == AllFound(b, keys)[k] {
      OffersIgnoreOrder(a, b, keys[k].source, keys[k].locale);
    }
  }

  lemma SameLocales(a: Inputs, b: Inputs)
    requires Reordered(a, b)
    ensures forall locale :: locale in a.requiredLocales <==> locale in b.requiredLocales
  {
    SameElements(a.requiredLocales, b.requiredLocales);
  }

  lemma UnitIgnoresOrder(a: Inputs, b: Inputs, existing: Catalog, source: string, locale: string)
    requires Reordered(a, b)
    ensures NextUnit(a, existing, source, locale) == NextUnit(b, existing, source, locale)
  {
    OffersForReordered(a, b, locale, source);
    var va, vb := OffersFor(a, a.artifacts, locale, source), OffersFor(b, b.artifacts, locale, source);
    hide OffersFor, Chosen;
    ChoiceIgnoresOrder(source, va, vb);
  }

  ghost predicate DistinctLocales(artifacts: seq<Artifact>) {
    forall i, j :: 0 <= i < |artifacts| && 0 <= j < |artifacts| && artifacts[i].locale == artifacts[j].locale ==> i == j
  }

  /** The same locales in the same order, the entries of each in any order. */
  ghost predicate EntriesShuffled(a: seq<Artifact>, b: seq<Artifact>) {
    && |a| == |b|
    && forall k :: 0 <= k < |a| ==> a[k].locale == b[k].locale && multiset(a[k].entries) == multiset(b[k].entries)
  }

  lemma {:induction false} EntriesOfFound(artifacts: seq<Artifact>, locale: string)
    ensures EntriesOf(artifacts, locale).None? ==> forall x <- artifacts :: x.locale != locale
    ensures EntriesOf(artifacts, locale).Some? ==> Artifact(locale, EntriesOf(artifacts, locale).value) in artifacts
  {
    if artifacts != [] {
      EntriesOfFound(artifacts[..|artifacts| - 1], locale);
    }
  }

  lemma {:induction false} EntriesOfShuffled(a: seq<Artifact>, b: seq<Artifact>, locale: string)
    requires EntriesShuffled(a, b)
    ensures Shuffled(EntriesOf(a, locale), EntriesOf(b, locale))
  {
    if a != [] {
      EntriesOfShuffled(a[..|a| - 1], b[..|b| - 1], locale);
    }
  }

  /** Artifacts of distinct locales count the same in any order. */
  lemma EntriesOfPermuted(a: seq<Artifact>, b: seq<Artifact>, locale: string)
    requires multiset(a) == multiset(b) && DistinctLocales(a)
    ensures EntriesOf(a, locale) == EntriesOf(b, locale)
  {
    EntriesOfFound(a, locale);
    EntriesOfFound(b, locale);
    SameElements(a, b);
    hide EntriesOf;
    var x, y := EntriesOf(a, locale), EntriesOf(b, locale);
    if x.Some? && y.Some? {
      var i :| 0 <= i < |a| && a[i] == Artifact(locale, x.value);
      var j :| 0 <= j < |a| && a[j] == Artifact(locale, y.value);
    }
  }

  /** In particular: with distinct locales the artifacts may come in any order, their entries, the inventory and the
      required locales too. */
  lemma BuildIgnoresArtifactOrder(a: Inputs, permuted: seq<Artifact>, b: Inputs, existing: Catalog)
    requires a.catalogValue == b.catalogValue && a.isCatalogEntry == b.isCatalogEntry
    requires multiset(a.requiredLocales) == multiset(b.requiredLocales)
    requires multiset(a.inventory) == multiset(b.inventory)
    requires DistinctLocales(a.artifacts) && multiset(a.artifacts) == multiset(permuted)
    requires EntriesShuffled(permuted, b.artifacts)
    ensures NextCatalog(a, existing) == NextCatalog(b, existing) && Contradictions(a) == Contradictions(b)
  {
    forall locale ensures Shuffled(EntriesOf(a.artifacts, locale), EntriesOf(b.artifacts, locale)) {
      EntriesOfPermuted(a.artifacts, permuted, locale);
      EntriesOfShuffled(permuted, b.artifacts, locale);
    }
    BuildIgnoresOrder(a, b, existing);
  }
}
