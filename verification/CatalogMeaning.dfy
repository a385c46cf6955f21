/** What a build of the iOS catalog (scripts/apple-app-i18n.ts) holds, told from the inventory, the artifacts and the
    existing catalog. */
module CatalogMeaning {
  import opened AppleCatalog
  import opened Lists
  import opened Sorting

  function Times(values: seq<string>, v: string): nat { multiset(values)[v] }

  /** The choice among candidates: the source only if there is nothing else; otherwise no other translation is more
      frequent, and as frequent ones come later by code units. */
  ghost predicate IsChoice(source: string, values: seq<string>, v: string) {
    && v in values
    && forall w <- values :: w != v && w != source ==>
         v != source && (Times(values, w) < Times(values, v)
                         || (Times(values, w) == Times(values, v) && StringLess(v, w)))
  }

  /** The Apple choice among any candidates. */
  lemma ChosenExactly(source: string, values: seq<string>, v: string)
    ensures Chosen(source, values) == v <==> if values == [] then v == source else IsChoice(source, values, v)
  {
    forall w ensures IsBest(source, values, w) <==> IsChoice(source, values, w) {
    }
    if values != [] && IsBest(source, values, v) {
      BestIsUnique(source, values, v, Chosen(source, values));
    }
  }

  /** The Android choice among any candidates. */
  lemma SelectedExactly(source: string, values: seq<string>, v: string)
    ensures Selected(source, values) == v <==> if values == [] then v == "" else IsChoice(source, values, v)
  {
    if values != [] {
      ChoicesAgree(source, values);
      ChosenExactly(source, values, v);
    }
  }

  /** The artifact of a locale that counts is the last one. */
  ghost predicate Counts(artifacts: seq<Artifact>, locale: string, n: nat) {
    && n < |artifacts| && artifacts[n].locale == locale
    && forall m :: n < m < |artifacts| ==> artifacts[m].locale != locale
  }

  /** An artifact's entry is for a catalog source if its own source has that value and the inventory has an entry with
      its id whose source has it too. */
  ghost predicate IsFor(inputs: Inputs, e: Translation, source: string) {
    && inputs.catalogValue(e.source) == source
    && exists x <- inputs.inventory ::
         inputs.isCatalogEntry(x) && inputs.catalogValue(x.source) == source && x.id == e.id
  }

  /** The values offered: those of the translations of the entries for the source, in order. */
  ghost predicate AreOffers(inputs: Inputs, entries: seq<Translation>, source: string, values: seq<string>,
                            at: seq<nat>)
  {
    && |at| == |values|
    && (forall j :: 0 <= j < |at| ==>
          at[j] < |entries| && values[j] == inputs.catalogValue(entries[at[j]].translated))
    && (forall i, j :: 0 <= i < j < |at| ==> at[i] < at[j])
    && (forall k :: 0 <= k < |entries| ==> (k in at <==> IsFor(inputs, entries[k], source)))
  }

  /** The values offered for a source in a locale; none without an artifact of the locale. */
  ghost predicate Offered(inputs: Inputs, source: string, locale: string, values: seq<string>) {
    || (exists n: nat, at: seq<nat> ::
          Counts(inputs.artifacts, locale, n) && AreOffers(inputs, inputs.artifacts[n].entries, source, values, at))
    || (values == [] && forall artifact <- inputs.artifacts :: artifact.locale != locale)
  }

  lemma OfferExactly(inputs: Inputs, e: Translation, source: string)
    ensures Offer(inputs, e, source) == if IsFor(inputs, e, source) then [inputs.catalogValue(e.translated)] else []
  {
  }

  lemma {:induction false} OffersExactly(inputs: Inputs, entries: seq<Translation>, source: string)
    returns (at: seq<nat>)
    ensures AreOffers(inputs, entries, source, Offers(inputs, entries, source), at)
  {
    at := [];
    if entries != [] {
      var n := |entries| - 1;
      at := OffersExactly(inputs, entries[..n], source);
      OfferExactly(inputs, entries[n], source);
      var values := Offers(inputs, entries[..n], source);
      hide IsFor, Offer;
      assert entries == entries[..n] + [entries[n]];
      if IsFor(inputs, entries[n], source) {
        at := OneMoreOffer(inputs, entries[..n], entries[n], source, values, at);
      }
    }
  }

  lemma OneMoreOffer(inputs: Inputs, entries: seq<Translation>, e: Translation, source: string, values: seq<string>,
                     at: seq<nat>) returns (more: seq<nat>)
    requires AreOffers(inputs, entries, source, values, at) && IsFor(inputs, e, source)
    ensures AreOffers(inputs, entries + [e], source, values + [inputs.catalogValue(e.translated)], more)
  {
    hide IsFor;
    more := at + [|entries|];
  }

  lemma {:induction false} NothingOffered(inputs: Inputs, artifacts: seq<Artifact>, locale: string, source: string)
    requires forall artifact <- artifacts :: artifact.locale != locale
    ensures OffersFor(inputs, artifacts, locale, source) == []
  {
    if artifacts != [] {
      NothingOffered(inputs, artifacts[..|artifacts| - 1], locale, source);
    }
  }

  lemma {:induction false} LastOffers(inputs: Inputs, artifacts: seq<Artifact>, locale: string, source: string, n: nat)
    requires Counts(artifacts, locale, n)
    ensures OffersFor(inputs, artifacts, locale, source) == Offers(inputs, artifacts[n].entries, source)
  {
    hide Offers;
    var last := |artifacts| - 1;
    if n < last {
      assert artifacts[last].locale != locale;
      LastOffers(inputs, artifacts[..last], locale, source, n);
    }
  }

  lemma {:induction false} LastCounts(artifacts: seq<Artifact>, locale: string) returns (n: nat)
    requires exists artifact <- artifacts :: artifact.locale == locale
    ensures Counts(artifacts, locale, n)
  {
    n := |artifacts| - 1;
    if artifacts[n].locale != locale {
      assert artifacts == artifacts[..n] + [artifacts[n]];
      n := LastCounts(artifacts[..n], locale);
    }
  }

  /** What is offered, for every source and locale. */
  lemma OfferedExactly(inputs: Inputs, source: string, locale: string)
    ensures Offered(inputs, source, locale, OffersFor(inputs, inputs.artifacts, locale, source))
  {
    hide Offers, OffersFor, AreOffers;
    if exists artifact <- inputs.artifacts :: artifact.locale == locale {
      var n := LastCounts(inputs.artifacts, locale);
      LastOffers(inputs, inputs.artifacts, locale, source, n);
      var at := OffersExactly(inputs, inputs.artifacts[n].entries, source);
    } else {
      NothingOffered(inputs, inputs.artifacts, locale, source);
    }
  }

  /** A unit of the catalog: a shipped translation as it was; the source itself in English; otherwise the choice among
      what is offered, and the source if nothing is, new exactly if it is the source. */
  ghost predicate IsUnit(inputs: Inputs, existing: Catalog, source: string, locale: string, unit: StringUnit) {
    if source in existing && locale in existing[source]
       && existing[source][locale].state == "translated" && existing[source][locale].value != ""
    then unit == existing[source][locale]
    else if locale == "en" then unit == StringUnit("translated", source)
    else
      && unit.state == (if unit.value == source then "new" else "translated")
      && exists values :: Offered(inputs, source, locale, values)
                          && if values == [] then unit.value == source else IsChoice(source, values, unit.value)
  }

  /** Everything a build puts into the catalog: the catalog values of the inventory's catalog entries, each in all
      required locales. */
  lemma CatalogExactly(inputs: Inputs, existing: Catalog)
    ensures var catalog := NextCatalog(inputs, existing);
            && (forall source :: source in catalog <==>
                  exists e <- inputs.inventory :: inputs.isCatalogEntry(e) && inputs.catalogValue(e.source) == source)
            && (forall source <- catalog, locale :: locale in catalog[source] <==> locale in inputs.requiredLocales)
            && (forall source <- catalog, locale <- inputs.requiredLocales ::
                  IsUnit(inputs, existing, source, locale, catalog[source][locale]))
  {
    var catalog := NextCatalog(inputs, existing);
    forall source, locale | source in catalog && locale in inputs.requiredLocales
      ensures IsUnit(inputs, existing, source, locale, catalog[source][locale])
    {
      UnitExactly(inputs, existing, source, locale);
    }
  }

  lemma UnitExactly(inputs: Inputs, existing: Catalog, source: string, locale: string)
    ensures IsUnit(inputs, existing, source, locale, NextUnit(inputs, existing, source, locale))
  {
    var values := OffersFor(inputs, inputs.artifacts, locale, source);
    OfferedExactly(inputs, source, locale);
    ChosenExactly(source, values, Chosen(source, values));
    hide Offered, OffersFor, Chosen, IsChoice;
  }

  // ---------- the report ----------

  /** What is offered, as a set, does not depend on how it is told. */
  lemma OfferedValues(inputs: Inputs, source: string, locale: string, values: seq<string>)
    requires Offered(inputs, source, locale, values)
    ensures forall v :: v in values <==> v in OffersFor(inputs, inputs.artifacts, locale, source)
  {
    hide OffersFor, Offers, IsFor;
    if n: nat, at: seq<nat> :| Counts(inputs.artifacts, locale, n)
                              && AreOffers(inputs, inputs.artifacts[n].entries, source, values, at) {
      LastOffers(inputs, inputs.artifacts, locale, source, n);
      var entries := inputs.artifacts[n].entries;
      var at2 := OffersExactly(inputs, entries, source);
      SameOffers(inputs, entries, source, values, at, Offers(inputs, entries, source), at2);
      SameOffers(inputs, entries, source, Offers(inputs, entries, source), at2, values, at);
    } else {
      NothingOffered(inputs, inputs.artifacts, locale, source);
    }
  }

  lemma SameOffers(inputs: Inputs, entries: seq<Translation>, source: string, a: seq<string>, at: seq<nat>,
                   b: seq<string>, bt: seq<nat>)
    requires AreOffers(inputs, entries, source, a, at) && AreOffers(inputs, entries, source, b, bt)
    ensures forall v <- a :: v in b
  {
    hide IsFor;
    forall v | v in a ensures v in b {
      var j :| 0 <= j < |a| && a[j] == v;
      assert at[j] in at && IsFor(inputs, entries[at[j]], source) && at[j] in bt;
      var k :| 0 <= k < |bt| && bt[k] == at[j];
      assert b[k] == v;
    }
  }

  ghost predicate Differ(values: seq<string>) { exists v <- values, w <- values :: v != w }

  /** Different values are offered. */
  ghost predicate Contradicted(inputs: Inputs, source: string, locale: string) {
    exists values :: Offered(inputs, source, locale, values) && Differ(values)
  }

  lemma ContradictedExactly(inputs: Inputs, source: string, locale: string)
    ensures Contradicted(inputs, source, locale) <==> |DistinctOffers(inputs, source, locale)| > 1
  {
    var offers, distinct := OffersFor(inputs, inputs.artifacts, locale, source), DistinctOffers(inputs, source, locale);
    SortedDistinctMeaning(offers);
    OffersAre(inputs, source, locale);
    OfferedExactly(inputs, source, locale);
    hide Offered, OffersFor, DistinctOffers, Increasing, Differ, SortStrings, Distinct;
    DifferExactly(offers, distinct);
    if values :| Offered(inputs, source, locale, values) && Differ(values) {
      OfferedValues(inputs, source, locale, values);
      DifferExactly(values, distinct);
    }
  }

  lemma DifferExactly(values: seq<string>, distinct: seq<string>)
    requires (forall v :: v in distinct <==> v in values) && Increasing(distinct)
    ensures Differ(values) <==> |distinct| > 1
  {
    if Differ(values) {
      var v, w :| v in values && w in values && v != w;
      TwoElements(distinct, v, w);
    }
    if |distinct| > 1 {
      StringLessIrreflexive(distinct[0]);
      assert StringLess(distinct[0], distinct[1]);
      assert distinct[0] in values && distinct[1] in values;
    }
  }

  lemma TwoElements(s: seq<string>, v: string, w: string)
    requires v in s && w in s && v != w
    ensures |s| > 1
  {
    var i :| 0 <= i < |s| && s[i] == v;
    var j :| 0 <= j < |s| && s[j] == w;
  }

  /** The report names exactly the catalog keys and required locales for which different values are offered, each with
      what is offered, in order and without repetition. */
  lemma ReportExactly(inputs: Inputs)
    ensures forall source, locale ::
              (exists x <- Contradictions(inputs) :: x.source == source && x.locale == locale) <==>
              && (exists e <- inputs.inventory :: inputs.isCatalogEntry(e) && inputs.catalogValue(e.source) == source)
              && locale in inputs.requiredLocales && Contradicted(inputs, source, locale)
    ensures forall x <- Contradictions(inputs) ::
              && (forall i, j :: 0 <= i < j < |x.translations| ==> StringLess(x.translations[i], x.translations[j]))
              && exists values :: Offered(inputs, x.source, x.locale, values)
                                  && forall v :: v in x.translations <==> v in values
  {
    ReportMeaning(inputs);
    hide Contradictions, DistinctOffers, Contradicted, OffersFor, Offered, Sorted, ContradictionLess;
    forall source, locale
      ensures (exists x <- Contradictions(inputs) :: x.source == source && x.locale == locale) <==>
              source in Sources(inputs) && locale in inputs.requiredLocales && Contradicted(inputs, source, locale)
    {
      ContradictedExactly(inputs, source, locale);
      var x := Contradiction(locale, source, DistinctOffers(inputs, source, locale));
      assert x in Contradictions(inputs) <==>
             source in Sources(inputs) && locale in inputs.requiredLocales && |x.translations| > 1;
    }
    forall x | x in Contradictions(inputs)
      ensures exists values :: Offered(inputs, x.source, x.locale, values)
                               && forall v :: v in x.translations <==> v in values
    {
      OfferedExactly(inputs, x.source, x.locale);
    }
  }

  /** The report is in order of source and then locale. */
  lemma ReportOrder(inputs: Inputs, i: nat, j: nat)
    requires i < j < |Contradictions(inputs)|
    ensures var (x, y) := (Contradictions(inputs)[i], Contradictions(inputs)[j]);
            !StringLess(y.source, x.source) && (x.source == y.source ==> !StringLess(y.locale, x.locale))
    ensures NoRepeats(inputs.requiredLocales) ==>
              Contradictions(inputs)[i].source != Contradictions(inputs)[j].source
              || Contradictions(inputs)[i].locale != Contradictions(inputs)[j].locale
  {
    ReportMeaning(inputs);
    var less := (a, b) => ContradictionLess(a, b);
    assert Sorted(less, Contradictions(inputs));
    assert !less(Contradictions(inputs)[j], Contradictions(inputs)[i]);
    if NoRepeats(inputs.requiredLocales) {
      KeysNoRepeats(inputs);
      var keys := Keys(inputs, SourceList(inputs));
      ShuffledNoRepeats(keys, SortKeys(keys));
      hide Keys, SourceList, SortKeys, DistinctOffers;
      assert SortKeys(keys)[i] != SortKeys(keys)[j];
      assert Contradictions(inputs)[i] == Found(inputs, SortKeys(keys)[i]);
      assert Contradictions(inputs)[j] == Found(inputs, SortKeys(keys)[j]);
    }
  }

  lemma KeysNoRepeats(inputs: Inputs)
    requires NoRepeats(inputs.requiredLocales)
    ensures NoRepeats(Keys(inputs, SourceList(inputs)))
  {
    SourceListMeaning(inputs);
    var sources := SourceList(inputs);
    hide SourceList, DistinctOffers;
    forall i, j | 0 <= i < j < |sources| ensures sources[i] != sources[j] {
      StringLessIrreflexive(sources[i]);
    }
    forall source
      ensures NoRepeats(KeysOf(inputs, source)) && forall key <- KeysOf(inputs, source) :: key.source == source
    {
      CollectNoRepeats(l => KeyOf(inputs, source, l), inputs.requiredLocales);
      forall key | key in KeysOf(inputs, source) ensures key.source == source {
        CollectedFrom(l => KeyOf(inputs, source, l), inputs.requiredLocales, key);
      }
    }
    hide KeysOf;
    CollectNoRepeats(source => KeysOf(inputs, source), sources);
  }
}
