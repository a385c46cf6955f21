/** Locale artifacts of the native apps (scripts/native-app-i18n.ts): their validation, and the sync that reuses,
    translates and writes them. */
module LocaleSync {
  import opened Text
  import opened Batching
  import opened TranslationEngine

  datatype InventoryEntry = InventoryEntry(id: string, source: string)

  datatype ArtifactEntry = ArtifactEntry(id: string, source: string, translated: string)

  datatype Artifact = Artifact(version: int, locale: string, glossaryHash: string, entries: seq<ArtifactEntry>)

  /** A JSON value, as far as validation looks at it; None for a field that is missing or of another type. */
  datatype RawEntry =
    | NotAnObject
    | Fields(id: Option<string>, source: Option<string>, translated: Option<string>)

  datatype RawArtifact =
    | NotAnArtifact
    | RawArtifact(version: Option<int>, locale: Option<string>, glossaryHash: Option<string>,
        entries: Option<seq<RawEntry>>)

  datatype ValidationError =
    | ExpectedObject
    | BadVersion
    | BadLocale
    | BadGlossaryHash
    | EntriesNotArray
    | EntryNotObject(index: nat)
    | EntryFields(index: nat)
    | DuplicateId(id: string)
    | WrongCount
    | WrongId(index: nat)
    | WrongSource(index: nat)
    | BlankTranslation(id: string)
    | ChangedTokens(id: string)

  /** `structuralTokenSignature`: any function of a text. */
  type Signature = string -> string

  function Raw(e: ArtifactEntry): RawEntry { Fields(Some(e.id), Some(e.source), Some(e.translated)) }

  function RawEntries(entries: seq<ArtifactEntry>): (raw: seq<RawEntry>)
    ensures |raw| == |entries| && forall k :: 0 <= k < |raw| ==> raw[k] == Raw(entries[k])
  {
    seq(|entries|, k requires 0 <= k < |entries| => Raw(entries[k]))
  }

  function RawOf(a: Artifact): RawArtifact {
    RawArtifact(Some(a.version), Some(a.locale), Some(a.glossaryHash), Some(RawEntries(a.entries)))
  }

  /** A translation an artifact may hold: not blank, and with the structure of its source. */
  predicate Fitting(signature: Signature, source: string, translated: string) {
    !Blank(translated) && signature(source) == signature(translated)
  }

  ghost predicate DistinctIds(entries: seq<ArtifactEntry>) {
    forall i, j :: 0 <= i < j < |entries| ==> entries[i].id != entries[j].id
  }

  /** The entries are the inventory's, in order, with fitting translations and no id twice. */
  ghost predicate Covers(signature: Signature, inventory: seq<InventoryEntry>, entries: seq<ArtifactEntry>) {
    && |entries| == |inventory|
    && DistinctIds(entries)
    && forall k :: 0 <= k < |entries| ==>
         entries[k].id == inventory[k].id && entries[k].source == inventory[k].source
         && Fitting(signature, entries[k].source, entries[k].translated)
  }

  /** An artifact in order for its locale, glossary and inventory. */
  ghost predicate Conforms(signature: Signature, locale: string, inventory: seq<InventoryEntry>, glossaryHash: string,
                           artifact: RawArtifact)
  {
    && artifact.RawArtifact?
    && artifact.version == Some(1) && artifact.locale == Some(locale) && artifact.glossaryHash == Some(glossaryHash)
    && artifact.entries.Some?
    && exists entries :: artifact.entries.value == RawEntries(entries) && Covers(signature, inventory, entries)
  }

  predicate WellTyped(e: RawEntry) { e.Fields? && e.id.Some? && e.source.Some? && e.translated.Some? }

  function Typed(e: RawEntry): ArtifactEntry
    requires WellTyped(e)
  {
    ArtifactEntry(e.id.value, e.source.value, e.translated.value)
  }

  /** The first loop of `validateNativeLocaleArtifact`: the well-typed entries, and the errors found on the way. */
  method CollectEntries(rawEntries: seq<RawEntry>) returns (entries: seq<ArtifactEntry>, errors: seq<ValidationError>)
    ensures (forall e <- rawEntries :: WellTyped(e)) ==> rawEntries == RawEntries(entries)
    ensures errors == [] <==> (forall e <- rawEntries :: WellTyped(e)) && DistinctIds(entries)
  {
    entries := [];
    errors := [];
    var seenIds: set<string> := {};
    for index := 0 to |rawEntries|
      invariant seenIds == set e <- entries :: e.id
      invariant (forall e <- rawEntries[..index] :: WellTyped(e)) ==> rawEntries[..index] == RawEntries(entries)
      invariant errors == [] <==> (forall e <- rawEntries[..index] :: WellTyped(e)) && DistinctIds(entries)
    {
      var value := rawEntries[index];
      assert rawEntries[..index + 1] == rawEntries[..index] + [value];
      assert value in rawEntries[..index + 1];
      if value.NotAnObject? {
        errors := errors + [EntryNotObject(index)];
        continue;
      }
      if !WellTyped(value) {
        errors := errors + [EntryFields(index)];
        continue;
      }
      var entry := Typed(value);
      DistinctSnoc(entries, entry);
      if forall e <- rawEntries[..index + 1] :: WellTyped(e) {
        assert rawEntries[..index] == RawEntries(entries);
        assert RawEntries(entries + [entry]) == rawEntries[..index] + [value];
      }
      assert (forall e <- rawEntries[..index + 1] :: WellTyped(e)) ==> forall e <- rawEntries[..index] :: WellTyped(e);
      if entry.id in seenIds {
        errors := errors + [DuplicateId(entry.id)];
      }
      seenIds := seenIds + {entry.id};
      entries := entries + [entry];
    }
    assert rawEntries[..|rawEntries|] == rawEntries;
  }

  lemma DistinctSnoc(entries: seq<ArtifactEntry>, entry: ArtifactEntry)
    ensures DistinctIds(entries + [entry]) <==> DistinctIds(entries) && entry.id !in set e <- entries :: e.id
  {
    var all := entries + [entry];
    if DistinctIds(all) {
      assert forall i :: 0 <= i < |entries| ==> all[i] == entries[i];
      forall i, j | 0 <= i < j < |entries| ensures entries[i].id != entries[j].id {
        assert all[i].id != all[j].id;
      }
      forall e | e in entries ensures e.id != entry.id {
        var k :| 0 <= k < |entries| && entries[k] == e;
        assert all[k].id != all[|entries|].id;
      }
    }
    if DistinctIds(entries) && entry.id !in set e <- entries :: e.id {
      forall i, j | 0 <= i < j < |all| ensures all[i].id != all[j].id {
        assert all[i] in entries;
      }
    }
  }

  /** `validateNativeLocaleArtifact`, up to the quality findings: it finds no error exactly when the artifact
      conforms. */
  method ValidateNativeLocaleArtifact(signature: Signature, locale: string, inventory: seq<InventoryEntry>,
                                      glossaryHash: string, artifact: RawArtifact)
    returns (errors: seq<ValidationError>)
    ensures errors == [] <==> Conforms(signature, locale, inventory, glossaryHash, artifact)
  {
    if artifact.NotAnArtifact? {
      return [ExpectedObject];
    }
    errors := [];
    if artifact.version != Some(1) {
      errors := errors + [BadVersion];
    }
    if artifact.locale != Some(locale) {
      errors := errors + [BadLocale];
    }
    if artifact.glossaryHash != Some(glossaryHash) {
      errors := errors + [BadGlossaryHash];
    }
    if artifact.entries.None? {
      errors := errors + [EntriesNotArray];
    }
    var rawEntries := if artifact.entries.Some? then artifact.entries.value else [];
    var entries, typeErrors := CollectEntries(rawEntries);
    ghost var header := errors;
    errors := errors + typeErrors;
    if |rawEntries| != |inventory| {
      errors := errors + [WrongCount];
    }
    var n := if |entries| < |inventory| then |entries| else |inventory|;
    ghost var before := errors;
    for index := 0 to n
      invariant errors == [] <==>
                  before == [] && forall k :: 0 <= k < index ==> Matches(signature, inventory[k], entries[k])
    {
      var actual, expected := entries[index], inventory[index];
      if actual.id != expected.id {
        errors := errors + [WrongId(index)];
      }
      if actual.source != expected.source {
        errors := errors + [WrongSource(index)];
      }
      if Blank(actual.translated) {
        errors := errors + [BlankTranslation(actual.id)];
      } else if signature(actual.source) != signature(actual.translated) {
        errors := errors + [ChangedTokens(actual.id)];
      }
    }
    if errors == [] {
      assert artifact.entries.value == RawEntries(entries);
      assert Covers(signature, inventory, entries);
    }
    if Conforms(signature, locale, inventory, glossaryHash, artifact) {
      ghost var good :| artifact.entries.value == RawEntries(good) && Covers(signature, inventory, good);
      assert forall e <- rawEntries :: WellTyped(e);
      RawInjective(entries, good);
    }
  }

  lemma RawInjective(a: seq<ArtifactEntry>, b: seq<ArtifactEntry>)
    requires RawEntries(a) == RawEntries(b)
    ensures a == b
  {
  }

  ghost predicate Matches(signature: Signature, expected: InventoryEntry, actual: ArtifactEntry) {
    actual.id == expected.id && actual.source == expected.source && Fitting(signature, actual.source, actual.translated)
  }

  /** How artifacts become text and back; nothing but the round trip is assumed. */
  datatype Codec = Codec(render: Artifact -> string, parse: string -> Parsed)

  /** What `JSON.parse` makes of a file: nothing, a value without an entry list, or an artifact. */
  datatype Parsed = NotJson | NotEntries | Parsed(artifact: Artifact)

  ghost predicate RoundTrips(codec: Codec) {
    forall a: Artifact :: codec.parse(codec.render(a)) == Parsed(a)
  }

  /** What a sync depends on besides the file. */
  datatype Request = Request(locale: string, inventory: seq<InventoryEntry>, glossaryHash: string)

  /** The translator: a map from ids to translations for the entries it is asked for, or an error. */
  type Translator = seq<Item> -> Option<map<string, string>>

  /** `new Map(entries.map(e => [e.id, e]))`: the last entry of an id counts. */
  function ById(entries: seq<ArtifactEntry>): map<string, ArtifactEntry> {
    if entries == [] then map[]
    else
      var last := entries[|entries| - 1];
      ById(entries[..|entries| - 1])[last.id := last]
  }

  /** The translation of an unchanged source, if it is not blank. */
  function Reusable(previous: Artifact, e: InventoryEntry): Option<string> {
    var byId := ById(previous.entries);
    if e.id in byId && byId[e.id].source == e.source && !Blank(byId[e.id].translated) then Some(byId[e.id].translated)
    else None
  }

  predicate IsPending(previous: Artifact, glossaryHash: string, e: InventoryEntry) {
    previous.glossaryHash != glossaryHash || Reusable(previous, e).None?
  }

  /** The entries to translate, in order. */
  function Pending(previous: Artifact, glossaryHash: string, inventory: seq<InventoryEntry>): seq<Item> {
    if inventory == [] then []
    else
      var n := |inventory| - 1;
      var before := Pending(previous, glossaryHash, inventory[..n]);
      if IsPending(previous, glossaryHash, inventory[n]) then before + [Item(inventory[n].id, inventory[n].source)]
      else before
  }

  function NextTranslation(previous: Artifact, translated: map<string, string>, e: InventoryEntry): string {
    if e.id in translated then translated[e.id]
    else if Reusable(previous, e).Some? then Reusable(previous, e).value
    else e.source
  }

  function NextArtifact(request: Request, previous: Artifact, translated: map<string, string>): (a: Artifact)
    ensures |a.entries| == |request.inventory|
  {
    Artifact(1, request.locale, request.glossaryHash,
             seq(|request.inventory|, k requires 0 <= k < |request.inventory| =>
               var e := request.inventory[k];
               ArtifactEntry(e.id, e.source, NextTranslation(previous, translated, e))))
  }

  /** The previous artifact: the file's, or an empty one; None where reading its entries throws. */
  function Previous(codec: Codec, locale: string, file: Option<string>): Option<Artifact> {
    var parsed := if file.Some? then codec.parse(file.value) else NotJson;
    match parsed
    case NotJson => Some(Artifact(1, locale, "", []))
    case NotEntries => None
    case Parsed(artifact) => Some(artifact)
  }

  datatype Outcome = Outcome(changed: bool, asked: seq<Item>, artifact: Artifact)

  /** What a sync does: None where it throws; the file becomes the rendering of the artifact. */
  ghost function Sync(codec: Codec, signature: Signature, request: Request, file: Option<string>,
                      translate: Translator): Option<Outcome> {
    match Previous(codec, request.locale, file)
    case None => None
    case Some(previous) =>
      var pending := Pending(previous, request.glossaryHash, request.inventory);
      var translated := if pending == [] then Some(map[]) else translate(pending);
      if translated.None? then None
      else
        var artifact := NextArtifact(request, previous, translated.value);
        if !Conforms(signature, request.locale, request.inventory, request.glossaryHash, RawOf(artifact)) then None
        else Some(Outcome((if file.Some? then file.value else "") != codec.render(artifact), pending, artifact))
  }

  class LocaleFile {
    var content: Option<string>

    constructor (content: Option<string>)
      ensures this.content == content
    {
      this.content := content;
    }
  }

  /** `syncNativeLocale`: the file is written only when its text changes, and not at all after an error. */
  method SyncNativeLocale(codec: Codec, signature: Signature, request: Request, file: LocaleFile, translate: Translator)
    returns (r: Option<Outcome>)
    modifies file
    ensures r == Sync(codec, signature, request, old(file.content), translate)
    ensures file.content == if r.Some? && r.value.changed then Some(codec.render(r.value.artifact))
                            else old(file.content)
    ensures r.Some? ==> (if file.content.Some? then file.content.value else "") == codec.render(r.value.artifact)
  {
    var previous := Previous(codec, request.locale, file.content);
    if previous.None? {
      return None;
    }
    var pending := Pending(previous.value, request.glossaryHash, request.inventory);
    var translated := if pending == [] then Some(map[]) else translate(pending);
    if translated.None? {
      return None;
    }
    var artifact := NextArtifact(request, previous.value, translated.value);
    var errors := ValidateNativeLocaleArtifact(signature, request.locale, request.inventory, request.glossaryHash,
        RawOf(artifact));
    if errors != [] {
      return None;
    }
    var rendered := codec.render(artifact);
    var changed := (if file.content.Some? then file.content.value else "") != rendered;
    if changed {
      file.content := Some(rendered);
    }
    return Some(Outcome(changed, pending, artifact));
  }

  /** A successful sync yields the inventory's ids and sources in order, each with a fitting translation. */
  lemma SyncCoversInventory(codec: Codec, signature: Signature, request: Request, file: Option<string>,
                            translate: Translator)
    requires Sync(codec, signature, request, file, translate).Some?
    ensures Covers(signature, request.inventory,
                   Sync(codec, signature, request, file, translate).value.artifact.entries)
  {
    var artifact := Sync(codec, signature, request, file, translate).value.artifact;
    var good :| RawEntries(artifact.entries) == RawEntries(good) && Covers(signature, request.inventory, good);
    RawInjective(artifact.entries, good);
  }

  /** A translator that answers only for ids it was asked for. */
  ghost predicate AnswersOnlyAsked(translate: Translator) {
    forall asked: seq<Item> :: translate(asked).Some? ==> translate(asked).value.Keys <= set item <- asked :: item.key
  }

  lemma {:induction false} PendingMeaning(previous: Artifact, glossaryHash: string, inventory: seq<InventoryEntry>,
                                          item: Item)
    ensures item in Pending(previous, glossaryHash, inventory) <==>
            exists k :: 0 <= k < |inventory| && IsPending(previous, glossaryHash, inventory[k])
                        && item == Item(inventory[k].id, inventory[k].source)
  {
    if inventory != [] {
      var n := |inventory| - 1;
      var rest := inventory[..n];
      PendingMeaning(previous, glossaryHash, rest, item);
      if k :| 0 <= k < n && IsPending(previous, glossaryHash, inventory[k])
              && item == Item(inventory[k].id, inventory[k].source) {
        assert rest[k] == inventory[k];
      }
      if item in Pending(previous, glossaryHash, rest) {
        var k :| 0 <= k < |rest| && IsPending(previous, glossaryHash, rest[k])
                 && item == Item(rest[k].id, rest[k].source);
        assert inventory[k] == rest[k];
      }
    }
  }

  /** Entries whose id, source and glossary are unchanged keep their translation; with a translator that answers only
      for what it was asked. */
  lemma UnchangedEntriesAreReused(codec: Codec, signature: Signature, request: Request, file: Option<string>,
                                  translate: Translator, k: nat)
    requires Sync(codec, signature, request, file, translate).Some? && AnswersOnlyAsked(translate)
    requires k < |request.inventory|
    ensures Previous(codec, request.locale, file).Some?
    ensures var previous := Previous(codec, request.locale, file).value;
            var reusable := Reusable(previous, request.inventory[k]);
            previous.glossaryHash == request.glossaryHash && reusable.Some? ==>
              Sync(codec, signature, request, file, translate).value.artifact.entries[k].translated == reusable.value
  {
    var previous := Previous(codec, request.locale, file).value;
    var pending := Pending(previous, request.glossaryHash, request.inventory);
    var e := request.inventory[k];
    if previous.glossaryHash == request.glossaryHash && Reusable(previous, e).Some? {
      SyncCoversInventory(codec, signature, request, file, translate);
      var entries := Sync(codec, signature, request, file, translate).value.artifact.entries;
      forall item | item in pending ensures item.key != e.id {
        PendingMeaning(previous, request.glossaryHash, request.inventory, item);
        var j :| 0 <= j < |request.inventory| && IsPending(previous, request.glossaryHash, request.inventory[j])
                 && item == Item(request.inventory[j].id, request.inventory[j].source);
        assert j != k;
        assert entries[j].id != entries[k].id;
      }
    }
  }

  /** For any translator: an unchanged entry keeps its text exactly when the translator has no other answer for its
      id. */
  lemma ReuseExactly(codec: Codec, signature: Signature, request: Request, file: Option<string>,
                     translate: Translator, k: nat)
    requires Sync(codec, signature, request, file, translate).Some? && k < |request.inventory|
    requires Previous(codec, request.locale, file).value.glossaryHash == request.glossaryHash
    requires Reusable(Previous(codec, request.locale, file).value, request.inventory[k]).Some?
    ensures var previous := Previous(codec, request.locale, file).value;
            var reused := Reusable(previous, request.inventory[k]).value;
            var pending := Pending(previous, request.glossaryHash, request.inventory);
            var id := request.inventory[k].id;
            Sync(codec, signature, request, file, translate).value.artifact.entries[k].translated == reused <==>
            pending == [] || id !in translate(pending).value || translate(pending).value[id] == reused
  {
    hide Conforms, Reusable, Pending;
  }

  /** An unasked answer does overwrite: "a" is unchanged and only "b" is asked for, yet the answer for "a" wins. */
  lemma UnaskedAnswerWins(render: Artifact -> string)
    ensures var before := Artifact(1, "de", "g", [ArtifactEntry("a", "A", "kept")]);
            var codec := Codec(render, text => Parsed(before));
            var request := Request("de", [InventoryEntry("a", "A"), InventoryEntry("b", "B")], "g");
            var r := Sync(codec, text => "", request, Some(""), asked => Some(map["a" := "lost", "b" := "b"]));
            && Reusable(before, request.inventory[0]) == Some("kept")
            && r.Some? && r.value.asked == [Item("b", "B")] && r.value.artifact.entries[0].translated == "lost"
  {
    var a, b := InventoryEntry("a", "A"), InventoryEntry("b", "B");
    var before := Artifact(1, "de", "g", [ArtifactEntry("a", "A", "kept")]);
    var codec := Codec(render, text => Parsed(before));
    var request := Request("de", [a, b], "g");
    var translate: Translator := asked => Some(map["a" := "lost", "b" := "b"]);
    assert before.entries[..0] == [] && ById(before.entries) == map["a" := before.entries[0]];
    assert request.inventory[..1] == [a] && request.inventory[..1][..0] == [];
    assert Trim("kept")[0] == 'k' && Trim("lost")[0] == 'l' && Trim("b")[0] == 'b';
    assert Pending(before, "g", [a]) == [];
    assert Pending(before, "g", request.inventory) == [Item("b", "B")];
    SyncSucceedsExactly(codec, text => "", request, Some(""), translate);
  }

  /** A sync succeeds exactly when the previous entries can be read, the translator answers if anything is pending, the
      inventory has no id twice, and every entry ends up with a fitting text: the translator's answer if there is one,
      the reusable text otherwise, the source as a last resort. */
  lemma SyncSucceedsExactly(codec: Codec, signature: Signature, request: Request, file: Option<string>,
                            translate: Translator)
    ensures Sync(codec, signature, request, file, translate).Some? <==>
            && Previous(codec, request.locale, file).Some?
            && var previous := Previous(codec, request.locale, file).value;
               var pending := Pending(previous, request.glossaryHash, request.inventory);
               && (pending == [] || translate(pending).Some?)
               && (forall i, j :: 0 <= i < j < |request.inventory| ==>
                 request.inventory[i].id != request.inventory[j].id)
               && var answers := if pending == [] then map[] else translate(pending).value;
                  forall k :: 0 <= k < |request.inventory| ==>
                    Fitting(signature, request.inventory[k].source,
                            NextTranslation(previous, answers, request.inventory[k]))
  {
    hide Reusable, Pending, Fitting, NextTranslation;
    if Previous(codec, request.locale, file).Some? {
      var previous := Previous(codec, request.locale, file).value;
      var pending := Pending(previous, request.glossaryHash, request.inventory);
      if pending == [] || translate(pending).Some? {
        var artifact := NextArtifact(request, previous, if pending == [] then map[] else translate(pending).value);
        ConformsExactly(signature, request, artifact);
      }
    }
  }

  lemma ConformsExactly(signature: Signature, request: Request, artifact: Artifact)
    requires artifact.version == 1 && artifact.locale == request.locale && artifact.glossaryHash == request.glossaryHash
    ensures Conforms(signature, request.locale, request.inventory, request.glossaryHash, RawOf(artifact)) <==>
            Covers(signature, request.inventory, artifact.entries)
  {
    hide Covers;
    forall good | RawEntries(artifact.entries) == RawEntries(good) ensures artifact.entries == good {
      RawInjective(artifact.entries, good);
    }
  }

  /** The translation engine is such a translator: what it returns for a batch list is complete for what was asked. */
  lemma EngineAnswersOnlyAsked(items: seq<Item>, result: map<string, string>)
    requires Complete(items, result)
    ensures result.Keys == set item <- items :: item.key
  {
  }

  lemma {:induction false} ByIdMeaning(entries: seq<ArtifactEntry>)
    requires DistinctIds(entries)
    ensures forall k :: 0 <= k < |entries| ==>
              entries[k].id in ById(entries) && ById(entries)[entries[k].id] == entries[k]
  {
    if entries != [] {
      var n := |entries| - 1;
      assert DistinctIds(entries[..n]) by {
        forall i, j | 0 <= i < j < n ensures entries[..n][i].id != entries[..n][j].id {
          assert entries[i].id != entries[j].id;
        }
      }
      ByIdMeaning(entries[..n]);
      forall k | 0 <= k < |entries|
        ensures entries[k].id in ById(entries) && ById(entries)[entries[k].id] == entries[k]
      {
        if k < n {
          assert entries[..n][k] == entries[k];
        }
      }
    }
  }

  lemma {:induction false} NothingPending(previous: Artifact, glossaryHash: string, inventory: seq<InventoryEntry>)
    requires forall k :: 0 <= k < |inventory| ==> !IsPending(previous, glossaryHash, inventory[k])
    ensures Pending(previous, glossaryHash, inventory) == []
  {
    if inventory != [] {
      NothingPending(previous, glossaryHash, inventory[..|inventory| - 1]);
    }
  }

  /** Sync converges in one step: after a successful sync, the same request asks no translator for anything, succeeds
      whatever translator it is given, yields the same artifact and leaves the file alone. */
  lemma SecondSyncIsIdle(codec: Codec, signature: Signature, request: Request, file: Option<string>,
                         translate: Translator, another: Translator)
    requires RoundTrips(codec) && Sync(codec, signature, request, file, translate).Some?
    ensures var first := Sync(codec, signature, request, file, translate).value;
            Sync(codec, signature, request, Some(codec.render(first.artifact)), another)
            == Some(Outcome(false, [], first.artifact))
  {
    var artifact := Sync(codec, signature, request, file, translate).value.artifact;
    SyncCoversInventory(codec, signature, request, file, translate);
    ByIdMeaning(artifact.entries);
    forall k | 0 <= k < |request.inventory|
      ensures Reusable(artifact, request.inventory[k]) == Some(artifact.entries[k].translated)
    {
      assert artifact.entries[k].id == request.inventory[k].id;
    }
    assert codec.parse(codec.render(artifact)) == Parsed(artifact);
    NothingPending(artifact, request.glossaryHash, request.inventory);
    assert NextArtifact(request, artifact, map[]).entries == artifact.entries;
  }
}
