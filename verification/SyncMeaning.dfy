/** What a locale sync (scripts/native-app-i18n.ts) asks the translator for and what it writes, told from the file's
    entries and the inventory alone. */
module SyncMeaning {
  import opened Batching
  import opened LocaleSync
  import opened Text

  /** The last entry of an id. */
  ghost predicate LastOf(entries: seq<ArtifactEntry>, id: string, k: nat) {
    && k < |entries| && entries[k].id == id
    && forall j :: k < j < |entries| ==> entries[j].id != id
  }

  /** The text the file holds for an inventory entry: that of the last entry of its id, if the source is the same and
      the text is not blank. */
  ghost predicate Holds(entries: seq<ArtifactEntry>, e: InventoryEntry, text: string) {
    exists k: nat ::
      LastOf(entries, e.id, k) && entries[k].source == e.source && entries[k].translated == text && !Blank(text)
  }

  /** Glossary hash and entries of the file; none where the file is missing or no JSON. */
  ghost predicate Stored(codec: Codec, file: Option<string>, glossaryHash: string, entries: seq<ArtifactEntry>) {
    match file
    case None => glossaryHash == "" && entries == []
    case Some(text) =>
      match codec.parse(text)
      case NotJson => glossaryHash == "" && entries == []
      case NotEntries => false
      case Parsed(artifact) => glossaryHash == artifact.glossaryHash && entries == artifact.entries
  }

  /** The items of the chosen inventory entries, in inventory order; `at` lists the places. */
  ghost predicate AreChosen(items: seq<Item>, inventory: seq<InventoryEntry>, chosen: InventoryEntry -> bool,
                            at: seq<nat>)
  {
    && |at| == |items|
    && (forall j :: 0 <= j < |at| ==>
          at[j] < |inventory| && items[j] == Item(inventory[at[j]].id, inventory[at[j]].source))
    && (forall i, j :: 0 <= i < j < |at| ==> at[i] < at[j])
    && (forall k :: 0 <= k < |inventory| ==> (k in at <==> chosen(inventory[k])))
  }

  lemma {:induction false} ByIdIsLast(entries: seq<ArtifactEntry>, id: string)
    ensures id in ById(entries) <==> exists k: nat :: LastOf(entries, id, k)
    ensures forall k: nat :: LastOf(entries, id, k) ==> id in ById(entries) && ById(entries)[id] == entries[k]
  {
    if entries != [] {
      var n := |entries| - 1;
      ByIdIsLast(entries[..n], id);
      forall k: nat
        ensures LastOf(entries, id, k) <==> if entries[n].id == id then k == n else LastOf(entries[..n], id, k)
      {
      }
      if entries[n].id == id {
        assert LastOf(entries, id, n);
      } else if k: nat :| LastOf(entries[..n], id, k) {
        assert LastOf(entries, id, k);
      }
    }
  }

  lemma ReusableIsHeld(previous: Artifact, e: InventoryEntry, text: string)
    ensures Reusable(previous, e) == Some(text) <==> Holds(previous.entries, e, text)
  {
    ByIdIsLast(previous.entries, e.id);
    if k: nat :| LastOf(previous.entries, e.id, k) {
      assert ById(previous.entries)[e.id] == previous.entries[k];
    }
  }

  /** What the file does not hold in the current glossary is pending. */
  ghost predicate Needed(glossaryHash: string, entries: seq<ArtifactEntry>, currentHash: string, e: InventoryEntry) {
    glossaryHash != currentHash || forall text :: !Holds(entries, e, text)
  }

  lemma PendingIsNeeded(previous: Artifact, currentHash: string, e: InventoryEntry)
    ensures IsPending(previous, currentHash, e) <==> Needed(previous.glossaryHash, previous.entries, currentHash, e)
  {
    hide Reusable, Holds;
    forall text ensures Reusable(previous, e) == Some(text) <==> Holds(previous.entries, e, text) {
      ReusableIsHeld(previous, e, text);
    }
    if Reusable(previous, e).Some? {
      ReusableIsHeld(previous, e, Reusable(previous, e).value);
    }
  }

  lemma {:induction false} PendingIsChosen(previous: Artifact, hash: string, inventory: seq<InventoryEntry>)
    returns (at: seq<nat>)
    ensures AreChosen(Pending(previous, hash, inventory), inventory, e => IsPending(previous, hash, e), at)
  {
    at := [];
    if inventory != [] {
      hide IsPending;
      var n := |inventory| - 1;
      at := PendingIsChosen(previous, hash, inventory[..n]);
      if IsPending(previous, hash, inventory[n]) {
        var items := Pending(previous, hash, inventory[..n]);
        at := ChosenSnoc(items, inventory[..n], inventory[n], e => IsPending(previous, hash, e), at);
        assert inventory == inventory[..n] + [inventory[n]];
      }
    }
  }

  lemma ChosenSnoc(items: seq<Item>, inventory: seq<InventoryEntry>, e: InventoryEntry, chosen: InventoryEntry -> bool,
                   at: seq<nat>) returns (more: seq<nat>)
    requires AreChosen(items, inventory, chosen, at) && chosen(e)
    ensures AreChosen(items + [Item(e.id, e.source)], inventory + [e], chosen, more)
  {
    more := at + [|inventory|];
  }

  /** The artifact that goes with what is stored. */
  lemma StoredIsPrevious(codec: Codec, locale: string, file: Option<string>, hash: string, entries: seq<ArtifactEntry>)
    ensures Stored(codec, file, hash, entries) <==>
            && Previous(codec, locale, file).Some? && Previous(codec, locale, file).value.glossaryHash == hash
            && Previous(codec, locale, file).value.entries == entries
  {
  }

  /** A successful sync has asked, in inventory order, for exactly the entries for which the file holds no text in the
      current glossary: those with another source, a blank text or no entry of that id, and all of them after a change
      of the glossary. */
  lemma AskedExactly(codec: Codec, signature: Signature, request: Request, file: Option<string>, translate: Translator)
    returns (hash: string, entries: seq<ArtifactEntry>, at: seq<nat>)
    requires Sync(codec, signature, request, file, translate).Some?
    ensures Stored(codec, file, hash, entries)
    ensures AreChosen(Sync(codec, signature, request, file, translate).value.asked, request.inventory,
                      e => Needed(hash, entries, request.glossaryHash, e), at)
  {
    var previous := Previous(codec, request.locale, file).value;
    hash, entries := previous.glossaryHash, previous.entries;
    StoredIsPrevious(codec, request.locale, file, hash, entries);
    hide Pending, Needed, IsPending;
    at := PendingIsChosen(previous, request.glossaryHash, request.inventory);
    forall k | 0 <= k < |request.inventory|
      ensures IsPending(previous, request.glossaryHash, request.inventory[k])
              <==> Needed(hash, entries, request.glossaryHash, request.inventory[k])
    {
      PendingIsNeeded(previous, request.glossaryHash, request.inventory[k]);
    }
  }

  /** After a change of the glossary everything is asked for. */
  lemma ChangedGlossaryAsksForAll(codec: Codec, signature: Signature, request: Request, file: Option<string>,
                                  translate: Translator, hash: string, entries: seq<ArtifactEntry>)
    requires Sync(codec, signature, request, file, translate).Some?
    requires Stored(codec, file, hash, entries) && hash != request.glossaryHash
    ensures var asked := Sync(codec, signature, request, file, translate).value.asked;
            && |asked| == |request.inventory|
            && forall k :: 0 <= k < |asked| ==> asked[k] == Item(request.inventory[k].id, request.inventory[k].source)
  {
    StoredIsPrevious(codec, request.locale, file, hash, entries);
    AllPending(Previous(codec, request.locale, file).value, request.glossaryHash, request.inventory);
  }

  lemma {:induction false} AllPending(previous: Artifact, hash: string, inventory: seq<InventoryEntry>)
    requires previous.glossaryHash != hash
    ensures |Pending(previous, hash, inventory)| == |inventory|
    ensures forall k :: 0 <= k < |inventory| ==>
              Pending(previous, hash, inventory)[k] == Item(inventory[k].id, inventory[k].source)
  {
    if inventory != [] {
      AllPending(previous, hash, inventory[..|inventory| - 1]);
    }
  }

  /** Where each text of a successful sync comes from: the translator's answer if there is one, otherwise the text the
      file holds for the entry's id and source, otherwise the source. */
  lemma TextsExactly(codec: Codec, signature: Signature, request: Request, file: Option<string>, translate: Translator,
                     hash: string, entries: seq<ArtifactEntry>, k: nat)
    requires Sync(codec, signature, request, file, translate).Some? && Stored(codec, file, hash, entries)
    requires k < |request.inventory|
    ensures var (e, r) := (request.inventory[k], Sync(codec, signature, request, file, translate).value);
            && k < |r.artifact.entries| && (r.asked == [] || translate(r.asked).Some?)
            && var (text, answers) :=
                 (r.artifact.entries[k].translated, if r.asked == [] then map[] else translate(r.asked).value);
               if e.id in answers then text == answers[e.id]
               else Holds(entries, e, text) || (text == e.source && forall held :: !Holds(entries, e, held))
  {
    StoredIsPrevious(codec, request.locale, file, hash, entries);
    var previous, e := Previous(codec, request.locale, file).value, request.inventory[k];
    hide Reusable, Holds, Pending, Conforms;
    forall text ensures Reusable(previous, e) == Some(text) <==> Holds(entries, e, text) {
      ReusableIsHeld(previous, e, text);
    }
  }

  /** A raw entry that is fine for an inventory entry. */
  ghost predicate IsFine(signature: Signature, raw: RawEntry, e: InventoryEntry) {
    && raw.Fields? && raw.id == Some(e.id) && raw.source == Some(e.source) && raw.translated.Some?
    && !Blank(raw.translated.value) && signature(e.source) == signature(raw.translated.value)
  }

  /** What validation demands, field by field: version 1, the locale, the glossary hash, and for each inventory entry,
      none of which may share an id, its id, its source and a text that is not blank and has the source's signature. */
  lemma ConformsFieldByField(signature: Signature, locale: string, inventory: seq<InventoryEntry>, glossaryHash: string,
                             artifact: RawArtifact)
    ensures Conforms(signature, locale, inventory, glossaryHash, artifact) <==>
            && artifact.RawArtifact? && artifact.version == Some(1) && artifact.locale == Some(locale)
            && artifact.glossaryHash == Some(glossaryHash) && artifact.entries.Some?
            && |artifact.entries.value| == |inventory|
            && (forall i, j :: 0 <= i < j < |inventory| ==> inventory[i].id != inventory[j].id)
            && forall k :: 0 <= k < |inventory| ==> IsFine(signature, artifact.entries.value[k], inventory[k])
  {
    if artifact.RawArtifact? && artifact.entries.Some? {
      var raw := artifact.entries.value;
      if |raw| == |inventory| && forall k :: 0 <= k < |inventory| ==> IsFine(signature, raw[k], inventory[k]) {
        var entries := seq(|raw|, k requires 0 <= k < |raw| => Typed(raw[k]));
        assert raw == RawEntries(entries);
        assert DistinctIds(entries) <==> forall i, j :: 0 <= i < j < |inventory| ==> inventory[i].id != inventory[j].id;
        forall other | raw == RawEntries(other) ensures other == entries {
          RawInjective(other, entries);
        }
      }
      if entries: seq<ArtifactEntry> :| raw == RawEntries(entries) && Covers(signature, inventory, entries) {
        forall k | 0 <= k < |inventory| ensures IsFine(signature, raw[k], inventory[k]) {
          assert raw[k] == Raw(entries[k]);
        }
        forall i, j | 0 <= i < j < |inventory| ensures inventory[i].id != inventory[j].id {
          assert entries[i].id != entries[j].id;
        }
      }
    }
  }
}
