/** The id registry over its runs (scripts/native-app-i18n.ts): what holds over every history of inventories, whatever
    registry it starts from. */
module IdHistory {
  import opened IdKeeping
  import opened IdRegistry
  import opened Sorting

  /** The registries that a list of inventories leads to, each run starting from the registry before it; the first is
      any registry. */
  ghost predicate IsHistory(digest: Digest, inventories: seq<seq<Candidate>>, registries: seq<seq<Entry>>) {
    && |registries| == |inventories| + 1
    && forall k :: 0 <= k < |inventories| ==> RunAt(digest, inventories, registries, k)
  }

  ghost predicate RunAt(digest: Digest, inventories: seq<seq<Candidate>>, registries: seq<seq<Entry>>, k: nat)
    requires k < |inventories| == |registries| - 1
  {
    IsRun(digest, registries[k], inventories[k], registries[k + 1])
  }

  ghost predicate AllPlain(digest: Digest, inventories: seq<seq<Candidate>>) {
    forall k, c :: 0 <= k < |inventories| && c in inventories[k] ==> Plain(digest, c)
  }

  lemma OrderedElements(entries: seq<Candidate>)
    ensures DistinctIdentities(Ordered(entries)) && forall c <- Ordered(entries) :: c in entries
  {
    OrderedMeaning(entries);
    UniqueMeaning(entries);
    SameElements(Ordered(entries), Unique(entries));
  }

  /** A run leaves a sound registry, whatever it started from. */
  lemma RunLeavesSound(digest: Digest, previous: seq<Entry>, entries: seq<Candidate>, out: seq<Entry>)
    requires IsRun(digest, previous, entries, out)
    ensures Sound(out)
  {
    var known, cs, ids := PreviousIds(previous), Candidates(out), Ids(out);
    OrderedElements(entries);
    IdsAreDistinct(digest, known, cs, ids);
    IdsAreNotEmpty(digest, known, cs, ids);
    hide Assigned, DistinctIdentities, Ordered;
    forall i, j | 0 <= i < |out| && 0 <= j < |out| && out[i].id == out[j].id ensures i == j {
      assert ids[i] == ids[j];
      assert !(i < j) && !(j < i);
    }
    forall e | e in out ensures e.id != "" {
      var k :| 0 <= k < |out| && out[k] == e;
      assert ids[k] == e.id;
    }
  }

  lemma HistoryIsSound(digest: Digest, inventories: seq<seq<Candidate>>, registries: seq<seq<Entry>>, k: nat)
    requires IsHistory(digest, inventories, registries) && Sound(registries[0]) && k < |registries|
    ensures Sound(registries[k])
  {
    if k > 0 {
      assert RunAt(digest, inventories, registries, k - 1);
      RunLeavesSound(digest, registries[k - 1], inventories[k - 1], registries[k]);
    }
  }

  /** At every step of every history, whatever registry it starts from: the step keeps the id of every surviving entry
      exactly when every surviving entry is secure. */
  lemma HistoryKeepsAllExactly(digest: Digest, inventories: seq<seq<Candidate>>, registries: seq<seq<Entry>>, k: nat)
    requires IsHistory(digest, inventories, registries) && AllPlain(digest, inventories) && k < |inventories|
    ensures var known, next := PreviousIds(registries[k]), registries[k + 1];
            (forall e <- next :: Identity(e.candidate) in known ==> e.id == known[Identity(e.candidate)]) <==>
            (forall i :: 0 <= i < |next| ==> Secure(digest, known, Candidates(next), i))
  {
    var known, next := PreviousIds(registries[k]), registries[k + 1];
    assert RunAt(digest, inventories, registries, k);
    OrderedElements(inventories[k]);
    hide Assigned, Ordered, DistinctIdentities, Identity, Secure, Plain, PreviousIds;
    AllKeepIdsExactly(digest, known, Candidates(next), Ids(next));
    if forall i :: 0 <= i < |next| ==> Kept(known, Candidates(next), Ids(next), i) {
      forall e | e in next && Identity(e.candidate) in known ensures e.id == known[Identity(e.candidate)] {
        var i :| 0 <= i < |next| && next[i] == e;
        assert Kept(known, Candidates(next), Ids(next), i);
      }
    }
    if forall e <- next :: Identity(e.candidate) in known ==> e.id == known[Identity(e.candidate)] {
      forall i | 0 <= i < |next| ensures Kept(known, Candidates(next), Ids(next), i) {
        assert next[i] in next;
      }
    }
  }

  /** At every step of every history, whatever registry it starts from: exactly which entries keep their ids. */
  lemma HistoryKeepsIdsExactly(digest: Digest, inventories: seq<seq<Candidate>>, registries: seq<seq<Entry>>,
                               k: nat, i: nat)
    requires IsHistory(digest, inventories, registries) && AllPlain(digest, inventories)
    requires k < |inventories| && i < |registries[k + 1]|
    ensures var known, entry := PreviousIds(registries[k]), registries[k + 1][i];
            Identity(entry.candidate) in known && entry.id == known[Identity(entry.candidate)] <==>
            Keeps(digest, known, Candidates(registries[k + 1]), i)
  {
    var out := registries[k + 1];
    assert RunAt(digest, inventories, registries, k);
    OrderedElements(inventories[k]);
    hide Plain, DistinctIdentities, Assigned, Ordered, Identity, Keeps, PreviousIds;
    KeepsExactly(digest, PreviousIds(registries[k]), Candidates(out), Ids(out), i);
  }

  /** No id of the first registry is of the family of a candidate that ever comes, unless that is its own entry's
      family. */
  ghost predicate NoStraysFrom(digest: Digest, start: seq<Entry>, inventories: seq<seq<Candidate>>) {
    && (forall e <- start :: Plain(digest, e.candidate))
    && forall e, k, c :: (e in start && 0 <= k < |inventories| && c in inventories[k]
                          && Ranked(e.id, BaseId(digest, c))) ==> BaseId(digest, c) == BaseId(digest, e.candidate)
  }

  /** An entry's id is of its family, or the first registry's id of its identity. */
  ghost predicate Rooted(digest: Digest, start: seq<Entry>, e: Entry) {
    && Plain(digest, e.candidate)
    && (Ranked(e.id, BaseId(digest, e.candidate))
        || exists e0 <- start :: Identity(e0.candidate) == Identity(e.candidate) && e0.id == e.id)
  }

  lemma {:induction false} HistoryIsRooted(digest: Digest, inventories: seq<seq<Candidate>>,
                                           registries: seq<seq<Entry>>, k: nat)
    requires IsHistory(digest, inventories, registries) && AllPlain(digest, inventories) && k < |registries|
    requires Sound(registries[0]) && forall e <- registries[0] :: Plain(digest, e.candidate)
    ensures forall e <- registries[k] :: Rooted(digest, registries[0], e)
  {
    if k == 0 {
      forall e | e in registries[0] ensures Rooted(digest, registries[0], e) {
      }
    } else {
      HistoryIsRooted(digest, inventories, registries, k - 1);
      HistoryIsSound(digest, inventories, registries, k - 1);
      assert RunAt(digest, inventories, registries, k - 1);
      OrderedElements(inventories[k - 1]);
      hide Rooted, Sound, Ordered, DistinctIdentities, Assigned, Plain;
      RunKeepsRooted(digest, registries[0], registries[k - 1], registries[k]);
    }
  }

  lemma RunKeepsRooted(digest: Digest, start: seq<Entry>, previous: seq<Entry>, out: seq<Entry>)
    requires Sound(previous) && Assigned(digest, PreviousIds(previous), Candidates(out), Ids(out))
    requires AllCandidatesPlain(digest, Candidates(out)) && forall e <- previous :: Rooted(digest, start, e)
    ensures forall e <- out :: Rooted(digest, start, e)
  {
    var known := PreviousIds(previous);
    hide Assigned, Plain, BaseId, Rank, Identity, DistinctIdentities, PreviousIds;
    forall e | e in out ensures Rooted(digest, start, e) {
      var i :| 0 <= i < |out| && out[i] == e;
      assert Candidates(out)[i] == e.candidate && e.candidate in Candidates(out) && Ids(out)[i] == e.id;
      IdKinds(digest, known, Candidates(out), Ids(out), i);
      if !Ranked(e.id, BaseId(digest, e.candidate)) {
        var m := WhoseId(previous, Identity(e.candidate));
        assert previous[m] in previous && previous[m].id == e.id;
        if Ranked(e.id, BaseId(digest, previous[m].candidate)) {
          SameIdentitySameBase(digest, previous[m].candidate, e.candidate);
        }
      }
    }
  }

  lemma HistoryHasNoStrays(digest: Digest, inventories: seq<seq<Candidate>>, registries: seq<seq<Entry>>, k: nat)
    requires IsHistory(digest, inventories, registries) && AllPlain(digest, inventories) && k < |inventories|
    requires Sound(registries[0]) && NoStraysFrom(digest, registries[0], inventories)
    ensures NoStrays(digest, PreviousIds(registries[k]), Ordered(inventories[k]))
  {
    var known, cs := PreviousIds(registries[k]), Ordered(inventories[k]);
    HistoryIsRooted(digest, inventories, registries, k);
    HistoryIsSound(digest, inventories, registries, k);
    OrderedElements(inventories[k]);
    hide Ordered, PreviousIds, BaseId, Rank, Identity, IsHistory, DistinctIdentities, DistinctIds;
    forall a, c | a in cs && c in cs && Identity(a) in known && Ranked(known[Identity(a)], BaseId(digest, c))
      ensures BaseId(digest, c) == BaseId(digest, a)
    {
      var m := WhoseId(registries[k], Identity(a));
      var e := registries[k][m];
      assert e in registries[k] && Rooted(digest, registries[0], e);
      SameIdentitySameBase(digest, e.candidate, a);
      if Ranked(e.id, BaseId(digest, a)) {
        RankTellsBase(digest, e.id, a, c);
      } else {
        var e0 :| e0 in registries[0] && Identity(e0.candidate) == Identity(e.candidate) && e0.id == e.id;
        SameIdentitySameBase(digest, e0.candidate, a);
      }
    }
  }

  /** At every step of every history from a registry without strays: counting contenders decides which ids stay. */
  lemma HistoryCountsContenders(digest: Digest, inventories: seq<seq<Candidate>>, registries: seq<seq<Entry>>,
                               k: nat, i: nat)
    requires IsHistory(digest, inventories, registries) && AllPlain(digest, inventories)
    requires Sound(registries[0]) && NoStraysFrom(digest, registries[0], inventories)
    requires k < |inventories| && i < |registries[k + 1]|
    requires Identity(registries[k + 1][i].candidate) in PreviousIds(registries[k])
    ensures var known, entry := PreviousIds(registries[k]), registries[k + 1][i];
            var own, base := known[Identity(entry.candidate)], BaseId(digest, entry.candidate);
            entry.id == own <==>
            || !Ranked(own, base)
            || |Contenders(digest, known, Candidates(registries[k + 1]), i, base, Rank(own, base))| < Rank(own, base)
  {
    var out := registries[k + 1];
    assert RunAt(digest, inventories, registries, k);
    HistoryIsSound(digest, inventories, registries, k);
    HistoryHasNoStrays(digest, inventories, registries, k);
    OrderedElements(inventories[k]);
    hide Sound, Plain, DistinctIdentities, Assigned, Ordered, Contenders, Rank, Identity, NoStrays, BaseId, PreviousIds;
    SurvivorKeepsIdExactly(digest, registries[k], Candidates(out), Ids(out), i);
  }

  /** No two identities that ever occur share a base id. */
  ghost predicate NoCollisions(digest: Digest, inventories: seq<seq<Candidate>>) {
    forall k, l, a, b ::
      (0 <= k < |inventories| && 0 <= l < |inventories| && a in inventories[k] && b in inventories[l]
       && BaseId(digest, a) == BaseId(digest, b)) ==> Identity(a) == Identity(b)
  }

  /** An entry's id: the one it was known by, or its base id if it is new. */
  ghost predicate KeptOrBase(digest: Digest, known: map<string, string>, e: Entry) {
    e.id == if Identity(e.candidate) in known then known[Identity(e.candidate)] else BaseId(digest, e.candidate)
  }

  /** Without collisions, from any registry without strays: no surviving entry's id ever changes, and every new entry
      gets its base id. */
  lemma HistoryWithoutCollisions(digest: Digest, inventories: seq<seq<Candidate>>, registries: seq<seq<Entry>>, k: nat)
    requires IsHistory(digest, inventories, registries) && AllPlain(digest, inventories)
    requires Sound(registries[0]) && NoStraysFrom(digest, registries[0], inventories)
    requires NoCollisions(digest, inventories) && k < |inventories|
    ensures forall e <- registries[k + 1] :: KeptOrBase(digest, PreviousIds(registries[k]), e)
  {
    var out := registries[k + 1];
    assert RunAt(digest, inventories, registries, k);
    HistoryIsSound(digest, inventories, registries, k);
    HistoryHasNoStrays(digest, inventories, registries, k);
    OrderedElements(inventories[k]);
    var cs := Candidates(out);
    hide Sound, Plain, DistinctIdentities, Assigned, Ordered, Identity, NoStrays, BaseId, PreviousIds, KeptOrBase;
    forall a, b | a in cs && b in cs && BaseId(digest, a) == BaseId(digest, b) ensures Identity(a) == Identity(b) {
      assert a in inventories[k] && b in inventories[k];
    }
    forall e | e in out ensures KeptOrBase(digest, PreviousIds(registries[k]), e) {
      var i :| 0 <= i < |out| && out[i] == e;
      RunWithoutCollisions(digest, registries[k], out, i);
    }
  }

  lemma RunWithoutCollisions(digest: Digest, previous: seq<Entry>, out: seq<Entry>, i: nat)
    requires Sound(previous) && Assigned(digest, PreviousIds(previous), Candidates(out), Ids(out))
    requires DistinctIdentities(Candidates(out)) && AllCandidatesPlain(digest, Candidates(out))
    requires NoStrays(digest, PreviousIds(previous), Candidates(out))
    requires forall a <- Candidates(out), b <- Candidates(out) ::
               BaseId(digest, a) == BaseId(digest, b) ==> Identity(a) == Identity(b)
    requires i < |out|
    ensures KeptOrBase(digest, PreviousIds(previous), out[i])
  {
    var known, cs, ids := PreviousIds(previous), Candidates(out), Ids(out);
    var c, base := cs[i], BaseId(digest, cs[i]);
    assert c in cs;
    if Identity(c) in known {
      SurvivorKeepsIdExactly(digest, previous, cs, ids, i);
      hide Sound, BaseId, Identity, Assigned, PreviousIds, Rank, AllCandidatesPlain;
      var own := known[Identity(c)];
      if Ranked(own, base) {
        forall j | 0 <= j < i ensures j !in Contenders(digest, known, cs, i, base, Rank(own, base)) {
          assert cs[j] in cs;
          assert BaseId(digest, cs[j]) != base;
        }
        assert Contenders(digest, known, cs, i, base, Rank(own, base)) == {};
      }
    } else {
      IdKinds(digest, known, cs, ids, i);
      hide Sound, BaseId, Identity, Assigned, PreviousIds, Rank;
      FirstAttempt(base, base);
      assert HasRank(base, base, 1);
      RankIsUnique(base, base, 1);
      if base in Taken(ids[..i]) {
        var k :| 0 <= k < i && ids[k] == base;
        assert cs[k] in cs;
        IdKinds(digest, known, cs, ids, k);
        BaseHeldByNobodyElse(digest, known, cs, ids, i, k);
        assert false;
      }
      assert Rank(ids[i], base) <= 1;
      assert ids[i] == Attempt(base, base, Rank(ids[i], base));
    }
  }

  /** With no collisions and no strays nobody else holds a base id. */
  lemma BaseHeldByNobodyElse(digest: Digest, known: map<string, string>, cs: seq<Candidate>, ids: seq<string>,
                             i: nat, k: nat)
    requires Assigned(digest, known, cs, ids) && k < i < |ids|
    requires DistinctIdentities(cs) && AllCandidatesPlain(digest, cs) && NoStrays(digest, known, cs)
    requires forall a <- cs, b <- cs :: BaseId(digest, a) == BaseId(digest, b) ==> Identity(a) == Identity(b)
    ensures !Ranked(ids[k], BaseId(digest, cs[i]))
  {
    assert |ids| == |cs|;
    assert cs[i] in cs && cs[k] in cs;
    IdKinds(digest, known, cs, ids, k);
    hide BaseId, Identity, Assigned, Rank;
    assert BaseId(digest, cs[k]) != BaseId(digest, cs[i]);
    if Ranked(ids[k], BaseId(digest, cs[k])) && Ranked(ids[k], BaseId(digest, cs[i])) {
      RankTellsBase(digest, ids[k], cs[k], cs[i]);
    }
  }

  /** Every entry has the base id of its identity. */
  ghost predicate HasBaseIds(digest: Digest, entries: seq<Entry>) {
    forall e <- entries :: e.id == BaseId(digest, e.candidate)
  }

  /** In particular from an empty registry, or one of base ids only: all ids are base ids for ever, so no id changes
      even when its entry is removed and added again. */
  lemma {:induction false} HistoryOfBaseIds(digest: Digest, inventories: seq<seq<Candidate>>,
                                            registries: seq<seq<Entry>>, k: nat)
    requires IsHistory(digest, inventories, registries) && AllPlain(digest, inventories)
    requires Sound(registries[0]) && HasBaseIds(digest, registries[0])
    requires forall e <- registries[0] :: Plain(digest, e.candidate)
    requires NoCollisions(digest, inventories) && k < |registries|
    ensures HasBaseIds(digest, registries[k])
  {
    if k > 0 {
      HistoryOfBaseIds(digest, inventories, registries, k - 1);
      BaseIdsAreNoStrays(digest, registries[0], inventories);
      hide Sound, HasBaseIds, KeptOrBase, NoCollisions, NoStraysFrom, Rooted, Plain, AllPlain;
      HistoryIsSound(digest, inventories, registries, k - 1);
      HistoryIsPlain(digest, inventories, registries, k - 1);
      HistoryIsPlain(digest, inventories, registries, k);
      HistoryWithoutCollisions(digest, inventories, registries, k - 1);
      RunKeepsBaseIds(digest, registries[k - 1], registries[k]);
    }
  }

  lemma HistoryIsPlain(digest: Digest, inventories: seq<seq<Candidate>>, registries: seq<seq<Entry>>, k: nat)
    requires IsHistory(digest, inventories, registries) && AllPlain(digest, inventories) && k < |registries|
    requires Sound(registries[0]) && forall e <- registries[0] :: Plain(digest, e.candidate)
    ensures forall e <- registries[k] :: Plain(digest, e.candidate)
  {
    HistoryIsRooted(digest, inventories, registries, k);
    hide Sound, Plain, IsHistory, AllPlain;
    forall e | e in registries[k] ensures Plain(digest, e.candidate) {
      assert Rooted(digest, registries[0], e);
    }
  }

  lemma RunKeepsBaseIds(digest: Digest, previous: seq<Entry>, out: seq<Entry>)
    requires Sound(previous) && HasBaseIds(digest, previous)
    requires forall e :: e in previous || e in out ==> Plain(digest, e.candidate)
    requires forall e <- out :: KeptOrBase(digest, PreviousIds(previous), e)
    ensures HasBaseIds(digest, out)
  {
    hide BaseId, Identity, PreviousIds, DistinctIdentities, DistinctIds, Plain;
    forall e | e in out ensures e.id == BaseId(digest, e.candidate) {
      assert KeptOrBase(digest, PreviousIds(previous), e);
      if Identity(e.candidate) in PreviousIds(previous) {
        var m := WhoseId(previous, Identity(e.candidate));
        assert previous[m] in previous;
        SameIdentitySameBase(digest, previous[m].candidate, e.candidate);
      }
    }
  }

  lemma BaseIdsAreNoStrays(digest: Digest, start: seq<Entry>, inventories: seq<seq<Candidate>>)
    requires HasBaseIds(digest, start) && AllPlain(digest, inventories)
    requires forall e <- start :: Plain(digest, e.candidate)
    ensures NoStraysFrom(digest, start, inventories)
  {
    hide BaseId, Rank, Plain;
    forall e, k, c | e in start && 0 <= k < |inventories| && c in inventories[k] && Ranked(e.id, BaseId(digest, c))
      ensures BaseId(digest, c) == BaseId(digest, e.candidate)
    {
      assert HasRank(e.id, BaseId(digest, e.candidate), 1) by { FirstAttempt(e.id, e.id); }
      RankIsUnique(e.id, BaseId(digest, e.candidate), 1);
      RankTellsBase(digest, e.id, e.candidate, c);
    }
  }
}
