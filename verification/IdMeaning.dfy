/** The id registry (scripts/native-app-i18n.ts) on surfaces, paths and source texts: which entries get ids, in which
    order, and which. */
module IdMeaning {
  import opened IdRegistry
  import opened Sorting
  import opened Text

  /** Entries for the same text in the same place; kind and line do not matter. */
  predicate SameText(a: Candidate, b: Candidate) {
    a.surface == b.surface && a.path == b.path && a.source == b.source
  }

  /** No NUL in surface and path. */
  predicate NulFree(c: Candidate) { '\0' !in c.surface && '\0' !in c.path }

  /** Identities tell exactly the texts apart, as long as surfaces and paths hold no NUL. */
  lemma IdentityExactly(a: Candidate, b: Candidate)
    ensures SameText(a, b) ==> Identity(a) == Identity(b)
    ensures NulFree(a) && NulFree(b) ==> (Identity(a) == Identity(b) <==> SameText(a, b))
  {
    if NulFree(a) && NulFree(b) && Identity(a) == Identity(b) {
      IdentityParts(a);
      IdentityParts(b);
      var parts := Split(Identity(a), '\0');
      assert parts[0] == a.surface == b.surface && parts[1] == a.path == b.path;
    }
  }

  lemma IdentityParts(c: Candidate)
    requires NulFree(c)
    ensures Split(Identity(c), '\0') == [c.surface, c.path] + Split(c.source, '\0')
    ensures c.source == Identity(c)[|c.surface| + |c.path| + 2..]
  {
    hide Split;
    assert Identity(c) == c.surface + ['\0'] + (c.path + ['\0'] + c.source);
    SplitConcat(c.surface, c.path + ['\0'] + c.source, '\0');
    SplitConcat(c.path, c.source, '\0');
    SplitNoSeparator(c.surface, '\0');
    SplitNoSeparator(c.path, '\0');
  }

  /** With a NUL in a path two texts can be taken for one. */
  lemma NulConfuses(kind: string, line: int) returns (a: Candidate, b: Candidate)
    ensures !SameText(a, b) && Identity(a) == Identity(b)
  {
    a, b := Candidate("android", "a\0b", "c", kind, line), Candidate("android", "a", "b\0c", kind, line);
    assert a.path[1] == '\0' && |b.path| == 1;
    assert "a\0b" + "\0" + "c" == "a" + "\0" + "b\0c";
    assert Identity(a) == "android" + "\0" + ("a\0b" + "\0" + "c");
    assert Identity(b) == "android" + "\0" + ("a" + "\0" + "b\0c");
  }

  // ---------- which entries ----------

  lemma {:induction false} ReplacedOrKept(unique: seq<Candidate>, c: Candidate)
    requires DistinctIdentities(unique)
    ensures forall x <- ReplaceOrAppend(unique, c) :: x == c || (x in unique && Identity(x) != Identity(c))
  {
    hide Identity;
    if unique != [] {
      var tail := unique[1..];
      assert DistinctIdentities(tail);
      if Identity(unique[0]) == Identity(c) {
        forall x | x in tail ensures Identity(x) != Identity(c) {
          var k :| 0 <= k < |tail| && tail[k] == x;
          assert unique[k + 1] == x;
        }
      } else {
        ReplacedOrKept(tail, c);
      }
    }
  }

  /** The last entry of its identity. */
  ghost predicate IsLast(entries: seq<Candidate>, x: Candidate) {
    exists i :: 0 <= i < |entries| && entries[i] == x
                && forall j :: i < j < |entries| ==> Identity(entries[j]) != Identity(x)
  }

  lemma LastStays(before: seq<Candidate>, c: Candidate, x: Candidate)
    ensures IsLast(before + [c], c)
    ensures IsLast(before, x) && Identity(x) != Identity(c) ==> IsLast(before + [c], x)
  {
    hide Identity;
    var all := before + [c];
    assert all[|before|] == c;
    if IsLast(before, x) && Identity(x) != Identity(c) {
      var i :| 0 <= i < |before| && before[i] == x
               && forall j :: i < j < |before| ==> Identity(before[j]) != Identity(x);
      assert all[i] == x;
    }
  }

  lemma {:induction false} UniqueAreLast(entries: seq<Candidate>)
    ensures forall x <- Unique(entries) :: IsLast(entries, x)
  {
    if entries != [] {
      var n := |entries| - 1;
      var before := entries[..n];
      assert entries == before + [entries[n]];
      UniqueAreLast(before);
      UniqueMeaning(before);
      ReplacedOrKept(Unique(before), entries[n]);
      assert Unique(entries) == ReplaceOrAppend(Unique(before), entries[n]);
      hide Identity, Unique, IsLast, ReplaceOrAppend, DistinctIdentities;
      forall x | x in Unique(entries) ensures IsLast(entries, x) {
        LastStays(before, entries[n], x);
      }
    }
  }

  /** For entries without NUL: every text of the input gets exactly one entry, the last one that was collected for
      it. */
  lemma OneEntryPerText(entries: seq<Candidate>)
    requires forall c <- entries :: NulFree(c)
    ensures forall i, j :: 0 <= i < j < |Ordered(entries)| ==> !SameText(Ordered(entries)[i], Ordered(entries)[j])
    ensures forall c <- entries :: exists x <- Ordered(entries) :: SameText(x, c)
    ensures forall x <- Ordered(entries) ::
              exists i :: 0 <= i < |entries| && entries[i] == x
                          && forall j :: i < j < |entries| ==> !SameText(entries[j], x)
  {
    OrderedMeaning(entries);
    UniqueMeaning(entries);
    UniqueAreLast(entries);
    SameElements(Unique(entries), Ordered(entries));
    hide Identity, Unique, Ordered, SameText, NulFree;
    forall a: Candidate, b: Candidate
      ensures (SameText(a, b) ==> Identity(a) == Identity(b))
              && (NulFree(a) && NulFree(b) ==> (Identity(a) == Identity(b) <==> SameText(a, b)))
    {
      IdentityExactly(a, b);
    }
    forall c | c in entries ensures exists x <- Ordered(entries) :: SameText(x, c) {
      assert Identity(c) in Identities(Ordered(entries));
    }
    forall x | x in Ordered(entries)
      ensures exists i :: 0 <= i < |entries| && entries[i] == x
                          && forall j :: i < j < |entries| ==> !SameText(entries[j], x)
    {
      assert IsLast(entries, x);
    }
  }

  /** The order: surface, path, line, kind, source, each where all before are equal. */
  lemma OrderedByFields(entries: seq<Candidate>, i: nat, j: nat)
    requires i < j < |Ordered(entries)|
    ensures var (a, b) := (Ordered(entries)[i], Ordered(entries)[j]);
            && (a.surface != b.surface ==> StringLess(a.surface, b.surface))
            && (a.surface == b.surface && a.path != b.path ==> StringLess(a.path, b.path))
            && (a.surface == b.surface && a.path == b.path ==> a.line <= b.line)
            && (a.surface == b.surface && a.path == b.path && a.line == b.line && a.kind != b.kind ==>
                  StringLess(a.kind, b.kind))
            && (a.surface == b.surface && a.path == b.path && a.line == b.line && a.kind == b.kind ==>
                  StringLess(a.source, b.source))
  {
    OrderedIsSorted(entries);
    var a, b := Ordered(entries)[i], Ordered(entries)[j];
    hide Ordered;
    assert EntryLess(a, b);
    StringLessIrreflexive(a.surface);
    StringLessIrreflexive(a.path);
    StringLessIrreflexive(a.kind);
  }

  // ---------- which ids ----------

  /** The known id of an identity is that of the last registry entry with it. */
  lemma {:induction false} KnownIdIsLast(entries: seq<Entry>, k: nat)
    requires k < |entries|
    requires forall j :: k < j < |entries| ==> Identity(entries[j].candidate) != Identity(entries[k].candidate)
    ensures Identity(entries[k].candidate) in PreviousIds(entries)
    ensures PreviousIds(entries)[Identity(entries[k].candidate)] == entries[k].id
  {
    hide Identity;
    var n := |entries| - 1;
    if k < n {
      KnownIdIsLast(entries[..n], k);
    }
  }

  /** The id without suffix. */
  function PlainId(digest: Digest, c: Candidate): string {
    "native." + c.surface + "." + digest(c.surface + "\0" + c.path + "\0" + c.source)
  }

  /** Which id each entry gets, given those before it: the known one if it is not empty and not taken, otherwise
      `native.<surface>.<digest>` if that is not taken, and otherwise that with the first suffix from 2 on that is
      free. */
  lemma IdsExactly(digest: Digest, previous: map<string, string>, candidates: seq<Candidate>, ids: seq<string>, i: nat)
    requires Assigned(digest, previous, candidates, ids) && i < |ids|
    ensures var (c, before) := (candidates[i], ids[..i]);
            var (identity, plain) := (Identity(c), PlainId(digest, c));
            if identity in previous && previous[identity] != "" && previous[identity] !in before
            then ids[i] == previous[identity]
            else if plain !in before then ids[i] == plain
            else exists k: nat ::
              && k >= 2 && ids[i] == plain + "." + Decimal(k) && ids[i] !in before
              && forall j: nat :: 2 <= j < k ==> plain + "." + Decimal(j) in before
  {
    assert AssignedAt(digest, previous, candidates, ids, i);
    var c, taken := candidates[i], Taken(ids[..i]);
    assert forall id :: id in taken <==> id in ids[..i];
    var base, start := BaseId(digest, c), StartId(digest, previous, c, taken);
    assert base == PlainId(digest, c);
    AttemptShapes(base, start);
    hide Attempt, Taken, BaseId;
    var k :| k >= 1 && ids[i] == Attempt(base, start, k)
             && forall j :: 1 <= j < k ==> Attempt(base, start, j) in taken;
    if start !in taken {
      assert k == 1;
    } else {
      assert k > 1 && start == base;
      forall j: nat | 2 <= j < k ensures base + "." + Decimal(j) in ids[..i] {
        assert Attempt(base, start, j) in taken;
      }
    }
  }
}
