/** Stable ids for native strings (scripts/native-app-i18n.ts). The digest is any function: no freedom from collisions
    is assumed, except where a lemma says so. */
module IdRegistry {
  import opened Text
  import opened Sorting

  datatype Candidate = Candidate(surface: string, path: string, source: string, kind: string, line: int)

  datatype Entry = Entry(candidate: Candidate, id: string)

  type Digest = string -> string

  /** `nativeEntryIdentity`: kind and line do not take part. */
  function Identity(c: Candidate): string { c.surface + "\0" + c.path + "\0" + c.source }

  function BaseId(digest: Digest, c: Candidate): string {
    "native." + c.surface + "." + digest(Identity(c))
  }

  /** The ids tried for an entry, in order. */
  function Attempt(base: string, start: string, k: nat): string {
    if k < 2 then start else base + "." + Decimal(k)
  }

  /** `id` is the first attempt that is not taken. */
  ghost predicate FirstFree(base: string, start: string, taken: set<string>, id: string) {
    && id !in taken
    && exists k ::
         k >= 1 && id == Attempt(base, start, k) && forall j :: 1 <= j < k ==> Attempt(base, start, j) in taken
  }

  /** The previous id if there is a non-empty one that is still free, the base id otherwise. */
  function StartId(digest: Digest, previous: map<string, string>, c: Candidate, taken: set<string>): string {
    var identity := Identity(c);
    if identity in previous && previous[identity] != "" && previous[identity] !in taken then previous[identity]
    else BaseId(digest, c)
  }

  lemma StartIsFreeOrBase(digest: Digest, previous: map<string, string>, c: Candidate, taken: set<string>)
    ensures StartId(digest, previous, c, taken) !in taken || StartId(digest, previous, c, taken) == BaseId(digest, c)
  {
  }

  lemma AttemptsDiffer(base: string, j: nat, k: nat)
    requires 1 <= j < k
    ensures Attempt(base, base, j) != Attempt(base, base, k)
  {
    if j >= 2 {
      var a, b := base + "." + Decimal(j), base + "." + Decimal(k);
      if a == b {
        assert a[|base| + 1..] == Decimal(j) && b[|base| + 1..] == Decimal(k);
        DecimalInjective(j, k);
      }
    }
  }

  /** The suffix loop: it ends, because its attempts differ and only finitely many ids are taken. */
  method FreshId(base: string, start: string, taken: set<string>) returns (id: string)
    requires start !in taken || start == base
    ensures FirstFree(base, start, taken, id)
  {
    hide Attempt;
    AttemptShapes(base, start);
    id := start;
    var suffix := 2;
    ghost var tried: set<string> := {};
    while id in taken
      invariant suffix >= 2 && id == Attempt(base, start, suffix - 1)
      invariant suffix > 2 ==> start == base
      invariant tried <= taken && (forall t <- tried :: TriedBefore(base, start, suffix - 1, t))
      invariant forall j :: 1 <= j < suffix - 1 ==> Attempt(base, start, j) in taken
      decreases |taken - tried|
    {
      AttemptIsNew(base, suffix - 1, id);
      assert taken - (tried + {id}) == (taken - tried) - {id};
      TriedGrows(base, start, suffix - 1, tried + {id});
      tried := tried + {id};
      id := base + "." + Decimal(suffix);
      suffix := suffix + 1;
    }
  }

  ghost predicate TriedBefore(base: string, start: string, k: nat, id: string) {
    exists j :: 1 <= j < k && id == Attempt(base, start, j)
  }

  lemma AttemptShapes(base: string, start: string)
    ensures Attempt(base, start, 1) == start
    ensures forall k :: k >= 2 ==> Attempt(base, start, k) == base + "." + Decimal(k)
  {
  }

  lemma AttemptIsNew(base: string, k: nat, id: string)
    requires k >= 1 && id == Attempt(base, base, k)
    ensures !TriedBefore(base, base, k, id)
  {
    if TriedBefore(base, base, k, id) {
      var j :| 1 <= j < k && id == Attempt(base, base, j);
      AttemptsDiffer(base, j, k);
    }
  }

  lemma TriedGrows(base: string, start: string, k: nat, tried: set<string>)
    requires k >= 1 && forall t <- tried :: t == Attempt(base, start, k) || TriedBefore(base, start, k, t)
    ensures forall t <- tried :: TriedBefore(base, start, k + 1, t)
  {
  }

  /** The ids of earlier entries. */
  function Taken(ids: seq<string>): set<string> { set id <- ids }

  /** The ids the registry gives to `candidates`, one after the other. */
  ghost predicate Assigned(digest: Digest, previous: map<string, string>, candidates: seq<Candidate>,
                           ids: seq<string>) {
    && |ids| == |candidates|
    && forall i :: 0 <= i < |ids| ==> AssignedAt(digest, previous, candidates, ids, i)
  }

  ghost predicate AssignedAt(digest: Digest, previous: map<string, string>, candidates: seq<Candidate>,
                             ids: seq<string>, i: nat)
    requires i < |candidates| == |ids|
  {
    var taken := Taken(ids[..i]);
    FirstFree(BaseId(digest, candidates[i]), StartId(digest, previous, candidates[i], taken), taken, ids[i])
  }

  /** `new Map(entries.map(e => [identity(e), e])).values()`: one entry per identity, at the place of the first and with
      the value of the last. */
  function Unique(entries: seq<Candidate>): seq<Candidate> {
    if entries == [] then []
    else
      var before, last := Unique(entries[..|entries| - 1]), entries[|entries| - 1];
      ReplaceOrAppend(before, last)
  }

  function ReplaceOrAppend(unique: seq<Candidate>, c: Candidate): seq<Candidate> {
    if unique == [] then [c]
    else if Identity(unique[0]) == Identity(c) then [c] + unique[1..]
    else [unique[0]] + ReplaceOrAppend(unique[1..], c)
  }

  ghost predicate DistinctIdentities(cs: seq<Candidate>) {
    forall i, j :: 0 <= i < j < |cs| ==> Identity(cs[i]) != Identity(cs[j])
  }

  function Identities(cs: seq<Candidate>): set<string> { set c <- cs :: Identity(c) }

  lemma DistinctCons(c: Candidate, cs: seq<Candidate>)
    ensures DistinctIdentities([c] + cs) <==> DistinctIdentities(cs) && Identity(c) !in Identities(cs)
    ensures Identities([c] + cs) == {Identity(c)} + Identities(cs)
  {
    hide Identity;
    var all := [c] + cs;
    if DistinctIdentities(all) {
      forall i, j | 0 <= i < j < |cs| ensures Identity(cs[i]) != Identity(cs[j]) {
        assert all[i + 1] == cs[i] && all[j + 1] == cs[j];
      }
      forall x | x in cs ensures Identity(x) != Identity(c) {
        var k :| 0 <= k < |cs| && cs[k] == x;
        assert all[k + 1] == x && all[0] == c;
      }
    }
    if DistinctIdentities(cs) && Identity(c) !in Identities(cs) {
      forall i, j | 0 <= i < j < |all| ensures Identity(all[i]) != Identity(all[j]) {
        assert all[j] == cs[j - 1] && all[j] in cs;
      }
    }
  }

  lemma {:induction false} ReplaceOrAppendUnique(unique: seq<Candidate>, c: Candidate)
    requires DistinctIdentities(unique)
    ensures DistinctIdentities(ReplaceOrAppend(unique, c))
    ensures Identities(ReplaceOrAppend(unique, c)) == Identities(unique) + {Identity(c)}
    ensures forall x <- ReplaceOrAppend(unique, c) :: x == c || x in unique
  {
    hide Identity, DistinctIdentities, Identities;
    if unique == [] {
      DistinctCons(c, []);
      assert [c] + [] == [c];
      NoIdentities();
    } else {
      var head, tail := unique[0], unique[1..];
      assert unique == [head] + tail;
      DistinctCons(head, tail);
      if Identity(head) == Identity(c) {
        DistinctCons(c, tail);
      } else {
        ReplaceOrAppendUnique(tail, c);
        DistinctCons(head, ReplaceOrAppend(tail, c));
      }
    }
  }

  lemma NoIdentities()
    ensures DistinctIdentities([]) && Identities([]) == {}
  {
  }

  lemma {:induction false} UniqueMeaning(entries: seq<Candidate>)
    ensures DistinctIdentities(Unique(entries)) && Identities(Unique(entries)) == Identities(entries)
    ensures forall x <- Unique(entries) :: x in entries
  {
    if entries != [] {
      var before, last := entries[..|entries| - 1], entries[|entries| - 1];
      assert entries == before + [last];
      UniqueMeaning(before);
      ReplaceOrAppendUnique(Unique(before), last);
    }
  }

  /** The comparator of the inventory: surface, path, line, kind, source. */
  predicate EntryLess(a: Candidate, b: Candidate) {
    || StringLess(a.surface, b.surface)
    || (a.surface == b.surface && (
        || StringLess(a.path, b.path)
        || (a.path == b.path && (
            || a.line < b.line
            || (a.line == b.line && (
                || StringLess(a.kind, b.kind)
                || (a.kind == b.kind && StringLess(a.source, b.source))))))))
  }

  /** The entries in the order in which ids are given out. */
  function Ordered(entries: seq<Candidate>): seq<Candidate> {
    SortBy((a, b) => EntryLess(a, b), Unique(entries))
  }

  lemma PermutationKeepsDistinct(a: seq<Candidate>, b: seq<Candidate>)
    requires multiset(a) == multiset(b) && DistinctIdentities(a)
    ensures DistinctIdentities(b) && Identities(a) == Identities(b)
  {
    SameElements(a, b);
    forall i, j | 0 <= i < j < |b| ensures Identity(b[i]) != Identity(b[j]) {
      if Identity(b[i]) == Identity(b[j]) {
        assert b[i] in a && b[j] in a;
        assert b[i] == b[j];
        var x := b[i];
        assert b == b[..i] + [x] + b[i + 1..j] + [x] + b[j + 1..];
        assert multiset(b)[x] >= 2;
        OnceAtMost(a, x);
      }
    }
  }

  lemma {:induction false} OnceAtMost(a: seq<Candidate>, x: Candidate)
    requires DistinctIdentities(a)
    ensures multiset(a)[x] <= 1
  {
    if a != [] {
      assert a == [a[0]] + a[1..];
      OnceAtMost(a[1..], x);
      if x in a[1..] {
        var k :| 0 <= k < |a[1..]| && a[1..][k] == x;
        assert a[k + 1] == x;
      }
    }
  }

  lemma OrderedMeaning(entries: seq<Candidate>)
    ensures DistinctIdentities(Ordered(entries)) && Identities(Ordered(entries)) == Identities(entries)
  {
    UniqueMeaning(entries);
    PermutationKeepsDistinct(Unique(entries), Ordered(entries));
  }

  lemma EntryOrder()
    ensures StrictTotalOrder((a, b) => EntryLess(a, b))
  {
    forall a ensures !EntryLess(a, a) {
      StringLessIrreflexive(a.surface);
      StringLessIrreflexive(a.path);
      StringLessIrreflexive(a.kind);
      StringLessIrreflexive(a.source);
    }
    forall a, b ensures EntryLess(a, b) || a == b || EntryLess(b, a) {
      StringLessTotal(a.surface, b.surface);
      StringLessTotal(a.path, b.path);
      StringLessTotal(a.kind, b.kind);
      StringLessTotal(a.source, b.source);
    }
    forall a, b, c | EntryLess(a, b) && EntryLess(b, c) ensures EntryLess(a, c) {
      EntryLessTransitive(a, b, c);
    }
  }

  lemma EntryLessTransitive(a: Candidate, b: Candidate, c: Candidate)
    requires EntryLess(a, b) && EntryLess(b, c)
    ensures EntryLess(a, c)
  {
    hide StringLess;
    BeforeTransitive(a.surface, b.surface, c.surface);
    BeforeTransitive(a.path, b.path, c.path);
    BeforeTransitive(a.kind, b.kind, c.kind);
    BeforeTransitive(a.source, b.source, c.source);
  }

  lemma BeforeTransitive(a: string, b: string, c: string)
    ensures StringLess(a, b) && StringLess(b, c) ==> StringLess(a, c)
  {
    if StringLess(a, b) && StringLess(b, c) {
      StringLessTransitive(a, b, c);
    }
  }

  /** Ids are given out in the order of the inventory's comparator. */
  lemma OrderedIsSorted(entries: seq<Candidate>)
    ensures forall i, j :: 0 <= i < j < |Ordered(entries)| ==> EntryLess(Ordered(entries)[i], Ordered(entries)[j])
  {
    hide EntryLess, Unique;
    var less := (a, b) => EntryLess(a, b);
    var ordered := Ordered(entries);
    EntryOrder();
    SortBySorts(less, Unique(entries));
    OrderedMeaning(entries);
    forall i, j | 0 <= i < j < |ordered| ensures EntryLess(ordered[i], ordered[j]) {
      assert Identity(ordered[i]) != Identity(ordered[j]);
      StrictlySorted(less, ordered, i, j);
    }
  }

  lemma {:induction false} ReplaceOrAppendNew(unique: seq<Candidate>, c: Candidate)
    requires forall x <- unique :: Identity(x) != Identity(c)
    ensures ReplaceOrAppend(unique, c) == unique + [c]
  {
    hide Identity;
    if unique != [] {
      ReplaceOrAppendNew(unique[1..], c);
      assert unique == [unique[0]] + unique[1..];
    }
  }

  lemma {:induction false} UniqueOfDistinct(entries: seq<Candidate>)
    requires DistinctIdentities(entries)
    ensures Unique(entries) == entries
  {
    hide Identity;
    if entries != [] {
      var n := |entries| - 1;
      UniqueOfDistinct(entries[..n]);
      ReplaceOrAppendNew(entries[..n], entries[n]);
    }
  }

  /** The order in which entries with distinct identities come in makes no difference. */
  lemma OrderedIgnoresOrder(a: seq<Candidate>, b: seq<Candidate>)
    requires multiset(a) == multiset(b) && DistinctIdentities(a)
    ensures Ordered(a) == Ordered(b)
  {
    PermutationKeepsDistinct(a, b);
    UniqueOfDistinct(a);
    UniqueOfDistinct(b);
    EntryOrder();
    SortIgnoresOrder((x, y) => EntryLess(x, y), a, b);
  }

  /** `new Map(previousEntries.map(e => [identity(e), e.id]))`: the last entry of an identity counts. */
  function PreviousIds(entries: seq<Entry>): map<string, string> {
    if entries == [] then map[]
    else
      var last := entries[|entries| - 1];
      PreviousIds(entries[..|entries| - 1])[Identity(last.candidate) := last.id]
  }

  function Ids(entries: seq<Entry>): (ids: seq<string>)
    ensures |ids| == |entries| && forall k :: 0 <= k < |ids| ==> ids[k] == entries[k].id
  {
    seq(|entries|, k requires 0 <= k < |entries| => entries[k].id)
  }

  function Candidates(entries: seq<Entry>): (cs: seq<Candidate>)
    ensures |cs| == |entries| && forall k :: 0 <= k < |cs| ==> cs[k] == entries[k].candidate
  {
    seq(|entries|, k requires 0 <= k < |entries| => entries[k].candidate)
  }

  lemma AssignedNothing(digest: Digest, previous: map<string, string>)
    ensures Assigned(digest, previous, Candidates([]), Ids([])) && Taken(Ids([])) == {} && Candidates([]) == []
  {
  }

  /** `assignNativeI18nIds`. */
  method AssignNativeI18nIds(digest: Digest, entries: seq<Candidate>, previousEntries: seq<Entry>)
    returns (out: seq<Entry>)
    ensures Candidates(out) == Ordered(entries)
    ensures Assigned(digest, PreviousIds(previousEntries), Candidates(out), Ids(out))
  {
    hide FirstFree, StartId, BaseId, Assigned;
    var ordered, previous := Ordered(entries), PreviousIds(previousEntries);
    AssignedNothing(digest, previous);
    var seen: set<string> := {};
    out := [];
    for i := 0 to |ordered|
      invariant |out| == i && Candidates(out) == ordered[..i] && seen == Taken(Ids(out))
      invariant Assigned(digest, previous, Candidates(out), Ids(out))
    {
      var entry := ordered[i];
      var start := StartId(digest, previous, entry, seen);
      StartIsFreeOrBase(digest, previous, entry, seen);
      var id := FreshId(BaseId(digest, entry), start, seen);
      seen := seen + {id};
      AssignedSnoc(digest, previous, out, Entry(entry, id));
      assert ordered[..i + 1] == ordered[..i] + [entry];
      out := out + [Entry(entry, id)];
    }
    assert ordered[..|ordered|] == ordered;
  }

  lemma AssignedSnoc(digest: Digest, previous: map<string, string>, out: seq<Entry>, e: Entry)
    requires Assigned(digest, previous, Candidates(out), Ids(out))
    requires var taken := Taken(Ids(out));
             FirstFree(BaseId(digest, e.candidate), StartId(digest, previous, e.candidate, taken), taken, e.id)
    ensures Candidates(out + [e]) == Candidates(out) + [e.candidate] && Ids(out + [e]) == Ids(out) + [e.id]
    ensures Assigned(digest, previous, Candidates(out + [e]), Ids(out + [e]))
  {
    hide FirstFree, StartId;
    var n, cs, ids := |out|, Candidates(out + [e]), Ids(out + [e]);
    assert ids[..n] == Ids(out);
    forall i | 0 <= i <= n ensures AssignedAt(digest, previous, cs, ids, i) {
      if i < n {
        assert AssignedAt(digest, previous, Candidates(out), Ids(out), i);
        assert ids[..i] == Ids(out)[..i];
      }
    }
  }

  /** What one run of the registry does: the contract of `AssignNativeI18nIds`. */
  ghost predicate IsRun(digest: Digest, previousEntries: seq<Entry>, entries: seq<Candidate>, out: seq<Entry>) {
    && Candidates(out) == Ordered(entries)
    && Assigned(digest, PreviousIds(previousEntries), Candidates(out), Ids(out))
  }

  /** The ids are determined by the previous ids and the order of the candidates. */
  lemma {:induction false} AssignedIsUnique(digest: Digest, previous: map<string, string>, candidates: seq<Candidate>,
                                            a: seq<string>, b: seq<string>, n: nat)
    requires Assigned(digest, previous, candidates, a) && Assigned(digest, previous, candidates, b)
    requires n <= |candidates|
    ensures a[..n] == b[..n]
  {
    hide StartId, Attempt;
    if n > 0 {
      var i := n - 1;
      AssignedIsUnique(digest, previous, candidates, a, b, i);
      assert AssignedAt(digest, previous, candidates, a, i) && AssignedAt(digest, previous, candidates, b, i);
      var base, taken := BaseId(digest, candidates[i]), Taken(a[..i]);
      FirstFreeIsUnique(base, StartId(digest, previous, candidates[i], taken), taken, a[i], b[i]);
      assert a[..n] == a[..i] + [a[i]] && b[..n] == b[..i] + [b[i]];
    }
  }

  lemma FirstFreeIsUnique(base: string, start: string, taken: set<string>, a: string, b: string)
    requires FirstFree(base, start, taken, a) && FirstFree(base, start, taken, b)
    ensures a == b
  {
    hide Attempt;
    var j :| j >= 1 && a == Attempt(base, start, j) && forall u :: 1 <= u < j ==> Attempt(base, start, u) in taken;
    var k :| k >= 1 && b == Attempt(base, start, k) && forall u :: 1 <= u < k ==> Attempt(base, start, u) in taken;
    assert !(j < k) && !(k < j);
  }

  /** The registry's output does not depend on the order in which entries with distinct identities were collected. */
  lemma OutputIgnoresOrder(digest: Digest, previousEntries: seq<Entry>, a: seq<Candidate>, b: seq<Candidate>,
                           outA: seq<Entry>, outB: seq<Entry>)
    requires multiset(a) == multiset(b) && DistinctIdentities(a)
    requires IsRun(digest, previousEntries, a, outA) && IsRun(digest, previousEntries, b, outB)
    ensures outA == outB
  {
    hide Assigned, Ordered;
    OrderedIgnoresOrder(a, b);
    var n := |outA|;
    assert |outB| == |Candidates(outB)| == n;
    AssignedIsUnique(digest, PreviousIds(previousEntries), Candidates(outA), Ids(outA), Ids(outB), n);
    forall k | 0 <= k < n ensures outA[k] == outB[k] {
      assert Candidates(outA)[k] == Candidates(outB)[k] && Ids(outA)[..n][k] == Ids(outB)[..n][k];
    }
  }

  /** Ids are pairwise distinct, whatever the digest, the previous ids and the order. */
  lemma IdsAreDistinct(digest: Digest, previous: map<string, string>, candidates: seq<Candidate>, ids: seq<string>)
    requires Assigned(digest, previous, candidates, ids)
    ensures forall i, j :: 0 <= i < j < |ids| ==> ids[i] != ids[j]
  {
    forall i, j | 0 <= i < j < |ids| ensures ids[i] != ids[j] {
      assert AssignedAt(digest, previous, candidates, ids, j);
      assert ids[i] == ids[..j][i];
    }
  }

  /** `id` is the base id, or the base id with a suffix. */
  ghost predicate InFamily(id: string, base: string) {
    id == base || exists k: nat :: id == base + "." + Decimal(k)
  }

  /** What is needed for every surviving entry to keep its id: ids of distinct identities differ and are not empty, and
      no new entry's family holds one of them. */
  ghost predicate Undisturbed(digest: Digest, previous: map<string, string>, candidates: seq<Candidate>) {
    && (forall a <- previous, b <- previous :: previous[a] == previous[b] ==> a == b)
    && (forall a <- previous :: previous[a] != "")
    && (forall c <- candidates, a <- previous ::
          Identity(c) !in previous && a in Identities(candidates) ==> !InFamily(previous[a], BaseId(digest, c)))
  }

  /** What each id is: the previous one of a surviving entry, one of its own family for a new entry. */
  ghost predicate KeptOrFresh(digest: Digest, previous: map<string, string>, c: Candidate, id: string) {
    if Identity(c) in previous then id == previous[Identity(c)] else InFamily(id, BaseId(digest, c))
  }

  lemma OwnIdIsFree(digest: Digest, previous: map<string, string>, candidates: seq<Candidate>, ids: seq<string>, i: nat)
    requires |ids| == |candidates| && i < |ids| && DistinctIdentities(candidates)
    requires Undisturbed(digest, previous, candidates) && Identity(candidates[i]) in previous
    requires forall j :: 0 <= j < i ==> KeptOrFresh(digest, previous, candidates[j], ids[j])
    ensures previous[Identity(candidates[i])] !in Taken(ids[..i])
  {
  }

  lemma {:induction false} SurvivorsKeepIdsUpTo(digest: Digest, previous: map<string, string>,
                                                candidates: seq<Candidate>, ids: seq<string>, n: nat)
    requires Assigned(digest, previous, candidates, ids) && DistinctIdentities(candidates)
    requires Undisturbed(digest, previous, candidates) && n <= |ids|
    ensures forall i :: 0 <= i < n ==> KeptOrFresh(digest, previous, candidates[i], ids[i])
  {
    if n > 0 {
      var i := n - 1;
      SurvivorsKeepIdsUpTo(digest, previous, candidates, ids, i);
      var c, taken := candidates[i], Taken(ids[..i]);
      assert AssignedAt(digest, previous, candidates, ids, i);
      if Identity(c) in previous {
        var own := previous[Identity(c)];
        if own in taken {
          OwnIdIsFree(digest, previous, candidates, ids, i);
          assert false;
        }
        assert Attempt(BaseId(digest, c), own, 1) == own;
      } else {
        var base := BaseId(digest, c);
        var k :| k >= 1 && ids[i] == Attempt(base, base, k);
      }
    }
  }

  /** Every surviving entry keeps its id, whatever its kind and line are now. */
  lemma SurvivorsKeepIds(digest: Digest, previous: map<string, string>, candidates: seq<Candidate>, ids: seq<string>)
    requires Assigned(digest, previous, candidates, ids) && DistinctIdentities(candidates)
    requires Undisturbed(digest, previous, candidates)
    ensures forall i :: 0 <= i < |ids| ==> KeptOrFresh(digest, previous, candidates[i], ids[i])
  {
    SurvivorsKeepIdsUpTo(digest, previous, candidates, ids, |ids|);
  }

  lemma {:induction false} PreviousIdsMeaning(entries: seq<Entry>)
    requires DistinctIdentities(Candidates(entries))
    ensures PreviousIds(entries).Keys == Identities(Candidates(entries))
    ensures forall k :: 0 <= k < |entries| ==>
              Identity(entries[k].candidate) in PreviousIds(entries)
              && PreviousIds(entries)[Identity(entries[k].candidate)] == entries[k].id
  {
    if entries != [] {
      var n := |entries| - 1;
      var before, last := entries[..n], entries[n];
      LastIdentity(entries);
      hide Identity, DistinctIdentities, Identities;
      PreviousIdsMeaning(before);
      forall k | 0 <= k < n ensures entries[k].id == PreviousIds(entries)[Identity(entries[k].candidate)] {
        assert before[k] == entries[k];
      }
    }
  }

  /** The last identity is not among those before. */
  lemma LastIdentity(entries: seq<Entry>)
    requires DistinctIdentities(Candidates(entries)) && entries != []
    ensures var n := |entries| - 1;
            && DistinctIdentities(Candidates(entries[..n]))
            && Identities(Candidates(entries))
               == Identities(Candidates(entries[..n])) + {Identity(entries[n].candidate)}
            && forall k :: 0 <= k < n ==> Identity(entries[k].candidate) != Identity(entries[n].candidate)
  {
    hide Identity;
    var n := |entries| - 1;
    var cs, before := Candidates(entries), Candidates(entries[..n]);
    assert before == cs[..n] && cs == before + [cs[n]];
    forall k | 0 <= k < n ensures Identity(entries[k].candidate) != Identity(entries[n].candidate) {
      assert cs[k] == entries[k].candidate;
    }
  }

  lemma IdsAreNotEmpty(digest: Digest, previous: map<string, string>, candidates: seq<Candidate>, ids: seq<string>)
    requires Assigned(digest, previous, candidates, ids)
    ensures forall i :: 0 <= i < |ids| ==> ids[i] != ""
  {
    forall i | 0 <= i < |ids| ensures ids[i] != "" {
      assert AssignedAt(digest, previous, candidates, ids, i);
    }
  }

  ghost predicate DistinctIds(out: seq<Entry>) {
    forall i, j :: 0 <= i < |out| && 0 <= j < |out| && out[i].id == out[j].id ==> i == j
  }

  lemma PreviousIdsDiffer(out: seq<Entry>, a: string, b: string)
    requires DistinctIdentities(Candidates(out)) && DistinctIds(out)
    requires a in PreviousIds(out) && b in PreviousIds(out) && PreviousIds(out)[a] == PreviousIds(out)[b]
    ensures a == b
  {
    var m := WhoseId(out, a);
    var n := WhoseId(out, b);
    assert out[m].id == out[n].id;
  }

  /** The entry a previous id comes from. */
  lemma WhoseId(out: seq<Entry>, identity: string) returns (k: nat)
    requires DistinctIdentities(Candidates(out)) && identity in PreviousIds(out)
    ensures k < |out| && Identity(out[k].candidate) == identity && PreviousIds(out)[identity] == out[k].id
  {
    PreviousIdsMeaning(out);
    var c :| c in Candidates(out) && Identity(c) == identity;
    k :| 0 <= k < |Candidates(out)| && Candidates(out)[k] == c;
  }

  /** Running the registry again on its own output: on any part of the identities, in any order, with any kinds and
      lines, every entry gets the id it had, hash collisions or not. */
  lemma RerunIsStable(digest: Digest, previous: map<string, string>, out: seq<Entry>, again: seq<Candidate>,
                      ids: seq<string>)
    requires DistinctIdentities(Candidates(out)) && Assigned(digest, previous, Candidates(out), Ids(out))
    requires DistinctIdentities(again) && Identities(again) <= Identities(Candidates(out))
    requires Assigned(digest, PreviousIds(out), again, ids)
    ensures forall i :: 0 <= i < |again| ==>
              Identity(again[i]) in PreviousIds(out) && ids[i] == PreviousIds(out)[Identity(again[i])]
  {
    var known := PreviousIds(out);
    OutputIsUndisturbed(digest, previous, out, again);
    hide Assigned, Undisturbed, DistinctIdentities, BaseId;
    PreviousIdsMeaning(out);
    assert forall c <- again :: Identity(c) in Identities(again);
    SurvivorsKeepIds(digest, known, again, ids);
    forall i | 0 <= i < |again| ensures Identity(again[i]) in known && ids[i] == known[Identity(again[i])] {
      assert again[i] in again;
      assert KeptOrFresh(digest, known, again[i], ids[i]);
    }
  }

  lemma OutputIsUndisturbed(digest: Digest, previous: map<string, string>, out: seq<Entry>, again: seq<Candidate>)
    requires DistinctIdentities(Candidates(out)) && Assigned(digest, previous, Candidates(out), Ids(out))
    requires Identities(again) <= Identities(Candidates(out))
    ensures Undisturbed(digest, PreviousIds(out), again)
  {
    var known := PreviousIds(out);
    IdsAreDistinct(digest, previous, Candidates(out), Ids(out));
    IdsAreNotEmpty(digest, previous, Candidates(out), Ids(out));
    hide Assigned, DistinctIdentities, Identity, BaseId, InFamily;
    PreviousIdsMeaning(out);
    forall i, j | 0 <= i < |out| && 0 <= j < |out| && out[i].id == out[j].id ensures i == j {
      assert Ids(out)[i] == Ids(out)[j];
    }
    forall a, b | a in known && b in known && known[a] == known[b] ensures a == b {
      PreviousIdsDiffer(out, a, b);
    }
    forall a | a in known ensures known[a] != "" {
      var k := WhoseId(out, a);
    }
    forall c | c in again ensures Identity(c) in known {
      assert Identity(c) in Identities(again);
    }
  }

  /** With new identities, stability needs more: a new entry with a colliding digest that sorts first takes the id of
      the old one, in whatever order the two were collected. */
  lemma CollisionsCanSteal(digest: Digest, newer: Candidate, older: Candidate, out: seq<Entry>)
    requires EntryLess(newer, older) && Identity(newer) != Identity(older)
    requires BaseId(digest, newer) == BaseId(digest, older)
    requires IsRun(digest, [Entry(older, BaseId(digest, older))], [older, newer], out)
    ensures out == [Entry(newer, BaseId(digest, older)), Entry(older, BaseId(digest, older) + "." + Decimal(2))]
  {
    var base := BaseId(digest, older);
    assert [Entry(older, base)][..0] == [];
    assert PreviousIds([Entry(older, base)]) == map[Identity(older) := base];
    OrderedPair(newer, older);
    hide Assigned, EntryLess, Identity, BaseId, Ordered, PreviousIds;
    assert Candidates(out) == [newer, older] && |out| == |Candidates(out)|;
    IdsOfPair(digest, newer, older, Ids(out));
    assert Ids(out)[0] == base && Ids(out)[1] == base + "." + Decimal(2);
  }

  lemma IdsOfPair(digest: Digest, newer: Candidate, older: Candidate, ids: seq<string>)
    requires Identity(newer) != Identity(older) && BaseId(digest, newer) == BaseId(digest, older)
    requires Assigned(digest, map[Identity(older) := BaseId(digest, older)], [newer, older], ids)
    ensures ids == [BaseId(digest, older), BaseId(digest, older) + "." + Decimal(2)]
  {
    var previous, base := map[Identity(older) := BaseId(digest, older)], BaseId(digest, older);
    assert AssignedAt(digest, previous, [newer, older], ids, 0);
    assert AssignedAt(digest, previous, [newer, older], ids, 1);
    assert Taken(ids[..0]) == {};
    assert Attempt(base, base, 1) == base;
    assert ids[0] == base;
    assert Taken(ids[..1]) == {base} by { assert ids[..1] == [base]; }
    AttemptsDiffer(base, 1, 2);
    assert Attempt(base, base, 2) !in {base};
  }

  lemma OrderedPair(first: Candidate, second: Candidate)
    requires EntryLess(first, second) && Identity(first) != Identity(second)
    ensures Ordered([second, first]) == [first, second]
  {
    hide Identity, StringLess;
    UniqueOfDistinct([second, first]);
    hide Unique;
    var less := (a, b) => EntryLess(a, b);
    var one := [second];
    assert [second, first][..1] == one && one[..0] == [];
    assert SortBy(less, one[..0]) == [];
    assert SortBy(less, one) == one;
    assert SortBy(less, [second, first]) == Insert(less, first, one);
    assert Insert(less, first, one) == [first] + one;
  }

  const OLDER := Candidate("android", "b.kt", "Save", "text", 1)
  const NEWER := Candidate("android", "a.kt", "Save", "text", 1)

  /** An input on which this happens: one text in two files, whose digests are the same. */
  lemma StolenId(digest: Digest, out: seq<Entry>)
    requires forall identity :: digest(identity) == "0"
    requires IsRun(digest, [Entry(OLDER, "native.android.0")], [OLDER, NEWER], out)
    ensures out == [Entry(NEWER, "native.android.0"), Entry(OLDER, "native.android.0.2")]
  {
    OlderAndNewer();
    assert BaseId(digest, OLDER) == "native." + "android" + "." + "0" == BaseId(digest, NEWER);
    hide *;
    CollisionsCanSteal(digest, NEWER, OLDER, out);
  }

  lemma OlderAndNewer()
    ensures EntryLess(NEWER, OLDER) && Identity(NEWER) != Identity(OLDER)
    ensures "native." + "android" + "." + "0" == "native.android.0"
    ensures "native.android.0" + "." + Decimal(2) == "native.android.0.2"
  {
    StringLessIrreflexive("android");
    assert StringLess("a.kt", "b.kt");
    assert Identity(NEWER)[8] == 'a' && Identity(OLDER)[8] == 'b';
  }

  /** Surface and digest of a base id hold no dots: then the family of an id tells its base id. */
  lemma FamiliesAreDisjoint(a: string, b: string, da: string, db: string, id: string)
    requires '.' !in a && '.' !in b && '.' !in da && '.' !in db
    requires InFamily(id, "native." + a + "." + da) && InFamily(id, "native." + b + "." + db)
    ensures a == b && da == db
  {
    FamilyParts(a, da, id);
    FamilyParts(b, db, id);
  }

  lemma FamilyParts(surface: string, digest: string, id: string)
    requires '.' !in surface && '.' !in digest && InFamily(id, "native." + surface + "." + digest)
    ensures |Split(id, '.')| >= 3 && Split(id, '.')[1] == surface && Split(id, '.')[2] == digest
  {
    var base := "native." + surface + "." + digest;
    hide Split;
    assert base == "native" + "." + (surface + "." + digest);
    SplitConcat("native", surface + "." + digest, '.');
    SplitConcat(surface, digest, '.');
    SplitNoSeparator("native", '.');
    SplitNoSeparator(surface, '.');
    SplitNoSeparator(digest, '.');
    assert Split(base, '.') == ["native", surface, digest];
    if id != base {
      var k: nat :| id == base + "." + Decimal(k);
      SplitConcat(base, Decimal(k), '.');
    }
  }

  /** A registry whose every id is in the family of its entry. */
  ghost predicate Owned(digest: Digest, entries: seq<Entry>) {
    forall k :: 0 <= k < |entries| ==> InFamily(entries[k].id, BaseId(digest, entries[k].candidate))
  }

  /** Surfaces are words and digests hexadecimal: neither holds a dot, and a surface no NUL. */
  ghost predicate Plain(digest: Digest, c: Candidate) {
    '.' !in c.surface && '\0' !in c.surface && '.' !in digest(Identity(c))
  }

  /** No digest collision between a known and a new identity of one surface. */
  ghost predicate CollisionFree(digest: Digest, known: seq<Candidate>, added: seq<Candidate>) {
    && (forall c <- known :: Plain(digest, c))
    && (forall c <- added :: Plain(digest, c))
    && (forall a <- known, b <- added ::
          a.surface == b.surface && digest(Identity(a)) == digest(Identity(b)) ==> Identity(a) == Identity(b))
  }

  lemma SurfaceOfIdentity(c: Candidate)
    requires '\0' !in c.surface
    ensures Split(Identity(c), '\0')[0] == c.surface
  {
    assert Identity(c) == c.surface + ['\0'] + (c.path + "\0" + c.source);
    SplitConcat(c.surface, c.path + "\0" + c.source, '\0');
    SplitNoSeparator(c.surface, '\0');
  }

  lemma SameIdentitySameBase(digest: Digest, a: Candidate, b: Candidate)
    requires Plain(digest, a) && Plain(digest, b) && Identity(a) == Identity(b)
    ensures BaseId(digest, a) == BaseId(digest, b)
  {
    SurfaceOfIdentity(a);
    SurfaceOfIdentity(b);
  }

  /** A candidate whose family holds a known id is that entry. */
  lemma FamilyTellsIdentity(digest: Digest, id: string, known: Candidate, c: Candidate)
    requires Plain(digest, known) && Plain(digest, c)
    requires known.surface == c.surface && digest(Identity(known)) == digest(Identity(c)) ==>
               Identity(known) == Identity(c)
    requires InFamily(id, BaseId(digest, known))
    ensures id != "" && (InFamily(id, BaseId(digest, c)) ==> Identity(known) == Identity(c))
  {
    if InFamily(id, BaseId(digest, c)) {
      hide InFamily;
      FamiliesAreDisjoint(known.surface, c.surface, digest(Identity(known)), digest(Identity(c)), id);
    }
  }

  /** Every id is of its own entry's family or of no candidate's family, as ids of an older scheme are. */
  ghost predicate OwnedOrForeign(digest: Digest, entries: seq<Entry>, candidates: seq<Candidate>) {
    forall k :: 0 <= k < |entries| ==>
      || InFamily(entries[k].id, BaseId(digest, entries[k].candidate))
      || forall c <- candidates :: !InFamily(entries[k].id, BaseId(digest, c))
  }

  lemma CollisionFreeIsUndisturbed(digest: Digest, out: seq<Entry>, candidates: seq<Candidate>)
    requires DistinctIdentities(Candidates(out)) && DistinctIds(out) && forall e <- out :: e.id != ""
    requires OwnedOrForeign(digest, out, candidates) && CollisionFree(digest, Candidates(out), candidates)
    ensures Undisturbed(digest, PreviousIds(out), candidates)
  {
    hide DistinctIdentities, InFamily, BaseId, Identity, DistinctIds, Plain;
    var ids := PreviousIds(out);
    forall a, b | a in ids && b in ids && ids[a] == ids[b] ensures a == b {
      PreviousIdsDiffer(out, a, b);
    }
    forall a | a in ids ensures ids[a] != "" {
      var k := WhoseId(out, a);
    }
    forall c, a | c in candidates && a in ids && InFamily(ids[a], BaseId(digest, c)) ensures Identity(c) in ids {
      var k := WhoseId(out, a);
      assert out[k].candidate == Candidates(out)[k];
      FamilyTellsIdentity(digest, ids[a], out[k].candidate, c);
    }
  }

  /** Without collisions, adding and removing entries never changes the id of one that stays, ids of an older scheme
      included; a new entry's id is of its family, and so is every id if it was before. */
  lemma StableWithoutCollisions(digest: Digest, out: seq<Entry>, candidates: seq<Candidate>, ids: seq<string>)
    requires DistinctIdentities(Candidates(out)) && DistinctIds(out) && forall e <- out :: e.id != ""
    requires DistinctIdentities(candidates) && CollisionFree(digest, Candidates(out), candidates)
    requires OwnedOrForeign(digest, out, candidates)
    requires Assigned(digest, PreviousIds(out), candidates, ids)
    ensures forall i :: 0 <= i < |ids| ==> KeptOrFresh(digest, PreviousIds(out), candidates[i], ids[i])
    ensures Owned(digest, out) ==> forall i :: 0 <= i < |ids| ==> InFamily(ids[i], BaseId(digest, candidates[i]))
  {
    var known := PreviousIds(out);
    CollisionFreeIsUndisturbed(digest, out, candidates);
    SurvivorsKeepIds(digest, known, candidates, ids);
    hide DistinctIdentities, Undisturbed, Assigned, BaseId, Identity, InFamily;
    if Owned(digest, out) {
      forall i | 0 <= i < |ids| ensures InFamily(ids[i], BaseId(digest, candidates[i])) {
        assert KeptOrFresh(digest, known, candidates[i], ids[i]);
        if Identity(candidates[i]) in known {
          var k := WhoseId(out, Identity(candidates[i]));
          assert out[k].candidate == Candidates(out)[k];
          assert candidates[i] in candidates && out[k].candidate in Candidates(out);
          SameIdentitySameBase(digest, out[k].candidate, candidates[i]);
        }
      }
    }
  }
}
