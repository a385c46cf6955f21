/** Exactly which surviving entries keep their ids in a run of the id registry (scripts/native-app-i18n.ts), whatever
    ids the registry holds: a matter of counting. */
module IdKeeping {
  import opened IdRegistry
  import opened Seats
  import opened Sorting

  // ---------- ranks ----------

  /** `id` is the base id for rank one, the base id with suffix k for rank k. */
  predicate HasRank(id: string, base: string, rank: nat) { rank >= 1 && id == Attempt(base, base, rank) }

  /** The rank of an id in a family; zero if it is not of that family. */
  ghost function Rank(id: string, base: string): (rank: nat)
    ensures rank != 0 ==> HasRank(id, base, rank)
    ensures (exists k: nat :: HasRank(id, base, k)) ==> rank != 0
  {
    if k: nat :| HasRank(id, base, k) then k else 0
  }

  lemma RankIsUnique(id: string, base: string, rank: nat)
    requires HasRank(id, base, rank)
    ensures Rank(id, base) == rank
  {
    var k := Rank(id, base);
    if k < rank {
      AttemptsDiffer(base, k, rank);
    } else if rank < k {
      AttemptsDiffer(base, rank, k);
    }
  }

  ghost predicate Ranked(id: string, base: string) { Rank(id, base) != 0 }

  /** A ranked id tells the base id it was made from. */
  lemma RankTellsBase(digest: Digest, id: string, a: Candidate, b: Candidate)
    requires Plain(digest, a) && Plain(digest, b)
    requires Ranked(id, BaseId(digest, a)) && Ranked(id, BaseId(digest, b))
    ensures BaseId(digest, a) == BaseId(digest, b)
  {
    FamiliesAreDisjoint(a.surface, b.surface, digest(Identity(a)), digest(Identity(b)), id);
  }

  ghost predicate AllCandidatesPlain(digest: Digest, candidates: seq<Candidate>) {
    forall c <- candidates :: Plain(digest, c)
  }

  /** What an id given out is: the known one, or the first free one of the candidate's family. */
  lemma IdKinds(digest: Digest, known: map<string, string>, candidates: seq<Candidate>, ids: seq<string>, j: nat)
    requires Assigned(digest, known, candidates, ids) && j < |ids|
    ensures var c, base := candidates[j], BaseId(digest, candidates[j]);
            || (Identity(c) in known && ids[j] == known[Identity(c)])
            || (Ranked(ids[j], base)
                && forall u: nat :: 1 <= u < Rank(ids[j], base) ==> Attempt(base, base, u) in Taken(ids[..j]))
  {
    var c, base, taken := candidates[j], BaseId(digest, candidates[j]), Taken(ids[..j]);
    assert AssignedAt(digest, known, candidates, ids, j);
    var start := StartId(digest, known, c, taken);
    hide Attempt, BaseId, Identity, Rank, Assigned;
    var k: nat :| k >= 1 && ids[j] == Attempt(base, start, k)
                  && forall u :: 1 <= u < k ==> Attempt(base, start, u) in taken;
    if start == base {
      assert HasRank(ids[j], base, k);
      RankIsUnique(ids[j], base, k);
    } else {
      FirstAttempt(base, start);
      assert k == 1;
    }
  }

  lemma FirstAttempt(base: string, start: string)
    ensures Attempt(base, start, 1) == start
  {
  }

  /** A survivor keeps its id exactly when it has one that nobody before it took. */
  lemma KeptIfFree(digest: Digest, known: map<string, string>, candidates: seq<Candidate>, ids: seq<string>, i: nat)
    requires Assigned(digest, known, candidates, ids) && i < |ids| && Identity(candidates[i]) in known
    ensures var own := known[Identity(candidates[i])]; ids[i] == own <==> own != "" && own !in Taken(ids[..i])
  {
    var c, taken := candidates[i], Taken(ids[..i]);
    var own, base := known[Identity(c)], BaseId(digest, c);
    IdsAreNotEmpty(digest, known, candidates, ids);
    assert AssignedAt(digest, known, candidates, ids, i);
    FirstAttempt(base, own);
    hide Attempt, BaseId, Identity, Rank, Assigned;
    if own != "" && own !in taken {
      assert FirstFree(base, own, taken, ids[i]);
    }
  }

  lemma RankedIsNotEmpty(digest: Digest, c: Candidate, id: string)
    requires Ranked(id, BaseId(digest, c))
    ensures id != ""
  {
  }

  // ---------- who holds the ids of a family ----------

  /** The earlier candidates that got an id of a family. */
  ghost function Holders(ids: seq<string>, i: nat, base: string): set<nat>
    requires i <= |ids|
  {
    set j: nat | j < i && Ranked(ids[j], base)
  }

  /** The ranks of a family by which earlier candidates are known. */
  ghost function KnownRanks(known: map<string, string>, candidates: seq<Candidate>, i: nat, base: string): set<nat>
    requires i <= |candidates|
  {
    set j: nat | j < i && Identity(candidates[j]) in known && Ranked(known[Identity(candidates[j])], base)
      :: Rank(known[Identity(candidates[j])], base)
  }

  ghost function Got(ids: seq<string>, base: string): nat -> nat {
    (j: nat) => if j < |ids| then Rank(ids[j], base) else 0
  }

  /** An id an earlier candidate is known by is taken: that candidate kept it, or somebody took it before. */
  lemma KnownIsTaken(digest: Digest, known: map<string, string>, candidates: seq<Candidate>, ids: seq<string>,
                     i: nat, j: nat)
    requires Assigned(digest, known, candidates, ids) && j < i <= |ids|
    requires Identity(candidates[j]) in known && known[Identity(candidates[j])] != ""
    ensures known[Identity(candidates[j])] in Taken(ids[..i])
  {
    KeptIfFree(digest, known, candidates, ids, j);
    hide Assigned, Identity;
    if ids[j] == known[Identity(candidates[j])] {
      assert ids[..i][j] == ids[j];
    } else {
      var k :| 0 <= k < j && ids[k] == known[Identity(candidates[j])];
      assert ids[..i][k] == ids[k];
    }
  }

  lemma TakenIsHeld(ids: seq<string>, n: nat, i: nat, base: string, id: string)
    requires n <= i <= |ids| && id in Taken(ids[..n]) && Ranked(id, base)
    ensures Rank(id, base) in Image(Holders(ids, i, base), Got(ids, base))
  {
    hide Rank;
    var k :| 0 <= k < n && ids[k] == id;
    assert k in Holders(ids, i, base) && Got(ids, base)(k) == Rank(id, base);
  }

  lemma HeldIsTaken(ids: seq<string>, i: nat, base: string, id: string)
    requires i <= |ids| && Ranked(id, base) && Rank(id, base) in Image(Holders(ids, i, base), Got(ids, base))
    ensures id in Taken(ids[..i])
  {
    hide Attempt;
    var j :| j in Holders(ids, i, base) && Got(ids, base)(j) == Rank(id, base);
    assert ids[j] == Attempt(base, base, Rank(id, base)) == id && ids[..i][j] == id;
  }

  /** The ids of a family are handed out as seats are. */
  lemma FamilyIsHandedOut(digest: Digest, known: map<string, string>, candidates: seq<Candidate>, ids: seq<string>,
                          i: nat, m: nat)
    requires Assigned(digest, known, candidates, ids) && AllCandidatesPlain(digest, candidates)
    requires i <= |ids| && m < |ids|
    ensures |ids| == |candidates|
    ensures var base := BaseId(digest, candidates[m]);
            && HandedOut(Image(Holders(ids, i, base), Got(ids, base)), KnownRanks(known, candidates, i, base))
            && |Image(Holders(ids, i, base), Got(ids, base))| == |Holders(ids, i, base)|
  {
    assert |ids| == |candidates|;
    var base := BaseId(digest, candidates[m]);
    var holders, got := Holders(ids, i, base), Got(ids, base);
    IdsAreDistinct(digest, known, candidates, ids);
    hide BaseId, Rank, Assigned, AllCandidatesPlain, Identity;
    forall j, k | j in holders && k in holders && got(j) == got(k) ensures j == k {
      assert ids[j] == Attempt(base, base, got(j)) == ids[k];
      assert !(j < k) && !(k < j);
    }
    ImageSize(holders, got);
    forall r | r in KnownRanks(known, candidates, i, base) ensures r in Image(holders, got) {
      var j: nat :| j < i && Identity(candidates[j]) in known && Ranked(known[Identity(candidates[j])], base)
                    && r == Rank(known[Identity(candidates[j])], base);
      RankedIsNotEmpty(digest, candidates[m], known[Identity(candidates[j])]);
      KnownIsTaken(digest, known, candidates, ids, i, j);
      TakenIsHeld(ids, i, i, base, known[Identity(candidates[j])]);
    }
    forall t, u: nat | t in Image(holders, got) && t !in KnownRanks(known, candidates, i, base) && 1 <= u < t
      ensures u in Image(holders, got)
    {
      var j :| j in holders && got(j) == t;
      LowerIsHeld(digest, known, candidates, ids, i, m, j, u);
    }
  }

  lemma LowerIsHeld(digest: Digest, known: map<string, string>, candidates: seq<Candidate>, ids: seq<string>,
                    i: nat, m: nat, j: nat, u: nat)
    requires Assigned(digest, known, candidates, ids) && AllCandidatesPlain(digest, candidates)
    requires i <= |ids| == |candidates| && m < |ids| && j in Holders(ids, i, BaseId(digest, candidates[m]))
    requires Rank(ids[j], BaseId(digest, candidates[m]))
             !in KnownRanks(known, candidates, i, BaseId(digest, candidates[m]))
    requires 1 <= u < Rank(ids[j], BaseId(digest, candidates[m]))
    ensures var base := BaseId(digest, candidates[m]); u in Image(Holders(ids, i, base), Got(ids, base))
  {
    var base := BaseId(digest, candidates[m]);
    assert candidates[m] in candidates && candidates[j] in candidates;
    hide BaseId, Rank, Assigned, Identity, Attempt, Plain;
    IdKinds(digest, known, candidates, ids, j);
    RankTellsBase(digest, ids[j], candidates[j], candidates[m]);
    var id := Attempt(base, base, u);
    assert HasRank(id, base, u);
    RankIsUnique(id, base, u);
    TakenIsHeld(ids, j, i, base, id);
  }

  lemma UnknownRank(known: map<string, string>, candidates: seq<Candidate>, i: nat, base: string, id: string)
    requires i <= |candidates| && Ranked(id, base)
    requires forall j :: 0 <= j < i && Identity(candidates[j]) in known ==> known[Identity(candidates[j])] != id
    ensures forall j :: 0 <= j < i && Identity(candidates[j]) in known ==>
                          Rank(known[Identity(candidates[j])], base) != Rank(id, base)
    ensures Rank(id, base) !in KnownRanks(known, candidates, i, base)
  {
    hide Identity, Attempt;
    assert id == Attempt(base, base, Rank(id, base));
    forall j: nat | j < i && Identity(candidates[j]) in known && Ranked(known[Identity(candidates[j])], base)
      ensures Rank(known[Identity(candidates[j])], base) != Rank(id, base)
    {
      var own := known[Identity(candidates[j])];
      assert own == Attempt(base, base, Rank(own, base));
    }
  }

  /** Whether an id of a family that nobody before is known by was taken is a matter of counting: when the family has as
      many holders as the id's rank and the higher ranks known before. */
  lemma TakenByHolders(digest: Digest, known: map<string, string>, candidates: seq<Candidate>, ids: seq<string>,
                       i: nat, m: nat, id: string)
    requires Assigned(digest, known, candidates, ids) && AllCandidatesPlain(digest, candidates)
    requires i <= |ids| && m < |ids| && Ranked(id, BaseId(digest, candidates[m]))
    requires forall j :: 0 <= j < i && Identity(candidates[j]) in known ==> known[Identity(candidates[j])] != id
    ensures |ids| == |candidates|
    ensures var base := BaseId(digest, candidates[m]);
            var rank := Rank(id, base);
            id in Taken(ids[..i]) <==>
            |Holders(ids, i, base)| >= rank + |Above(KnownRanks(known, candidates, i, base), rank)|
  {
    var base := BaseId(digest, candidates[m]);
    var rank := Rank(id, base);
    FamilyIsHandedOut(digest, known, candidates, ids, i, m);
    hide BaseId, Assigned, AllCandidatesPlain, Identity, HandedOut, Attempt, Image, Holders;
    UnknownRank(known, candidates, i, base, id);
    SeatIsTaken(Image(Holders(ids, i, base), Got(ids, base)), KnownRanks(known, candidates, i, base), rank);
    if id in Taken(ids[..i]) {
      TakenIsHeld(ids, i, i, base, id);
    } else if rank in Image(Holders(ids, i, base), Got(ids, base)) {
      HeldIsTaken(ids, i, base, id);
    }
  }

  // ---------- exactly which entries keep their ids ----------

  /** Whether a candidate keeps the id it is known by, by counting alone: the id is not empty, no candidate before is
      known by it, and in a family it belongs to, fewer candidates before hold an id than its rank and the higher ranks
      known before. */
  ghost predicate Keeps(digest: Digest, known: map<string, string>, candidates: seq<Candidate>, i: nat)
    requires i < |candidates|
    decreases i, 1
  {
    && Identity(candidates[i]) in known
    && var own := known[Identity(candidates[i])];
       && own != ""
       && (forall j :: 0 <= j < i && Identity(candidates[j]) in known ==> known[Identity(candidates[j])] != own)
       && forall j :: 0 <= j < i ==> RoomFor(digest, known, candidates, i, own, BaseId(digest, candidates[j]))
  }

  ghost predicate RoomFor(digest: Digest, known: map<string, string>, candidates: seq<Candidate>, i: nat,
                          id: string, base: string)
    requires i <= |candidates|
    decreases i, 0, 1
  {
    Ranked(id, base) ==>
      |Holding(digest, known, candidates, i, base)| <
      Rank(id, base) + |Above(KnownRanks(known, candidates, i, base), Rank(id, base))|
  }

  /** The candidates before that hold an id of a family: those that keep one of it, and those of the family that are new
      or do not keep theirs. */
  ghost function Holding(digest: Digest, known: map<string, string>, candidates: seq<Candidate>, i: nat, base: string)
    : set<nat>
    requires i <= |candidates|
    decreases i, 0, 0
  {
    set j: nat | j < i && if Keeps(digest, known, candidates, j) then Ranked(known[Identity(candidates[j])], base)
                          else BaseId(digest, candidates[j]) == base
  }

  ghost predicate KeptId(known: map<string, string>, candidates: seq<Candidate>, ids: seq<string>, i: nat)
    requires i < |candidates| == |ids|
  {
    Identity(candidates[i]) in known && ids[i] == known[Identity(candidates[i])]
  }

  /** Exactly which entries keep their ids, whatever ids the registry holds. */
  lemma {:induction false} KeepsExactly(digest: Digest, known: map<string, string>, candidates: seq<Candidate>,
                                        ids: seq<string>, i: nat)
    requires Assigned(digest, known, candidates, ids) && AllCandidatesPlain(digest, candidates) && i < |ids|
    ensures |ids| == |candidates|
    ensures KeptId(known, candidates, ids, i) <==> Keeps(digest, known, candidates, i)
    decreases i
  {
    assert |ids| == |candidates|;
    hide Keeps;
    forall j | 0 <= j < i ensures KeptId(known, candidates, ids, j) <==> Keeps(digest, known, candidates, j) {
      KeepsExactly(digest, known, candidates, ids, j);
    }
    KeepsNext(digest, known, candidates, ids, i);
  }

  lemma KeepsNext(digest: Digest, known: map<string, string>, candidates: seq<Candidate>, ids: seq<string>, i: nat)
    requires Assigned(digest, known, candidates, ids) && AllCandidatesPlain(digest, candidates)
    requires i < |ids| == |candidates|
    requires forall j :: 0 <= j < i ==> (KeptId(known, candidates, ids, j) <==> Keeps(digest, known, candidates, j))
    ensures KeptId(known, candidates, ids, i) <==> Keeps(digest, known, candidates, i)
  {
    if Identity(candidates[i]) in known && known[Identity(candidates[i])] != "" {
      var own := known[Identity(candidates[i])];
      KeptIfFree(digest, known, candidates, ids, i);
      hide Assigned, AllCandidatesPlain, RoomFor, Rank, BaseId, Identity;
      if j :| 0 <= j < i && Identity(candidates[j]) in known && known[Identity(candidates[j])] == own {
        KnownIsTaken(digest, known, candidates, ids, i, j);
      } else {
        TakenWithoutRoom(digest, known, candidates, ids, i, own);
      }
    } else if Identity(candidates[i]) in known {
      KeptIfFree(digest, known, candidates, ids, i);
    }
  }

  lemma TakenWithoutRoom(digest: Digest, known: map<string, string>, candidates: seq<Candidate>, ids: seq<string>,
                         i: nat, own: string)
    requires Assigned(digest, known, candidates, ids) && AllCandidatesPlain(digest, candidates)
    requires i < |ids| == |candidates|
    requires forall j :: 0 <= j < i ==> (KeptId(known, candidates, ids, j) <==> Keeps(digest, known, candidates, j))
    requires forall j :: 0 <= j < i && Identity(candidates[j]) in known ==> known[Identity(candidates[j])] != own
    ensures own in Taken(ids[..i]) <==>
            !forall j :: 0 <= j < i ==> RoomFor(digest, known, candidates, i, own, BaseId(digest, candidates[j]))
  {
    hide Assigned, AllCandidatesPlain, Rank, BaseId, Identity, Keeps, Holding, Holders, KnownRanks;
    if own in Taken(ids[..i]) {
      var k :| 0 <= k < i && ids[k] == own;
      IdKinds(digest, known, candidates, ids, k);
      TakenByHolders(digest, known, candidates, ids, i, k, own);
      HoldingIsHolders(digest, known, candidates, ids, i, k);
      assert !RoomFor(digest, known, candidates, i, own, BaseId(digest, candidates[k]));
    }
    if j :| 0 <= j < i && !RoomFor(digest, known, candidates, i, own, BaseId(digest, candidates[j])) {
      TakenByHolders(digest, known, candidates, ids, i, j, own);
      HoldingIsHolders(digest, known, candidates, ids, i, j);
    }
  }

  lemma HoldingIsHolders(digest: Digest, known: map<string, string>, candidates: seq<Candidate>, ids: seq<string>,
                         i: nat, m: nat)
    requires Assigned(digest, known, candidates, ids) && AllCandidatesPlain(digest, candidates)
    requires i < |ids| == |candidates| && m < |ids|
    requires forall j :: 0 <= j < i ==> (KeptId(known, candidates, ids, j) <==> Keeps(digest, known, candidates, j))
    ensures var base := BaseId(digest, candidates[m]);
            Holding(digest, known, candidates, i, base) == Holders(ids, i, base)
  {
    var base := BaseId(digest, candidates[m]);
    assert candidates[m] in candidates;
    hide Assigned, Rank, BaseId, Identity, Keeps, Plain;
    forall j: nat | j < i
      ensures j in Holding(digest, known, candidates, i, base) <==> j in Holders(ids, i, base)
    {
      assert candidates[j] in candidates;
      assert KeptId(known, candidates, ids, j) <==> Keeps(digest, known, candidates, j);
      IdKinds(digest, known, candidates, ids, j);
      if Ranked(ids[j], BaseId(digest, candidates[j])) && Ranked(ids[j], base) {
        RankTellsBase(digest, ids[j], candidates[j], candidates[m]);
      }
    }
  }

  // ---------- contenders ----------

  /** The earlier candidates with a claim on a family: the new ones of the family, and those known by an id of it. */
  ghost function Claims(digest: Digest, known: map<string, string>, candidates: seq<Candidate>, i: nat, base: string)
    : set<nat>
    requires i <= |candidates|
  {
    set j: nat | j < i && if Identity(candidates[j]) in known then Ranked(known[Identity(candidates[j])], base)
                          else BaseId(digest, candidates[j]) == base
  }

  /** The earlier candidates that contend for the lower ranks of a family: the new ones of the family, and those known
      by an id of lower rank in it. */
  ghost function Contenders(digest: Digest, known: map<string, string>, candidates: seq<Candidate>, i: nat,
                            base: string, rank: nat): set<nat>
    requires i <= |candidates|
  {
    set j: nat | j < i && if Identity(candidates[j]) in known then 0 < Rank(known[Identity(candidates[j])], base) < rank
                          else BaseId(digest, candidates[j]) == base
  }

  ghost function Want(known: map<string, string>, candidates: seq<Candidate>, base: string): nat -> nat {
    (j: nat) => if j < |candidates| && Identity(candidates[j]) in known then Rank(known[Identity(candidates[j])], base)
                else 0
  }

  /** Whoever lost its id before `i` is known by an id of this family exactly if it belongs to it. */
  ghost predicate Orderly(digest: Digest, known: map<string, string>, candidates: seq<Candidate>, ids: seq<string>,
                          i: nat, base: string)
    requires i <= |candidates| == |ids|
  {
    forall j :: 0 <= j < i && Identity(candidates[j]) in known && ids[j] != known[Identity(candidates[j])] ==>
                  (BaseId(digest, candidates[j]) == base <==> Ranked(known[Identity(candidates[j])], base))
  }

  /** No two candidates before `i` are known by the same id. */
  ghost predicate KnownApart(known: map<string, string>, candidates: seq<Candidate>, i: nat)
    requires i <= |candidates|
  {
    forall j, k ::
      (0 <= j < i && 0 <= k < i && Identity(candidates[j]) in known && Identity(candidates[k]) in known
       && known[Identity(candidates[j])] == known[Identity(candidates[k])]) ==> j == k
  }

  /** Then the holders of the family's ids are those with a claim on it. */
  lemma HoldersHaveClaims(digest: Digest, known: map<string, string>, candidates: seq<Candidate>, ids: seq<string>,
                          i: nat, m: nat)
    requires Assigned(digest, known, candidates, ids) && AllCandidatesPlain(digest, candidates)
    requires i <= |ids| == |candidates| && m < |ids|
    requires Orderly(digest, known, candidates, ids, i, BaseId(digest, candidates[m]))
    ensures var base := BaseId(digest, candidates[m]);
            Holders(ids, i, base) == Claims(digest, known, candidates, i, base)
  {
    var base := BaseId(digest, candidates[m]);
    assert candidates[m] in candidates;
    hide BaseId, Rank, Assigned, Identity, Plain;
    forall j: nat | j < i ensures j in Claims(digest, known, candidates, i, base) <==> j in Holders(ids, i, base) {
      assert candidates[j] in candidates;
      IdKinds(digest, known, candidates, ids, j);
      if Ranked(ids[j], BaseId(digest, candidates[j])) && Ranked(ids[j], base) {
        RankTellsBase(digest, ids[j], candidates[j], candidates[m]);
      }
    }
  }

  /** Claims are contenders and higher known ranks. */
  lemma ClaimsByRank(digest: Digest, known: map<string, string>, candidates: seq<Candidate>, i: nat, base: string,
                     id: string)
    requires i <= |candidates| && Ranked(id, base) && KnownApart(known, candidates, i)
    requires forall j :: 0 <= j < i && Identity(candidates[j]) in known ==> known[Identity(candidates[j])] != id
    ensures |Claims(digest, known, candidates, i, base)| ==
            |Contenders(digest, known, candidates, i, base, Rank(id, base))|
            + |Above(KnownRanks(known, candidates, i, base), Rank(id, base))|
  {
    var rank := Rank(id, base);
    hide BaseId, Identity, Rank;
    var higher := HigherClaims(known, candidates, i, base, rank);
    UnknownRank(known, candidates, i, base, id);
    HigherRanks(known, candidates, i, base, rank);
    var claims := Claims(digest, known, candidates, i, base);
    var contenders := Contenders(digest, known, candidates, i, base, rank);
    forall j: nat
      ensures j in claims <==> j in contenders || j in higher
      ensures !(j in contenders && j in higher)
    {
      ClaimByRank(digest, known, candidates, i, base, id, j);
    }
    hide *;
    PartsSize(claims, contenders, higher);
  }

  lemma ClaimByRank(digest: Digest, known: map<string, string>, candidates: seq<Candidate>, i: nat, base: string,
                    id: string, j: nat)
    requires i <= |candidates| && Ranked(id, base)
    requires j < i && Identity(candidates[j]) in known ==> Rank(known[Identity(candidates[j])], base) != Rank(id, base)
    ensures var contends := j in Contenders(digest, known, candidates, i, base, Rank(id, base));
            var higher := j in HigherClaims(known, candidates, i, base, Rank(id, base));
            (j in Claims(digest, known, candidates, i, base) <==> contends || higher) && !(contends && higher)
  {
    hide BaseId, Identity, Rank;
  }

  ghost function HigherClaims(known: map<string, string>, candidates: seq<Candidate>, i: nat, base: string, rank: nat)
    : set<nat>
    requires i <= |candidates|
  {
    set j: nat | j < i && Identity(candidates[j]) in known && Rank(known[Identity(candidates[j])], base) > rank
  }

  lemma HigherRanks(known: map<string, string>, candidates: seq<Candidate>, i: nat, base: string, rank: nat)
    requires i <= |candidates| && KnownApart(known, candidates, i)
    ensures |HigherClaims(known, candidates, i, base, rank)| == |Above(KnownRanks(known, candidates, i, base), rank)|
  {
    hide Identity, Attempt;
    var higher := HigherClaims(known, candidates, i, base, rank);
    var want := Want(known, candidates, base);
    forall r | r in Above(KnownRanks(known, candidates, i, base), rank) ensures r in Image(higher, want) {
      var j: nat :| j < i && Identity(candidates[j]) in known && Ranked(known[Identity(candidates[j])], base)
                    && r == Rank(known[Identity(candidates[j])], base);
      assert j in higher && want(j) == r;
    }
    assert Image(higher, want) == Above(KnownRanks(known, candidates, i, base), rank);
    forall j, k | j in higher && k in higher && want(j) == want(k) ensures j == k {
      assert known[Identity(candidates[j])] == Attempt(base, base, want(j)) == known[Identity(candidates[k])];
    }
    ImageSize(higher, want);
  }

  /** In an orderly family it is enough to count the contenders. */
  lemma TakenByCount(digest: Digest, known: map<string, string>, candidates: seq<Candidate>, ids: seq<string>,
                     i: nat, m: nat, id: string)
    requires Assigned(digest, known, candidates, ids) && AllCandidatesPlain(digest, candidates)
    requires i <= |ids| == |candidates| && m < |ids| && KnownApart(known, candidates, i)
    requires Orderly(digest, known, candidates, ids, i, BaseId(digest, candidates[m]))
    requires Ranked(id, BaseId(digest, candidates[m]))
    requires forall j :: 0 <= j < i && Identity(candidates[j]) in known ==> known[Identity(candidates[j])] != id
    ensures var base := BaseId(digest, candidates[m]);
            id in Taken(ids[..i]) <==>
            |Contenders(digest, known, candidates, i, base, Rank(id, base))| >= Rank(id, base)
  {
    var base := BaseId(digest, candidates[m]);
    TakenByHolders(digest, known, candidates, ids, i, m, id);
    HoldersHaveClaims(digest, known, candidates, ids, i, m);
    ClaimsByRank(digest, known, candidates, i, base, id);
  }

  // ---------- when every surviving entry keeps its id ----------

  ghost predicate Kept(known: map<string, string>, candidates: seq<Candidate>, ids: seq<string>, i: nat)
    requires i < |candidates| == |ids|
  {
    Identity(candidates[i]) in known ==> ids[i] == known[Identity(candidates[i])]
  }

  /** A surviving entry's id is safe from the candidates before it: it is not empty, none of them is known by it, and in
      a family it belongs to, fewer of them contend than its rank. */
  ghost predicate Secure(digest: Digest, known: map<string, string>, candidates: seq<Candidate>, i: nat)
    requires i < |candidates|
  {
    Identity(candidates[i]) in known ==>
      var own := known[Identity(candidates[i])];
      && own != ""
      && (forall j :: 0 <= j < i && Identity(candidates[j]) in known ==> known[Identity(candidates[j])] != own)
      && forall j :: 0 <= j < i ==> Uncontended(digest, known, candidates, i, own, BaseId(digest, candidates[j]))
  }

  ghost predicate Uncontended(digest: Digest, known: map<string, string>, candidates: seq<Candidate>, i: nat,
                              id: string, base: string)
    requires i <= |candidates|
  {
    Ranked(id, base) ==> |Contenders(digest, known, candidates, i, base, Rank(id, base))| < Rank(id, base)
  }

  /** As long as everybody before kept its id, an entry keeps its own exactly when it is secure. */
  lemma KeptWhileOthersKeep(digest: Digest, known: map<string, string>, candidates: seq<Candidate>, ids: seq<string>,
                            i: nat)
    requires Assigned(digest, known, candidates, ids) && AllCandidatesPlain(digest, candidates)
    requires i < |ids| && forall j :: 0 <= j < i ==> Kept(known, candidates, ids, j)
    ensures Kept(known, candidates, ids, i) <==> Secure(digest, known, candidates, i)
  {
    if Identity(candidates[i]) in known {
      var own := known[Identity(candidates[i])];
      KeptIfFree(digest, known, candidates, ids, i);
      EarlierKnownApart(digest, known, candidates, ids, i);
      assert |ids| == |candidates|;
      hide BaseId, Assigned, AllCandidatesPlain, KnownApart, Identity, Uncontended, Rank;
      forall j | 0 <= j < i && Identity(candidates[j]) in known && known[Identity(candidates[j])] == own
        ensures own in Taken(ids[..i])
      {
        assert Kept(known, candidates, ids, j);
        assert ids[..i][j] == own;
      }
      if forall j :: 0 <= j < i && Identity(candidates[j]) in known ==> known[Identity(candidates[j])] != own {
        TakenWhenContended(digest, known, candidates, ids, i, own);
      }
    }
  }

  lemma EarlierKnownApart(digest: Digest, known: map<string, string>, candidates: seq<Candidate>, ids: seq<string>,
                          i: nat)
    requires Assigned(digest, known, candidates, ids) && i <= |ids|
    requires forall j :: 0 <= j < i ==> Kept(known, candidates, ids, j)
    ensures KnownApart(known, candidates, i)
  {
    IdsAreDistinct(digest, known, candidates, ids);
    assert |ids| == |candidates|;
    hide Assigned, Identity;
    forall j, k | 0 <= j < i && 0 <= k < i && Identity(candidates[j]) in known && Identity(candidates[k]) in known
                  && known[Identity(candidates[j])] == known[Identity(candidates[k])]
      ensures j == k
    {
      assert Kept(known, candidates, ids, j) && Kept(known, candidates, ids, k);
      assert !(j < k) && !(k < j);
    }
  }

  lemma KeptIsOrderly(digest: Digest, known: map<string, string>, candidates: seq<Candidate>, ids: seq<string>,
                      i: nat, base: string)
    requires i <= |candidates| == |ids| && forall j :: 0 <= j < i ==> Kept(known, candidates, ids, j)
    ensures Orderly(digest, known, candidates, ids, i, base)
  {
    hide BaseId, Rank, Identity;
    forall j | 0 <= j < i && Identity(candidates[j]) in known ensures ids[j] == known[Identity(candidates[j])] {
      assert Kept(known, candidates, ids, j);
    }
  }

  /** An id that nobody before is known by is taken exactly when it is contended in the family of somebody before. */
  lemma TakenWhenContended(digest: Digest, known: map<string, string>, candidates: seq<Candidate>, ids: seq<string>,
                           i: nat, own: string)
    requires Assigned(digest, known, candidates, ids) && AllCandidatesPlain(digest, candidates)
    requires i < |ids| && forall j :: 0 <= j < i ==> Kept(known, candidates, ids, j)
    requires KnownApart(known, candidates, i)
    requires forall j :: 0 <= j < i && Identity(candidates[j]) in known ==> known[Identity(candidates[j])] != own
    ensures own in Taken(ids[..i]) <==>
            !forall j :: 0 <= j < i ==> Uncontended(digest, known, candidates, i, own, BaseId(digest, candidates[j]))
  {
    assert |ids| == |candidates|;
    hide BaseId, Rank, Assigned, AllCandidatesPlain, KnownApart, Identity;
    if own in Taken(ids[..i]) {
      var k :| 0 <= k < i && ids[k] == own;
      assert Kept(known, candidates, ids, k);
      IdKinds(digest, known, candidates, ids, k);
      hide Kept;
      KeptIsOrderly(digest, known, candidates, ids, i, BaseId(digest, candidates[k]));
      TakenByCount(digest, known, candidates, ids, i, k, own);
      assert !Uncontended(digest, known, candidates, i, own, BaseId(digest, candidates[k]));
    }
    if j :| 0 <= j < i && !Uncontended(digest, known, candidates, i, own, BaseId(digest, candidates[j])) {
      hide Kept;
      KeptIsOrderly(digest, known, candidates, ids, i, BaseId(digest, candidates[j]));
      TakenByCount(digest, known, candidates, ids, i, j, own);
    }
  }

  /** Exactly when a run keeps the id of every surviving entry, whatever ids the registry holds: when every surviving
      entry is secure. */
  lemma AllKeepIdsExactly(digest: Digest, known: map<string, string>, candidates: seq<Candidate>, ids: seq<string>)
    requires Assigned(digest, known, candidates, ids) && AllCandidatesPlain(digest, candidates)
    ensures (forall i :: 0 <= i < |ids| ==> Kept(known, candidates, ids, i)) <==>
            (forall i :: 0 <= i < |ids| ==> Secure(digest, known, candidates, i))
  {
    assert |ids| == |candidates|;
    hide Assigned, AllCandidatesPlain, Kept, Secure;
    if forall i :: 0 <= i < |ids| ==> Kept(known, candidates, ids, i) {
      forall i | 0 <= i < |ids| ensures Secure(digest, known, candidates, i) {
        KeptWhileOthersKeep(digest, known, candidates, ids, i);
      }
    }
    if forall i :: 0 <= i < |ids| ==> Secure(digest, known, candidates, i) {
      SecureKeepUpTo(digest, known, candidates, ids, |ids|);
    }
  }

  lemma {:induction false} SecureKeepUpTo(digest: Digest, known: map<string, string>, candidates: seq<Candidate>,
                                          ids: seq<string>, n: nat)
    requires Assigned(digest, known, candidates, ids) && AllCandidatesPlain(digest, candidates) && n <= |ids|
    requires forall i :: 0 <= i < n ==> Secure(digest, known, candidates, i)
    ensures forall i :: 0 <= i < n ==> Kept(known, candidates, ids, i)
  {
    if n > 0 {
      assert |ids| == |candidates|;
      hide Assigned, AllCandidatesPlain, Kept, Secure;
      SecureKeepUpTo(digest, known, candidates, ids, n - 1);
      KeptWhileOthersKeep(digest, known, candidates, ids, n - 1);
    }
  }

  // ---------- when one surviving entry keeps its id ----------

  /** A registry: one entry per identity and per id, no id empty. Every run leaves one, and its ids may come from
      anywhere. */
  ghost predicate Sound(entries: seq<Entry>) {
    DistinctIdentities(Candidates(entries)) && DistinctIds(entries) && forall e <- entries :: e.id != ""
  }

  /** No candidate is known by an id of another candidate's family. Ids of no current family at all, such as those of an
      older scheme, are not strays. */
  ghost predicate NoStrays(digest: Digest, known: map<string, string>, candidates: seq<Candidate>) {
    forall a <- candidates, c <- candidates :: Identity(a) in known && Ranked(known[Identity(a)], BaseId(digest, c)) ==>
      BaseId(digest, c) == BaseId(digest, a)
  }

  lemma SoundIsKnownApart(out: seq<Entry>, candidates: seq<Candidate>, i: nat)
    requires Sound(out) && DistinctIdentities(candidates) && i <= |candidates|
    ensures KnownApart(PreviousIds(out), candidates, i)
    ensures forall c <- candidates :: Identity(c) in PreviousIds(out) ==> PreviousIds(out)[Identity(c)] != ""
  {
    var known := PreviousIds(out);
    hide Identity, DistinctIds;
    forall j, k | 0 <= j < i && 0 <= k < i && Identity(candidates[j]) in known && Identity(candidates[k]) in known
                  && known[Identity(candidates[j])] == known[Identity(candidates[k])]
      ensures j == k
    {
      PreviousIdsDiffer(out, Identity(candidates[j]), Identity(candidates[k]));
      assert !(j < k) && !(k < j);
    }
    forall c | c in candidates && Identity(c) in known ensures known[Identity(c)] != "" {
      var k := WhoseId(out, Identity(c));
    }
  }

  /** An id of no current family is never lost. */
  lemma ForeignIdIsKept(digest: Digest, known: map<string, string>, candidates: seq<Candidate>, ids: seq<string>,
                        i: nat)
    requires Assigned(digest, known, candidates, ids) && AllCandidatesPlain(digest, candidates)
    requires NoStrays(digest, known, candidates) && KnownApart(known, candidates, |candidates|)
    requires i < |ids| && Identity(candidates[i]) in known && known[Identity(candidates[i])] != ""
    requires !Ranked(known[Identity(candidates[i])], BaseId(digest, candidates[i]))
    ensures ids[i] == known[Identity(candidates[i])]
  {
    var own := known[Identity(candidates[i])];
    KeptIfFree(digest, known, candidates, ids, i);
    assert |ids| == |candidates| && candidates[i] in candidates;
    hide BaseId, Rank, Assigned, Identity, AllCandidatesPlain;
    if own in Taken(ids[..i]) {
      var k :| 0 <= k < i && ids[k] == own;
      assert candidates[k] in candidates;
      IdKinds(digest, known, candidates, ids, k);
      assert false;
    }
  }

  lemma NoStraysIsOrderly(digest: Digest, known: map<string, string>, candidates: seq<Candidate>, ids: seq<string>,
                          i: nat, m: nat)
    requires Assigned(digest, known, candidates, ids) && AllCandidatesPlain(digest, candidates)
    requires NoStrays(digest, known, candidates) && KnownApart(known, candidates, |candidates|)
    requires forall c <- candidates :: Identity(c) in known ==> known[Identity(c)] != ""
    requires i <= |ids| && m < |ids|
    ensures |ids| == |candidates| && Orderly(digest, known, candidates, ids, i, BaseId(digest, candidates[m]))
  {
    assert |ids| == |candidates| && candidates[m] in candidates;
    hide BaseId, Rank, Assigned, Identity, AllCandidatesPlain, KnownApart;
    forall j | 0 <= j < i && Identity(candidates[j]) in known && ids[j] != known[Identity(candidates[j])]
      ensures BaseId(digest, candidates[j]) == BaseId(digest, candidates[m]) <==>
              Ranked(known[Identity(candidates[j])], BaseId(digest, candidates[m]))
    {
      assert candidates[j] in candidates;
      if !Ranked(known[Identity(candidates[j])], BaseId(digest, candidates[j])) {
        ForeignIdIsKept(digest, known, candidates, ids, j);
      }
    }
  }

  /** Exactly when a surviving entry keeps its id: when the id is not of the entry's family, or fewer earlier candidates
      contend for the family than the id's rank. */
  lemma SurvivorKeepsIdExactly(digest: Digest, out: seq<Entry>, candidates: seq<Candidate>, ids: seq<string>, i: nat)
    requires Sound(out) && DistinctIdentities(candidates) && AllCandidatesPlain(digest, candidates)
    requires NoStrays(digest, PreviousIds(out), candidates)
    requires Assigned(digest, PreviousIds(out), candidates, ids)
    requires i < |candidates| && Identity(candidates[i]) in PreviousIds(out)
    ensures var known, base := PreviousIds(out), BaseId(digest, candidates[i]);
            var own := known[Identity(candidates[i])];
            ids[i] == own <==>
            !Ranked(own, base) || |Contenders(digest, known, candidates, i, base, Rank(own, base))| < Rank(own, base)
  {
    var known, own := PreviousIds(out), PreviousIds(out)[Identity(candidates[i])];
    assert |ids| == |candidates| && candidates[i] in candidates;
    SoundIsKnownApart(out, candidates, |candidates|);
    hide BaseId, Rank, Assigned, Identity, AllCandidatesPlain, Sound, NoStrays, DistinctIdentities, PreviousIds;
    if !Ranked(own, BaseId(digest, candidates[i])) {
      ForeignIdIsKept(digest, known, candidates, ids, i);
    } else {
      NoStraysIsOrderly(digest, known, candidates, ids, i, i);
      KeptIfFree(digest, known, candidates, ids, i);
      TakenByCount(digest, known, candidates, ids, i, i, own);
    }
  }

  /** An entry whose id is its base id loses it exactly to an earlier new entry of its family. */
  lemma BaseIdKeptExactly(digest: Digest, out: seq<Entry>, candidates: seq<Candidate>, ids: seq<string>, i: nat)
    requires Sound(out) && DistinctIdentities(candidates) && AllCandidatesPlain(digest, candidates)
    requires NoStrays(digest, PreviousIds(out), candidates)
    requires Assigned(digest, PreviousIds(out), candidates, ids)
    requires i < |candidates| && Identity(candidates[i]) in PreviousIds(out)
    requires PreviousIds(out)[Identity(candidates[i])] == BaseId(digest, candidates[i])
    ensures ids[i] == BaseId(digest, candidates[i]) <==>
            forall j :: 0 <= j < i ==>
              || Identity(candidates[j]) in PreviousIds(out)
              || BaseId(digest, candidates[j]) != BaseId(digest, candidates[i])
  {
    var known, base := PreviousIds(out), BaseId(digest, candidates[i]);
    SurvivorKeepsIdExactly(digest, out, candidates, ids, i);
    assert HasRank(base, base, 1);
    RankIsUnique(base, base, 1);
    hide BaseId, Rank, Assigned, Sound, DistinctIdentities, AllCandidatesPlain, NoStrays, Identity, PreviousIds;
    var contenders := Contenders(digest, known, candidates, i, base, 1);
    assert |contenders| < 1 <==> contenders == {};
    forall j | 0 <= j < i
      ensures j in contenders <==> Identity(candidates[j]) !in known && BaseId(digest, candidates[j]) == base
    {
    }
  }

  lemma OrderedOne(c: Candidate)
    ensures Ordered([c]) == [c]
  {
    UniqueOfDistinct([c]);
    var less := (a, b) => EntryLess(a, b);
    hide EntryLess, Unique;
    assert [c][..0] == [] && SortBy(less, [c][..0]) == [];
    assert SortBy(less, [c]) == Insert(less, c, []);
  }

  /** A registered id of any form stays when the entry is found again with another kind and line. */
  lemma RegisteredIdStays(digest: Digest, registered: Candidate, id: string, found: Candidate, out: seq<Entry>)
    requires id != "" && Identity(found) == Identity(registered)
    requires IsRun(digest, [Entry(registered, id)], [found], out)
    ensures out == [Entry(found, id)]
  {
    OrderedOne(found);
    assert [Entry(registered, id)][..0] == [];
    assert PreviousIds([Entry(registered, id)]) == map[Identity(registered) := id];
    hide Assigned, Identity, Ordered, PreviousIds;
    assert |out| == |Candidates(out)| == 1 && Ids(out)[..0] == [];
    KeptIfFree(digest, map[Identity(registered) := id], [found], Ids(out), 0);
    assert Candidates(out)[0] == found && Ids(out)[0] == id;
  }
}
