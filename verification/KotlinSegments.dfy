/** `splitTopLevelSegments` (scripts/android-app-i18n.ts): Kotlin parameter and argument lists, with or without tracking
    of type arguments. */
module KotlinSegments {
  import opened Text
  import opened TopLevelCommas

  datatype State = State(quoted: bool, escaped: bool, typeArgumentDepth: nat, inDefaultValue: bool,
                         paren: int, bracket: int, brace: int)

  const START := State(false, false, 0, false, 0, 0, 0)

  predicate DepthsZero(st: State) { st.paren == 0 && st.bracket == 0 && st.brace == 0 }

  predicate Quiet(st: State) { !st.quoted && !st.escaped && st.typeArgumentDepth == 0 && DepthsZero(st) }

  function Next(track: bool, st: State, c: char): State {
    if st.escaped then st.(escaped := false)
    else if st.quoted && c == '\\' then st.(escaped := true)
    else if c == '"' then st.(quoted := !st.quoted)
    else if st.quoted then st
    else if track && !st.inDefaultValue && c == '<' then st.(typeArgumentDepth := st.typeArgumentDepth + 1)
    else if track && c == '>' && st.typeArgumentDepth > 0 then st.(typeArgumentDepth := st.typeArgumentDepth - 1)
    else if c == '(' then st.(paren := st.paren + 1)
    else if c == '[' then st.(bracket := st.bracket + 1)
    else if c == '{' then st.(brace := st.brace + 1)
    else if c == ')' then st.(paren := st.paren - 1)
    else if c == ']' then st.(bracket := st.bracket - 1)
    else if c == '}' then st.(brace := st.brace - 1)
    else if track && c == '=' && st.typeArgumentDepth == 0 && DepthsZero(st) then st.(inDefaultValue := true)
    else st
  }

  function Kotlin(track: bool): Scanner<State> {
    Scanner(START, (st, c) => Next(track, st, c), st => Quiet(st))
  }

  datatype Segment = Segment(start: nat, end: nat, value: string)

  /** The segments from offset `i` on, of which the first began at `segmentStart`. */
  ghost function SegmentsFrom(track: bool, source: string, i: nat, end: nat, st: State,
                              segmentStart: nat): (r: seq<Segment>)
    requires segmentStart <= i <= end <= |source|
    ensures r != []
    decreases end - i
  {
    if i == end then [Segment(segmentStart, end, source[segmentStart..end])]
    else if Cuts(Kotlin(track), st, source[i]) then
      [Segment(segmentStart, i, source[segmentStart..i])] + SegmentsFrom(track, source, i + 1, end, START, i + 1)
    else SegmentsFrom(track, source, i + 1, end, Next(track, st, source[i]), segmentStart)
  }

  /** JavaScript's `source.slice(from, to)`, whose offsets may lie behind the end. */
  function Slice(source: string, from: nat, to: nat): string {
    var stop := if to < |source| then to else |source|;
    if from < stop then source[from..stop] else ""
  }

  /** The segments with the last one ending at `end`. */
  function EndingAt(segments: seq<Segment>, end: nat): seq<Segment>
    requires segments != []
  {
    var n := |segments| - 1;
    segments[..n] + [segments[n].(end := end)]
  }

  /** The segments of any slice: nothing is cut behind the end of the text, and the last segment ends where the slice
      does. */
  ghost function SegmentsOf(track: bool, source: string, start: nat, end: nat): seq<Segment> {
    if start <= end <= |source| then SegmentsFrom(track, source, start, end, START, start)
    else if start <= |source| < end then EndingAt(SegmentsFrom(track, source, start, |source|, START, start), end)
    else [Segment(start, end, "")]
  }

  /** Where the loop stands: the segments cut so far, and those still to come from offset `index` on, are all. Behind
      the end of the text nothing is cut any more. */
  ghost predicate Reading(track: bool, source: string, start: nat, stop: nat, index: nat, st: State, segmentStart: nat,
                          segments: seq<Segment>)
    requires stop <= |source|
  {
    if start > stop then segments == [] && segmentStart == start
    else
      var i := if index < stop then index else stop;
      && segmentStart <= i
      && segments + SegmentsFrom(track, source, i, stop, st, segmentStart)
         == SegmentsFrom(track, source, start, stop, START, start)
  }

  lemma ReadingStarts(track: bool, source: string, start: nat, stop: nat)
    requires stop <= |source|
    ensures Reading(track, source, start, stop, start, START, start, [])
  {
    if start <= stop {
      assert [] + SegmentsFrom(track, source, start, stop, START, start)
             == SegmentsFrom(track, source, start, stop, START, start);
    }
  }

  lemma ReadingOn(track: bool, source: string, start: nat, stop: nat, index: nat, st: State, segmentStart: nat,
                  segments: seq<Segment>)
    requires start <= index < stop <= |source| && Reading(track, source, start, stop, index, st, segmentStart, segments)
    requires !Cuts(Kotlin(track), st, source[index])
    ensures Reading(track, source, start, stop, index + 1, Next(track, st, source[index]), segmentStart, segments)
  {
  }

  lemma ReadingCuts(track: bool, source: string, start: nat, stop: nat, index: nat, st: State, segmentStart: nat,
                    segments: seq<Segment>)
    requires start <= index < stop <= |source| && Reading(track, source, start, stop, index, st, segmentStart, segments)
    requires Cuts(Kotlin(track), st, source[index])
    ensures Reading(track, source, start, stop, index + 1, START, index + 1,
                    segments + [Segment(segmentStart, index, Slice(source, segmentStart, index))])
  {
    var cut := Segment(segmentStart, index, Slice(source, segmentStart, index));
    var rest := SegmentsFrom(track, source, index + 1, stop, START, index + 1);
    assert cut.value == source[segmentStart..index];
    assert SegmentsFrom(track, source, index, stop, st, segmentStart) == [cut] + rest;
    assert segments + ([cut] + rest) == segments + [cut] + rest;
  }

  lemma ReadingBehind(track: bool, source: string, start: nat, stop: nat, index: nat, st: State, next: State,
                      segmentStart: nat, segments: seq<Segment>)
    requires stop <= index && stop <= |source|
    requires Reading(track, source, start, stop, index, st, segmentStart, segments)
    ensures Reading(track, source, start, stop, index + 1, next, segmentStart, segments)
  {
  }

  lemma ReadingEnds(track: bool, source: string, start: nat, end: nat, index: nat, st: State, segmentStart: nat,
                    segments: seq<Segment>)
    requires index >= end && (start <= end ==> segmentStart <= end)
    requires Reading(track, source, start, if end < |source| then end else |source|, index, st, segmentStart, segments)
    ensures segments + [Segment(segmentStart, end, Slice(source, segmentStart, end))]
            == SegmentsOf(track, source, start, end)
  {
    var stop := if end < |source| then end else |source|;
    if start <= stop {
      var last := Segment(segmentStart, stop, source[segmentStart..stop]);
      assert SegmentsFrom(track, source, start, stop, START, start) == segments + [last];
      assert (segments + [last])[..|segments|] == segments;
      assert EndingAt(segments + [last], end) == segments + [last.(end := end)];
      assert Slice(source, segmentStart, end) == last.value;
    } else {
      assert segments + [Segment(start, end, "")] == [Segment(start, end, "")];
      assert Slice(source, segmentStart, end) == "";
    }
  }

  /** `splitTopLevelSegments`. A character behind the end of the text is none of those the loop looks for. */
  method SplitTopLevelSegments(source: string, start: nat, end: nat, trackTypeArguments: bool)
    returns (segments: seq<Segment>)
    ensures segments == SegmentsOf(trackTypeArguments, source, start, end)
  {
    segments := [];
    var segmentStart := start;
    var quoted, escaped := false, false;
    var typeArgumentDepth: nat := 0;
    var inDefaultValue := false;
    var paren, bracket, brace := 0, 0, 0;
    ghost var stop := if end < |source| then end else |source|;
    ReadingStarts(trackTypeArguments, source, start, stop);
    hide Reading, SegmentsFrom, Slice;
    var index := start;
    while index < end
      invariant start <= segmentStart <= index && (start <= end ==> index <= end)
      invariant Reading(trackTypeArguments, source, start, stop, index,
                        State(quoted, escaped, typeArgumentDepth, inDefaultValue, paren, bracket, brace),
                        segmentStart, segments)
    {
      ghost var st := State(quoted, escaped, typeArgumentDepth, inDefaultValue, paren, bracket, brace);
      if index >= |source| {
        ReadingBehind(trackTypeArguments, source, start, stop, index, st, st.(escaped := false),
                      segmentStart, segments);
        escaped := false;
        index := index + 1;
        continue;
      }
      if Cuts(Kotlin(trackTypeArguments), st, source[index]) {
        ReadingCuts(trackTypeArguments, source, start, stop, index, st, segmentStart, segments);
      } else {
        ReadingOn(trackTypeArguments, source, start, stop, index, st, segmentStart, segments);
      }
      var character := source[index];
      index := index + 1;
      if escaped {
        escaped := false;
        continue;
      }
      if quoted && character == '\\' {
        escaped := true;
        continue;
      }
      if character == '"' {
        quoted := !quoted;
        continue;
      }
      if quoted {
        continue;
      }
      if trackTypeArguments && !inDefaultValue && character == '<' {
        typeArgumentDepth := typeArgumentDepth + 1;
        continue;
      }
      if trackTypeArguments && character == '>' && typeArgumentDepth > 0 {
        typeArgumentDepth := typeArgumentDepth - 1;
        continue;
      }
      if character == '(' {
        paren := paren + 1;
        continue;
      }
      if character == '[' {
        bracket := bracket + 1;
        continue;
      }
      if character == '{' {
        brace := brace + 1;
        continue;
      }
      if character == ')' {
        paren := paren - 1;
        continue;
      }
      if character == ']' {
        bracket := bracket - 1;
        continue;
      }
      if character == '}' {
        brace := brace - 1;
        continue;
      }
      var depthsZero := paren == 0 && bracket == 0 && brace == 0;
      if trackTypeArguments && character == '=' && typeArgumentDepth == 0 && depthsZero {
        inDefaultValue := true;
        continue;
      }
      if character == ',' && typeArgumentDepth == 0 && depthsZero {
        segments := segments + [Segment(segmentStart, index - 1, Slice(source, segmentStart, index - 1))];
        segmentStart := index;
        inDefaultValue := false;
      }
    }
    ReadingEnds(trackTypeArguments, source, start, end, index,
                State(quoted, escaped, typeArgumentDepth, inDefaultValue, paren, bracket, brace),
                segmentStart, segments);
    segments := segments + [Segment(segmentStart, end, Slice(source, segmentStart, end))];
  }

  function Values(segments: seq<Segment>): (values: seq<string>)
    ensures |values| == |segments|
    ensures forall k :: 0 <= k < |values| ==> values[k] == segments[k].value
  {
    seq(|segments|, k requires 0 <= k < |segments| => segments[k].value)
  }

  lemma ValuesCons(first: Segment, rest: seq<Segment>)
    ensures Values([first] + rest) == [first.value] + Values(rest)
  {
  }

  /** The values of the segments are the pieces of the slice; the first one includes what was read before `i`. */
  lemma {:induction false} ValuesArePieces(track: bool, source: string, i: nat, end: nat, st: State, segmentStart: nat)
    requires segmentStart <= i <= end <= |source|
    ensures Values(SegmentsFrom(track, source, i, end, st, segmentStart))
         == Prefixed(source[segmentStart..i], Pieces(Kotlin(track), st, source[i..end]))
    decreases end - i
  {
    if i < end {
      hide Next, Quiet, Values, Prefixed, SegmentsFrom, Pieces;
      if Cuts(Kotlin(track), st, source[i]) {
        ValuesArePieces(track, source, i + 1, end, START, i + 1);
        ValuesAtCut(track, source, i, end, st, segmentStart);
      } else {
        ValuesArePieces(track, source, i + 1, end, Next(track, st, source[i]), segmentStart);
        ValuesWithin(track, source, i, end, st, segmentStart);
      }
    } else {
      assert source[i..end] == "" && Pieces(Kotlin(track), st, "") == [""];
      assert source[segmentStart..i] + "" == source[segmentStart..i];
    }
  }

  lemma ValuesAtCut(track: bool, source: string, i: nat, end: nat, st: State, segmentStart: nat)
    requires segmentStart <= i < end <= |source| && Cuts(Kotlin(track), st, source[i])
    requires Values(SegmentsFrom(track, source, i + 1, end, START, i + 1))
          == Prefixed(source[i + 1..i + 1], Pieces(Kotlin(track), START, source[i + 1..end]))
    ensures Values(SegmentsFrom(track, source, i, end, st, segmentStart))
         == Prefixed(source[segmentStart..i], Pieces(Kotlin(track), st, source[i..end]))
  {
    hide Next, Quiet, Values;
    var text, rest := source[i..end], SegmentsFrom(track, source, i + 1, end, START, i + 1);
    assert text[1..] == source[i + 1..end];
    PrefixedTwice("", "", Pieces(Kotlin(track), START, text[1..]));
    ValuesCons(Segment(segmentStart, i, source[segmentStart..i]), rest);
    assert source[i + 1..i + 1] == "" && source[segmentStart..i] + "" == source[segmentStart..i];
  }

  lemma ValuesWithin(track: bool, source: string, i: nat, end: nat, st: State, segmentStart: nat)
    requires segmentStart <= i < end <= |source| && !Cuts(Kotlin(track), st, source[i])
    requires Values(SegmentsFrom(track, source, i + 1, end, Next(track, st, source[i]), segmentStart))
          == Prefixed(source[segmentStart..i + 1],
                      Pieces(Kotlin(track), Next(track, st, source[i]), source[i + 1..end]))
    ensures Values(SegmentsFrom(track, source, i, end, st, segmentStart))
         == Prefixed(source[segmentStart..i], Pieces(Kotlin(track), st, source[i..end]))
  {
    hide Next, Quiet, Values, Prefixed;
    var text := source[i..end];
    assert text[1..] == source[i + 1..end];
    assert source[segmentStart..i + 1] == source[segmentStart..i] + [source[i]];
    PrefixedTwice(source[segmentStart..i], [source[i]], Pieces(Kotlin(track), Next(track, st, source[i]), text[1..]));
  }

  /** Segments lie side by side, separated by one character each, and fill the slice. */
  ghost predicate Adjacent(source: string, start: nat, end: nat, segments: seq<Segment>) {
    && |segments| > 0 && segments[0].start == start && segments[|segments| - 1].end == end
    && (forall k :: 0 <= k < |segments| ==>
          start <= segments[k].start <= segments[k].end <= end <= |source|
          && segments[k].value == source[segments[k].start..segments[k].end])
    && (forall k :: 0 < k < |segments| ==> segments[k].start == segments[k - 1].end + 1)
  }

  lemma AdjacentCons(source: string, start: nat, cut: nat, end: nat, rest: seq<Segment>)
    requires start <= cut < end <= |source| && Adjacent(source, cut + 1, end, rest)
    ensures Adjacent(source, start, end, [Segment(start, cut, source[start..cut])] + rest)
  {
  }

  /** The boundaries between segments: the ends of all but the last. */
  ghost predicate IsBoundary(segments: seq<Segment>, k: nat) {
    exists j :: 0 <= j < |segments| - 1 && segments[j].end == k
  }

  lemma {:induction false} SegmentsAreAdjacent(track: bool, source: string, i: nat, end: nat, st: State,
                                               segmentStart: nat)
    requires segmentStart <= i <= end <= |source|
    ensures Adjacent(source, segmentStart, end, SegmentsFrom(track, source, i, end, st, segmentStart))
    decreases end - i
  {
    if i < end {
      if Cuts(Kotlin(track), st, source[i]) {
        SegmentsAreAdjacent(track, source, i + 1, end, START, i + 1);
        AdjacentCons(source, segmentStart, i, end, SegmentsFrom(track, source, i + 1, end, START, i + 1));
      } else {
        SegmentsAreAdjacent(track, source, i + 1, end, Next(track, st, source[i]), segmentStart);
      }
    }
  }

  lemma {:induction false} BoundariesAreCommas(track: bool, source: string, start: nat, i: nat, end: nat,
                                               segmentStart: nat, k: nat)
    requires start <= segmentStart <= i <= end <= |source|
    ensures var m, text := Kotlin(track), source[start..end];
            IsBoundary(SegmentsFrom(track, source, i, end, StateAt(m, text, i - start), segmentStart), k)
            <==> i <= k < end && TopLevelComma(m, text, k - start)
    decreases end - i
  {
    var m, text := Kotlin(track), source[start..end];
    if i < end {
      hide Next, Quiet, IsBoundary, Adjacent;
      var st := StateAt(m, text, i - start);
      assert text[i - start] == source[i];
      assert StateAt(m, text, i + 1 - start) == if Cuts(m, st, source[i]) then START else Next(track, st, source[i]);
      if Cuts(m, st, source[i]) {
        BoundariesAreCommas(track, source, start, i + 1, end, i + 1, k);
        var rest := SegmentsFrom(track, source, i + 1, end, START, i + 1);
        assert rest != [];
        BoundaryCons(Segment(segmentStart, i, source[segmentStart..i]), rest, k);
      } else {
        BoundariesAreCommas(track, source, start, i + 1, end, segmentStart, k);
      }
    }
  }

  lemma BoundaryCons(first: Segment, rest: seq<Segment>, k: nat)
    requires rest != []
    ensures IsBoundary([first] + rest, k) <==> k == first.end || IsBoundary(rest, k)
  {
    var all := [first] + rest;
    if k == first.end {
      assert all[0].end == k;
    } else if IsBoundary(all, k) {
      var j :| 0 <= j < |all| - 1 && all[j].end == k;
      assert rest[j - 1].end == k;
    }
    if IsBoundary(rest, k) {
      var j :| 0 <= j < |rest| - 1 && rest[j].end == k;
      assert all[j + 1].end == k;
    }
  }

  /** For every slice: the segments fill it side by side, their values joined by commas are the slice, and the
      boundaries are exactly its top-level commas. */
  lemma SegmentsCutAtTopLevelCommas(track: bool, source: string, start: nat, end: nat)
    requires start <= end <= |source|
    ensures var segments := SegmentsFrom(track, source, start, end, START, start);
            && Adjacent(source, start, end, segments)
            && Join(Values(segments), ',') == source[start..end]
            && forall k | start <= k < end ::
                 IsBoundary(segments, k) <==> TopLevelComma(Kotlin(track), source[start..end], k - start)
  {
    SegmentsAreAdjacent(track, source, start, end, START, start);
    forall k | start <= k < end
      ensures IsBoundary(SegmentsFrom(track, source, start, end, START, start), k)
              <==> TopLevelComma(Kotlin(track), source[start..end], k - start)
    {
      BoundariesAreCommas(track, source, start, start, end, start, k);
    }
    ValuesArePieces(track, source, start, end, START, start);
    PrefixedTwice("", "", Pieces(Kotlin(track), START, source[start..end]));
    PiecesJoin(Kotlin(track), START, source[start..end]);
  }

  /** Splitting a comma-joined argument list, embedded anywhere, gives the arguments back exactly when none of them has
      a top-level comma and all but the last are closed; in particular for every list of closed arguments. */
  lemma SegmentsOfJoinedArguments(track: bool, source: string, start: nat, end: nat, args: seq<string>)
    requires args != [] && start <= end <= |source| && source[start..end] == Join(args, ',')
    ensures Values(SegmentsFrom(track, source, start, end, START, start)) == args <==> Separable(Kotlin(track), args)
  {
    ValuesArePieces(track, source, start, end, START, start);
    PrefixedTwice("", "", Pieces(Kotlin(track), START, source[start..end]));
    SplitOfJoin(Kotlin(track), args);
  }

  /** For any two offsets, those behind the end of the text included: the first segment starts and the last one ends
      where asked, and the values joined by commas are what JavaScript's `slice` gives. */
  lemma SegmentsOfAnySlice(track: bool, source: string, start: nat, end: nat)
    ensures var segments := SegmentsOf(track, source, start, end);
            && segments != [] && segments[0].start == start && segments[|segments| - 1].end == end
            && Join(Values(segments), ',') == Slice(source, start, end)
  {
    var stop := if end < |source| then end else |source|;
    if start <= stop {
      SegmentsCutAtTopLevelCommas(track, source, start, stop);
      var inside := SegmentsFrom(track, source, start, stop, START, start);
      assert Values(EndingAt(inside, end)) == Values(inside);
    } else {
      assert Values([Segment(start, end, "")]) == [""];
    }
  }
}
