/** Greedy batching of translation items under a character budget and an item cap (scripts/control-ui-i18n.ts). */
module Batching {
  import opened Text

  datatype Item = Item(key: string, text: string)

  const MAX_BATCH_ITEMS: nat := 20

  /** `estimateBatchChars`. */
  function EstimateBatchChars(items: seq<Item>): nat {
    if items == [] then 2
    else EstimateBatchChars(items[..|items| - 1]) + |items[|items| - 1].key| + |items[|items| - 1].text| + 8
  }

  lemma {:induction false} EstimateConcat(a: seq<Item>, b: seq<Item>)
    ensures EstimateBatchChars(a + b) == EstimateBatchChars(a) + EstimateBatchChars(b) - 2
  {
    if b == [] {
      assert a + b == a;
    } else {
      assert (a + b)[..|a + b| - 1] == a + b[..|b| - 1];
      EstimateConcat(a, b[..|b| - 1]);
    }
  }

  /** What the loop's running total stands for: every item is charged the envelope of a batch of its own. */
  function Charged(batch: seq<Item>): nat { EstimateBatchChars(batch) + 2 * |batch| }

  lemma ChargedConcat(a: seq<Item>, b: seq<Item>)
    ensures Charged(a + b) == Charged(a) + Charged(b) - 2
  {
    EstimateConcat(a, b);
  }

  /** A batch the limits allow: an oversized item only ever travels alone. A fractional budget acts as its floor, so the
      budget is an integer. */
  ghost predicate Fits(batch: seq<Item>, budget: int) {
    && 1 <= |batch| <= MAX_BATCH_ITEMS
    && (|batch| == 1 || Charged(batch) <= budget)
  }

  function KeysAndTexts(batch: seq<Item>): (r: seq<string>)
    ensures |r| == |batch| && forall k :: 0 <= k < |r| ==> r[k] == batch[k].key + batch[k].text
  {
    seq(|batch|, k requires 0 <= k < |batch| => batch[k].key + batch[k].text)
  }

  lemma {:induction false} ChargedIsText(batch: seq<Item>)
    ensures Charged(batch) == 2 + 10 * |batch| + |Flatten(KeysAndTexts(batch))|
  {
    if batch == [] {
      assert KeysAndTexts(batch) == [];
    } else {
      var n := |batch| - 1;
      ChargedIsText(batch[..n]);
      assert KeysAndTexts(batch) == KeysAndTexts(batch[..n]) + [batch[n].key + batch[n].text];
      FlattenSnoc(KeysAndTexts(batch[..n]), batch[n].key + batch[n].text);
    }
  }

  /** The limits in numbers: at most 20 items, and for more than one item all keys and texts, ten characters for each
      item and two for the batch within the budget. */
  lemma FitsExactly(batch: seq<Item>, budget: int)
    ensures Fits(batch, budget) <==>
            && 1 <= |batch| <= 20
            && (|batch| == 1 || 2 + 10 * |batch| + |Flatten(KeysAndTexts(batch))| <= budget)
  {
    ChargedIsText(batch);
  }

  ghost predicate IsPartition(batches: seq<seq<Item>>, items: seq<Item>, budget: int) {
    && Flatten(batches) == items
    && (forall batch <- batches :: Fits(batch, budget))
  }

  /** `batch` has no room for the first item of `next`. */
  ghost predicate NoRoom(batch: seq<Item>, next: seq<Item>, budget: int) {
    next != [] ==> !Fits(batch + [next[0]], budget)
  }

  ghost predicate Tight(batches: seq<seq<Item>>, budget: int) {
    forall k :: 0 < k < |batches| ==> NoRoom(batches[k - 1], batches[k], budget)
  }

  lemma TightTail(batches: seq<seq<Item>>, budget: int)
    requires Tight(batches, budget) && batches != []
    ensures Tight(batches[1..], budget)
  {
  }

  /** The open batch may grow: only its first item matters to the batch before it. */
  lemma TightGrows(batches: seq<seq<Item>>, current: seq<Item>, item: Item, budget: int)
    requires Tight(batches + [current], budget) && (current == [] ==> batches == [])
    ensures Tight(batches + [current + [item]], budget)
  {
    var before, after := batches + [current], batches + [current + [item]];
    forall k | 0 < k < |after| ensures NoRoom(after[k - 1], after[k], budget) {
      assert NoRoom(before[k - 1], before[k], budget);
    }
  }

  lemma TightOpens(batches: seq<seq<Item>>, item: Item, budget: int)
    requires Tight(batches, budget) && batches != [] && !Fits(batches[|batches| - 1] + [item], budget)
    ensures Tight(batches + [[item]], budget)
  {
  }

  /** `buildTranslationBatches`: the batches are the items in order, each within the limits, and no contiguous partition
      within the limits has fewer batches. */
  method BuildTranslationBatches(items: seq<Item>, budget: int) returns (batches: seq<seq<Item>>)
    ensures IsPartition(batches, items, budget)
    ensures forall other :: IsPartition(other, items, budget) ==> |batches| <= |other|
  {
    hide Tight, EstimateBatchChars;
    batches := [];
    var current: seq<Item> := [];
    var currentChars := 2;
    NothingYet(budget);
    assert batches + [current] == [[]];
    for i := 0 to |items|
      invariant Flatten(batches) + current == items[..i]
      invariant forall batch <- batches :: Fits(batch, budget)
      invariant current == [] || Fits(current, budget)
      invariant current == [] ==> batches == []
      invariant Tight(batches + [current], budget)
      invariant currentChars == Charged(current)
    {
      var item := items[i];
      var itemChars := EstimateBatchChars([item]);
      ChargedConcat(current, [item]);
      assert items[..i + 1] == items[..i] + [item];
      var wouldOverflow := |current| > 0 && currentChars + itemChars > budget;
      var reachedMaxItems := |current| >= MAX_BATCH_ITEMS;
      if wouldOverflow || reachedMaxItems {
        FlattenSnoc(batches, current);
        batches := batches + [current];
        TightOpens(batches, item, budget);
        current := [];
        currentChars := 2;
        NothingYet(budget);
        ChargedConcat([], [item]);
        assert [] + [item] == [item];
      } else {
        TightGrows(batches, current, item, budget);
      }
      current := current + [item];
      currentChars := currentChars + itemChars;
    }
    assert items[..|items|] == items;
    if |current| > 0 {
      FlattenSnoc(batches, current);
      batches := batches + [current];
    } else {
      NothingYet(budget);
    }
    forall other | IsPartition(other, items, budget) ensures |batches| <= |other| {
      assert [] + Flatten(batches) == Flatten(batches);
      GreedyStaysAhead(batches, other, [], budget);
    }
  }

  lemma NothingYet(budget: int)
    ensures Charged([]) == 2 && Tight([[]], budget) && Tight([], budget)
    ensures Flatten<Item>([]) == []
  {
  }

  /** The limits are closed under taking a run of items out of a batch. */
  lemma RunFits(a: seq<Item>, b: seq<Item>, c: seq<Item>, budget: int)
    requires Fits(a + b + c, budget) && b != []
    ensures Fits(b, budget)
  {
    ChargedConcat(a + b, c);
    ChargedConcat(a, b);
  }

  /** A tight partition of a suffix needs no more batches than any partition of the whole: by induction on the other
      partition, whose first batch the tight one's first batch always outreaches. */
  lemma {:induction false} GreedyStaysAhead(tight: seq<seq<Item>>, other: seq<seq<Item>>, lead: seq<Item>, budget: int)
    requires (forall batch <- tight :: Fits(batch, budget)) && Tight(tight, budget)
    requires IsPartition(other, lead + Flatten(tight), budget)
    ensures |tight| <= |other|
    decreases |other|
  {
    hide Tight, Fits;
    if tight != [] {
      FirstIsNonEmpty(tight, budget);
      assert other != [];
      var first, rest := other[0], other[1..];
      assert lead + Flatten(tight) == first + Flatten(rest);
      if |first| <= |lead| {
        CutTwice(lead, Flatten(tight), first, Flatten(rest));
        GreedyStaysAhead(tight, rest, lead[|first|..], budget);
      } else {
        CutTwice(first, Flatten(rest), lead, Flatten(tight));
        var reach := first[|lead|..];
        FirstReaches(tight, lead, reach, budget);
        CutTwice(tight[0], Flatten(tight[1..]), reach, Flatten(rest));
        TightTail(tight, budget);
        GreedyStaysAhead(tight[1..], rest, tight[0][|reach|..], budget);
      }
    }
  }

  lemma FirstIsNonEmpty(batches: seq<seq<Item>>, budget: int)
    requires batches != [] && forall batch <- batches :: Fits(batch, budget)
    ensures batches[0] != []
  {
    assert batches[0] in batches;
  }

  /** A batch that starts no later than the tight partition's first batch ends no later either. */
  lemma FirstReaches(tight: seq<seq<Item>>, lead: seq<Item>, reach: seq<Item>, budget: int)
    requires tight != [] && (forall batch <- tight :: Fits(batch, budget)) && Tight(tight, budget)
    requires reach != [] && Fits(lead + reach, budget) && reach <= Flatten(tight)
    ensures |reach| <= |tight[0]|
  {
    if |reach| > |tight[0]| {
      hide Fits, Flatten;
      var n, second := |tight[0]|, tight[1];
      SecondFollows(tight, budget);
      assert NoRoom(tight[0], second, budget);
      var over := tight[0] + [second[0]];
      assert reach == over + reach[n + 1..];
      assert lead + reach == lead + over + reach[n + 1..];
      RunFits(lead, over, reach[n + 1..], budget);
      assert false;
    }
  }

  lemma FlattenStep(batches: seq<seq<Item>>)
    requires batches != []
    ensures Flatten(batches) == batches[0] + Flatten(batches[1..])
  {
  }

  lemma PrefixOfTwo(a: seq<Item>, b: seq<Item>, c: seq<Item>)
    requires b != []
    ensures a + [b[0]] <= a + (b + c)
  {
  }

  lemma SecondFollows(tight: seq<seq<Item>>, budget: int)
    requires |tight| > 1 && forall batch <- tight :: Fits(batch, budget)
    ensures tight[1] != [] && tight[0] + [tight[1][0]] <= Flatten(tight)
  {
    hide Fits, Flatten;
    assert tight[1] in tight && tight[1..][0] == tight[1];
    FirstIsNonEmpty(tight[1..], budget);
    FlattenStep(tight);
    FlattenStep(tight[1..]);
    PrefixOfTwo(tight[0], tight[1], Flatten(tight[1..][1..]));
  }
}
