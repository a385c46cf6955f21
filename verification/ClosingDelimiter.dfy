/** `findClosingDelimiter` (scripts/android-app-i18n.ts): the closing delimiter stands behind the balanced text. */
module ClosingDelimiter {
  import opened Text

  datatype Delimiters = Delimiters(opening: char, closing: char) {
    predicate Valid() { opening != closing && opening != '"' && closing != '"' }
  }

  const PARENS := Delimiters('(', ')')

  datatype Depth = Depth(depth: int, quoted: bool, escaped: bool)

  const OUTSIDE := Depth(0, false, false)
  const ONE_OPEN := Depth(1, false, false)

  function Deeper(d: Delimiters, st: Depth, c: char): Depth {
    if st.escaped then st.(escaped := false)
    else if st.quoted && c == '\\' then st.(escaped := true)
    else if c == '"' then st.(quoted := !st.quoted)
    else if st.quoted then st
    else if c == d.opening then st.(depth := st.depth + 1)
    else if c == d.closing then st.(depth := st.depth - 1)
    else st
  }

  /** The character brings the depth back to zero. */
  predicate Closes(d: Delimiters, st: Depth, c: char) {
    st == ONE_OPEN && c == d.closing && c != '"' && c != d.opening
  }

  /** The first offset from `i` on that closes what is open. */
  function ClosingFrom(d: Delimiters, source: string, i: nat, st: Depth): (r: Option<nat>)
    requires i <= |source|
    ensures r.Some? ==> i <= r.value < |source|
    decreases |source| - i
  {
    if i == |source| then None
    else if Closes(d, st, source[i]) then Some(i)
    else ClosingFrom(d, source, i + 1, Deeper(d, st, source[i]))
  }

  /** `findClosingDelimiter`. */
  method FindClosingDelimiter(source: string, openingOffset: nat, opening: char, closing: char) returns (r: Option<nat>)
    ensures r == if openingOffset > |source| then None
                 else ClosingFrom(Delimiters(opening, closing), source, openingOffset, OUTSIDE)
  {
    if openingOffset > |source| {
      return None;
    }
    ghost var d := Delimiters(opening, closing);
    var depth, quoted, escaped := 0, false, false;
    for index := openingOffset to |source|
      invariant ClosingFrom(d, source, openingOffset, OUTSIDE)
                == ClosingFrom(d, source, index, Depth(depth, quoted, escaped))
    {
      var character := source[index];
      if escaped {
        escaped := false;
        continue;
      }
      if quoted && character == '\\' {
        escaped := true;
        continue;
      }
      if character == '"' {
        quoted := !quoted;
        continue;
      }
      if quoted {
        continue;
      }
      if character == opening {
        depth := depth + 1;
      } else if character == closing {
        depth := depth - 1;
        if depth == 0 {
          return Some(index);
        }
      }
    }
    return None;
  }

  // ---------- what is found ----------

  /** The state behind `text`; None if something in it closes what is open. */
  function Through(d: Delimiters, st: Depth, text: string): Option<Depth>
    decreases |text|
  {
    if text == "" then Some(st)
    else if Closes(d, st, text[0]) then None
    else Through(d, Deeper(d, st, text[0]), text[1..])
  }

  /** Everything `text` opens or quotes it closes, and nothing else. */
  predicate Balanced(d: Delimiters, text: string) { Through(d, ONE_OPEN, text) == Some(ONE_OPEN) }

  lemma {:induction false} ClosingIsThrough(d: Delimiters, source: string, i: nat, st: Depth, k: nat)
    requires i <= |source|
    ensures ClosingFrom(d, source, i, st) == Some(k) <==>
            i <= k < |source| && Through(d, st, source[i..k]).Some?
            && Closes(d, Through(d, st, source[i..k]).value, source[k])
    decreases |source| - i
  {
    if i < k < |source| {
      assert source[i..k][1..] == source[i + 1..k];
    }
    if i < |source| && !Closes(d, st, source[i]) {
      ClosingIsThrough(d, source, i + 1, Deeper(d, st, source[i]), k);
    }
  }

  /** From an opening delimiter, the closing one is found exactly at the end of the balanced text behind it. */
  lemma ClosingEndsBalanced(d: Delimiters, source: string, at: nat, k: nat)
    requires d.Valid() && at < |source| && source[at] == d.opening
    ensures ClosingFrom(d, source, at, OUTSIDE) == Some(k) <==>
            at < k < |source| && source[k] == d.closing && Balanced(d, source[at + 1..k])
  {
    assert Deeper(d, OUTSIDE, source[at]) == ONE_OPEN;
    ClosingIsThrough(d, source, at + 1, ONE_OPEN, k);
  }

  lemma {:induction false} ThroughConcat(d: Delimiters, st: Depth, a: string, b: string)
    ensures Through(d, st, a + b) ==
            if Through(d, st, a).None? then None else Through(d, Through(d, st, a).value, b)
    decreases |a|
  {
    if a == "" {
      assert a + b == b;
    } else {
      assert (a + b)[1..] == a[1..] + b;
      if !Closes(d, st, a[0]) {
        ThroughConcat(d, Deeper(d, st, a[0]), a[1..], b);
      }
    }
  }

  lemma BalancedConcat(d: Delimiters, a: string, b: string)
    requires Balanced(d, a) && Balanced(d, b)
    ensures Balanced(d, a + b)
  {
    ThroughConcat(d, ONE_OPEN, a, b);
  }

  lemma {:induction false} JoinIsBalanced(d: Delimiters, args: seq<string>)
    requires d.Valid() && d.opening != ',' && d.closing != ','
    requires args != [] && forall k :: 0 <= k < |args| ==> Balanced(d, args[k])
    ensures Balanced(d, Join(args, ','))
  {
    if |args| > 1 {
      forall k | 0 <= k < |args[1..]| ensures Balanced(d, args[1..][k]) {
        assert args[1..][k] == args[k + 1];
      }
      JoinIsBalanced(d, args[1..]);
      assert Deeper(d, ONE_OPEN, ',') == ONE_OPEN;
      assert ","[1..] == "";
      assert Balanced(d, ",");
      BalancedConcat(d, args[0], ",");
      BalancedConcat(d, args[0] + ",", Join(args[1..], ','));
    }
  }
}
