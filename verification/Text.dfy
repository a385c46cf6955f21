/** String operations of the JavaScript runtime that several scripts rely on: `replaceAll`, `split`, `join`, `trim` and
    decimal printing, with the laws the other modules use. */
module Text {

  datatype Option<+T> = None | Some(value: T)

  datatype Result<+T, +E> = Success(value: T) | Failure(error: E)

  /** JavaScript's `s.replaceAll(p, r)`: leftmost, non-overlapping, left to right. */
  function ReplaceAll(s: string, p: string, r: string): string
    requires |p| > 0
  {
    if s == "" then ""
    else if p <= s then r + ReplaceAll(s[|p|..], p, r)
    else [s[0]] + ReplaceAll(s[1..], p, r)
  }

  /** The pattern `p` starts nowhere inside the first `n` characters of `s`. */
  ghost predicate NoStart(s: string, n: nat, p: string)
    requires n <= |s|
  {
    forall i :: 0 <= i < n ==> !(p <= s[i..])
  }

  lemma {:induction false} ReplaceSkips(block: string, rest: string, p: string, r: string)
    requires |p| > 0
    requires NoStart(block + rest, |block|, p)
    ensures ReplaceAll(block + rest, p, r) == block + ReplaceAll(rest, p, r)
  {
    if block == "" {
      assert block + rest == rest;
    } else {
      var s := block + rest;
      assert s[0..] == s;
      assert s[1..] == block[1..] + rest;
      forall i | 0 <= i < |block| - 1 ensures !(p <= s[1..][i..]) {
        assert s[1..][i..] == s[i + 1..];
      }
      ReplaceSkips(block[1..], rest, p, r);
    }
  }

  lemma {:induction false} ReplaceAbsent(s: string, c: char, r: string)
    requires c !in s
    ensures ReplaceAll(s, [c], r) == s
  {
    forall i | 0 <= i < |s| ensures !([c] <= s[i..]) {
      assert s[i..][0] == s[i];
    }
    assert s + "" == s;
    ReplaceSkips(s, "", [c], r);
  }

  lemma ReplaceCharStep(s: string, c: char, r: string)
    requires s != ""
    ensures ReplaceAll(s, [c], r) == (if s[0] == c then r else [s[0]]) + ReplaceAll(s[1..], [c], r)
  {
  }

  /** Replacing a single character distributes over concatenation. */
  lemma {:induction false} ReplaceCharConcat(a: string, b: string, c: char, r: string)
    ensures ReplaceAll(a + b, [c], r) == ReplaceAll(a, [c], r) + ReplaceAll(b, [c], r)
  {
    if a == "" {
      assert a + b == b;
    } else {
      assert (a + b)[1..] == a[1..] + b;
      calc {
        ReplaceAll(a + b, [c], r);
        { ReplaceCharStep(a + b, c, r); }
        (if a[0] == c then r else [a[0]]) + ReplaceAll(a[1..] + b, [c], r);
        { ReplaceCharConcat(a[1..], b, c, r); }
        (if a[0] == c then r else [a[0]]) + (ReplaceAll(a[1..], [c], r) + ReplaceAll(b, [c], r));
        { ReplaceCharStep(a, c, r); }
        ReplaceAll(a, [c], r) + ReplaceAll(b, [c], r);
      }
    }
  }

  /** White space of ECMAScript's `trim` and of `\s` in its regular expressions. */
  predicate IsSpace(c: char) {
    || '\t' <= c <= '\r' || c == ' ' || c == '\U{00A0}' || c == '\U{1680}' || '\U{2000}' <= c <= '\U{200A}'
    || c == '\U{2028}' || c == '\U{2029}' || c == '\U{202F}' || c == '\U{205F}' || c == '\U{3000}' || c == '\U{FEFF}'
  }

  function TrimStart(s: string): string {
    if s != "" && IsSpace(s[0]) then TrimStart(s[1..]) else s
  }

  function TrimEnd(s: string): string {
    if s != "" && IsSpace(s[|s| - 1]) then TrimEnd(s[..|s| - 1]) else s
  }

  function Trim(s: string): string { TrimEnd(TrimStart(s)) }

  predicate Blank(s: string) { Trim(s) == "" }

  /** The code points of white space and line ends: tab to carriage return, space, no-break space, the Zs category of
      Unicode, the two separators, and the byte order mark. */
  const WHITE_SPACE: set<int> := {
    9, 10, 11, 12, 13, 32, 160, 5760, 8192, 8193, 8194, 8195, 8196, 8197, 8198, 8199, 8200, 8201, 8202, 8232, 8233,
    8239, 8287, 12288, 65279
  }

  predicate IsWhite(c: char) { c as int in WHITE_SPACE }

  lemma SpacesAre(c: char)
    ensures IsSpace(c) <==> IsWhite(c)
  {
  }

  /** Trimming cuts out the text from its first to its last character that is no white space. */
  lemma TrimCutsOut(s: string) returns (i: nat, j: nat)
    ensures i <= j <= |s| && Trim(s) == s[i..j]
    ensures forall k :: 0 <= k < i || j <= k < |s| ==> IsWhite(s[k])
    ensures i < j ==> !IsWhite(s[i]) && !IsWhite(s[j - 1])
  {
    i := TrimStartCuts(s);
    j := TrimEndCuts(s[i..]);
    assert s[i..][..j] == s[i..i + j];
    hide IsSpace, IsWhite;
    j := i + j;
    forall k | j <= k < |s| ensures IsWhite(s[k]) {
      assert s[i..][k - i] == s[k];
    }
  }

  lemma {:induction false} TrimStartCuts(s: string) returns (i: nat)
    ensures i <= |s| && TrimStart(s) == s[i..] && (i < |s| ==> !IsWhite(s[i]))
    ensures forall k :: 0 <= k < i ==> IsWhite(s[k])
  {
    i := 0;
    if s != "" {
      SpacesAre(s[0]);
    }
    if s != "" && IsSpace(s[0]) {
      i := TrimStartCuts(s[1..]);
      assert s[1..][i..] == s[i + 1..];
      forall k | 0 < k <= i ensures IsWhite(s[k]) {
        assert s[1..][k - 1] == s[k];
      }
      i := i + 1;
    }
  }

  lemma {:induction false} TrimEndCuts(s: string) returns (j: nat)
    ensures j <= |s| && TrimEnd(s) == s[..j] && (j > 0 ==> !IsWhite(s[j - 1]))
    ensures forall k :: j <= k < |s| ==> IsWhite(s[k])
  {
    j := |s|;
    if s != "" {
      SpacesAre(s[|s| - 1]);
    }
    if s != "" && IsSpace(s[|s| - 1]) {
      j := TrimEndCuts(s[..|s| - 1]);
      assert s[..|s| - 1][..j] == s[..j];
    }
  }

  /** A text is blank if it is white space throughout. */
  lemma BlankExactly(s: string)
    ensures Blank(s) <==> forall c <- s :: IsWhite(c)
  {
    var i, j := TrimCutsOut(s);
    hide Trim;
    assert i < j ==> s[i] in s;
  }

  function Flatten<T>(parts: seq<seq<T>>): seq<T> {
    if parts == [] then [] else parts[0] + Flatten(parts[1..])
  }

  lemma {:induction false} FlattenConcat<T>(a: seq<seq<T>>, b: seq<seq<T>>)
    ensures Flatten(a + b) == Flatten(a) + Flatten(b)
  {
    if a == [] {
      assert a + b == b;
    } else {
      assert (a + b)[1..] == a[1..] + b;
      FlattenConcat(a[1..], b);
    }
  }

  lemma FlattenSnoc<T>(a: seq<seq<T>>, last: seq<T>)
    ensures Flatten(a + [last]) == Flatten(a) + last
  {
    FlattenConcat(a, [last]);
    assert [last][1..] == [];
    assert Flatten([last]) == last + Flatten<T>([]);
  }

  /** Two ways to cut a sequence in two: the longer head is the shorter one and a run of the other tail. */
  lemma CutTwice<T>(a: seq<T>, x: seq<T>, b: seq<T>, y: seq<T>)
    requires a + x == b + y && |b| <= |a|
    ensures a == b + a[|b|..] && y == a[|b|..] + x
  {
    assert a == (a + x)[..|a|] && b == (a + x)[..|b|];
    assert a[..|b|] == b;
    assert y == (a + x)[|b|..];
  }

  /** JavaScript's `parts.join(sep)` with a one-character separator. */
  function Join(parts: seq<string>, sep: char): string
    requires |parts| > 0
  {
    if |parts| == 1 then parts[0] else parts[0] + [sep] + Join(parts[1..], sep)
  }

  /** JavaScript's `s.split(sep)` with a one-character separator. */
  function Split(s: string, sep: char): (parts: seq<string>)
    ensures |parts| > 0
  {
    if s == "" then [""]
    else
      var rest := Split(s[1..], sep);
      if s[0] == sep then [""] + rest else [[s[0]] + rest[0]] + rest[1..]
  }

  lemma {:induction false} SplitNoSeparator(s: string, sep: char)
    requires sep !in s
    ensures Split(s, sep) == [s]
  {
    if s != "" {
      SplitNoSeparator(s[1..], sep);
      assert s == [s[0]] + s[1..];
    }
  }

  /** Splitting at a separator the text contains: the two sides split independently. */
  lemma {:induction false} SplitConcat(a: string, b: string, sep: char)
    ensures Split(a + [sep] + b, sep) == Split(a, sep) + Split(b, sep)
  {
    var s := a + [sep] + b;
    if a == "" {
      assert s[1..] == b;
    } else {
      assert s[1..] == a[1..] + [sep] + b;
      SplitConcat(a[1..], b, sep);
    }
  }

  function Digit(n: nat): char
    requires n < 10
  {
    '0' + n as char
  }

  predicate IsDigit(c: char) { '0' <= c <= '9' }

  function DigitValue(c: char): (n: nat)
    requires IsDigit(c)
    ensures n < 10 && Digit(n) == c
  {
    c as nat - '0' as nat
  }

  predicate AllDigits(s: string) { forall c <- s :: IsDigit(c) }

  /** Decimal printing, as in a template literal. */
  function Decimal(n: nat): (s: string)
    ensures |s| > 0 && AllDigits(s)
    ensures n > 0 ==> s[0] != '0'
  {
    if n < 10 then [Digit(n)] else Decimal(n / 10) + [Digit(n % 10)]
  }

  /** The number a string of digits denotes. */
  function ToNat(s: string): nat
    requires AllDigits(s)
  {
    if s == "" then 0 else 10 * ToNat(s[..|s| - 1]) + DigitValue(s[|s| - 1])
  }

  lemma {:induction false} DecimalRoundTrip(n: nat)
    ensures ToNat(Decimal(n)) == n
  {
    if n >= 10 {
      DecimalRoundTrip(n / 10);
      var s := Decimal(n);
      assert s[..|s| - 1] == Decimal(n / 10);
      assert s[|s| - 1] == Digit(n % 10);
    } else {
      assert Decimal(n)[..0] == "";
    }
  }

  lemma DecimalInjective(m: nat, n: nat)
    requires Decimal(m) == Decimal(n)
    ensures m == n
  {
    DecimalRoundTrip(m);
    DecimalRoundTrip(n);
  }
}
