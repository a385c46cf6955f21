/** Release versions, Android version codes and ref names (scripts/mobile-release-ref.ts). */
module VersionCodes {
  import opened Text

  datatype Platform = Ios | Android

  const REF_PREFIX := "refs/openclaw/mobile-releases"

  /** The pattern `[1-9]\d*`. */
  predicate IsPositiveInteger(s: string) { s != "" && AllDigits(s) && s[0] != '0' }

  /** The parts `20\d{2}`, `[1-9]\d?` and `[1-9]\d*` of a version. */
  predicate AreVersionParts(parts: seq<string>) {
    && |parts| == 3
    && |parts[0]| == 4 && AllDigits(parts[0]) && parts[0][..2] == "20"
    && |parts[1]| <= 2 && IsPositiveInteger(parts[1])
    && IsPositiveInteger(parts[2])
  }

  predicate IsVersion(s: string) { AreVersionParts(Split(s, '.')) }

  /** `validateVersion`. */
  function ValidateVersion(version: string): Option<string> {
    if IsVersion(Trim(version)) then Some(Trim(version)) else None
  }

  /** `validatePositiveInteger`. */
  function ValidatePositiveInteger(value: Option<string>): Option<string> {
    var trimmed := if value.Some? then Trim(value.value) else "";
    if IsPositiveInteger(trimmed) then Some(trimmed) else None
  }

  /** `padStart(2, "0")`. */
  function Pad2(s: string): string {
    if |s| == 0 then "00" else if |s| == 1 then "0" + s else s
  }

  /** `androidVersionCodePrefix`. */
  function Prefix(version: string): string
    requires IsVersion(version)
  {
    var parts := Split(version, '.');
    parts[0] + Pad2(parts[1]) + Pad2(parts[2])
  }

  /** The two checks behind `startsWith` and the suffix's value. */
  predicate AcceptsCode(version: string, code: string)
    requires IsVersion(version)
  {
    var prefix := Prefix(version);
    && IsPositiveInteger(code)
    && prefix <= code
    && |code| == |prefix| + 2
    && 1 <= ToNat(code[|prefix|..]) <= 99
  }

  /** `validateAndroidVersionCode`. */
  function ValidateAndroidVersionCode(version: string, versionCode: Option<string>): Option<string>
    requires IsVersion(version)
  {
    match ValidatePositiveInteger(versionCode)
    case None => None
    case Some(code) => if AcceptsCode(version, code) then Some(code) else None
  }

  /** `mobileReleaseRefFor`; None where it throws. */
  function RefFor(platform: Platform, version: string, build: Option<string>,
                  versionCode: Option<string>): Option<string> {
    match ValidateVersion(version)
    case None => None
    case Some(v) =>
      match platform
      case Ios =>
        (match ValidatePositiveInteger(build)
         case None => None
         case Some(b) => Some(REF_PREFIX + "/ios/" + v + "-" + b))
      case Android =>
        (match ValidateAndroidVersionCode(v, versionCode)
         case None => None
         case Some(c) => Some(REF_PREFIX + "/android/" + v + "-" + c))
  }

  function TwoDigits(n: nat): string
    requires n < 100
  {
    [Digit(n / 10), Digit(n % 10)]
  }

  lemma TwoDigitsValue(s: string)
    requires |s| == 2 && AllDigits(s)
    ensures ToNat(s) < 100 && s == TwoDigits(ToNat(s))
    ensures ToNat(s) == 10 * DigitValue(s[0]) + DigitValue(s[1])
  {
    assert s[..1] == [s[0]] && s[..1][..0] == "";
    assert ToNat(s[..1]) == DigitValue(s[0]);
  }

  lemma ToNatOfTwoDigits(n: nat)
    requires n < 100
    ensures AllDigits(TwoDigits(n)) && ToNat(TwoDigits(n)) == n
  {
    TwoDigitsValue(TwoDigits(n));
  }

  /** The codes accepted for a version are exactly its prefix followed by 01 to 99. */
  lemma AcceptedCodes(version: string, code: string)
    requires IsVersion(version)
    ensures AcceptsCode(version, code) <==> exists n :: 1 <= n <= 99 && code == Prefix(version) + TwoDigits(n)
  {
    var prefix := Prefix(version);
    if AcceptsCode(version, code) {
      var suffix := code[|prefix|..];
      TwoDigitsValue(suffix);
      assert code == prefix + TwoDigits(ToNat(suffix));
    }
    if n :| 1 <= n <= 99 && code == prefix + TwoDigits(n) {
      ToNatOfTwoDigits(n);
      assert code[|prefix|..] == TwoDigits(n);
      assert code[0] == '2' by {
        assert Split(version, '.')[0][..2][0] == '2';
        assert prefix[0] == '2';
      }
      assert AllDigits(prefix);
    }
  }

  lemma Pad2Injective(a: string, b: string)
    requires IsPositiveInteger(a) && IsPositiveInteger(b) && Pad2(a) == Pad2(b)
    ensures a == b
  {
    if |a| == 1 && |b| == 1 {
      assert a[0] == Pad2(a)[1];
      assert b[0] == Pad2(b)[1];
    }
  }

  lemma {:induction false} JoinSplit(s: string, sep: char)
    ensures Join(Split(s, sep), sep) == s
  {
    if s != "" {
      JoinSplit(s[1..], sep);
      var rest := Split(s[1..], sep);
      if s[0] == sep {
        assert ([""] + rest)[1..] == rest;
      }
    }
  }

  lemma PrefixInjective(a: string, b: string)
    requires IsVersion(a) && IsVersion(b) && Prefix(a) == Prefix(b)
    ensures a == b
  {
    var pa, pb := Split(a, '.'), Split(b, '.');
    assert Prefix(a)[..4] == pa[0] && Prefix(b)[..4] == pb[0];
    assert Prefix(a)[4..6] == Pad2(pa[1]) && Prefix(b)[4..6] == Pad2(pb[1]);
    assert Prefix(a)[6..] == Pad2(pa[2]) && Prefix(b)[6..] == Pad2(pb[2]);
    Pad2Injective(pa[1], pb[1]);
    Pad2Injective(pa[2], pb[2]);
    assert pa == pb;
    JoinSplit(a, '.');
    JoinSplit(b, '.');
  }

  /** No code is accepted for two versions, patches of any length included. */
  lemma CodeDeterminesVersion(a: string, b: string, code: string)
    requires IsVersion(a) && IsVersion(b) && AcceptsCode(a, code) && AcceptsCode(b, code)
    ensures a == b
  {
    assert Prefix(a) == code[..|code| - 2] == Prefix(b);
    PrefixInjective(a, b);
  }

  function Pow10(n: nat): nat { if n == 0 then 1 else 10 * Pow10(n - 1) }

  lemma ToNatStep(s: string)
    requires AllDigits(s) && s != ""
    ensures AllDigits(s[..|s| - 1]) && IsDigit(s[|s| - 1])
    ensures ToNat(s) == 10 * ToNat(s[..|s| - 1]) + DigitValue(s[|s| - 1])
  {
  }

  lemma Pow10Step(n: nat)
    ensures Pow10(n + 1) == 10 * Pow10(n)
  {
  }

  lemma ShiftDigits(x: nat, p: nat, r: nat, d: nat)
    ensures 10 * (x * p + r) + d == x * (10 * p) + (10 * r + d)
  {
  }

  lemma {:induction false} ToNatConcat(a: string, b: string)
    requires AllDigits(a) && AllDigits(b)
    ensures AllDigits(a + b) && ToNat(a + b) == ToNat(a) * Pow10(|b|) + ToNat(b)
    decreases |b|
  {
    if b == "" {
      assert a + b == a;
    } else {
      var n := |b| - 1;
      assert (a + b)[..|a + b| - 1] == a + b[..n];
      ToNatConcat(a, b[..n]);
      assert (a + b)[|a + b| - 1] == b[n];
      hide ToNat, Pow10, AllDigits;
      ToNatStep(b);
      ToNatStep(a + b);
      ShiftDigits(ToNat(a), Pow10(n), ToNat(b[..n]), DigitValue(b[n]));
      Pow10Step(n);
    }
  }

  lemma {:induction false} ToNatBound(s: string)
    requires AllDigits(s)
    ensures ToNat(s) < Pow10(|s|)
  {
    if s != "" {
      ToNatBound(s[..|s| - 1]);
    }
  }

  /** What orders the codes: the number of patch digits, then year, month, patch and suffix. */
  datatype CodeKey = CodeKey(width: nat, year: nat, month: nat, patch: nat, suffix: nat)

  function Key(version: string, code: string): CodeKey
    requires IsVersion(version) && AcceptsCode(version, code)
  {
    var parts := Split(version, '.');
    CodeKey(|Pad2(parts[2])|, ToNat(parts[0]), ToNat(parts[1]), ToNat(parts[2]), ToNat(code[|Prefix(version)|..]))
  }

  /** Lexicographic order of year, month, patch and suffix. */
  predicate ReleasedBefore(a: CodeKey, b: CodeKey) {
    || a.year < b.year
    || (a.year == b.year && a.month < b.month)
    || (a.year == b.year && a.month == b.month && a.patch < b.patch)
    || (a.year == b.year && a.month == b.month && a.patch == b.patch && a.suffix < b.suffix)
  }

  /** The number a code denotes; `scale` is ten to the number of patch digits. */
  function CodeNumber(k: CodeKey, scale: nat): nat {
    PrefixNumber(k, scale) * 100 + k.suffix
  }

  function PrefixNumber(k: CodeKey, scale: nat): nat {
    (k.year * 100 + k.month) * scale + k.patch
  }

  predicate InRange(k: CodeKey, scale: nat) {
    2000 <= k.year < 2100 && k.month < 100 && k.patch < scale && k.suffix < 100
  }

  /** Comparing two numbers digit group by digit group. */
  lemma Radix(a1: nat, b1: nat, a2: nat, b2: nat, k: nat)
    requires b1 < k && b2 < k
    ensures a1 * k + b1 < a2 * k + b2 <==> a1 < a2 || (a1 == a2 && b1 < b2)
    ensures a1 * k + b1 == a2 * k + b2 <==> a1 == a2 && b1 == b2
  {
    if a1 < a2 {
      assert (a1 + 1) * k <= a2 * k;
    } else if a2 < a1 {
      assert (a2 + 1) * k <= a1 * k;
    }
  }

  lemma Pad2Value(s: string)
    requires IsPositiveInteger(s)
    ensures AllDigits(Pad2(s)) && ToNat(Pad2(s)) == ToNat(s) && |Pad2(s)| >= 2
  {
  }

  /** The value of an accepted code. */
  lemma CodeValue(version: string, code: string)
    requires IsVersion(version) && AcceptsCode(version, code)
    ensures var k := Key(version, code);
            InRange(k, Pow10(k.width)) && ToNat(code) == CodeNumber(k, Pow10(k.width))
  {
    var parts := Split(version, '.');
    var y, m, p, s := parts[0], Pad2(parts[1]), Pad2(parts[2]), code[|Prefix(version)|..];
    assert code == y + m + p + s;
    Pad2Value(parts[1]);
    Pad2Value(parts[2]);
    ToNatConcat(y, m);
    ToNatConcat(y + m, p);
    ToNatConcat(y + m + p, s);
    assert Pow10(1) == 10 && Pow10(2) == 100;
    ToNatBound(m);
    ToNatBound(p);
    ToNatBound(s);
    YearRange(y);
  }

  lemma YearRange(y: string)
    requires |y| == 4 && AllDigits(y) && y[..2] == "20"
    ensures 2000 <= ToNat(y) < 2100
  {
    assert y == y[..2] + y[2..];
    assert y[..2][0] == '2' && y[..2][1] == '0';
    TwoDigitsValue(y[..2]);
    TwoDigitsValue(y[2..]);
    ToNatConcat(y[..2], y[2..]);
    assert Pow10(1) == 10 && Pow10(2) == 100;
  }

  lemma {:induction false} Pow10Grows(a: nat, b: nat)
    requires a < b
    ensures 10 * Pow10(a) <= Pow10(b)
  {
    if a + 1 < b {
      Pow10Grows(a, b - 1);
    }
  }

  lemma WiderIsGreater(a: CodeKey, b: CodeKey, p: nat, q: nat)
    requires InRange(a, p) && InRange(b, q) && 10 * p <= q
    ensures CodeNumber(a, p) < CodeNumber(b, q)
  {
    var ya, yb := a.year * 100 + a.month, b.year * 100 + b.month;
    Monotone(ya + 1, 210000, p);
    Monotone(200000, yb, q);
    assert ya * p + a.patch < (ya + 1) * p by { Distribute(ya, p); }
    assert ya * p + a.patch < yb * q;
  }

  lemma Monotone(x: nat, y: nat, k: nat)
    requires x <= y
    ensures x * k <= y * k
  {
  }

  lemma Distribute(x: nat, k: nat)
    ensures (x + 1) * k == x * k + k
  {
  }

  lemma PrefixOrder(a: CodeKey, b: CodeKey, p: nat)
    requires InRange(a, p) && InRange(b, p)
    ensures PrefixNumber(a, p) < PrefixNumber(b, p) <==>
            a.year < b.year || (a.year == b.year && (a.month < b.month || (a.month == b.month && a.patch < b.patch)))
    ensures PrefixNumber(a, p) == PrefixNumber(b, p) <==> a.year == b.year && a.month == b.month && a.patch == b.patch
  {
    Radix(a.year * 100 + a.month, a.patch, b.year * 100 + b.month, b.patch, p);
    Radix(a.year, a.month, b.year, b.month, 100);
  }

  lemma SameWidthOrder(a: CodeKey, b: CodeKey, p: nat)
    requires InRange(a, p) && InRange(b, p)
    ensures CodeNumber(a, p) < CodeNumber(b, p) <==> ReleasedBefore(a, b)
  {
    PrefixOrder(a, b, p);
    Radix(PrefixNumber(a, p), a.suffix, PrefixNumber(b, p), b.suffix, 100);
    hide PrefixNumber;
  }

  /** The numeric order of accepted codes, for all versions: fewer patch digits come first, and codes with as many are
      in release order. */
  lemma CodeOrder(a: string, ca: string, b: string, cb: string)
    requires IsVersion(a) && IsVersion(b) && AcceptsCode(a, ca) && AcceptsCode(b, cb)
    ensures var (x, y) := (Key(a, ca), Key(b, cb));
            ToNat(ca) < ToNat(cb) <==> x.width < y.width || (x.width == y.width && ReleasedBefore(x, y))
  {
    var x, y := Key(a, ca), Key(b, cb);
    CodeValue(a, ca);
    CodeValue(b, cb);
    hide Key, AcceptsCode, IsVersion, Pow10, CodeNumber, InRange;
    if x.width < y.width {
      Pow10Grows(x.width, y.width);
      WiderIsGreater(x, y, Pow10(x.width), Pow10(y.width));
    } else if y.width < x.width {
      Pow10Grows(y.width, x.width);
      WiderIsGreater(y, x, Pow10(y.width), Pow10(x.width));
    } else {
      SameWidthOrder(x, y, Pow10(x.width));
    }
  }

  /** Exactly when numeric order and release order say the same of two codes: when the patches have as many digits, or
      the code with fewer is the earlier release. */
  lemma CodeOrderAgreesExactly(a: string, ca: string, b: string, cb: string)
    requires IsVersion(a) && IsVersion(b) && AcceptsCode(a, ca) && AcceptsCode(b, cb)
    ensures var (x, y) := (Key(a, ca), Key(b, cb));
            (ToNat(ca) < ToNat(cb) <==> ReleasedBefore(x, y)) <==>
            || x.width == y.width
            || (x.width < y.width && ReleasedBefore(x, y))
            || (y.width < x.width && !ReleasedBefore(x, y))
  {
    CodeOrder(a, ca, b, cb);
  }

  /** For patches below 100 the store's numeric order is the release order. */
  lemma CodeOrderBelow100(a: string, ca: string, b: string, cb: string)
    requires IsVersion(a) && IsVersion(b) && AcceptsCode(a, ca) && AcceptsCode(b, cb)
    requires Key(a, ca).patch < 100 && Key(b, cb).patch < 100
    ensures ToNat(ca) < ToNat(cb) <==> ReleasedBefore(Key(a, ca), Key(b, cb))
  {
    CodeOrder(a, ca, b, cb);
    PatchWidth(Split(a, '.')[2]);
    PatchWidth(Split(b, '.')[2]);
  }

  lemma {:induction false} DigitsLowerBound(s: string)
    requires IsPositiveInteger(s)
    ensures Pow10(|s| - 1) <= ToNat(s)
  {
    if |s| == 1 {
      assert s[..0] == "";
    } else {
      DigitsLowerBound(s[..|s| - 1]);
    }
  }

  /** Two digits are enough exactly for a patch below 100. */
  lemma PatchWidth(s: string)
    requires IsPositiveInteger(s)
    ensures |Pad2(s)| == 2 <==> ToNat(s) < 100
  {
    assert Pow10(1) == 10 && Pow10(2) == 100;
    ToNatBound(s);
    DigitsLowerBound(s);
    if |s| > 3 {
      Pow10Grows(2, |s| - 1);
    }
  }

  /** From patch 100 on it is not: the code outgrows that of every version with a patch below 100, later ones
      included. */
  lemma CodeOrderFrom100(a: string, ca: string, b: string, cb: string)
    requires IsVersion(a) && IsVersion(b) && AcceptsCode(a, ca) && AcceptsCode(b, cb)
    requires Key(b, cb).patch < 100 <= Key(a, ca).patch
    ensures ToNat(cb) < ToNat(ca)
  {
    CodeOrder(b, cb, a, ca);
    PatchWidth(Split(a, '.')[2]);
    PatchWidth(Split(b, '.')[2]);
  }

  /** Such versions exist: 2025.1.100 is released before 2026.1.1, and its first code 20250110001 is larger than
      2026010101. */
  lemma EarlierWithLargerCode() returns (a: string, ca: string, b: string, cb: string)
    ensures a == "2025.1.100" && ca == "20250110001" && b == "2026.1.1" && cb == "2026010101"
    ensures IsVersion(a) && IsVersion(b) && AcceptsCode(a, ca) && AcceptsCode(b, cb)
    ensures ReleasedBefore(Key(a, ca), Key(b, cb)) && ToNat(cb) < ToNat(ca)
  {
    hide IsVersion, AcceptsCode, Key, Split;
    a, ca := FirstCode("2025", "1", "100");
    b, cb := FirstCode("2026", "1", "1");
    SmallNumbers();
    CodeOrderFrom100(a, ca, b, cb);
  }

  /** The first code of a version put together from its parts. */
  lemma FirstCode(y: string, m: string, p: string) returns (version: string, code: string)
    requires AreVersionParts([y, m, p])
    ensures version == y + "." + m + "." + p && code == y + Pad2(m) + Pad2(p) + "01"
    ensures IsVersion(version) && AcceptsCode(version, code)
    ensures Key(version, code).year == ToNat(y) && Key(version, code).patch == ToNat(p)
  {
    version, code := y + "." + m + "." + p, y + Pad2(m) + Pad2(p) + "01";
    assert TwoDigits(1) == "01";
    VersionOf(y, m, p);
    AcceptedCodes(version, code);
  }

  lemma SmallNumbers()
    ensures ToNat("1") == 1 && ToNat("100") == 100 && ToNat("2025") == 2025 && ToNat("2026") == 2026
  {
    assert "1" == [Digit(1)] == Decimal(1);
    DecimalRoundTrip(1);
    assert "100" == Decimal(10) + "0" && Decimal(10) == "10";
    DecimalRoundTrip(100);
    assert Decimal(20) == "20" && Decimal(202) == "202" && Decimal(2025) == "2025" && Decimal(2026) == "2026";
    DecimalRoundTrip(2025);
    DecimalRoundTrip(2026);
  }

  lemma VersionOf(y: string, m: string, p: string)
    requires '.' !in y && '.' !in m && '.' !in p
    ensures Split(y + "." + m + "." + p, '.') == [y, m, p]
  {
    SplitConcat(y + "." + m, p, '.');
    SplitConcat(y, m, '.');
    SplitNoSeparator(y, '.');
    SplitNoSeparator(m, '.');
    SplitNoSeparator(p, '.');
  }

  /** A version holds digits and dots only. */
  lemma {:induction false} VersionChars(s: string, c: char)
    requires c in s && c != '.'
    ensures exists part <- Split(s, '.') :: c in part
  {
    var rest := Split(s[1..], '.');
    if s[0] == c {
      assert c in Split(s, '.')[0];
    } else {
      VersionChars(s[1..], c);
      var part :| part in rest && c in part;
      if s[0] == '.' {
        assert part in Split(s, '.');
      } else if part == rest[0] {
        assert c in Split(s, '.')[0];
      } else {
        assert part in rest[1..];
        assert part in Split(s, '.');
      }
    }
  }

  lemma NoDash(version: string)
    requires IsVersion(version)
    ensures '-' !in version
  {
    if '-' in version {
      VersionChars(version, '-');
    }
  }

  lemma DashCut(a: string, x: string, b: string, y: string)
    requires '-' !in a && '-' !in b && a + "-" + x == b + "-" + y
    ensures a == b && x == y
  {
    CutAtDash(a, x);
    CutAtDash(b, y);
  }

  /** The text before the first dash, and the text behind it. */
  function BeforeDash(s: string): string {
    if s == "" || s[0] == '-' then "" else [s[0]] + BeforeDash(s[1..])
  }

  lemma {:induction false} CutAtDash(a: string, x: string)
    requires '-' !in a
    ensures BeforeDash(a + "-" + x) == a && x == (a + "-" + x)[|a| + 1..]
  {
    if a != "" {
      assert (a + "-" + x)[1..] == a[1..] + "-" + x;
      CutAtDash(a[1..], x);
    }
  }

  /** The release identity behind a ref: platform, version, and build or version code, up to surrounding blanks. */
  function Identity(platform: Platform, version: string, build: Option<string>,
                    versionCode: Option<string>): (Platform, string, string)
    requires RefFor(platform, version, build, versionCode).Some?
  {
    (platform, Trim(version), Trim(if platform.Ios? then build.value else versionCode.value))
  }

  /** Two accepted releases get the same ref only if they are the same release: refs never collide, across platforms
      either. */
  lemma RefsAreInjective(p1: Platform, v1: string, b1: Option<string>, c1: Option<string>,
                         p2: Platform, v2: string, b2: Option<string>, c2: Option<string>)
    requires RefFor(p1, v1, b1, c1).Some? && RefFor(p2, v2, b2, c2).Some?
    ensures RefFor(p1, v1, b1, c1) == RefFor(p2, v2, b2, c2) <==> Identity(p1, v1, b1, c1) == Identity(p2, v2, b2, c2)
  {
    var (_, ver1, num1) := Identity(p1, v1, b1, c1);
    var (_, ver2, num2) := Identity(p2, v2, b2, c2);
    RefShape(p1, v1, b1, c1);
    RefShape(p2, v2, b2, c2);
    hide RefFor, IsVersion;
    if RefFor(p1, v1, b1, c1) == RefFor(p2, v2, b2, c2) {
      PlatformCut(p1, ver1 + "-" + num1, p2, ver2 + "-" + num2);
      DashCut(ver1, num1, ver2, num2);
    }
  }

  function PlatformPath(platform: Platform): string { if platform.Ios? then "/ios/" else "/android/" }

  lemma RefShape(p: Platform, v: string, b: Option<string>, c: Option<string>)
    requires RefFor(p, v, b, c).Some?
    ensures var (_, ver, num) := Identity(p, v, b, c);
            RefFor(p, v, b, c) == Some(REF_PREFIX + PlatformPath(p) + (ver + "-" + num)) && '-' !in ver
  {
    RefParts(p, v, b, c);
    NoDash(Trim(v));
    var (_, ver, num) := Identity(p, v, b, c);
    hide RefFor, Trim, IsVersion;
    Reassociate(REF_PREFIX + PlatformPath(p), ver, "-", num);
  }

  lemma RefParts(p: Platform, v: string, b: Option<string>, c: Option<string>)
    requires RefFor(p, v, b, c).Some?
    ensures IsVersion(Trim(v))
    ensures var (_, ver, num) := Identity(p, v, b, c);
            RefFor(p, v, b, c) == Some(REF_PREFIX + PlatformPath(p) + ver + "-" + num)
  {
  }

  lemma Reassociate(head: string, a: string, b: string, c: string)
    ensures head + a + b + c == head + (a + b + c)
  {
  }

  lemma PlatformCut(p1: Platform, t1: string, p2: Platform, t2: string)
    requires REF_PREFIX + PlatformPath(p1) + t1 == REF_PREFIX + PlatformPath(p2) + t2
    ensures p1 == p2 && t1 == t2
  {
    var s1, s2 := REF_PREFIX + PlatformPath(p1) + t1, REF_PREFIX + PlatformPath(p2) + t2;
    var n := |REF_PREFIX|;
    assert s1[n + 1] == PlatformPath(p1)[1] && s2[n + 1] == PlatformPath(p2)[1];
    assert t1 == s1[n + |PlatformPath(p1)|..] && t2 == s2[n + |PlatformPath(p2)|..];
  }
}
