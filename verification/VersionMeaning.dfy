/** Which versions, builds, version codes and refs scripts/mobile-release-ref.ts accepts, in numbers. */
module VersionMeaning {
  import opened Text
  import opened VersionCodes

  lemma {:induction false} DecimalOfDigits(s: string)
    requires IsPositiveInteger(s)
    ensures ToNat(s) >= 1 && Decimal(ToNat(s)) == s
  {
    var n := |s| - 1;
    ToNatStep(s);
    if n == 0 {
      assert s[..0] == "" && s == [s[0]];
    } else {
      hide Decimal, ToNat;
      DecimalOfDigits(s[..n]);
      DecimalStep(ToNat(s[..n]), DigitValue(s[n]));
      assert s == s[..n] + [s[n]];
    }
  }

  lemma DecimalStep(n: nat, d: nat)
    requires n >= 1 && d < 10
    ensures Decimal(10 * n + d) == Decimal(n) + [Digit(d)]
  {
    assert (10 * n + d) / 10 == n && (10 * n + d) % 10 == d;
  }

  /** The positive integers are the decimal numbers from one on, without leading zeros. */
  lemma PositiveIntegersExactly(s: string)
    ensures IsPositiveInteger(s) <==> exists n: nat :: n >= 1 && s == Decimal(n)
  {
    if IsPositiveInteger(s) {
      DecimalOfDigits(s);
    }
  }

  /** A version: a year from 2000 to 2099, a number up to 99 and any further number, both from one on. */
  function VersionText(year: nat, month: nat, patch: nat): string {
    Decimal(year) + "." + Decimal(month) + "." + Decimal(patch)
  }

  predicate InVersionRange(year: nat, month: nat, patch: nat) {
    2000 <= year <= 2099 && 1 <= month <= 99 && patch >= 1
  }

  lemma YearDigits(year: nat)
    requires 2000 <= year <= 2099
    ensures |Decimal(year)| == 4 && Decimal(year)[..2] == "20"
  {
    assert Decimal(2) == "2" && Decimal(20) == "20";
    assert Decimal(year / 10) == Decimal(20) + [Digit(year / 10 % 10)];
    assert Decimal(year) == Decimal(year / 10) + [Digit(year % 10)];
  }

  lemma NoDots(n: nat)
    ensures '.' !in Decimal(n)
  {
  }

  lemma PartsOfText(year: nat, month: nat, patch: nat)
    ensures Split(VersionText(year, month, patch), '.') == [Decimal(year), Decimal(month), Decimal(patch)]
  {
    NoDots(year);
    NoDots(month);
    NoDots(patch);
    VersionOf(Decimal(year), Decimal(month), Decimal(patch));
  }

  /** The versions accepted are exactly those. */
  lemma VersionsExactly(s: string)
    ensures IsVersion(s) <==>
            exists year: nat, month: nat, patch: nat ::
              InVersionRange(year, month, patch) && s == VersionText(year, month, patch)
  {
    if IsVersion(s) {
      var parts := Split(s, '.');
      VersionParts(s, parts);
      assert InVersionRange(ToNat(parts[0]), ToNat(parts[1]), ToNat(parts[2]));
    }
    if year: nat, month: nat, patch: nat :|
        InVersionRange(year, month, patch) && s == VersionText(year, month, patch) {
      PartsOfText(year, month, patch);
      YearDigits(year);
    }
  }

  lemma VersionParts(s: string, parts: seq<string>)
    requires parts == Split(s, '.') && AreVersionParts(parts)
    ensures AllDigits(parts[1]) && AllDigits(parts[2])
    ensures InVersionRange(ToNat(parts[0]), ToNat(parts[1]), ToNat(parts[2]))
    ensures s == VersionText(ToNat(parts[0]), ToNat(parts[1]), ToNat(parts[2]))
  {
    JoinSplit(s, '.');
    assert parts[0][0] == parts[0][..2][0] == '2';
    YearRange(parts[0]);
    DecimalOfDigits(parts[0]);
    DecimalOfDigits(parts[1]);
    DecimalOfDigits(parts[2]);
    assert Pow10(1) == 10 && Pow10(2) == 100;
    ToNatBound(parts[1]);
    assert parts == [parts[0], parts[1], parts[2]];
    hide Split, ToNat, Decimal;
    JoinOfThree(parts[0], parts[1], parts[2]);
  }

  lemma JoinOfThree(a: string, b: string, c: string)
    ensures Join([a, b, c], '.') == a + "." + b + "." + c
  {
    assert [a, b, c][1..] == [b, c] && [b, c][1..] == [c];
    assert Join([c], '.') == c && Join([b, c], '.') == b + ['.'] + c;
    assert a + ['.'] + (b + ['.'] + c) == a + "." + b + "." + c;
  }

  /** At least two digits. */
  function Padded(n: nat): string { if n < 10 then "0" + Decimal(n) else Decimal(n) }

  /** The codes accepted for a version: the year, the month and the patch with at least two digits each, and two digits
      from 01 to 99. */
  lemma CodesExactly(year: nat, month: nat, patch: nat, code: string)
    requires InVersionRange(year, month, patch)
    ensures IsVersion(VersionText(year, month, patch))
    ensures AcceptsCode(VersionText(year, month, patch), code) <==>
            exists n: nat :: 1 <= n <= 99 && code == Decimal(year) + Padded(month) + Padded(patch) + Padded(n)
  {
    var version := VersionText(year, month, patch);
    VersionsExactly(version);
    PartsOfText(year, month, patch);
    AcceptedCodes(version, code);
    PaddedAlike(month);
    PaddedAlike(patch);
    assert Prefix(version) == Decimal(year) + Padded(month) + Padded(patch);
    hide Prefix, AcceptsCode, IsVersion, Split, Decimal, VersionText;
    forall n: nat | 1 <= n <= 99 ensures TwoDigits(n) == Padded(n) {
      TwoDigitsPadded(n);
    }
  }

  lemma PaddedAlike(n: nat)
    requires n >= 1
    ensures Pad2(Decimal(n)) == Padded(n)
  {
    if n >= 10 {
      assert |Decimal(n / 10)| >= 1;
    }
  }

  lemma TwoDigitsPadded(n: nat)
    requires n < 100
    ensures TwoDigits(n) == Padded(n)
  {
    if n >= 10 {
      assert Decimal(n / 10) == [Digit(n / 10)];
    }
  }

  /** The refs: platform, version, and a positive build number or an accepted code, up to surrounding white space. */
  lemma RefsExactly(platform: Platform, version: string, build: Option<string>, versionCode: Option<string>,
                    ref: string)
    ensures RefFor(platform, version, build, versionCode) == Some(ref) <==>
            && IsVersion(Trim(version))
            && if platform.Ios? then
                 && build.Some?
                 && exists n: nat :: n >= 1 && Trim(build.value) == Decimal(n)
                                     && ref == "refs/openclaw/mobile-releases/ios/" + Trim(version) + "-" + Decimal(n)
               else
                 && versionCode.Some? && AcceptsCode(Trim(version), Trim(versionCode.value))
                 && ref == "refs/openclaw/mobile-releases/android/" + Trim(version) + "-" + Trim(versionCode.value)
  {
    assert REF_PREFIX + "/ios/" == "refs/openclaw/mobile-releases/ios/";
    assert REF_PREFIX + "/android/" == "refs/openclaw/mobile-releases/android/";
    assert Trim("") == "";
    if build.Some? {
      PositiveIntegersExactly(Trim(build.value));
    }
    hide IsVersion, Trim, Decimal;
  }
}
