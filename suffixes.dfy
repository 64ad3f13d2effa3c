/** The suffix transformer of the version-bump script,
    `re.sub(r"\.dev0$|rc\d+$", repl, version)`: a trailing `.dev0` or `rcN`
    is replaced by `repl` (removed when `repl` is empty). */
module Suffixes {
  import opened Text
  import opened Versions
  import opened MlflowVersion

  /** Start of the longest all-digit tail of `s`. */
  function TrailingDigitsStart(s: string): (k: nat)
    ensures k <= |s| && (forall j :: k <= j < |s| ==> IsDigit(s[j]))
    ensures k == 0 || !IsDigit(s[k - 1])
  {
    if |s| == 0 || !IsDigit(s[|s| - 1]) then |s| else TrailingDigitsStart(s[..|s| - 1])
  }

  /** The pattern `\.dev0$|rc\d+$` matches `version` at index `i` (with `$`
      read as the end of the string). */
  predicate SuffixMatchAt(version: string, i: nat)
    requires i <= |version|
  {
    || version[i..] == ".dev0"
    || (i + 2 < |version| && version[i] == 'r' && version[i + 1] == 'c' && DigitsBetween(version, i + 2, |version|))
  }

  /** `replace_dev_or_rc_suffix_with(version, repl)`. Both alternatives are
      anchored at the end and cannot overlap, so the substitution replaces
      at most one match. */
  function ReplaceDevOrRcSuffixWith(version: string, repl: string): string {
    if EndsWith(version, ".dev0") then version[..|version| - 5] + repl
    else
      var k := TrailingDigitsStart(version);
      if 2 <= k < |version| && version[k - 2] == 'r' && version[k - 1] == 'c' then version[..k - 2] + repl
      else version
  }

  /** An `rc\d+$` match can only start two characters before the digit tail. */
  lemma RcMatchPosition(version: string, i: nat)
    requires i + 2 < |version| && version[i] == 'r' && version[i + 1] == 'c'
    requires DigitsBetween(version, i + 2, |version|)
    ensures i + 2 == TrailingDigitsStart(version)
  {
  }

  /** A version ending in `.dev0` has a one-digit tail preceded by `v`. */
  lemma DevTail(version: string)
    requires EndsWith(version, ".dev0")
    ensures TrailingDigitsStart(version) == |version| - 1 && version[|version| - 2] == 'v'
  {
    var n := |version|;
    assert version[n - 2] == version[n - 5..][3];
    assert version[n - 1] == version[n - 5..][4];
  }

  /** The transformer agrees with the regular expression: wherever the
      pattern matches, the result is the text before the match followed by
      `repl`; where it matches nowhere, the version is returned unchanged. */
  lemma {:induction false} ReplaceSuffixSpec(version: string, repl: string)
    ensures forall i :: 0 <= i <= |version| && SuffixMatchAt(version, i) ==>
              ReplaceDevOrRcSuffixWith(version, repl) == version[..i] + repl
    ensures (forall i :: 0 <= i <= |version| ==> !SuffixMatchAt(version, i)) ==>
              ReplaceDevOrRcSuffixWith(version, repl) == version
  {
    var k := TrailingDigitsStart(version);
    forall i | 0 <= i <= |version| && SuffixMatchAt(version, i)
      ensures ReplaceDevOrRcSuffixWith(version, repl) == version[..i] + repl
    {
      if version[i..] == ".dev0" {
        assert EndsWith(version, ".dev0") && i == |version| - 5;
      } else {
        RcMatchPosition(version, i);
        if EndsWith(version, ".dev0") {
          DevTail(version);
          assert false;
        }
      }
    }
    if forall i :: 0 <= i <= |version| ==> !SuffixMatchAt(version, i) {
      if EndsWith(version, ".dev0") {
        assert SuffixMatchAt(version, |version| - 5);
      } else if 2 <= k < |version| && version[k - 2] == 'r' && version[k - 1] == 'c' {
        assert SuffixMatchAt(version, k - 2);
      }
    }
  }

  /** Where the pattern matches, the result is the text before the match
      followed by `repl`. */
  lemma StripAt(version: string, i: nat, repl: string)
    requires i <= |version| && SuffixMatchAt(version, i)
    ensures ReplaceDevOrRcSuffixWith(version, repl) == version[..i] + repl
  {
    ReplaceSuffixSpec(version, repl);
  }

  /** A string without the letter `r` that does not end in `.dev0` has no
      match, so the transformer leaves it as it is. */
  lemma NoMatchWithoutR(version: string, repl: string)
    requires forall k :: 0 <= k < |version| ==> version[k] != 'r'
    requires !EndsWith(version, ".dev0")
    ensures forall i :: 0 <= i <= |version| ==> !SuffixMatchAt(version, i)
    ensures ReplaceDevOrRcSuffixWith(version, repl) == version
  {
    ReplaceSuffixSpec(version, repl);
  }

  /** Cutting a version string just after its third digit group keeps
      the three groups and their values. */
  lemma {:induction false} PrefixGroups(s: string, a: nat, b: nat, c: nat)
    requires GroupEnds(s, a, b, c)
    ensures GroupEnds(s[..c], a, b, c)
    ensures Number(s[..c], 0, a) == Number(s, 0, a)
    ensures Number(s[..c], a + 1, b) == Number(s, a + 1, b)
    ensures Number(s[..c], b + 1, c) == Number(s, b + 1, c)
  {
    var p := s[..c];
    PrefixSlice(s, c, 0, a);
    NumberFrame(s, 0, p, 0, a);
    PrefixSlice(s, c, a + 1, b);
    NumberFrame(s, a + 1, p, a + 1, b - a - 1);
    PrefixSlice(s, c, b + 1, c);
    NumberFrame(s, b + 1, p, b + 1, c - b - 1);
  }

  lemma PrefixSlice(s: string, c: nat, i: nat, j: nat)
    requires i <= j <= c <= |s|
    ensures s[..c][i..j] == s[i..j]
  {
  }

  /** ... which makes it a final release of the same release triple. */
  lemma {:induction false} ReleasePrefix(s: string, a: nat, b: nat, c: nat)
    requires GroupEnds(s, a, b, c)
    ensures Parse(s[..c]) == Some(Version(Number(s, 0, a), Number(s, a + 1, b), Number(s, b + 1, c), Final))
  {
    PrefixGroups(s, a, b, c);
    ParseGroups(s[..c], a, b, c);
  }

  /** Where the suffix of a version string starts. */
  lemma {:induction false} ParsedSuffixStart(s: string, v: Version) returns (c: nat)
    requires Parse(s) == Some(v)
    ensures c <= |s| && SuffixAt(s, c) == Some(v.suffix)
    ensures Parse(s[..c]) == Some(v.Release())
    ensures forall k :: 0 <= k < c ==> IsDigit(s[k]) || s[k] == '.'
  {
    var a, b;
    a, b, c := ParsedGroups(s);
    ReleasePrefix(s, a, b, c);
  }

  /** A development suffix that ends the string in `.dev0` is exactly
      `.dev0`, and the pattern matches there. */
  lemma DevZeroMatch(s: string, c: nat)
    requires c <= |s| && SuffixAt(s, c).Some? && SuffixAt(s, c).value.Dev?
    requires EndsWith(s, ".dev0")
    ensures c == |s| - 5 && SuffixMatchAt(s, c)
  {
    DevTail(s);
  }

  /** A release-candidate suffix is an `rc\d+$` match. */
  lemma RcMatch(s: string, c: nat)
    requires c <= |s| && SuffixAt(s, c).Some? && SuffixAt(s, c).value.Rc?
    ensures SuffixMatchAt(s, c)
  {
  }

  /** Text made of digits and dots followed by a suffix the grammar reads,
      other than `.dev0`, contains no `r` unless the suffix is `rcN`. */
  lemma NoRBeforeSuffix(s: string, c: nat)
    requires c <= |s| && SuffixAt(s, c).Some? && !SuffixAt(s, c).value.Rc?
    requires forall k :: 0 <= k < c ==> IsDigit(s[k]) || s[k] == '.'
    ensures forall k :: 0 <= k < |s| ==> s[k] != 'r'
  {
  }

  /** A final release does not end in `.dev0`. */
  lemma FinalNotDev(s: string)
    requires forall k :: 0 <= k < |s| ==> IsDigit(s[k]) || s[k] == '.'
    ensures !EndsWith(s, ".dev0")
  {
    assert |s| >= 5 ==> s[|s| - 5..][3] == s[|s| - 2];
  }

  /** On a version of one of the three accepted shapes (`X.Y.Z`,
      `X.Y.ZrcN`, `X.Y.Z.dev0`) the transformer yields its release triple
      `X.Y.Z` followed by `repl` (nothing for a final release); any other
      development suffix such as `.dev1` is kept. */
  lemma {:induction false} ReplaceSuffixOfParsed(s: string, v: Version, repl: string)
    requires Parse(s) == Some(v)
    ensures (v.suffix.Rc? || (v.suffix.Dev? && EndsWith(s, ".dev0"))) ==>
              ReplaceDevOrRcSuffixWith(s, repl) == ReplaceDevOrRcSuffixWith(s, "") + repl
    ensures !(v.suffix.Dev? && !EndsWith(s, ".dev0")) ==>
              Parse(ReplaceDevOrRcSuffixWith(s, "")) == Some(v.Release())
    ensures (v.suffix.Final? || (v.suffix.Dev? && !EndsWith(s, ".dev0"))) ==>
              ReplaceDevOrRcSuffixWith(s, repl) == s
  {
    var c := ParsedSuffixStart(s, v);
    if v.suffix.Rc? || (v.suffix.Dev? && EndsWith(s, ".dev0")) {
      if v.suffix.Rc? {
        RcMatch(s, c);
      } else {
        DevZeroMatch(s, c);
      }
      StripAt(s, c, repl);
      StripAt(s, c, "");
      assert s[..c] + "" == s[..c];
    } else {
      if v.suffix.Final? {
        assert s == s[..c];
        FinalNotDev(s);
      }
      NoRBeforeSuffix(s, c);
      NoMatchWithoutR(s, repl);
      NoMatchWithoutR(s, "");
    }
  }

  /** With an empty replacement, every version of the three accepted shapes
      becomes a release version, and stripping it again changes nothing. */
  lemma {:induction false} StripYieldsRelease(s: string, v: Version)
    requires Parse(s) == Some(v)
    requires !(v.suffix.Dev? && !EndsWith(s, ".dev0"))
    ensures IsReleaseVersion(ReplaceDevOrRcSuffixWith(s, ""))
    ensures ReplaceDevOrRcSuffixWith(ReplaceDevOrRcSuffixWith(s, ""), "") == ReplaceDevOrRcSuffixWith(s, "")
  {
    var r := ReplaceDevOrRcSuffixWith(s, "");
    ReplaceSuffixOfParsed(s, v, "");
    ReleaseIffFinal(r);
    ReplaceSuffixOfParsed(r, v.Release(), "");
  }

  /** Stripping with an empty replacement is idempotent on every string the
      grammar reads. */
  lemma {:induction false} StripIdempotent(s: string, v: Version)
    requires Parse(s) == Some(v)
    ensures ReplaceDevOrRcSuffixWith(ReplaceDevOrRcSuffixWith(s, ""), "") == ReplaceDevOrRcSuffixWith(s, "")
  {
    if v.suffix.Dev? && !EndsWith(s, ".dev0") {
      ReplaceSuffixOfParsed(s, v, "");
    } else {
      StripYieldsRelease(s, v);
    }
  }

  /** On canonical spellings: `X.Y.ZrcN` and `X.Y.Z.dev0` become `X.Y.Z`
      followed by `repl`; `X.Y.Z` and `X.Y.Z.devN` for N > 0 are unchanged. */
  lemma {:induction false} ReplaceSuffixOfPrinted(v: Version, repl: string)
    ensures ReplaceDevOrRcSuffixWith(Print(v), repl) ==
              if v.suffix.Rc? || v.suffix == Dev(0) then Print(v.Release()) + repl else Print(v)
  {
    if v.suffix.Rc? || v.suffix == Dev(0) {
      PrintedStripped(v, repl);
    } else {
      PrintedKept(v, repl);
    }
  }

  /** The stripped case of `ReplaceSuffixOfPrinted`. */
  lemma {:induction false} PrintedStripped(v: Version, repl: string)
    requires v.suffix.Rc? || v.suffix == Dev(0)
    ensures ReplaceDevOrRcSuffixWith(Print(v), repl) == Print(v.Release()) + repl
  {
    var s, p := Print(v), Print(v.Release());
    assert s == p + SuffixText(v.suffix) && s[..|p|] == p;
    SuffixRoundTrip(p, v.suffix);
    if v.suffix.Rc? {
      RcMatch(s, |p|);
    } else {
      assert s[|p|..] == ".dev0";
    }
    StripAt(s, |p|, repl);
  }

  /** The kept case of `ReplaceSuffixOfPrinted`. */
  lemma {:induction false} PrintedKept(v: Version, repl: string)
    requires !(v.suffix.Rc? || v.suffix == Dev(0))
    ensures ReplaceDevOrRcSuffixWith(Print(v), repl) == Print(v)
  {
    ParsePrint(v);
    if v.suffix.Dev? && EndsWith(Print(v), ".dev0") {
      PrintedDevZero(v);
    }
    ReplaceSuffixOfParsed(Print(v), v, repl);
  }

  /** The printed form of `.devN` ends in `.dev0` only for N = 0. */
  lemma {:induction false} PrintedDevZero(v: Version)
    requires v.suffix.Dev? && EndsWith(Print(v), ".dev0")
    ensures v.suffix.dev == 0
  {
    var s, p := Print(v), Print(v.Release());
    assert s == p + SuffixText(v.suffix) && s[..|p|] == p;
    SuffixRoundTrip(p, v.suffix);
    DevZeroMatch(s, |p|);
    assert Decimal(v.suffix.dev) == s[|p| + 4..] == "0" == Decimal(0);
    DecimalInjective(v.suffix.dev, 0);
  }

  /** Only the first dev release is stripped: a `.devN` with N > 0 is kept. */
  lemma {:induction false} LaterDevKept(v: Version, repl: string)
    requires v.suffix.Dev? && v.suffix.dev > 0
    ensures ReplaceDevOrRcSuffixWith(Print(v), repl) == Print(v)
    ensures ReplaceDevOrRcSuffixWith("2.1.0.dev1", repl) == "2.1.0.dev1"
  {
    ReplaceSuffixOfPrinted(v, repl);
    assert !EndsWith("2.1.0.dev1", ".dev0");
    assert forall k :: 0 <= k < |"2.1.0.dev1"| ==> "2.1.0.dev1"[k] != 'r';
    NoMatchWithoutR("2.1.0.dev1", repl);
  }
}
