/** The version grammar the release tooling works with, and the PEP 440
    ordering between its versions. Three shapes are accepted:
      X.Y.Z        a final release
      X.Y.ZrcN     a release candidate
      X.Y.Z.devN   a development release (the tooling writes only `.dev0`)
    where every X, Y, Z, N is one or more ASCII digits. */
module Versions {
  import opened Text

  datatype Suffix = Final | Rc(rc: nat) | Dev(dev: nat)

  datatype Version = Version(major: nat, minor: nat, micro: nat, suffix: Suffix)
  {
    /** The release triple `X.Y.Z` without any suffix. */
    function Release(): Version { Version(major, minor, micro, Final) }

    predicate IsDevRelease() { suffix.Dev? }
  }

  function SuffixText(s: Suffix): string {
    match s
    case Final => ""
    case Rc(n) => "rc" + Decimal(n)
    case Dev(n) => ".dev" + Decimal(n)
  }

  /** The canonical spelling of a version, as `str(Version(...))` would give it. */
  function Print(v: Version): string {
    Decimal(v.major) + "." + Decimal(v.minor) + "." + Decimal(v.micro) + SuffixText(v.suffix)
  }

  /** Reads the suffix that starts at index `c` and runs to the end of `s`. */
  function SuffixAt(s: string, c: nat): (r: Option<Suffix>)
    requires c <= |s|
    ensures r == Some(Final) <==> c == |s|
    ensures r.Some? && r.value.Rc? ==>
              c + 2 < |s| && s[c] == 'r' && s[c + 1] == 'c' &&
              DigitsBetween(s, c + 2, |s|) && r.value.rc == Number(s, c + 2, |s|)
    ensures r.Some? && r.value.Dev? ==>
              c + 4 < |s| && s[c] == '.' && s[c + 1] == 'd' && s[c + 2] == 'e' && s[c + 3] == 'v' &&
              DigitsBetween(s, c + 4, |s|) && r.value.dev == Number(s, c + 4, |s|)
  {
    if c == |s| then Some(Final)
    else if c + 2 < |s| && s[c] == 'r' && s[c + 1] == 'c' && DigitsEnd(s, c + 2) == |s| then
      Some(Rc(Number(s, c + 2, |s|)))
    else if c + 4 < |s| && s[c] == '.' && s[c + 1] == 'd' && s[c + 2] == 'e' && s[c + 3] == 'v'
            && DigitsEnd(s, c + 4) == |s| then
      Some(Dev(Number(s, c + 4, |s|)))
    else None
  }

  /** Reads one of the three shapes; any other string is an invalid version.
      Digit groups may carry leading zeros and are read numerically. */
  function Parse(s: string): Option<Version> {
    var a := DigitsEnd(s, 0);
    if a == 0 || a == |s| || s[a] != '.' then None
    else
      var b := DigitsEnd(s, a + 1);
      if b == a + 1 || b == |s| || s[b] != '.' then None
      else
        var c := DigitsEnd(s, b + 1);
        if c == b + 1 then None
        else
          match SuffixAt(s, c)
          case None => None
          case Some(suffix) => Some(Version(Number(s, 0, a), Number(s, a + 1, b), Number(s, b + 1, c), suffix))
  }

  /** The three digit groups of `s` end at `a`, `b` and `c`. */
  predicate GroupEnds(s: string, a: nat, b: nat, c: nat) {
    && 0 < a && a + 1 < b && b + 1 < c <= |s|
    && DigitsBetween(s, 0, a) && s[a] == '.'
    && DigitsBetween(s, a + 1, b) && s[b] == '.'
    && DigitsBetween(s, b + 1, c) && (c == |s| || !IsDigit(s[c]))
  }

  /** Parsing a string whose three digit groups end at `a`, `b` and `c`. */
  lemma ParseGroups(s: string, a: nat, b: nat, c: nat)
    requires GroupEnds(s, a, b, c)
    ensures Parse(s) == match SuffixAt(s, c)
                        case None => None
                        case Some(suffix) => Some(Version(Number(s, 0, a), Number(s, a + 1, b), Number(s, b + 1, c), suffix))
  {
    DigitsEndUnique(s, 0, a);
    DigitsEndUnique(s, a + 1, b);
    DigitsEndUnique(s, b + 1, c);
  }

  /** The digit groups of a string the grammar accepts. */
  lemma ParsedGroups(s: string) returns (a: nat, b: nat, c: nat)
    requires Parse(s).Some?
    ensures GroupEnds(s, a, b, c)
    ensures Parse(s) == match SuffixAt(s, c)
                        case None => None
                        case Some(suffix) => Some(Version(Number(s, 0, a), Number(s, a + 1, b), Number(s, b + 1, c), suffix))
  {
    a := DigitsEnd(s, 0);
    b := DigitsEnd(s, a + 1);
    c := DigitsEnd(s, b + 1);
  }

  /** `s` spells `v`: three digit groups ending at `a`, `b` and `c` that
      read as its release numbers, then nothing, `rc` or `.dev` followed by
      digits to the end that read as its suffix number. */
  predicate SpelledAs(s: string, a: nat, b: nat, c: nat, v: Version) {
    && GroupEnds(s, a, b, c)
    && v.major == Number(s, 0, a) && v.minor == Number(s, a + 1, b) && v.micro == Number(s, b + 1, c)
    && match v.suffix
       case Final => c == |s|
       case Rc(n) =>
         c + 2 < |s| && s[c] == 'r' && s[c + 1] == 'c' && DigitsBetween(s, c + 2, |s|) && n == Number(s, c + 2, |s|)
       case Dev(n) =>
         && c + 4 < |s| && s[c] == '.' && s[c + 1] == 'd' && s[c + 2] == 'e' && s[c + 3] == 'v'
         && DigitsBetween(s, c + 4, |s|) && n == Number(s, c + 4, |s|)
  }

  /** Every string the grammar accepts has one of the three shapes, and its
      groups read as the parsed version. */
  lemma ParseSound(s: string)
    requires Parse(s).Some?
    ensures exists a, b, c :: SpelledAs(s, a, b, c, Parse(s).value)
  {
    var a, b, c := ParsedGroups(s);
    assert SpelledAs(s, a, b, c, Parse(s).value);
  }

  /** Conversely, a string of one of the three shapes parses as the version
      it spells. */
  lemma ParseComplete(s: string, a: nat, b: nat, c: nat, v: Version)
    requires SpelledAs(s, a, b, c, v)
    ensures Parse(s) == Some(v)
  {
    ParseGroups(s, a, b, c);
    match v.suffix
    case Final =>
    case Rc(n) =>
      DigitsEndUnique(s, c + 2, |s|);
    case Dev(n) =>
      DigitsEndUnique(s, c + 4, |s|);
  }

  /** A digit string placed at index `i` of `s` and running to its end. */
  lemma DigitTail(s: string, i: nat, d: string)
    requires AllDigits(d) && i + |d| == |s| && s[i..] == d
    ensures DigitsBetween(s, i, |s|) && DigitsEnd(s, i) == |s|
    ensures Number(s, i, |s|) == Number(d, 0, |d|)
  {
    forall k | i <= k < |s| ensures IsDigit(s[k]) {
      assert s[k] == s[i..][k - i];
    }
    DigitsEndUnique(s, i, |s|);
    assert s[i..i + |d|] == d[0..|d|];
    NumberFrame(d, 0, s, i, |d|);
  }

  lemma {:induction false} SuffixRoundTrip(p: string, x: Suffix)
    ensures SuffixAt(p + SuffixText(x), |p|) == Some(x)
  {
    var s := p + SuffixText(x);
    match x
    case Final =>
    case Rc(n) =>
      var d := Decimal(n);
      assert s == p + "rc" + d;
      assert s[|p|] == 'r' && s[|p| + 1] == 'c';
      DecimalRoundTrip(n);
      DigitTail(s, |p| + 2, d);
    case Dev(n) =>
      var d := Decimal(n);
      assert s == p + ".dev" + d;
      assert s[|p|] == '.' && s[|p| + 1] == 'd' && s[|p| + 2] == 'e' && s[|p| + 3] == 'v';
      DecimalRoundTrip(n);
      DigitTail(s, |p| + 4, d);
  }

  /** A digit string keeps its value wherever it is placed. */
  lemma Placed(pre: string, d: string, post: string)
    requires AllDigits(d)
    ensures DigitsBetween(pre + d + post, |pre|, |pre| + |d|)
    ensures Number(pre + d + post, |pre|, |pre| + |d|) == Number(d, 0, |d|)
  {
    var s := pre + d + post;
    assert d[0..|d|] == s[|pre|..|pre| + |d|];
    NumberFrame(d, 0, s, |pre|, |d|);
  }

  /** Where the digit groups of three digit strings joined by dots and
      followed by `t` lie, and what they read as. */
  lemma {:induction false} JoinedNumbers(x: string, y: string, z: string, t: string)
    requires AllDigits(x) && AllDigits(y) && AllDigits(z)
    ensures var s := x + "." + y + "." + z + t;
            && DigitsBetween(s, 0, |x|) && Number(s, 0, |x|) == Number(x, 0, |x|)
            && DigitsBetween(s, |x| + 1, |x| + 1 + |y|) && Number(s, |x| + 1, |x| + 1 + |y|) == Number(y, 0, |y|)
            && DigitsBetween(s, |x| + |y| + 2, |x| + |y| + 2 + |z|)
            && Number(s, |x| + |y| + 2, |x| + |y| + 2 + |z|) == Number(z, 0, |z|)
  {
    var s := x + "." + y + "." + z + t;
    assert s == [] + x + ("." + y + "." + z + t);
    Placed([], x, "." + y + "." + z + t);
    assert s == (x + ".") + y + ("." + z + t);
    Placed(x + ".", y, "." + z + t);
    Placed(x + "." + y + ".", z, t);
  }

  /** Three non-empty digit strings joined by dots, followed by a text that
      does not start with a digit, have their groups where expected. */
  lemma {:induction false} JoinedGroups(x: string, y: string, z: string, t: string)
    requires |x| > 0 && |y| > 0 && |z| > 0
    requires AllDigits(x) && AllDigits(y) && AllDigits(z)
    requires t == "" || !IsDigit(t[0])
    ensures GroupEnds(x + "." + y + "." + z + t, |x|, |x| + 1 + |y|, |x| + |y| + 2 + |z|)
  {
    var s := x + "." + y + "." + z + t;
    JoinedNumbers(x, y, z, t);
    assert s[|x|] == '.' && s[|x| + 1 + |y|] == '.';
    assert |x| + |y| + 2 + |z| == |s| || s[|x| + |y| + 2 + |z|] == t[0];
  }

  /** Parsing three non-empty digit strings joined by dots and followed by
      a suffix. */
  lemma {:induction false} ParseJoined(x: string, y: string, z: string, suffix: Suffix)
    requires |x| > 0 && |y| > 0 && |z| > 0
    requires AllDigits(x) && AllDigits(y) && AllDigits(z)
    ensures DigitsBetween(x, 0, |x|) && DigitsBetween(y, 0, |y|) && DigitsBetween(z, 0, |z|)
    ensures Parse(x + "." + y + "." + z + SuffixText(suffix)) ==
              Some(Version(Number(x, 0, |x|), Number(y, 0, |y|), Number(z, 0, |z|), suffix))
  {
    var p := x + "." + y + "." + z;
    var t := SuffixText(suffix);
    assert t == "" || t[0] == 'r' || t[0] == '.';
    JoinedNumbers(x, y, z, t);
    JoinedGroups(x, y, z, t);
    ParseGroups(p + t, |x|, |x| + 1 + |y|, |p|);
    SuffixRoundTrip(p, suffix);
  }

  /** Printing then parsing gives back the same version. */
  lemma {:induction false} ParsePrint(v: Version)
    ensures Parse(Print(v)) == Some(v)
  {
    DecimalRoundTrip(v.major);
    DecimalRoundTrip(v.minor);
    DecimalRoundTrip(v.micro);
    ParseJoined(Decimal(v.major), Decimal(v.minor), Decimal(v.micro), v.suffix);
  }

  /** Characters a version string may contain. */
  predicate VersionChar(c: char) {
    IsDigit(c) || c == '.' || c == 'r' || c == 'c' || c == 'd' || c == 'e' || c == 'v'
  }

  /** Every string the grammar accepts is non-empty and built from digits,
      dots and the letters of `rc` and `dev` (so no quote and no newline). */
  lemma {:induction false} ParsedAlphabet(s: string)
    requires Parse(s).Some?
    ensures |s| > 0 && forall k :: 0 <= k < |s| ==> VersionChar(s[k])
  {
    var a, b, c := ParsedGroups(s);
    forall k | 0 <= k < |s| ensures VersionChar(s[k]) {
      if k >= c && SuffixAt(s, c).Some? {
        if s[c] == 'r' {
          assert c + 2 < |s| && DigitsEnd(s, c + 2) == |s|;
        } else {
          assert c + 4 < |s| && DigitsEnd(s, c + 4) == |s|;
        }
      }
    }
  }

  /** PEP 440 ordering of the suffixes of one release: every `.devN` comes
      before every `rcN`, which come before the final release; numbers
      order suffixes of the same kind. */
  predicate SuffixLess(a: Suffix, b: Suffix) {
    match (a, b)
    case (Dev(m), Dev(n)) => m < n
    case (Dev(_), _) => true
    case (Rc(m), Rc(n)) => m < n
    case (Rc(_), Final) => true
    case _ => false
  }

  /** `a < b` under PEP 440: release segments numerically and
      lexicographically, then the suffix. */
  predicate Less(a: Version, b: Version) {
    if a.major != b.major then a.major < b.major
    else if a.minor != b.minor then a.minor < b.minor
    else if a.micro != b.micro then a.micro < b.micro
    else SuffixLess(a.suffix, b.suffix)
  }

  lemma LessIrreflexive(a: Version)
    ensures !Less(a, a)
  {
  }

  lemma LessTransitive(a: Version, b: Version, c: Version)
    requires Less(a, b) && Less(b, c)
    ensures Less(a, c)
  {
  }

  /** Any two versions compare: one is smaller or they are equal. */
  lemma LessTotal(a: Version, b: Version)
    ensures Less(a, b) || a == b || Less(b, a)
  {
  }

  /** `X.Y.Z.devN < X.Y.ZrcM < X.Y.Z` for every N and M, and a larger
      release triple wins whatever the suffixes. */
  lemma SuffixOrdering(x: nat, y: nat, z: nat, n: nat, m: nat)
    ensures Less(Version(x, y, z, Dev(n)), Version(x, y, z, Rc(m)))
    ensures Less(Version(x, y, z, Rc(m)), Version(x, y, z, Final))
    ensures Less(Version(x, y, z, Final), Version(x, y, z + 1, Dev(0)))
  {
  }
}
