/** The package's version module: the checked-in `VERSION` constant and the
    release check `is_release_version`, which matches `^\d+\.\d+\.\d+$`
    against it. */
module MlflowVersion {
  import opened Text
  import opened Versions

  /** The checked-in version constant. */
  const VERSION: string := "2.20.5.dev0"

  /** An abbreviated text of the version module: the assignment line of
      the constant between a header without a `V` and a trailer that starts
      a new line. The rest of the module is not part of this model; the
      reader is proved correct for every such header and trailer. */
  const SourceHeader: string := "import re\n\n"
  const SourceTrailer: string := "\n"
  const Source: string := SourceHeader + "VERSION = \"" + VERSION + "\"" + SourceTrailer

  /** `re.match(r"^\d+\.\d+\.\d+$", version)`: three greedy digit groups
      separated by dots, anchored at both ends (the string is assumed not to
      end in a newline, where Python's `$` would also match). */
  predicate IsReleaseVersion(version: string) {
    var a := DigitsEnd(version, 0);
    0 < a < |version| && version[a] == '.' &&
    var b := DigitsEnd(version, a + 1);
    a + 1 < b < |version| && version[b] == '.' &&
    var c := DigitsEnd(version, b + 1);
    b + 1 < c == |version|
  }

  /** The release check accepts exactly the strings the grammar reads as a
      final release. */
  lemma ReleaseIffFinal(s: string)
    ensures IsReleaseVersion(s) <==> Parse(s).Some? && Parse(s).value.suffix == Final
  {
    if IsReleaseVersion(s) {
      var a := DigitsEnd(s, 0);
      var b := DigitsEnd(s, a + 1);
      assert s[|s|..] == "";
    }
  }

  /** A printed version passes the release check iff it has no suffix. */
  lemma {:induction false} PrintedIsRelease(v: Version)
    ensures IsReleaseVersion(Print(v)) <==> v.suffix == Final
  {
    ParsePrint(v);
    ReleaseIffFinal(Print(v));
  }

  /** The match is anchored: the string must start and end with a digit. */
  lemma ReleaseAnchored(s: string)
    requires IsReleaseVersion(s)
    ensures |s| > 0 && IsDigit(s[0]) && IsDigit(s[|s| - 1])
  {
  }

  /** `2.1.0` passes; a release candidate and a development release fail. */
  lemma SuffixedExamples()
    ensures IsReleaseVersion("2.1.0")
    ensures !IsReleaseVersion("2.1.0rc0")
    ensures !IsReleaseVersion("2.20.5.dev0")
  {
    DigitsEndUnique("2.1.0", 0, 1);
    DigitsEndUnique("2.1.0", 2, 3);
    DigitsEndUnique("2.1.0", 4, 5);
    DigitsEndUnique("2.1.0rc0", 0, 1);
    DigitsEndUnique("2.1.0rc0", 2, 3);
    DigitsEndUnique("2.1.0rc0", 4, 5);
    DigitsEndUnique("2.20.5.dev0", 0, 1);
    DigitsEndUnique("2.20.5.dev0", 2, 4);
    DigitsEndUnique("2.20.5.dev0", 5, 6);
  }

  /** Strings without exactly three dot-separated digit groups fail, and so
      does a version with text in front of it. */
  lemma MalformedExamples()
    ensures !IsReleaseVersion("2.1")
    ensures !IsReleaseVersion("2.1.0.1")
    ensures !IsReleaseVersion("2..0")
    ensures !IsReleaseVersion("v2.1.0")
  {
    DigitsEndUnique("2.1", 0, 1);
    DigitsEndUnique("2.1", 2, 3);
    DigitsEndUnique("2.1.0.1", 0, 1);
    DigitsEndUnique("2.1.0.1", 2, 3);
    DigitsEndUnique("2.1.0.1", 4, 5);
    DigitsEndUnique("2..0", 0, 1);
    DigitsEndUnique("2..0", 2, 2);
    DigitsEndUnique("v2.1.0", 0, 0);
  }

  /** The checked-in constant is a development release of 2.20.5, so the
      package does not report itself as a release. */
  lemma {:induction false} CheckedInVersion()
    ensures Parse(VERSION) == Some(Version(2, 20, 5, Dev(0)))
    ensures !IsReleaseVersion(VERSION)
  {
    assert Print(Version(2, 20, 5, Dev(0))) == VERSION;
    ParsePrint(Version(2, 20, 5, Dev(0)));
    ReleaseIffFinal(VERSION);
  }
}
