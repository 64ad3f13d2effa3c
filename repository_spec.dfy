/** The file-level behaviour of the version-bump script as functions of the
    repository's files: `replace_occurrences` over a list of paths and over
    the files a recursive glob finds, `update_versions` with its six rules,
    `validate_new_version`, and the pre- and post-release commands. A
    repository is a map from path to text together with the set of paths
    written so far. */
module RepositorySpec {
  import opened Text
  import opened Versions
  import opened Suffixes
  import opened Substitution
  import opened VersionReader

  const VersionPy: string := "mlflow/version.py"
  const Pyproject: string := "pyproject.toml"
  const PyprojectSkinny: string := "pyproject.skinny.toml"
  const JsConstants: string := "mlflow/server/js/src/common/constants.tsx"
  const RDescription: string := "mlflow/R/mlflow/DESCRIPTION"
  /** The directory searched by `Path("mlflow", "java").rglob(...)`. */
  const JavaRoot: string := "mlflow/java/"

  datatype Error =
    | FileNotFound(path: string)
    | /** `re.search` found no `VERSION = "..."` in the version module. */
      VersionNotFound
    | /** `packaging.version.Version` rejected the text. */
      InvalidVersion(text: string)
    | /** `click.BadParameter`: the new version is older than the current one. */
      BadParameter
    | /** The assertion of `post_release`: the current version is no dev release. */
      NotDevRelease

  datatype Outcome = Done | Failed(error: Error)

  datatype Result<T> = Ok(value: T) | Err(error: Error)

  datatype State = State(files: map<string, string>, written: set<string>)

  /** The state a sequence of passes leaves and how it ended; a pass that
      fails leaves the writes made before it in place. */
  datatype Run = Run(state: State, outcome: Outcome)

  /** `get_current_py_version()` on the repository's files. */
  function CurrentVersion(files: map<string, string>): (r: Result<string>)
    ensures VersionPy !in files ==> r == Err(FileNotFound(VersionPy))
    ensures r.Ok? ==> VersionPy in files && ReadVersion(files[VersionPy]) == Some(r.value)
    ensures VersionPy in files && ReadVersion(files[VersionPy]).None? ==> r == Err(VersionNotFound)
  {
    if VersionPy !in files then Err(FileNotFound(VersionPy))
    else match ReadVersion(files[VersionPy])
      case None => Err(VersionNotFound)
      case Some(v) => Ok(v)
  }

  /** One iteration of the loop of `replace_occurrences`: the file is
      rewritten and recorded as written only when the pattern occurs. */
  function Rewritten(st: State, path: string, rule: Rule): State
    requires path in st.files
  {
    var text := st.files[path];
    if Occurs(rule, text) then State(st.files[path := Sub(rule, text)], st.written + {path})
    else st
  }

  /** `replace_occurrences(paths, pattern, repl)`, path by path; a missing
      file raises and stops the pass. */
  function Replaced(st: State, paths: seq<string>, rule: Rule): Run
    decreases |paths|
  {
    if |paths| == 0 then Run(st, Done)
    else if paths[0] !in st.files then Run(st, Failed(FileNotFound(paths[0])))
    else Replaced(Rewritten(st, paths[0], rule), paths[1..], rule)
  }

  /** The paths `Path("mlflow", "java").rglob("*" + ext)` yields. */
  function Glob(files: map<string, string>, ext: string): (r: set<string>)
    ensures forall p :: p in r <==> p in files && StartsAt(p, 0, JavaRoot) && EndsWith(p, ext)
  {
    set p | p in files && StartsAt(p, 0, JavaRoot) && EndsWith(p, ext)
  }

  /** The same pass over a set of paths: each file that holds a match is
      rewritten and recorded, the others are left alone. */
  function ReplacedAll(st: State, paths: set<string>, rule: Rule): State {
    State(
      map p | p in st.files :: if p in paths && Occurs(rule, st.files[p]) then Sub(rule, st.files[p]) else st.files[p],
      st.written + set p | p in paths && p in st.files && Occurs(rule, st.files[p]))
  }

  /** The version the Java sources and POM files receive. */
  function JavaTarget(next: string): string {
    ReplaceDevOrRcSuffixWith(next, "-SNAPSHOT")
  }

  /** The passes over the Java sources and then the POM files that
      `rglob` finds under the Java tree. */
  function JavaPasses(st: State, base: string, target: string): State {
    var s4 := ReplacedAll(st, Glob(st.files, ".java"), JavaVersion(base, target));
    ReplacedAll(s4, Glob(s4.files, ".xml"), PomVersion(base, target))
  }

  /** The six passes of `update_versions` after the current version `cur`
      has been read and the first pass has rewritten the version module. */
  function UpdateRest(st: State, cur: string, next: string): Run {
    var base := ReplaceDevOrRcSuffixWith(cur, "");
    var r2 := Replaced(st, [Pyproject, PyprojectSkinny], PyprojectVersion("version = \"" + next + "\""));
    if r2.outcome.Failed? then r2
    else
      var r3 := Replaced(r2.state, [JsConstants], Literal(cur, next));
      if r3.outcome.Failed? then r3
      else
        var s5 := JavaPasses(r3.state, base, JavaTarget(next));
        Replaced(s5, [RDescription], Literal("Version: " + base, "Version: " + ReplaceDevOrRcSuffixWith(next, "")))
  }

  /** `update_versions(next)`. */
  function UpdatedVersions(st: State, next: string): Run {
    match CurrentVersion(st.files)
    case Err(e) => Run(st, Failed(e))
    case Ok(cur) =>
      var r1 := Replaced(st, [VersionPy], Literal(cur, next));
      if r1.outcome.Failed? then r1 else UpdateRest(r1.state, cur, next)
  }

  /** `validate_new_version`: the new version is parsed first, then the
      current one is read and parsed; an older new version is refused. */
  function ValidateNewVersion(value: string, files: map<string, string>): (r: Result<string>)
    ensures r.Ok? ==> r.value == value
    ensures r.Ok? ==> Parse(value).Some? && CurrentVersion(files).Ok? && Parse(CurrentVersion(files).value).Some?
  {
    match Parse(value)
    case None => Err(InvalidVersion(value))
    case Some(nv) =>
      match CurrentVersion(files)
      case Err(e) => Err(e)
      case Ok(cur) =>
        match Parse(cur)
        case None => Err(InvalidVersion(cur))
        case Some(cv) => if Less(nv, cv) then Err(BadParameter) else Ok(value)
  }

  /** `f"{major}.{minor}.{micro + 1}.dev0"` of the released version. */
  function NextDev(v: Version): (r: Version)
    ensures r.suffix == Dev(0)
  {
    Version(v.major, v.minor, v.micro + 1, Dev(0))
  }

  /** The `pre-release` command: validation, then `update_versions`. */
  function PreReleased(st: State, value: string): Run {
    match ValidateNewVersion(value, st.files)
    case Err(e) => Run(st, Failed(e))
    case Ok(_) => UpdatedVersions(st, value)
  }

  /** The `post-release` command: validation, the dev-release assertion on
      the current version, then `update_versions` with the next dev version. */
  function PostReleased(st: State, value: string): Run {
    match ValidateNewVersion(value, st.files)
    case Err(e) => Run(st, Failed(e))
    case Ok(_) =>
      var cv := Parse(CurrentVersion(st.files).value).value;
      if !cv.IsDevRelease() then Run(st, Failed(NotDevRelease))
      else UpdatedVersions(st, Print(NextDev(Parse(value).value)))
  }

  /** Whether a path is one `update_versions` may rewrite. */
  predicate Target(p: string) {
    p == VersionPy || p == Pyproject || p == PyprojectSkinny || p == JsConstants || p == RDescription ||
    StartsAt(p, 0, JavaRoot)
  }

  /** A single rewrite keeps the set of paths and touches only its file. */
  lemma RewrittenFrame(st: State, path: string, rule: Rule)
    requires path in st.files
    ensures Rewritten(st, path, rule).files.Keys == st.files.Keys
    ensures forall p :: p in st.files && p != path ==> Rewritten(st, path, rule).files[p] == st.files[p]
    ensures st.written <= Rewritten(st, path, rule).written <= st.written + {path}
  {
  }

  /** `replace_occurrences` creates no file, leaves every file it was not
      given as it was, and records writes only of files it was given. */
  lemma {:induction false} ReplacedFrame(st: State, ps: seq<string>, rule: Rule)
    ensures Replaced(st, ps, rule).state.files.Keys == st.files.Keys
    ensures forall p :: p in st.files && p !in ps ==> Replaced(st, ps, rule).state.files[p] == st.files[p]
    ensures st.written <= Replaced(st, ps, rule).state.written
    ensures forall p :: p in Replaced(st, ps, rule).state.written && p !in st.written ==> p in ps
    decreases |ps|
  {
    if |ps| > 0 && ps[0] in st.files {
      var next := Rewritten(st, ps[0], rule);
      RewrittenFrame(st, ps[0], rule);
      ReplacedFrame(next, ps[1..], rule);
      forall p | p in ps[1..] ensures p in ps {
        var i :| 0 <= i < |ps[1..]| && ps[1..][i] == p;
        assert ps[i + 1] == p;
      }
    }
  }

  /** The pass ends normally exactly when every listed file exists; it
      otherwise stops with the first missing one. */
  lemma {:induction false} ReplacedOutcome(st: State, ps: seq<string>, rule: Rule)
    ensures Replaced(st, ps, rule).outcome == Done <==> forall i :: 0 <= i < |ps| ==> ps[i] in st.files
    ensures Replaced(st, ps, rule).outcome.Failed? ==>
              exists j :: 0 <= j < |ps| && ps[j] !in st.files &&
                Replaced(st, ps, rule).outcome == Failed(FileNotFound(ps[j])) &&
                forall i :: 0 <= i < j ==> ps[i] in st.files
    decreases |ps|
  {
    if |ps| > 0 && ps[0] in st.files {
      var next := Rewritten(st, ps[0], rule);
      RewrittenFrame(st, ps[0], rule);
      ReplacedOutcome(next, ps[1..], rule);
      var r := Replaced(st, ps, rule);
      if r.outcome.Failed? {
        var j :| 0 <= j < |ps[1..]| && ps[1..][j] !in next.files &&
                 r.outcome == Failed(FileNotFound(ps[1..][j])) &&
                 forall i :: 0 <= i < j ==> ps[1..][i] in next.files;
        assert ps[j + 1] !in st.files;
        forall i | 0 <= i < j + 1 ensures ps[i] in st.files {
          if i > 0 {
            assert ps[i] == ps[1..][i - 1];
          }
        }
      }
      if forall i :: 0 <= i < |ps[1..]| ==> ps[1..][i] in next.files {
        forall i | 0 <= i < |ps| ensures ps[i] in st.files {
          if i > 0 {
            assert ps[i] == ps[1..][i - 1];
          }
        }
      }
      if forall i :: 0 <= i < |ps| ==> ps[i] in st.files {
        forall i | 0 <= i < |ps[1..]| ensures ps[1..][i] in next.files {
          assert ps[1..][i] == ps[i + 1];
        }
      }
    }
  }

  /** Where the pattern occurs in none of the files, nothing is written and
      no text changes. */
  lemma {:induction false} ReplacedNoMatch(st: State, ps: seq<string>, rule: Rule)
    requires forall i :: 0 <= i < |ps| ==> ps[i] in st.files && !Occurs(rule, st.files[ps[i]])
    ensures Replaced(st, ps, rule) == Run(st, Done)
    decreases |ps|
  {
    if |ps| > 0 {
      assert Rewritten(st, ps[0], rule) == st;
      forall i | 0 <= i < |ps[1..]| ensures ps[1..][i] in st.files && !Occurs(rule, st.files[ps[1..][i]]) {
        assert ps[1..][i] == ps[i + 1];
      }
      ReplacedNoMatch(st, ps[1..], rule);
    }
  }

  /** The set form creates no file and touches only the files it names. */
  lemma ReplacedAllFrame(st: State, paths: set<string>, rule: Rule)
    ensures ReplacedAll(st, paths, rule).files.Keys == st.files.Keys
    ensures forall p :: p in st.files && p !in paths ==> ReplacedAll(st, paths, rule).files[p] == st.files[p]
    ensures st.written <= ReplacedAll(st, paths, rule).written
    ensures forall p :: p in ReplacedAll(st, paths, rule).written && p !in st.written ==> p in paths
  {
  }

  /** The files after rewriting one more file first, then the rest as a set. */
  lemma ReplacedAllStepFiles(st: State, path: string, paths: set<string>, rule: Rule)
    requires path in st.files && path !in paths
    ensures ReplacedAll(Rewritten(st, path, rule), paths, rule).files == ReplacedAll(st, paths + {path}, rule).files
  {
    var left, right := ReplacedAll(Rewritten(st, path, rule), paths, rule), ReplacedAll(st, paths + {path}, rule);
    RewrittenFrame(st, path, rule);
    assert left.files.Keys == right.files.Keys;
    forall p | p in left.files ensures left.files[p] == right.files[p] {
      if p != path {
        assert Rewritten(st, path, rule).files[p] == st.files[p];
      }
    }
  }

  /** Rewriting one more file first, then the rest as a set, is the pass
      over the larger set. */
  lemma ReplacedAllStep(st: State, path: string, paths: set<string>, rule: Rule)
    requires path in st.files && path !in paths
    ensures ReplacedAll(Rewritten(st, path, rule), paths, rule) == ReplacedAll(st, paths + {path}, rule)
  {
    ReplacedAllStepFiles(st, path, paths, rule);
    RewrittenFrame(st, path, rule);
    var left, right := ReplacedAll(Rewritten(st, path, rule), paths, rule), ReplacedAll(st, paths + {path}, rule);
    forall p | p in paths && p in st.files ensures Rewritten(st, path, rule).files[p] == st.files[p] {
    }
    assert left.written == right.written;
  }

  /** The tail of a duplicate-free list of existing paths. */
  lemma DistinctTail(ps: seq<string>, files: set<string>)
    requires |ps| > 0
    requires forall i :: 0 <= i < |ps| ==> ps[i] in files
    requires forall i, j :: 0 <= i < j < |ps| ==> ps[i] != ps[j]
    ensures forall i :: 0 <= i < |ps[1..]| ==> ps[1..][i] in files
    ensures forall i, j :: 0 <= i < j < |ps[1..]| ==> ps[1..][i] != ps[1..][j]
    ensures ps[0] !in (set p | p in ps[1..])
    ensures (set p | p in ps) == (set p | p in ps[1..]) + {ps[0]}
  {
    var rest := ps[1..];
    forall i | 0 <= i < |rest| ensures rest[i] in files && rest[i] != ps[0] {
      assert rest[i] == ps[i + 1];
    }
    forall i, j | 0 <= i < j < |rest| ensures rest[i] != rest[j] {
      assert rest[i] == ps[i + 1] && rest[j] == ps[j + 1];
    }
    assert ps == [ps[0]] + rest;
  }

  /** The order `rglob` yields files in does not matter: one pass over any
      duplicate-free list of existing paths is the pass over their set. */
  lemma {:induction false} ReplacedSeqIsSet(st: State, ps: seq<string>, rule: Rule)
    requires forall i :: 0 <= i < |ps| ==> ps[i] in st.files
    requires forall i, j :: 0 <= i < j < |ps| ==> ps[i] != ps[j]
    ensures Replaced(st, ps, rule) == Run(ReplacedAll(st, (set p | p in ps), rule), Done)
    decreases |ps|
  {
    if |ps| == 0 {
      assert ReplacedAll(st, {}, rule).files == st.files;
      assert ReplacedAll(st, {}, rule) == st;
    } else {
      var next := Rewritten(st, ps[0], rule);
      RewrittenFrame(st, ps[0], rule);
      DistinctTail(ps, st.files.Keys);
      ReplacedSeqIsSet(next, ps[1..], rule);
      ReplacedAllStep(st, ps[0], (set p | p in ps[1..]), rule);
    }
  }

  /** `b` has the paths of `a`, and every file outside `touched` is as
      it was in `a`. */
  predicate Kept(a: State, b: State, touched: set<string>) {
    && b.files.Keys == a.files.Keys
    && forall p :: p in a.files && p !in touched ==> b.files[p] == a.files[p]
  }

  lemma KeptTrans(a: State, b: State, c: State, t1: set<string>, t2: set<string>)
    requires Kept(a, b, t1) && Kept(b, c, t2)
    ensures Kept(a, c, t1 + t2)
  {
  }

  /** A list pass keeps every file it was not given. */
  lemma ReplacedKept(st: State, ps: seq<string>, rule: Rule)
    ensures Kept(st, Replaced(st, ps, rule).state, set p | p in ps)
  {
    ReplacedFrame(st, ps, rule);
  }

  /** The Java passes keep every file outside the Java tree. */
  lemma JavaPassesKept(st: State, base: string, target: string)
    ensures Kept(st, JavaPasses(st, base, target), Glob(st.files, ".java") + Glob(st.files, ".xml"))
  {
    var s4 := ReplacedAll(st, Glob(st.files, ".java"), JavaVersion(base, target));
    ReplacedAllFrame(st, Glob(st.files, ".java"), JavaVersion(base, target));
    ReplacedAllFrame(s4, Glob(s4.files, ".xml"), PomVersion(base, target));
    assert Glob(s4.files, ".xml") == Glob(st.files, ".xml");
  }

  /** The Java, POM and R passes keep every file outside the Java tree and
      the R description. */
  lemma FinalPassesKept(st: State, cur: string, next: string)
    ensures var base := ReplaceDevOrRcSuffixWith(cur, "");
            var rule := Literal("Version: " + base, "Version: " + ReplaceDevOrRcSuffixWith(next, ""));
            Kept(st, Replaced(JavaPasses(st, base, JavaTarget(next)), [RDescription], rule).state,
                 (Glob(st.files, ".java") + Glob(st.files, ".xml")) + {RDescription})
  {
    var base := ReplaceDevOrRcSuffixWith(cur, "");
    var s5 := JavaPasses(st, base, JavaTarget(next));
    JavaPassesKept(st, base, JavaTarget(next));
    var rule := Literal("Version: " + base, "Version: " + ReplaceDevOrRcSuffixWith(next, ""));
    ReplacedKept(s5, [RDescription], rule);
    assert (set p | p in [RDescription]) == {RDescription};
    KeptTrans(st, s5, Replaced(s5, [RDescription], rule).state, Glob(st.files, ".java") + Glob(st.files, ".xml"), {RDescription});
  }

  /** The paths the passes after the first may rewrite. */
  function RestTouched(files: map<string, string>): set<string> {
    {Pyproject, PyprojectSkinny} + {JsConstants} + (Glob(files, ".java") + Glob(files, ".xml")) + {RDescription}
  }

  /** The passes after the first leave every path other than the two
      pyproject files, the JS constants, the R description and the Java tree
      as it was, and create no file. */
  lemma {:induction false} UpdateRestFrame(st: State, cur: string, next: string)
    ensures Kept(st, UpdateRest(st, cur, next).state, RestTouched(st.files))
  {
    var base := ReplaceDevOrRcSuffixWith(cur, "");
    var r2 := Replaced(st, [Pyproject, PyprojectSkinny], PyprojectVersion("version = \"" + next + "\""));
    ReplacedKept(st, [Pyproject, PyprojectSkinny], PyprojectVersion("version = \"" + next + "\""));
    assert (set p | p in [Pyproject, PyprojectSkinny]) == {Pyproject, PyprojectSkinny};
    if r2.outcome.Done? {
      var r3 := Replaced(r2.state, [JsConstants], Literal(cur, next));
      ReplacedKept(r2.state, [JsConstants], Literal(cur, next));
      assert (set p | p in [JsConstants]) == {JsConstants};
      KeptTrans(st, r2.state, r3.state, {Pyproject, PyprojectSkinny}, {JsConstants});
      if r3.outcome.Done? {
        FinalPassesKept(r3.state, cur, next);
        assert Glob(r3.state.files, ".java") == Glob(st.files, ".java");
        assert Glob(r3.state.files, ".xml") == Glob(st.files, ".xml");
        KeptTrans(st, r3.state, UpdateRest(st, cur, next).state, {Pyproject, PyprojectSkinny} + {JsConstants},
                  (Glob(st.files, ".java") + Glob(st.files, ".xml")) + {RDescription});
      }
    }
  }

  /** Every path the passes after the first may rewrite is a target other
      than the version module. */
  lemma RestTouchedTargets(files: map<string, string>)
    ensures forall p :: p in RestTouched(files) ==> Target(p) && p != VersionPy
  {
    VersionPyOutsideJava();
  }

  /** `update_versions` creates no file and leaves every file outside its
      targets as it was, whatever the outcome. */
  lemma {:induction false} UpdatedFrame(st: State, next: string)
    ensures UpdatedVersions(st, next).state.files.Keys == st.files.Keys
    ensures forall p :: p in st.files && !Target(p) ==> UpdatedVersions(st, next).state.files[p] == st.files[p]
  {
    match CurrentVersion(st.files)
    case Err(_) =>
    case Ok(cur) =>
      var r1 := Replaced(st, [VersionPy], Literal(cur, next));
      ReplacedFrame(st, [VersionPy], Literal(cur, next));
      UpdateRestFrame(r1.state, cur, next);
      RestTouchedTargets(r1.state.files);
  }

  /** The version module lies outside the Java tree. */
  lemma VersionPyOutsideJava()
    ensures !StartsAt(VersionPy, 0, JavaRoot)
  {
    assert VersionPy[7] == 'v' && JavaRoot[7] == 'j';
  }

  /** When the current version was read, the first pass rewrites the version
      module (if the version occurs in it) and the later passes leave it
      alone, so it ends with the literal rewrite applied, whatever the
      outcome of the later passes. */
  lemma {:induction false} UpdatedVersionModule(st: State, next: string)
    requires CurrentVersion(st.files).Ok?
    ensures var cur := CurrentVersion(st.files).value;
            && VersionPy in UpdatedVersions(st, next).state.files
            && UpdatedVersions(st, next).state.files[VersionPy] == Sub(Literal(cur, next), st.files[VersionPy])
  {
    var cur := CurrentVersion(st.files).value;
    var rule := Literal(cur, next);
    var text := st.files[VersionPy];
    assert [VersionPy][0] == VersionPy && [VersionPy][1..] == [];
    var r1 := Replaced(st, [VersionPy], rule);
    assert Replaced(Rewritten(st, VersionPy, rule), [], rule) == Run(Rewritten(st, VersionPy, rule), Done);
    assert r1 == Run(Rewritten(st, VersionPy, rule), Done);
    if !Occurs(rule, text) {
      SubAbsent(rule, text);
    }
    assert r1.state.files[VersionPy] == Sub(rule, text);
    UpdateRestFrame(r1.state, cur, next);
    RestTouchedTargets(r1.state.files);
  }

  /** The round trip of `update_versions`: when the version module assigns
      the current version `cur` at `k`, as its only occurrence, the script
      reads `cur` before the update and the new version after it. */
  lemma {:induction false} UpdateRoundTrip(st: State, k: nat, cur: string, next: string)
    requires VersionPy in st.files
    requires AssignedAt(st.files[VersionPy], k, cur) && FirstKeyAt(st.files[VersionPy], k)
    requires forall j :: 0 <= j <= |st.files[VersionPy]| && j != k + |Key| ==> !StartsAt(st.files[VersionPy], j, cur)
    requires Parse(next).Some?
    ensures CurrentVersion(st.files) == Ok(cur)
    ensures CurrentVersion(UpdatedVersions(st, next).state.files) == Ok(next)
  {
    ParsedAlphabet(next);
    ReplaceAssigned(st.files[VersionPy], k, cur, next);
    UpdatedVersionModule(st, next);
  }

  /** `validate_new_version` refuses with a parameter error exactly when
      both versions are valid and the new one is older. */
  lemma ValidateRefusesOlder(value: string, files: map<string, string>)
    ensures ValidateNewVersion(value, files) == Err(BadParameter) <==>
              && Parse(value).Some? && CurrentVersion(files).Ok?
              && Parse(CurrentVersion(files).value).Some?
              && Less(Parse(value).value, Parse(CurrentVersion(files).value).value)
  {
  }

  /** It accepts, returning its input, exactly when both versions are valid
      and the new one is not older; an equal version is accepted. */
  lemma ValidateAccepts(value: string, files: map<string, string>)
    ensures ValidateNewVersion(value, files) == Ok(value) <==>
              && Parse(value).Some? && CurrentVersion(files).Ok?
              && Parse(CurrentVersion(files).value).Some?
              && !Less(Parse(value).value, Parse(CurrentVersion(files).value).value)
    ensures CurrentVersion(files) == Ok(value) && Parse(value).Some? ==> ValidateNewVersion(value, files) == Ok(value)
  {
    if Parse(value).Some? {
      LessIrreflexive(Parse(value).value);
    }
  }

  /** The version `post_release` computes is a development release that
      is newer than the released version, and it prints as
      `major.minor.(micro+1).dev0`, which the grammar reads back. */
  lemma {:induction false} NextDevIsNewer(v: Version)
    ensures NextDev(v).IsDevRelease() && Less(v, NextDev(v))
    ensures Print(NextDev(v)) == Decimal(v.major) + "." + Decimal(v.minor) + "." + Decimal(v.micro + 1) + ".dev0"
    ensures Parse(Print(NextDev(v))) == Some(NextDev(v))
  {
    assert SuffixText(Dev(0)) == ".dev0";
    ParsePrint(NextDev(v));
  }

  /** `post_release` stops on its assertion, changing nothing, when the
      current version is valid but no dev release; otherwise, once the input
      is valid, it runs `update_versions` on the next dev version. */
  lemma PostReleaseOutcome(st: State, value: string)
    requires ValidateNewVersion(value, st.files).Ok?
    ensures var cv := Parse(CurrentVersion(st.files).value).value;
            !cv.IsDevRelease() ==> PostReleased(st, value) == Run(st, Failed(NotDevRelease))
    ensures var cv := Parse(CurrentVersion(st.files).value).value;
            cv.IsDevRelease() ==> PostReleased(st, value) == UpdatedVersions(st, Print(NextDev(Parse(value).value)))
  {
  }

  /** After a successful validation `pre-release` is `update_versions` on
      the given version; a failed validation changes nothing. */
  lemma PreReleaseOutcome(st: State, value: string)
    ensures ValidateNewVersion(value, st.files).Ok? ==> PreReleased(st, value) == UpdatedVersions(st, value)
    ensures ValidateNewVersion(value, st.files).Err? ==>
              PreReleased(st, value) == Run(st, Failed(ValidateNewVersion(value, st.files).error))
  {
  }

  /** The Java and POM target: a release candidate or `.dev0` suffix of the
      new version becomes `-SNAPSHOT`, and a release passes through. */
  lemma JavaTargetOfParsed(next: string, v: Version)
    requires Parse(next) == Some(v)
    ensures v.suffix.Rc? || (v.suffix.Dev? && EndsWith(next, ".dev0")) ==>
              JavaTarget(next) == ReplaceDevOrRcSuffixWith(next, "") + "-SNAPSHOT" &&
              Parse(ReplaceDevOrRcSuffixWith(next, "")) == Some(v.Release())
    ensures v.suffix.Final? ==> JavaTarget(next) == next
  {
    ReplaceSuffixOfParsed(next, v, "-SNAPSHOT");
  }

  /** `2.1.0rc0` gives `2.1.0-SNAPSHOT`. */
  lemma {:induction false} JavaTargetOfRc()
    ensures JavaTarget("2.1.0rc0") == "2.1.0-SNAPSHOT"
  {
    assert SuffixMatchAt("2.1.0rc0", 5);
    StripAt("2.1.0rc0", 5, "-SNAPSHOT");
  }

  /** `2.1.0.dev0` gives `2.1.0-SNAPSHOT`. */
  lemma {:induction false} JavaTargetOfDev()
    ensures JavaTarget("2.1.0.dev0") == "2.1.0-SNAPSHOT"
  {
    assert SuffixMatchAt("2.1.0.dev0", 5);
    StripAt("2.1.0.dev0", 5, "-SNAPSHOT");
  }

  /** `2.1.0` passes through. */
  lemma {:induction false} JavaTargetOfRelease()
    ensures JavaTarget("2.1.0") == "2.1.0"
  {
    var v := Version(2, 1, 0, Final);
    assert Print(v) == "2.1.0";
    ReplaceSuffixOfPrinted(v, "-SNAPSHOT");
  }
}
