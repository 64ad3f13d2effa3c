/** The version-bump script acting on a repository: the files are a map from
    path to text that the passes of `update_versions` rewrite in place, and
    `written` records every file a pass has written back. Each method is
    proved to leave exactly the state the functions of `RepositorySpec`
    describe, whose properties are proved there. */
module Repository {
  import opened Text
  import opened Versions
  import opened Suffixes
  import opened Substitution
  import opened RepositorySpec

  class Repo {
    var files: map<string, string>
    var written: set<string>

    function Model(): State
      reads this
    {
      State(files, written)
    }

    constructor (files: map<string, string>)
      ensures Model() == State(files, {})
    {
      this.files := files;
      written := {};
    }

    /** `replace_occurrences(paths, pattern, repl)`: each file that holds a
        match is rewritten and written back; a file without one is skipped;
        a missing file stops the pass with an error. */
    method ReplaceOccurrences(paths: seq<string>, rule: Rule) returns (outcome: Outcome)
      modifies this
      ensures Run(Model(), outcome) == Replaced(old(Model()), paths, rule)
    {
      var i := 0;
      while i < |paths|
        invariant 0 <= i <= |paths|
        invariant Replaced(Model(), paths[i..], rule) == Replaced(old(Model()), paths, rule)
      {
        var f := paths[i];
        assert paths[i..][0] == f && paths[i..][1..] == paths[i + 1..];
        if f !in files {
          return Failed(FileNotFound(f));
        }
        var oldText := files[f];
        if Occurs(rule, oldText) {
          var newText := Sub(rule, oldText);
          files := files[f := newText];
          written := written + {f};
        }
        i := i + 1;
      }
      assert paths[i..] == [];
      return Done;
    }

    /** `Path("mlflow", "java").rglob("*" + ext)`: every matching path once,
        in an order the model leaves open. */
    method Rglob(ext: string) returns (paths: seq<string>)
      ensures forall p :: p in paths <==> p in Glob(files, ext)
      ensures forall i, j :: 0 <= i < j < |paths| ==> paths[i] != paths[j]
    {
      var rest := Glob(files, ext);
      paths := [];
      while rest != {}
        invariant rest <= Glob(files, ext)
        invariant forall p :: p in paths ==> p in Glob(files, ext) && p !in rest
        invariant forall p :: p in Glob(files, ext) ==> p in paths || p in rest
        invariant forall i, j :: 0 <= i < j < |paths| ==> paths[i] != paths[j]
        decreases |rest|
      {
        var p :| p in rest;
        paths := paths + [p];
        rest := rest - {p};
      }
    }

    /** The Java and XML passes of `update_versions`: every Java source,
        then every XML file, under the Java root. */
    method JavaPass(base: string, target: string)
      modifies this
      ensures Model() == JavaPasses(old(Model()), base, target)
    {
      var javaFiles := Rglob(".java");
      assert forall i :: 0 <= i < |javaFiles| ==> javaFiles[i] in Glob(files, ".java");
      ReplacedSeqIsSet(Model(), javaFiles, JavaVersion(base, target));
      assert (set p | p in javaFiles) == Glob(files, ".java");
      var outcome := ReplaceOccurrences(javaFiles, JavaVersion(base, target));
      var xmlFiles := Rglob(".xml");
      assert forall i :: 0 <= i < |xmlFiles| ==> xmlFiles[i] in Glob(files, ".xml");
      ReplacedSeqIsSet(Model(), xmlFiles, PomVersion(base, target));
      assert (set p | p in xmlFiles) == Glob(files, ".xml");
      outcome := ReplaceOccurrences(xmlFiles, PomVersion(base, target));
    }

    /** The passes of `update_versions` after the version module. */
    method UpdateRest(cur: string, next: string) returns (outcome: Outcome)
      modifies this
      ensures Run(Model(), outcome) == RepositorySpec.UpdateRest(old(Model()), cur, next)
    {
      var base := ReplaceDevOrRcSuffixWith(cur, "");
      outcome := ReplaceOccurrences([Pyproject, PyprojectSkinny], PyprojectVersion("version = \"" + next + "\""));
      if outcome.Failed? {
        return;
      }
      outcome := ReplaceOccurrences([JsConstants], Literal(cur, next));
      if outcome.Failed? {
        return;
      }
      JavaPass(base, JavaTarget(next));
      outcome := ReplaceOccurrences([RDescription], Literal("Version: " + base, "Version: " + ReplaceDevOrRcSuffixWith(next, "")));
    }

    /** `update_versions(next)`: read the current version, then the passes
        in order; the first pass that fails stops the update and keeps what
        the earlier passes wrote. */
    method UpdateVersions(next: string) returns (outcome: Outcome)
      modifies this
      ensures Run(Model(), outcome) == UpdatedVersions(old(Model()), next)
    {
      var current := CurrentVersion(files);
      if current.Err? {
        return Failed(current.error);
      }
      outcome := ReplaceOccurrences([VersionPy], Literal(current.value, next));
      if outcome.Failed? {
        return;
      }
      outcome := UpdateRest(current.value, next);
    }

    /** The `pre-release` command. */
    method PreRelease(value: string) returns (outcome: Outcome)
      modifies this
      ensures Run(Model(), outcome) == PreReleased(old(Model()), value)
    {
      var validated := ValidateNewVersion(value, files);
      if validated.Err? {
        return Failed(validated.error);
      }
      outcome := UpdateVersions(validated.value);
    }

    /** The `post-release` command. */
    method PostRelease(value: string) returns (outcome: Outcome)
      modifies this
      ensures Run(Model(), outcome) == PostReleased(old(Model()), value)
    {
      var validated := ValidateNewVersion(value, files);
      if validated.Err? {
        return Failed(validated.error);
      }
      var currentVersion := Parse(CurrentVersion(files).value).value;
      if !currentVersion.IsDevRelease() {
        return Failed(NotDevRelease);
      }
      var newVersion := Parse(validated.value).value;
      outcome := UpdateVersions(Print(NextDev(newVersion)));
    }
  }
}
