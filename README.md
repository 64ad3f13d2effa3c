# MLflow version bump, modelled in Dafny

MLflow's release tooling keeps one canonical version string, `VERSION` in
`mlflow/version.py`. The script `dev/update_mlflow_versions.py` propagates
it to the other places that spell it: the two pyproject files, the JS
constants, every Java source and POM file under `mlflow/java`, and the R
package description. It has two commands:

- `pre-release --new-version X` checks that `X` is not older than the
  current version, then runs one rewrite pass per target:
  - in `mlflow/version.py` and the JS constants, the literal current
    version becomes `X`;
  - in the two pyproject files, every line `version = "…"` becomes
    `version = "X"`, whatever version it held;
  - in the Java sources, the current version without its `rcN` or `.dev0`
    suffix, with an optional `-SNAPSHOT` after it, becomes the Java target:
    `X` with an `rcN` or `.dev0` suffix turned into `-SNAPSHOT`;
  - in the POM files, the same rewrite applies only to a version that
    follows `<mlflow.version>`, or the artifact id of
    `mlflow-spark_${scala.compat.version}` or `mlflow-parent` with
    whitespace and `<version>`, and that is followed by
    `</mlflow.version>` or `</version>`; other dependencies keep their
    versions;
  - in the R description, `Version: ` followed by the suffix-free current
    version becomes `Version: ` followed by `X` without its suffix.

  No file outside these targets changes.
- `post-release --new-version X` runs the same check and asserts that the
  current version is a dev release. It then bumps the repository to
  `X.major.X.minor.(X.micro + 1).dev0`.

This project models that script and the version module and proves what
they promise.

The modules follow the program's structure:

- `Text` (`text.dfy`): character classes (`\d` and `\s`), greedy runs of
  digits, spaces and line characters, and decimal numerals.
- `Versions` (`versions.dfy`): the version grammar the script works with
  (`X.Y.Z`, `X.Y.ZrcN`, `X.Y.Z.devN`), its canonical spelling, and the
  PEP 440 order between these versions.
- `MlflowVersion` (`mlflow_version.dfy`): the checked-in version module, its
  constant and `is_release_version`.
- `Suffixes` (`suffixes.dfy`): `replace_dev_or_rc_suffix_with`.
- `Substitution` (`substitution.dfy`): each regular expression the script
  uses, as a matcher at an index, and `re.sub` as the left-to-right scan that
  replaces the non-overlapping matches.
- `VersionReader` (`version_reader.dfy`): `get_current_py_version`, and the
  round trip between it and the literal rewrite of the version module.
- `RepositorySpec` (`repository_spec.dfy`): the repository as a map from
  path to text plus the set of paths written. It holds `replace_occurrences`,
  `update_versions`, `validate_new_version` and both commands as functions
  of that state, with their frame, outcome and round-trip properties.
- `Repository` (`repository.dfy`): the class `Repo`, whose fields are the
  files and the written paths. Its methods update those fields in place,
  loop over the paths as the script does, and are proved to end in exactly
  the state the `RepositorySpec` functions describe.

Only `.dev0` is stripped: the pattern `\.dev0$|rc\d+$` leaves `.dev1` and
later dev releases untouched (`Suffixes.LaterDevKept`,
`Suffixes.ReplaceSuffixOfParsed`).

## Model

| member | source | states |
|---|---|---|
| Versions.Parse | dev/update_mlflow_versions.py:121-122 | models `Version(...)` on the three shapes the tooling uses; `ParseSound` and `ParseComplete` state which strings it accepts and what they read as |
| Versions.Print | dev/update_mlflow_versions.py:175 | the canonical spelling `major.minor.micro` plus the suffix, as the f-string writes the bumped version; `ParsePrint` states that it parses back to the version |
| Versions.SuffixAt | dev/update_mlflow_versions.py:121-122 | the suffix reader yields "no suffix" exactly when it starts at the end of the text; an `rc` result was read from `rc` and digits to the end, a dev result from `.dev` and digits to the end, with the number those digits read as |
| Versions.SuffixRoundTrip | dev/update_mlflow_versions.py:121-122 | every suffix, written after any prefix, is read back as itself |
| Versions.ParseSound | dev/update_mlflow_versions.py:121-122 | every accepted string is three non-empty digit groups joined by dots, then nothing, `rc` + digits or `.dev` + digits to the end, and the groups read as the parsed numbers |
| Versions.ParseComplete | dev/update_mlflow_versions.py:121-122 | conversely, every string of one of those shapes parses as the version its groups read as |
| Versions.ParsePrint | dev/update_mlflow_versions.py:121-122 | parsing the canonical spelling of any version gives that version back |
| Versions.ParseJoined | dev/update_mlflow_versions.py:121-122 | three non-empty digit groups joined by dots, then a suffix, parse to their numeric values and that suffix |
| Versions.ParsedAlphabet | dev/update_mlflow_versions.py:121-122 | every accepted version string is non-empty and made only of digits, dots and the letters of `rc` and `dev`, so it holds no quote and no newline |
| Versions.Less | dev/update_mlflow_versions.py:123 | models `new < current` between parsed versions; its order properties are the four lemmas below |
| Versions.LessIrreflexive | dev/update_mlflow_versions.py:123 | no version is older than itself |
| Versions.LessTransitive | dev/update_mlflow_versions.py:123 | "older than" is transitive |
| Versions.LessTotal | dev/update_mlflow_versions.py:123 | any two versions are equal or one is older than the other |
| Versions.SuffixOrdering | dev/update_mlflow_versions.py:123 | for one release, `.devN` < `rcM` < final < the next micro's `.dev0` |
| MlflowVersion.IsReleaseVersion | mlflow/version.py:7-8 | models `is_release_version`; `ReleaseIffFinal` states what it accepts |
| MlflowVersion.ReleaseIffFinal | mlflow/version.py:7-8 | the anchored pattern accepts a string if and only if it parses as a version without suffix |
| MlflowVersion.PrintedIsRelease | mlflow/version.py:7-8 | a version's canonical spelling passes the check if and only if it has no suffix |
| MlflowVersion.ReleaseAnchored | mlflow/version.py:8 | an accepted string starts and ends with a digit (`^` and `$`) |
| MlflowVersion.SuffixedExamples | mlflow/version.py:7-8 | `2.1.0` passes; `2.1.0rc0` and `2.20.5.dev0` do not |
| MlflowVersion.MalformedExamples | mlflow/version.py:7-8 | two or four groups, an empty group and a leading `v` are refused |
| MlflowVersion.CheckedInVersion | mlflow/version.py:4-8 | the checked-in constant is version 2.20.5, dev release 0, and is not a release version |
| Suffixes.ReplaceDevOrRcSuffixWith | dev/update_mlflow_versions.py:14-15 | models `replace_dev_or_rc_suffix_with`; `ReplaceSuffixSpec` states its result against the pattern, `ReplaceSuffixOfParsed` on parsed versions |
| Suffixes.TrailingDigitsStart | dev/update_mlflow_versions.py:15 | returns the start of the maximal run of digits that ends the string, where `\d+$` is anchored |
| Suffixes.RcMatchPosition | dev/update_mlflow_versions.py:15 | an `rc\d+$` match can start only two characters before that run, so the pattern matches at most once |
| Suffixes.ReplaceSuffixSpec | dev/update_mlflow_versions.py:15 | wherever the pattern matches, the result is the text before the match followed by `repl`; where it matches nowhere, the version is returned unchanged |
| Suffixes.NoMatchWithoutR | dev/update_mlflow_versions.py:15 | a string with no `r` that does not end in `.dev0` has no match and is returned unchanged |
| Suffixes.ReplaceSuffixOfParsed | dev/update_mlflow_versions.py:15 | for a parsed version, an `rc` or `.dev0` suffix is cut and `repl` appended, and the cut string parses to the version's release; a final version or a later dev release is kept unchanged |
| Suffixes.StripYieldsRelease | dev/update_mlflow_versions.py:37 | stripping an `rc` or `.dev0` version leaves a string that `is_release_version` accepts, and stripping again changes nothing |
| Suffixes.StripIdempotent | dev/update_mlflow_versions.py:37 | stripping any parsed version twice is the same as stripping it once |
| Suffixes.ReplaceSuffixOfPrinted | dev/update_mlflow_versions.py:15 | on a canonical spelling: the release's spelling plus `repl` for `rcN` and `.dev0`; otherwise the spelling unchanged |
| Suffixes.PrintedStripped | dev/update_mlflow_versions.py:15 | on the canonical spelling of an `rcN` or `.dev0` version, the result is the release's spelling followed by `repl` |
| Suffixes.PrintedKept | dev/update_mlflow_versions.py:15 | the canonical spelling of a final version or of a dev release above 0 is returned unchanged |
| Suffixes.PrintedDevZero | dev/update_mlflow_versions.py:15 | a canonically spelled dev release ends in `.dev0` only if its number is 0 |
| Suffixes.LaterDevKept | dev/update_mlflow_versions.py:15 | a dev release numbered above 0, such as `2.1.0.dev1`, is returned unchanged |
| Substitution.LiteralAt | dev/update_mlflow_versions.py:40-44 | an escaped literal pattern matches exactly where the (non-empty) literal occurs, consuming it and putting `repl` in its place |
| Substitution.PyprojectAt | dev/update_mlflow_versions.py:47-51 | a match starts a line with `version`, ends with a quote at the end of that line, and is replaced by the new line; `PyprojectShape` and `PyprojectComplete` tie it to the whole pattern |
| Substitution.JavaAt | dev/update_mlflow_versions.py:70-76 | matches exactly where the base version occurs, also consuming a `-SNAPSHOT` that follows it |
| Substitution.PomAt | dev/update_mlflow_versions.py:84-100 | a match is non-empty and lies within the text; what it matches and returns is stated by `PomMatchShape` and `PomMatchComplete` |
| Substitution.MatchAt | dev/update_mlflow_versions.py:23-25 | no pattern matches the empty string or runs past the text |
| Substitution.Occurs | dev/update_mlflow_versions.py:23 | models `pattern.search(old_text)` succeeding; `SubAbsent` states that a text where it fails is left as it was |
| Substitution.SubFrom | dev/update_mlflow_versions.py:25 | models the scan of `pattern.sub`; `SubFromSkips`, `SubFromNext` and `SubAbsent` state what it produces |
| Substitution.Sub | dev/update_mlflow_versions.py:25 | models `pattern.sub(repl, text)` as the scan from index 0 |
| Substitution.SubFromSkips | dev/update_mlflow_versions.py:25 | the text before the first match is copied unchanged |
| Substitution.SubFromNext | dev/update_mlflow_versions.py:25 | at the leftmost match, the replacement is emitted and scanning resumes after the consumed text |
| Substitution.SubAbsent | dev/update_mlflow_versions.py:23-25 | a text with no match is left as it was |
| Substitution.LiteralOnce | dev/update_mlflow_versions.py:40-44 | replacing a literal that occurs once splices `repl` into the text at that occurrence |
| Substitution.JavaMatches | dev/update_mlflow_versions.py:70 | the Java pattern consumes `base-SNAPSHOT` when present, else `base`, and matches nowhere else |
| Substitution.PomOpenEndIff | dev/update_mlflow_versions.py:84-94 | the opening group ends at `o` if and only if the text from the start to `o` is `<mlflow` + any non-newline character + `version>`, or the spark or parent artifact id, then one or more whitespace characters, then `<version>` |
| Substitution.PomCloseEndIff | dev/update_mlflow_versions.py:94 | the closing group ends at `e` if and only if the text up to `e` is `</mlflow` + any non-newline character + `version>`, or `</version>` |
| Substitution.PomMatchShape | dev/update_mlflow_versions.py:91-100 | every POM match is an opening group, the suffix-free current version, an optional `-SNAPSHOT`, then a closing group; the replacement keeps both groups verbatim and puts the target between them |
| Substitution.PomMatchComplete | dev/update_mlflow_versions.py:91-100 | conversely, wherever the pattern matches in that shape, the matcher reports that match and that replacement |
| Substitution.PomRewrites | dev/update_mlflow_versions.py:96-100 | a match whose opening group reads `op` and whose closing group is `</version>` is replaced by `op`, the target, `</version>` |
| Substitution.ArtifactMatch | dev/update_mlflow_versions.py:86-94 | the spark or parent artifact id, whitespace, `<version>`, the current version with an optional `-SNAPSHOT`, and `</version>` form one match, whose opening group is everything before the version |
| Substitution.PomStart | dev/update_mlflow_versions.py:91-94 | a POM match can start only at `<m` or `<a` |
| Substitution.DependencyHead | dev/update_mlflow_versions.py:80-94 | no match starts at an artifact block whose id is neither MLflow id |
| Substitution.DependencyNoMatch | dev/update_mlflow_versions.py:80-94 | no match starts anywhere inside `<artifactId>x</artifactId>`, whitespace, `<version>v</version>` for another id `x`, even when `v` is the current version |
| Substitution.DependencyKept | dev/update_mlflow_versions.py:80-106 | the POM pass leaves such a dependency block exactly as it was |
| Substitution.PyprojectShape | dev/update_mlflow_versions.py:47-51 | every pyproject match is a line start, `version`, whitespace, `=`, whitespace, a quote, at least one character and a quote that ends the line |
| Substitution.PyprojectComplete | dev/update_mlflow_versions.py:47-51 | conversely, wherever the pattern matches in that shape, the matcher consumes the whole line and puts the new line in its place |
| Substitution.PyprojectOtherKey | dev/update_mlflow_versions.py:47-51 | a key that continues past `version` without whitespace is not matched |
| Substitution.PyprojectOtherKeyExamples | dev/update_mlflow_versions.py:47-51 | `versions = "1"` and `version_file = "v.py"` are not matched |
| Substitution.PyprojectLine | dev/update_mlflow_versions.py:49-50 | a whole line `version = "x"` is matched and replaced by the new line |
| Substitution.PomPropertyTag | dev/update_mlflow_versions.py:84-100 | `<mlflow.version>base</mlflow.version>` becomes `<mlflow.version>target</mlflow.version>` |
| VersionReader.LastQuote | dev/update_mlflow_versions.py:11 | finds the last quote of the range, where greedy `.+` stops; if it finds none, the range holds no quote |
| VersionReader.CaptureAt | dev/update_mlflow_versions.py:11 | a capture is non-empty, on one line, and lies between `VERSION = "` and a quote; `CaptureAtIff` and `CaptureAtNone` state that it agrees exactly with the regex at that index |
| VersionReader.ReadVersion | dev/update_mlflow_versions.py:9-11 | what is read is a non-empty one-line string that follows the key somewhere in the text; `ReadVersionLeftmost` and `ReadVersionNone` state that it is group 1 of the leftmost match, and that it fails only when nothing matches |
| VersionReader.SearchFrom | dev/update_mlflow_versions.py:11 | models `re.search` for the key from an index on; `SearchFirst`, `SearchNoneIff`, `SearchSkips` and `ReadAssigned` state what it finds |
| VersionReader.CaptureAtIff | dev/update_mlflow_versions.py:11 | the capture at `i` ends at `q` if and only if the pattern matches at `i` with group 1 ending at `q`: the key, one or more non-newline characters, a quote at `q`, and no later quote on that line |
| VersionReader.CaptureAtNone | dev/update_mlflow_versions.py:11 | there is no capture at `i` if and only if the pattern matches at `i` with no end for group 1 |
| VersionReader.SearchFirst | dev/update_mlflow_versions.py:11 | the search returns the capture at the first index where one exists |
| VersionReader.SearchNoneIff | dev/update_mlflow_versions.py:11 | the search fails if and only if no capture exists at or after its start |
| VersionReader.ReadVersionNone | dev/update_mlflow_versions.py:9-11 | the reader fails if and only if the pattern matches nowhere in the text |
| VersionReader.ReadVersionLeftmost | dev/update_mlflow_versions.py:9-11 | when the leftmost match starts at `i` with group 1 ending at `q`, the reader returns `text[i + |Key|..q]` |
| VersionReader.SearchSkips | dev/update_mlflow_versions.py:11 | the search passes over every index where the key does not start |
| VersionReader.ReadAssigned | dev/update_mlflow_versions.py:9-11 | a text whose first key opens an assignment of `v` reads as `v` |
| VersionReader.RewriteKeepsAssignment | dev/update_mlflow_versions.py:40-44 | rewriting the only occurrence of the current version leaves an assignment of the new one at the same place |
| VersionReader.ReplaceAssigned | dev/update_mlflow_versions.py:9-11 | round trip: the text reads as `cur` before the rewrite and as `next` after it |
| VersionReader.ReadComposed | dev/update_mlflow_versions.py:9-11 | a `V`-free header, the assignment and a trailer with no quote on its first line read as the assigned value |
| VersionReader.ReadSource | mlflow/version.py:4 | the reader returns the checked-in constant from an abbreviated text of the version module (its assignment line between a header and a trailer) |
| RepositorySpec.CurrentVersion | dev/update_mlflow_versions.py:9-11 | fails with a missing file or a missing match; otherwise returns what the reader finds in the version module |
| RepositorySpec.Glob | dev/update_mlflow_versions.py:73 | exactly the existing paths under `mlflow/java/` with the given extension |
| RepositorySpec.ValidateNewVersion | dev/update_mlflow_versions.py:116-127 | an accepted value is returned unchanged, and it and the current version both parse |
| RepositorySpec.NextDev | dev/update_mlflow_versions.py:174-176 | the bumped version is dev release 0 |
| RepositorySpec.Replaced | dev/update_mlflow_versions.py:18-26 | models `replace_occurrences` over a list of paths; `ReplacedFrame`, `ReplacedOutcome` and `ReplacedNoMatch` state its effect |
| RepositorySpec.UpdatedVersions | dev/update_mlflow_versions.py:29-113 | models `update_versions`; `UpdatedFrame`, `UpdatedVersionModule` and `UpdateRoundTrip` state its effect |
| RepositorySpec.Rewritten | dev/update_mlflow_versions.py:21-26 | one iteration of the `replace_occurrences` loop over an existing file; `RewrittenFrame` states its frame and `ReplacedNoMatch` the no-match case |
| RepositorySpec.ReplacedAll | dev/update_mlflow_versions.py:72-76 | the pass over the globbed set of paths; `ReplacedSeqIsSet` states that it equals the pass over the `rglob` enumeration, and `ReplacedAllFrame` states its frame |
| RepositorySpec.JavaTarget | dev/update_mlflow_versions.py:71 | `dev_suffix_replaced`; `JavaTargetOfParsed` states its value on every parsed version |
| RepositorySpec.JavaPasses | dev/update_mlflow_versions.py:67-106 | the Java pass then the POM pass over their globbed sets; `JavaPassesKept` states its frame |
| RepositorySpec.UpdateRest | dev/update_mlflow_versions.py:46-113 | the passes after the version module; `UpdateRestFrame` states its frame |
| RepositorySpec.RewrittenFrame | dev/update_mlflow_versions.py:22-26 | a rewrite of one file keeps the set of paths and every other file, and records at most that file as written |
| RepositorySpec.ReplacedFrame | dev/update_mlflow_versions.py:18-26 | a pass keeps the set of paths and every file outside its list, and writes only listed files |
| RepositorySpec.ReplacedOutcome | dev/update_mlflow_versions.py:21-22 | a pass succeeds if and only if every listed file exists; a failure names the first missing file |
| RepositorySpec.ReplacedNoMatch | dev/update_mlflow_versions.py:23-24 | a pass over files that hold no match changes nothing and writes nothing |
| RepositorySpec.ReplacedAllFrame | dev/update_mlflow_versions.py:72-76 | a pass over a globbed set keeps every file outside the set and writes only files in it |
| RepositorySpec.ReplacedSeqIsSet | dev/update_mlflow_versions.py:72-76 | the pass over the files `rglob` yields, in any order without repeats, succeeds and equals the pass over the set |
| RepositorySpec.JavaPassesKept | dev/update_mlflow_versions.py:69-106 | the Java and POM passes keep every file outside the globbed Java and XML files |
| RepositorySpec.UpdateRestFrame | dev/update_mlflow_versions.py:46-113 | the passes after the first change only the pyproject files, the JS constants, the Java tree and the R description |
| RepositorySpec.UpdatedFrame | dev/update_mlflow_versions.py:29-113 | `update_versions` creates and removes no file and changes no file outside its targets |
| RepositorySpec.UpdatedVersionModule | dev/update_mlflow_versions.py:36-44 | the version module ends as the literal rewrite of the current version by the new one |
| RepositorySpec.UpdateRoundTrip | dev/update_mlflow_versions.py:29-44 | when the current version occurs in the version module only in its assignment, the version read after `update_versions(next)` is `next` |
| RepositorySpec.ValidateRefusesOlder | dev/update_mlflow_versions.py:121-126 | the parameter error is raised if and only if both versions parse and the new one is older |
| RepositorySpec.ValidateAccepts | dev/update_mlflow_versions.py:121-127 | the value is accepted if and only if both versions parse and the new one is not older; the current version itself is always accepted |
| RepositorySpec.NextDevIsNewer | dev/update_mlflow_versions.py:174-176 | the bumped version is a dev release, newer than the released one, spelled `major.minor.(micro + 1).dev0`, and parses back |
| RepositorySpec.PreReleased | dev/update_mlflow_versions.py:144-148 | models the `pre-release` command; `PreReleaseOutcome` states its outcome |
| RepositorySpec.PostReleased | dev/update_mlflow_versions.py:160-177 | models the `post-release` command; `PostReleaseOutcome` states its outcome |
| RepositorySpec.PostReleaseOutcome | dev/update_mlflow_versions.py:166-177 | after validation, a current version that is not a dev release fails the assertion with nothing written; otherwise the result is `update_versions` with the bumped version |
| RepositorySpec.PreReleaseOutcome | dev/update_mlflow_versions.py:144-148 | a refused value fails with validation's error and nothing written; an accepted one is `update_versions` with that value |
| RepositorySpec.JavaTargetOfParsed | dev/update_mlflow_versions.py:71 | the Java target of an `rc` or `.dev0` version is its release plus `-SNAPSHOT`; a final version is its own target |
| RepositorySpec.JavaTargetOfRc | dev/update_mlflow_versions.py:71 | `2.1.0rc0` is written to Java as `2.1.0-SNAPSHOT` |
| RepositorySpec.JavaTargetOfDev | dev/update_mlflow_versions.py:71 | `2.1.0.dev0` is written to Java as `2.1.0-SNAPSHOT` |
| RepositorySpec.JavaTargetOfRelease | dev/update_mlflow_versions.py:71 | `2.1.0` is written to Java unchanged |
| Repository.Repo.ReplaceOccurrences | dev/update_mlflow_versions.py:18-26 | the loop leaves the files, the written set and the outcome of the list pass |
| Repository.Repo.Rglob | dev/update_mlflow_versions.py:73 | returns each globbed path exactly once |
| Repository.Repo.JavaPass | dev/update_mlflow_versions.py:69-106 | the Java and POM passes over the `rglob` results leave the state of the passes over the globbed sets |
| Repository.Repo.UpdateRest | dev/update_mlflow_versions.py:46-113 | the passes after the version module leave the state and outcome that `RepositorySpec.UpdateRest` gives |
| Repository.Repo.UpdateVersions | dev/update_mlflow_versions.py:29-113 | leaves the state and outcome of `update_versions` |
| Repository.Repo.PreRelease | dev/update_mlflow_versions.py:144-148 | leaves the state and outcome of the `pre-release` command |
| Repository.Repo.PostRelease | dev/update_mlflow_versions.py:160-177 | leaves the state and outcome of the `post-release` command |

## Left out

- Command-line handling by `click` is left out: the group, the options, the help texts and the message texts. Each command is a method that takes the option's value, and a parameter error or a failed assertion is an `Error` value.
- The filesystem is a map from path to text. Reading a file that is missing is `FileNotFound`. Encodings, permissions, directories and partial writes are not modelled.
- Enumeration order: `rglob` is a set of map keys under `mlflow/java/` with the extension. The order in which Python enumerates them is left open, because the passes over them commute.
- Non-file matches: a directory whose name ends in `.java` or `.xml` is not modelled.
- Concurrency and atomicity: a run that stops part-way keeps the writes made before it, and nothing else interleaves.
- RepositorySpec.ValidateNewVersion: parses only `X.Y.Z`, `X.Y.ZrcN` and `X.Y.Z.devN`. Other spellings that `packaging.version.Version` accepts are refused as `InvalidVersion`: epochs, post releases, local labels, `a` and `b` pre-releases, other segment counts, and normalised forms such as `v2.1.0` or `2.1.0-rc1`.
- Python 3's `\d` and `\s` also match non-ASCII digits and spaces. The model uses ASCII only: `\d` is `0`-`9`, and `\s` is the ten ASCII characters for which `str.isspace()` holds (tab through carriage return, the four separators U+001C to U+001F, and the space).
- `$` without MULTILINE (in `replace_dev_or_rc_suffix_with` and `is_release_version`) also matches before one trailing newline. The model treats it as the end of the string. Version strings the reader returns never contain a newline.
- Substitution.JavaAt: an empty base version matches nowhere in the model, whereas Python's pattern would then match the empty string at every index. The base is empty only when the current version has no release segments, which validation refuses.
- Substitution.LiteralAt: an empty literal matches nowhere in the model. The reader never returns an empty version, and the R pattern always starts with `Version: `.
- Backslash escapes and group references in replacement strings are not processed. The model uses each replacement as written, except the POM rule's `\g<1>` and `\g<3>`, whose meaning is modelled directly. A validated version contains no backslash.
- The assertion in `post_release` is always checked. Running Python with `-O`, which skips it, is not modelled.
