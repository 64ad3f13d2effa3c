/** The regular-expression rewrites of the version-bump script. Each concrete
    pattern is a matcher that says whether it matches at an index of a text,
    how many characters it consumes and what replaces them; `re.sub` is the
    left-to-right scan that replaces every non-overlapping match. */
module Substitution {
  import opened Text

  /** One match: the number of characters consumed and the text put in
      their place. */
  datatype Hit = Hit(len: nat, repl: string)

  /** The patterns `update_versions` passes to `replace_occurrences`. */
  datatype Rule =
    | /** `re.escape(pattern)` replaced by the literal `repl`. */
      Literal(pattern: string, repl: string)
    | /** `^version\s+=\s+".+"$` in MULTILINE mode, replaced by `line`. */
      PyprojectVersion(line: string)
    | /** `re.escape(base)(-SNAPSHOT)?`, replaced by `target`. */
      JavaVersion(base: string, target: string)
    | /** One of three opening contexts, `re.escape(base)(-SNAPSHOT)?`, then
          a closing tag; the opening and closing texts are kept and the
          version between them becomes `target`. */
      PomVersion(base: string, target: string)

  const Snapshot: string := "-SNAPSHOT"
  const ArtifactOpen: string := "<artifactId>"
  const ArtifactClose: string := "</artifactId>"
  /** The artifact ids of the two MLflow modules the POM rule recognises;
      in the pattern the `$` and the dots of the spark id are escaped, so
      the id is matched literally. */
  const SparkId: string := "mlflow-spark_" + "${scala.compat.version}"
  const ParentId: string := "mlflow-parent"
  const SparkArtifact: string := ArtifactOpen + SparkId + ArtifactClose
  const ParentArtifact: string := ArtifactOpen + ParentId + ArtifactClose
  const VersionTag: string := "<version>"
  const VersionClose: string := "</version>"

  /** A literal pattern. An empty pattern never arises here: the current
      version the script reads has at least one character. */
  function LiteralAt(s: string, i: nat, pattern: string, repl: string): (r: Option<Hit>)
    requires i <= |s|
    ensures r.Some? <==> |pattern| > 0 && StartsAt(s, i, pattern)
    ensures r.Some? ==> r.value == Hit(|pattern|, repl)
  {
    if |pattern| > 0 && StartsAt(s, i, pattern) then Some(Hit(|pattern|, repl)) else None
  }

  /** `^version\s+=\s+".+"$` (MULTILINE): at the start of a line, `version`,
      whitespace, `=`, whitespace, a quote, then the rest of the line, which
      must hold at least one character and end in a quote. Both `\s+` runs
      are followed by a non-space, so only their greedy extent can match;
      `.+"$` cannot cross a newline, so it must end at the line end. */
  function PyprojectAt(s: string, i: nat, line: string): (r: Option<Hit>)
    requires i <= |s|
    ensures r.Some? ==> 0 < r.value.len <= |s| - i && r.value.repl == line
    ensures r.Some? ==> (i == 0 || s[i - 1] == '\n') && StartsAt(s, i, "version")
    ensures r.Some? ==> s[i + r.value.len - 1] == '"' && (i + r.value.len == |s| || s[i + r.value.len] == '\n')
  {
    if !(i == 0 || s[i - 1] == '\n') || !StartsAt(s, i, "version") then None
    else
      var e1 := SpacesEnd(s, i + 7);
      if e1 == i + 7 || e1 == |s| || s[e1] != '=' then None
      else
        var e2 := SpacesEnd(s, e1 + 1);
        if e2 == e1 + 1 || e2 == |s| || s[e2] != '"' then None
        else
          var l := LineEnd(s, e2 + 1);
          if l < e2 + 3 || s[l - 1] != '"' then None
          else Some(Hit(l - i, line))
  }

  /** `re.escape(base)(-SNAPSHOT)?`: the greedy optional group takes the
      snapshot marker whenever it follows. An empty `base` would let Python
      match the empty string; the matcher refuses it. */
  function JavaAt(s: string, i: nat, base: string, target: string): (r: Option<Hit>)
    requires i <= |s|
    ensures r.Some? <==> |base| > 0 && StartsAt(s, i, base)
    ensures r.Some? ==> r.value.repl == target
    ensures r.Some? ==> r.value.len == if StartsAt(s, i + |base|, Snapshot) then |base| + |Snapshot| else |base|
  {
    if |base| == 0 || !StartsAt(s, i, base) then None
    else if StartsAt(s, i + |base|, Snapshot) then Some(Hit(|base| + |Snapshot|, target))
    else Some(Hit(|base|, target))
  }

  /** `\s+<version>` after an artifact id: end of the opening context. */
  function TagAfterSpaces(s: string, j: nat): (r: Option<nat>)
    requires j <= |s|
    ensures r.Some? ==> j < r.value <= |s|
  {
    var e := SpacesEnd(s, j);
    if e > j && StartsAt(s, e, VersionTag) then Some(e + |VersionTag|) else None
  }

  /** End of the opening group `(<mlflow.version>|<spark artifact>\s+<version>|
      <parent artifact>\s+<version>)` at `i` (the unescaped `.` in
      `<mlflow.version>` stands for any character but a newline). The three
      alternatives begin differently, so at most one applies. */
  function PomOpenEnd(s: string, i: nat): (r: Option<nat>)
    requires i <= |s|
    ensures r.Some? ==> i < r.value <= |s|
  {
    if StartsAt(s, i, "<mlflow") && i + 7 < |s| && s[i + 7] != '\n' && StartsAt(s, i + 8, "version>") then Some(i + 16)
    else if StartsAt(s, i, SparkArtifact) then TagAfterSpaces(s, i + |SparkArtifact|)
    else if StartsAt(s, i, ParentArtifact) then TagAfterSpaces(s, i + |ParentArtifact|)
    else None
  }

  /** End of the closing group `(</mlflow.version>|</version>)` at `q`. */
  function PomCloseEnd(s: string, q: nat): (r: Option<nat>)
    requires q <= |s|
    ensures r.Some? ==> q < r.value <= |s|
  {
    if StartsAt(s, q, "</mlflow") && q + 8 < |s| && s[q + 8] != '\n' && StartsAt(s, q + 9, "version>") then Some(q + 17)
    else if StartsAt(s, q, VersionClose) then Some(q + |VersionClose|)
    else None
  }

  /** Where the version text after the opening context ends: after the
      snapshot marker when it follows `base`. A closing tag starts with `<`
      and the marker with `-`, so giving the marker back never helps the
      closing tag match: the greedy choice is the only one. */
  function VersionEnd(s: string, o: nat, base: string): (q: nat)
    requires o + |base| <= |s|
    ensures o + |base| <= q <= |s|
  {
    if StartsAt(s, o + |base|, Snapshot) then o + |base| + |Snapshot| else o + |base|
  }

  /** The XML rule: group 1, the version, group 3; the replacement is
      `\g<1>` + target + `\g<3>`. */
  function PomAt(s: string, i: nat, base: string, target: string): (r: Option<Hit>)
    requires i <= |s|
    ensures r.Some? ==> 0 < r.value.len <= |s| - i
  {
    match PomOpenEnd(s, i)
    case None => None
    case Some(o) =>
      if !StartsAt(s, o, base) then None
      else
        var q := VersionEnd(s, o, base);
        match PomCloseEnd(s, q)
        case None => None
        case Some(e) => Some(Hit(e - i, s[i..o] + target + s[q..e]))
  }

  /** The match of `rule` at index `i` of `s`, if any; every match is
      non-empty and lies inside the text. */
  function MatchAt(rule: Rule, s: string, i: nat): (r: Option<Hit>)
    requires i <= |s|
    ensures r.Some? ==> 0 < r.value.len <= |s| - i
  {
    match rule
    case Literal(pattern, repl) => LiteralAt(s, i, pattern, repl)
    case PyprojectVersion(line) => PyprojectAt(s, i, line)
    case JavaVersion(base, target) => JavaAt(s, i, base, target)
    case PomVersion(base, target) => PomAt(s, i, base, target)
  }

  /** `pattern.search(text)` succeeds. */
  predicate Occurs(rule: Rule, s: string) {
    exists i :: 0 <= i <= |s| && MatchAt(rule, s, i).Some?
  }

  /** `pattern.sub(repl, text)` from index `i` on: scanning left to right,
      a match is replaced and skipped, any other character is copied. */
  function SubFrom(rule: Rule, s: string, i: nat): string
    requires i <= |s|
    decreases |s| - i
  {
    if i == |s| then ""
    else match MatchAt(rule, s, i)
      case Some(h) => h.repl + SubFrom(rule, s, i + h.len)
      case None => [s[i]] + SubFrom(rule, s, i + 1)
  }

  function Sub(rule: Rule, s: string): string {
    SubFrom(rule, s, 0)
  }

  /** A character where no match starts is copied. */
  lemma SubFromCopy(rule: Rule, s: string, i: nat)
    requires i < |s| && MatchAt(rule, s, i).None?
    ensures SubFrom(rule, s, i) == [s[i]] + SubFrom(rule, s, i + 1)
  {
  }

  /** Text before the next match is copied verbatim. */
  lemma {:induction false} SubFromSkips(rule: Rule, s: string, i: nat, j: nat)
    requires i <= j <= |s|
    requires forall k :: i <= k < j ==> MatchAt(rule, s, k).None?
    ensures SubFrom(rule, s, i) == s[i..j] + SubFrom(rule, s, j)
    decreases j - i
  {
    var k := j;
    while k > i
      invariant i <= k <= j
      invariant SubFrom(rule, s, k) == s[k..j] + SubFrom(rule, s, j)
    {
      k := k - 1;
      SubFromCopy(rule, s, k);
      ConsSlice(s, k, j, SubFrom(rule, s, j));
    }
  }

  lemma ConsSlice(s: string, i: nat, j: nat, t: string)
    requires i < j <= |s|
    ensures [s[i]] + (s[i + 1..j] + t) == s[i..j] + t
  {
    assert s[i..j] == [s[i]] + s[i + 1..j];
  }

  /** The scan from `i` is the text up to the leftmost match at or after
      `i`, that match's replacement, then the scan after the match. */
  lemma SubFromNext(rule: Rule, s: string, i: nat, j: nat)
    requires i <= j < |s| && MatchAt(rule, s, j).Some?
    requires forall k :: i <= k < j ==> MatchAt(rule, s, k).None?
    ensures SubFrom(rule, s, i) ==
              s[i..j] + MatchAt(rule, s, j).value.repl + SubFrom(rule, s, j + MatchAt(rule, s, j).value.len)
  {
    SubFromSkips(rule, s, i, j);
  }

  /** A pattern that does not occur leaves the text as it is. */
  lemma SubAbsent(rule: Rule, s: string)
    requires !Occurs(rule, s)
    ensures Sub(rule, s) == s
  {
    SubFromSkips(rule, s, 0, |s|);
  }

  /** Replacing a literal that occurs exactly once, at `k`, changes only
      that occurrence. */
  lemma {:induction false} LiteralOnce(s: string, k: nat, pattern: string, repl: string)
    requires |pattern| > 0 && StartsAt(s, k, pattern)
    requires forall j :: 0 <= j <= |s| && j != k ==> !StartsAt(s, j, pattern)
    ensures Sub(Literal(pattern, repl), s) == s[..k] + repl + s[k + |pattern|..]
  {
    var rule := Literal(pattern, repl);
    var e := k + |pattern|;
    SubFromNext(rule, s, 0, k);
    SubFromSkips(rule, s, e, |s|);
    assert s[e..|s|] + "" == s[e..];
  }

  /** The Java pattern matches the suffix-free current version wherever it
      occurs, taking a `-SNAPSHOT` marker right after it along. */
  lemma JavaMatches(s: string, i: nat, base: string, target: string)
    requires |base| > 0 && i <= |s|
    ensures StartsAt(s, i, base + Snapshot) ==>
              MatchAt(JavaVersion(base, target), s, i) == Some(Hit(|base| + |Snapshot|, target))
    ensures StartsAt(s, i, base) && !StartsAt(s, i + |base|, Snapshot) ==>
              MatchAt(JavaVersion(base, target), s, i) == Some(Hit(|base|, target))
    ensures !StartsAt(s, i, base) ==> MatchAt(JavaVersion(base, target), s, i).None?
  {
    if StartsAt(s, i, base + Snapshot) {
      assert s[i..i + |base|] == (base + Snapshot)[..|base|];
      assert s[i + |base|..i + |base| + |Snapshot|] == (base + Snapshot)[|base|..];
    }
  }

  /** `\s+<version>` from `j` to `o`: at least one whitespace character,
      then the tag. */
  predicate SpacedTag(s: string, j: nat, o: nat) {
    && j + |VersionTag| < o <= |s|
    && (forall m :: j <= m < o - |VersionTag| ==> IsSpace(s[m]))
    && StartsAt(s, o - |VersionTag|, VersionTag)
  }

  /** The opening group of the XML pattern matches `s[i..o]`: the property
      tag (whose unescaped `.` is any character but a newline), or one of
      the two MLflow artifact ids followed by `\s+<version>`. */
  predicate OpenContext(s: string, i: nat, o: nat) {
    || (o == i + 16 <= |s| && StartsAt(s, i, "<mlflow") && s[i + 7] != '\n' && StartsAt(s, i + 8, "version>"))
    || (StartsAt(s, i, SparkArtifact) && SpacedTag(s, i + |SparkArtifact|, o))
    || (StartsAt(s, i, ParentArtifact) && SpacedTag(s, i + |ParentArtifact|, o))
  }

  /** The closing group `(</mlflow.version>|</version>)` matches `s[q..e]`. */
  predicate CloseContext(s: string, q: nat, e: nat) {
    || (e == q + 17 <= |s| && StartsAt(s, q, "</mlflow") && s[q + 8] != '\n' && StartsAt(s, q + 9, "version>"))
    || (e == q + |VersionClose| && StartsAt(s, q, VersionClose))
  }

  /** The XML pattern matches `s[i..e]` with its groups split at `o` and
      `q`: the opening group, the current version, the optional snapshot
      marker, the closing group. */
  predicate PomMatch(s: string, i: nat, base: string, o: nat, q: nat, e: nat) {
    && OpenContext(s, i, o)
    && StartsAt(s, o, base)
    && (q == o + |base| || (q == o + |base| + |Snapshot| && StartsAt(s, o + |base|, Snapshot)))
    && CloseContext(s, q, e)
  }

  /** The character at offset `k` of an occurrence. */
  lemma CharOf(s: string, i: nat, p: string, k: nat)
    requires StartsAt(s, i, p) && k < |p|
    ensures s[i + k] == p[k]
  {
    assert s[i + k] == s[i..i + |p|][k];
  }

  /** A differing character rules an occurrence out. */
  lemma Mismatch(s: string, i: nat, p: string, k: nat)
    requires k < |p| && i + k < |s| && s[i + k] != p[k]
    ensures !StartsAt(s, i, p)
  {
    if i + |p| <= |s| {
      assert s[i..i + |p|][k] == s[i + k];
    }
  }

  /** The characters that tell the opening contexts apart. */
  lemma ArtifactChars()
    ensures |SparkArtifact| > 19 && |ParentArtifact| > 19
    ensures SparkArtifact[0] == '<' && SparkArtifact[1] == 'a' && SparkArtifact[19] == 's'
    ensures ParentArtifact[0] == '<' && ParentArtifact[1] == 'a' && ParentArtifact[19] == 'p'
  {
  }

  lemma SpacedTagIff(s: string, j: nat, o: nat)
    requires j <= |s|
    ensures TagAfterSpaces(s, j) == Some(o) <==> SpacedTag(s, j, o)
  {
    if SpacedTag(s, j, o) {
      CharOf(s, o - |VersionTag|, VersionTag, 0);
      SpacesEndUnique(s, j, o - |VersionTag|);
    }
  }

  /** `PomOpenEnd` finds exactly the end of the opening group: the three
      alternatives begin differently, so at most one of them applies. */
  lemma PomOpenEndIff(s: string, i: nat, o: nat)
    requires i <= |s|
    ensures PomOpenEnd(s, i) == Some(o) <==> OpenContext(s, i, o)
  {
    ArtifactChars();
    if StartsAt(s, i, SparkArtifact) {
      CharOf(s, i, SparkArtifact, 1);
      CharOf(s, i, SparkArtifact, 19);
      Mismatch(s, i, "<mlflow", 1);
      Mismatch(s, i, ParentArtifact, 19);
      SpacedTagIff(s, i + |SparkArtifact|, o);
    } else if StartsAt(s, i, ParentArtifact) {
      CharOf(s, i, ParentArtifact, 1);
      Mismatch(s, i, "<mlflow", 1);
      SpacedTagIff(s, i + |ParentArtifact|, o);
    }
  }

  /** `PomCloseEnd` finds exactly the end of the closing group. */
  lemma PomCloseEndIff(s: string, q: nat, e: nat)
    requires q <= |s|
    ensures PomCloseEnd(s, q) == Some(e) <==> CloseContext(s, q, e)
  {
    if StartsAt(s, q, VersionClose) {
      CharOf(s, q, VersionClose, 2);
      Mismatch(s, q, "</mlflow", 2);
    }
  }

  /** A POM match is the pattern's match: the opening group, the current
      version with an optional snapshot marker, and the closing group; the
      replacement keeps the two groups verbatim and puts `target` between
      them. */
  lemma PomMatchShape(s: string, i: nat, base: string, target: string)
    requires i <= |s| && PomAt(s, i, base, target).Some?
    ensures exists o, q, e :: i < o <= q < e <= |s| && PomMatch(s, i, base, o, q, e) &&
              PomAt(s, i, base, target) == Some(Hit(e - i, s[i..o] + target + s[q..e]))
  {
    var o := PomOpenEnd(s, i).value;
    var q := VersionEnd(s, o, base);
    var e := PomCloseEnd(s, q).value;
    PomOpenEndIff(s, i, o);
    PomCloseEndIff(s, q, e);
    assert PomMatch(s, i, base, o, q, e);
  }

  /** Where the version text ends when the closing group starts at `q`: a
      closing group starts with `<` and the marker with `-`. */
  lemma VersionEndAt(s: string, o: nat, base: string, q: nat, e: nat)
    requires o + |base| <= |s| && q <= |s|
    requires q == o + |base| || (q == o + |base| + |Snapshot| && StartsAt(s, o + |base|, Snapshot))
    requires CloseContext(s, q, e)
    ensures VersionEnd(s, o, base) == q
  {
    if q == o + |base| {
      if StartsAt(s, q, VersionClose) {
        CharOf(s, q, VersionClose, 0);
      } else {
        CharOf(s, q, "</mlflow", 0);
      }
      Mismatch(s, q, Snapshot, 0);
    }
  }

  /** Conversely, wherever the pattern matches, the matcher reports that
      match and its replacement. */
  lemma PomMatchComplete(s: string, i: nat, base: string, target: string, o: nat, q: nat, e: nat)
    requires i <= |s| && PomMatch(s, i, base, o, q, e)
    ensures i < o <= q < e <= |s|
    ensures PomAt(s, i, base, target) == Some(Hit(e - i, s[i..o] + target + s[q..e]))
  {
    PomOpenEndIff(s, i, o);
    VersionEndAt(s, o, base, q, e);
    PomCloseEndIff(s, q, e);
    PomAtParts(s, i, base, target, o, q, e);
  }

  /** The matcher's result assembled from its three steps. */
  lemma PomAtParts(s: string, i: nat, base: string, target: string, o: nat, q: nat, e: nat)
    requires i <= |s| && PomOpenEnd(s, i) == Some(o) && StartsAt(s, o, base)
    requires VersionEnd(s, o, base) == q && PomCloseEnd(s, q) == Some(e)
    ensures PomAt(s, i, base, target) == Some(Hit(e - i, s[i..o] + target + s[q..e]))
  {
  }

  /** An MLflow artifact id, whitespace, then `<version>` make an opening
      group. */
  lemma ArtifactOpens(s: string, i: nat, a: string, w: string)
    requires a == SparkArtifact || a == ParentArtifact
    requires |w| > 0 && forall k :: 0 <= k < |w| ==> IsSpace(w[k])
    requires StartsAt(s, i, a) && StartsAt(s, i + |a|, w) && StartsAt(s, i + |a| + |w|, VersionTag)
    ensures OpenContext(s, i, i + |a| + |w| + |VersionTag|)
  {
    var o := i + |a| + |w| + |VersionTag|;
    forall m | i + |a| <= m < o - |VersionTag| ensures IsSpace(s[m]) {
      CharOf(s, i + |a|, w, m - i - |a|);
    }
    assert SpacedTag(s, i + |a|, o);
  }

  /** The opening group of an artifact line is the text it was built from. */
  lemma ArtifactPrefix(s: string, i: nat, a: string, w: string)
    requires StartsAt(s, i, a) && StartsAt(s, i + |a|, w) && StartsAt(s, i + |a| + |w|, VersionTag)
    ensures s[i..i + |a| + |w| + |VersionTag|] == a + w + VersionTag
  {
    StartsAtSplit(s, i, a, w);
    StartsAtSplit(s, i, a + w, VersionTag);
  }

  /** The spark or parent artifact id, whitespace, `<version>`, the current
      version with an optional snapshot marker, and `</version>` form one
      match of the XML pattern, whose opening group is everything up to the
      version and whose closing group is `</version>`. */
  lemma ArtifactMatch(s: string, i: nat, a: string, w: string, snap: string, base: string)
    requires a == SparkArtifact || a == ParentArtifact
    requires |w| > 0 && forall k :: 0 <= k < |w| ==> IsSpace(w[k])
    requires snap == "" || snap == Snapshot
    requires StartsAt(s, i, a) && StartsAt(s, i + |a|, w) && StartsAt(s, i + |a| + |w|, VersionTag)
    requires var o := i + |a| + |w| + |VersionTag|;
             StartsAt(s, o, base) && StartsAt(s, o + |base|, snap) && StartsAt(s, o + |base| + |snap|, VersionClose)
    ensures var o := i + |a| + |w| + |VersionTag|; var q := o + |base| + |snap|;
            && PomMatch(s, i, base, o, q, q + |VersionClose|)
            && s[i..o] == a + w + VersionTag && s[q..q + |VersionClose|] == VersionClose
  {
    var o := i + |a| + |w| + |VersionTag|;
    var q := o + |base| + |snap|;
    ArtifactOpens(s, i, a, w);
    ArtifactPrefix(s, i, a, w);
    assert CloseContext(s, q, q + |VersionClose|);
  }

  /** A match whose opening group reads `op` and whose closing group is
      `</version>` is replaced by `op`, `target`, `</version>`: with
      `ArtifactMatch`, an artifact block keeps its id, whitespace and tags
      and carries `target` as its version. */
  lemma PomRewrites(s: string, i: nat, base: string, target: string, o: nat, q: nat, e: nat, op: string)
    requires i <= |s| && PomMatch(s, i, base, o, q, e)
    requires i <= o <= |s| && s[i..o] == op && e == q + |VersionClose| <= |s| && s[q..e] == VersionClose
    ensures PomAt(s, i, base, target) == Some(Hit(e - i, op + target + VersionClose))
  {
    PomMatchComplete(s, i, base, target, o, q, e);
  }

  /** Every `<` in `t` is followed, inside `t`, by a character other than
      `m` and `a`: no opening context can start in `t`. */
  predicate Quiet(t: string) {
    forall k :: 0 <= k < |t| && t[k] == '<' ==> k + 1 < |t| && t[k + 1] != 'm' && t[k + 1] != 'a'
  }

  lemma QuietConcat(a: string, b: string)
    requires Quiet(a) && Quiet(b)
    ensures Quiet(a + b)
  {
    forall k | 0 <= k < |a + b| && (a + b)[k] == '<'
      ensures k + 1 < |a + b| && (a + b)[k + 1] != 'm' && (a + b)[k + 1] != 'a'
    {
      if k < |a| {
        assert a[k] == '<';
      } else {
        assert b[k - |a|] == '<';
      }
    }
  }

  /** A POM match can start only at `<m` or `<a`. */
  lemma PomStart(s: string, j: nat, base: string, target: string)
    requires j <= |s|
    ensures PomAt(s, j, base, target).Some? ==>
              j + 1 < |s| && s[j] == '<' && (s[j + 1] == 'm' || s[j + 1] == 'a')
  {
    ArtifactChars();
    if StartsAt(s, j, "<mlflow") {
      CharOf(s, j, "<mlflow", 0);
      CharOf(s, j, "<mlflow", 1);
    } else if StartsAt(s, j, SparkArtifact) {
      CharOf(s, j, SparkArtifact, 0);
      CharOf(s, j, SparkArtifact, 1);
    } else if StartsAt(s, j, ParentArtifact) {
      CharOf(s, j, ParentArtifact, 0);
      CharOf(s, j, ParentArtifact, 1);
    }
  }

  /** An artifact line whose id is not `id` does not start with the
      artifact line of `id` (neither id holds a `<`). */
  lemma OtherArtifact(s: string, i: nat, x: string, id: string)
    requires StartsAt(s, i, ArtifactOpen + x + ArtifactClose)
    requires Lacks(x, '<') && Lacks(id, '<') && x != id
    ensures !StartsAt(s, i, ArtifactOpen + id + ArtifactClose)
  {
    var p, t := ArtifactOpen + id + ArtifactClose, ArtifactOpen + x + ArtifactClose;
    if |x| < |id| {
      CharOf(s, i, t, 12 + |x|);
      Mismatch(s, i, p, 12 + |x|);
    } else if |x| > |id| {
      CharOf(s, i, t, 12 + |id|);
      Mismatch(s, i, p, 12 + |id|);
    } else {
      var m :| 0 <= m < |x| && x[m] != id[m];
      CharOf(s, i, t, 12 + m);
      Mismatch(s, i, p, 12 + m);
    }
  }

  /** A dependency of the POM: an artifact line for an id other than the
      two MLflow ones, whitespace, and its own `<version>...</version>`. */
  function Dependency(x: string, w: string, v: string): string {
    ArtifactOpen + x + ArtifactClose + w + VersionTag + v + VersionClose
  }

  /** The fixed tags hold no `<m` or `<a`. */
  lemma QuietTags()
    ensures Quiet("artifactId>") && Quiet(ArtifactClose) && Quiet(VersionTag) && Quiet(VersionClose)
  {
  }

  /** Text without a `<` holds no `<m` or `<a`. */
  lemma QuietLacking(t: string)
    requires Lacks(t, '<')
    ensures Quiet(t)
  {
  }

  /** Past its first character, a dependency holds no `<m` or `<a`. */
  lemma DependencyTail(x: string, w: string, v: string)
    requires Lacks(x, '<') && Lacks(v, '<') && (forall k :: 0 <= k < |w| ==> IsSpace(w[k]))
    ensures var tail := "artifactId>" + x + ArtifactClose + w + VersionTag + v + VersionClose;
            Dependency(x, w, v) == "<" + tail && Quiet(tail)
  {
    assert ArtifactOpen == "<" + "artifactId>";
    QuietTags();
    QuietLacking(x);
    QuietLacking(v);
    assert Lacks(w, '<') by {
      forall k | 0 <= k < |w| ensures w[k] != '<' {
        assert IsSpace(w[k]);
      }
    }
    QuietLacking(w);
    var t := "artifactId>";
    QuietConcat(t, x);
    t := t + x;
    QuietConcat(t, ArtifactClose);
    t := t + ArtifactClose;
    QuietConcat(t, w);
    t := t + w;
    QuietConcat(t, VersionTag);
    t := t + VersionTag;
    QuietConcat(t, v);
    t := t + v;
    QuietConcat(t, VersionClose);
  }

  /** No match starts at the head of a dependency: its artifact id is
      neither MLflow one. */
  lemma DependencyHead(s: string, i: nat, x: string, w: string, v: string, base: string, target: string)
    requires Lacks(x, '<') && x != SparkId && x != ParentId
    requires StartsAt(s, i, Dependency(x, w, v))
    ensures PomAt(s, i, base, target).None?
  {
    StartsAtSplit(s, i, ArtifactOpen + x + ArtifactClose + w + VersionTag + v, VersionClose);
    StartsAtSplit(s, i, ArtifactOpen + x + ArtifactClose + w + VersionTag, v);
    StartsAtSplit(s, i, ArtifactOpen + x + ArtifactClose + w, VersionTag);
    StartsAtSplit(s, i, ArtifactOpen + x + ArtifactClose, w);
    CharOf(s, i, ArtifactOpen + x + ArtifactClose, 1);
    Mismatch(s, i, "<mlflow", 1);
    assert Lacks(SparkId, '<') && Lacks(ParentId, '<');
    OtherArtifact(s, i, x, SparkId);
    OtherArtifact(s, i, x, ParentId);
  }

  /** Inside an occurrence of a quiet text, no character starts `<m` or
      `<a`. */
  lemma QuietInside(s: string, i: nat, t: string, j: nat)
    requires StartsAt(s, i, t) && Quiet(t) && i <= j < i + |t|
    ensures !(j + 1 < |s| && s[j] == '<' && (s[j + 1] == 'm' || s[j + 1] == 'a'))
  {
    CharOf(s, i, t, j - i);
    if j + 1 < i + |t| {
      CharOf(s, i, t, j + 1 - i);
    }
    QuietAt(t, j - i);
  }

  /** No POM match starts inside a dependency, even when its version is the
      current MLflow version: only the listed contexts are rewritten. */
  lemma DependencyNoMatch(s: string, i: nat, x: string, w: string, v: string, base: string, target: string)
    requires Lacks(x, '<') && Lacks(v, '<') && (forall k :: 0 <= k < |w| ==> IsSpace(w[k]))
    requires x != SparkId && x != ParentId
    requires StartsAt(s, i, Dependency(x, w, v))
    ensures forall j :: i <= j < i + |Dependency(x, w, v)| ==> PomAt(s, j, base, target).None?
  {
    var tail := "artifactId>" + x + ArtifactClose + w + VersionTag + v + VersionClose;
    DependencyTail(x, w, v);
    StartsAtSplit(s, i, "<", tail);
    forall j | i <= j < i + |Dependency(x, w, v)| ensures PomAt(s, j, base, target).None? {
      if j == i {
        DependencyHead(s, i, x, w, v, base, target);
      } else {
        QuietInside(s, i + 1, tail, j);
        PomStart(s, j, base, target);
      }
    }
  }

  lemma QuietAt(t: string, k: nat)
    requires Quiet(t) && k < |t|
    ensures t[k] == '<' ==> k + 1 < |t| && t[k + 1] != 'm' && t[k + 1] != 'a'
  {
  }

  /** A POM holding only such a dependency is left exactly as it was. */
  lemma DependencyKept(x: string, w: string, v: string, base: string, target: string)
    requires Lacks(x, '<') && Lacks(v, '<') && (forall k :: 0 <= k < |w| ==> IsSpace(w[k]))
    requires x != SparkId && x != ParentId
    ensures Sub(PomVersion(base, target), Dependency(x, w, v)) == Dependency(x, w, v)
  {
    var s := Dependency(x, w, v);
    DependencyNoMatch(s, 0, x, w, v, base, target);
    PomStart(s, |s|, base, target);
    assert !Occurs(PomVersion(base, target), s) by {
      forall j | 0 <= j <= |s| ensures MatchAt(PomVersion(base, target), s, j).None? {
        assert MatchAt(PomVersion(base, target), s, j) == PomAt(s, j, base, target);
      }
    }
    SubAbsent(PomVersion(base, target), s);
  }

  /** `^version\s+=\s+".+"$` (MULTILINE) matches `s[i..e]`: a line start,
      `version`, a whitespace run ending at `e1`, `=`, a whitespace run
      ending at `e2`, a quote, at least one character, and a quote that
      ends the line. No newline lies between the two quotes. */
  predicate PyprojectMatch(s: string, i: nat, e1: nat, e2: nat, e: nat) {
    && i + 7 < e1 && e1 + 1 < e2 && e2 + 2 < e <= |s|
    && (i == 0 || s[i - 1] == '\n')
    && StartsAt(s, i, "version")
    && (forall k :: i + 7 <= k < e1 ==> IsSpace(s[k])) && s[e1] == '='
    && (forall k :: e1 + 1 <= k < e2 ==> IsSpace(s[k])) && s[e2] == '"'
    && (forall k :: e2 < k < e ==> s[k] != '\n') && s[e - 1] == '"'
    && (e == |s| || s[e] == '\n')
  }

  /** Every pyproject match has the pattern's shape. */
  lemma PyprojectShape(s: string, i: nat, line: string, e: nat)
    requires i <= e && i <= |s| && PyprojectAt(s, i, line) == Some(Hit(e - i, line))
    ensures exists e1, e2 :: PyprojectMatch(s, i, e1, e2, e)
  {
    var e1 := SpacesEnd(s, i + 7);
    var e2 := SpacesEnd(s, e1 + 1);
    assert PyprojectMatch(s, i, e1, e2, e);
  }

  /** Conversely, wherever the pattern matches, the matcher reports that
      match, consuming the whole line. */
  lemma PyprojectComplete(s: string, i: nat, e1: nat, e2: nat, e: nat, line: string)
    requires PyprojectMatch(s, i, e1, e2, e)
    ensures PyprojectAt(s, i, line) == Some(Hit(e - i, line))
  {
    SpacesEndUnique(s, i + 7, e1);
    SpacesEndUnique(s, e1 + 1, e2);
    LineEndUnique(s, e2 + 1, e);
  }

  /** A key that continues past `version` without whitespace, such as
      `versions` or `version_file`, is not matched. */
  lemma PyprojectOtherKey(s: string, i: nat, line: string)
    requires i + 7 < |s| && !IsSpace(s[i + 7])
    ensures PyprojectAt(s, i, line).None?
  {
  }

  /** `versions = "1"` and `version_file = "v.py"` are left alone. */
  lemma PyprojectOtherKeyExamples(line: string)
    ensures PyprojectAt("versions = \"1\"", 0, line).None?
    ensures PyprojectAt("version_file = \"v.py\"", 0, line).None?
  {
    PyprojectOtherKey("versions = \"1\"", 0, line);
    PyprojectOtherKey("version_file = \"v.py\"", 0, line);
  }

  /** The head `version = "` of a pyproject line: the key, one space, the
      equals sign, one space and the opening quote. */
  lemma PyprojectHead(s: string, i: nat)
    requires StartsAt(s, i, "version = \"")
    ensures StartsAt(s, i, "version") && s[i + 8] == '=' && s[i + 10] == '"'
    ensures SpacesEnd(s, i + 7) == i + 8 && SpacesEnd(s, i + 9) == i + 10
  {
    assert "version = \"" == "version" + " = \"";
    StartsAtSplit(s, i, "version", " = \"");
    assert s[i + 7..i + 11] == " = \"";
    assert s[i + 7] == ' ' && s[i + 8] == '=' && s[i + 9] == ' ' && s[i + 10] == '"';
    SpacesEndUnique(s, i + 7, i + 8);
    SpacesEndUnique(s, i + 9, i + 10);
  }

  /** A line `version = "x"` (with `x` non-empty) is matched as a whole and
      replaced by `line`. */
  lemma PyprojectLine(s: string, i: nat, x: string, line: string)
    requires i == 0 || (0 < i <= |s| && s[i - 1] == '\n')
    requires StartsAt(s, i, "version = \"") && StartsAt(s, i + 11, x)
    requires |x| > 0 && forall k :: 0 <= k < |x| ==> x[k] != '\n'
    requires var e := i + 11 + |x|; e < |s| && s[e] == '"' && (e + 1 == |s| || s[e + 1] == '\n')
    ensures MatchAt(PyprojectVersion(line), s, i) == Some(Hit(12 + |x|, line))
  {
    PyprojectHead(s, i);
    forall k | i + 11 <= k < i + 11 + |x| ensures s[k] != '\n' {
      assert s[k] == s[i + 11..i + 11 + |x|][k - i - 11] == x[k - i - 11];
    }
    LineEndUnique(s, i + 11, i + 12 + |x|);
  }

  /** `<mlflow.version>` is the first opening context. */
  lemma PropertyTagOpens(s: string, i: nat)
    requires StartsAt(s, i, "<mlflow.version>")
    ensures PomOpenEnd(s, i) == Some(i + 16)
  {
    assert "<mlflow.version>" == "<mlflow" + ".version>" && ".version>" == "." + "version>";
    StartsAtSplit(s, i, "<mlflow", ".version>");
    StartsAtSplit(s, i + 7, ".", "version>");
    assert s[i + 7..i + 8] == ".";
  }

  /** `</mlflow.version>` is the first closing tag. */
  lemma PropertyTagCloses(s: string, q: nat)
    requires StartsAt(s, q, "</mlflow.version>")
    ensures PomCloseEnd(s, q) == Some(q + 17) && s[q] == '<'
  {
    assert "</mlflow.version>" == "</mlflow" + ".version>" && ".version>" == "." + "version>";
    StartsAtSplit(s, q, "</mlflow", ".version>");
    StartsAtSplit(s, q + 8, ".", "version>");
    assert s[q..q + 8] == "</mlflow" && s[q + 8..q + 9] == ".";
  }

  /** `<mlflow.version>` + version + `</mlflow.version>` is rewritten to
      carry `target` between the same tags. */
  lemma PomPropertyTag(s: string, i: nat, base: string, target: string)
    requires StartsAt(s, i, "<mlflow.version>") && StartsAt(s, i + 16, base)
    requires StartsAt(s, i + 16 + |base|, "</mlflow.version>")
    ensures PomAt(s, i, base, target) ==
              Some(Hit(33 + |base|, "<mlflow.version>" + target + "</mlflow.version>"))
  {
    var o, q := i + 16, i + 16 + |base|;
    PropertyTagOpens(s, i);
    PropertyTagCloses(s, q);
    assert VersionEnd(s, o, base) == q;
  }
}
