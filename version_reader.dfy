/** `get_current_py_version`: `re.search(r'VERSION = "(.+)"', text).group(1)`
    on the text of the version module, and the round trip with the literal
    rewrite that replaces the current version by a new one. */
module VersionReader {
  import opened Text
  import opened Substitution
  import MlflowVersion

  const Key: string := "VERSION = \""

  /** Last quote in `s[lo..hi]`: where the greedy `.+` gives back characters
      until a `"` follows. */
  function LastQuote(s: string, lo: nat, hi: nat): (r: Option<nat>)
    requires lo <= hi <= |s|
    ensures r.Some? ==> lo <= r.value < hi && s[r.value] == '"' &&
                        forall k :: r.value < k < hi ==> s[k] != '"'
    ensures r.None? ==> forall k :: lo <= k < hi ==> s[k] != '"'
    decreases hi - lo
  {
    if hi == lo then None
    else if s[hi - 1] == '"' then Some(hi - 1)
    else LastQuote(s, lo, hi - 1)
  }

  /** The last quote is the only quote with no quote after it. */
  lemma LastQuoteUnique(s: string, lo: nat, hi: nat, q: nat)
    requires lo <= q < hi <= |s| && s[q] == '"'
    requires forall k :: q < k < hi ==> s[k] != '"'
    ensures LastQuote(s, lo, hi) == Some(q)
  {
  }

  /** The match of `VERSION = "(.+)"` at `i`: group 1 runs from after the
      opening quote to the last quote of that line, and holds at least one
      character (`.` does not match a newline). */
  function CaptureAt(text: string, i: nat): (r: Option<string>)
    requires i <= |text|
    ensures r.Some? ==> |r.value| > 0 && StartsAt(text, i, Key) && StartsAt(text, i + |Key|, r.value)
    ensures r.Some? ==> i + |Key| + |r.value| < |text| && text[i + |Key| + |r.value|] == '"'
    ensures r.Some? ==> forall k :: 0 <= k < |r.value| ==> r.value[k] != '\n'
  {
    if !StartsAt(text, i, Key) then None
    else
      var j := i + |Key|;
      var l := LineEnd(text, j);
      if l == j then None
      else match LastQuote(text, j + 1, l)
      case None => None
      case Some(q) => Some(text[j..q])
  }

  /** The leftmost match at or after `i`. */
  function SearchFrom(text: string, i: nat): Option<string>
    requires i <= |text|
    decreases |text| - i
  {
    if i == |text| then None
    else match CaptureAt(text, i)
      case Some(v) => Some(v)
      case None => SearchFrom(text, i + 1)
  }

  /** `get_current_py_version` on the text of the version module; `None`
      where Python fails on a missing match. What it reads is a non-empty
      one-line string placed between `VERSION = "` and a quote. */
  function ReadVersion(text: string): (r: Option<string>)
    ensures r.Some? ==> |r.value| > 0 && forall k :: 0 <= k < |r.value| ==> r.value[k] != '\n'
    ensures r.Some? ==> exists i :: 0 <= i <= |text| && StartsAt(text, i, Key) && StartsAt(text, i + |Key|, r.value)
  {
    SearchFound(text, 0);
    SearchFrom(text, 0)
  }

  /** What the search finds is the capture at some index. */
  lemma {:induction false} SearchFound(text: string, i: nat)
    requires i <= |text|
    ensures SearchFrom(text, i).Some? ==> exists k :: i <= k <= |text| && CaptureAt(text, k) == SearchFrom(text, i)
    decreases |text| - i
  {
    if i < |text| && CaptureAt(text, i).None? {
      SearchFound(text, i + 1);
    }
  }

  /** `VERSION = "(.+)"` matches at `i` with group 1 ending at `q`: the key,
      at least one character and no newline up to `q`, a quote at `q`, and
      no quote after `q` on that line (greedy `.+` stops at the last one). */
  predicate ReaderMatch(text: string, i: nat, q: nat) {
    && StartsAt(text, i, Key)
    && i + |Key| < q < |text| && text[q] == '"'
    && (forall k :: i + |Key| <= k < q ==> text[k] != '\n')
    && (forall k :: q < k < LineEnd(text, q) ==> text[k] != '"')
  }

  /** The capture at `i` ends at `q` exactly when the pattern matches there
      with group 1 ending at `q`. */
  lemma CaptureAtIff(text: string, i: nat, q: nat)
    requires i + |Key| <= q <= |text|
    ensures CaptureAt(text, i) == Some(text[i + |Key|..q]) <==> ReaderMatch(text, i, q)
  {
    var j := i + |Key|;
    if ReaderMatch(text, i, q) {
      var l := LineEnd(text, q);
      forall k | j <= k < l ensures text[k] != '\n' {
      }
      LineEndUnique(text, j, l);
      LastQuoteUnique(text, j + 1, l, q);
    }
    if CaptureAt(text, i) == Some(text[j..q]) {
      var l := LineEnd(text, j);
      LineEndUnique(text, q, l);
    }
  }

  /** No capture at `i` means the pattern does not match at `i`. */
  lemma CaptureAtNone(text: string, i: nat)
    requires i <= |text|
    ensures CaptureAt(text, i).None? <==> forall q :: !ReaderMatch(text, i, q)
  {
    if CaptureAt(text, i).Some? {
      CaptureAtIff(text, i, i + |Key| + |CaptureAt(text, i).value|);
    } else {
      forall q | i + |Key| <= q <= |text| ensures !ReaderMatch(text, i, q) {
        CaptureAtIff(text, i, q);
      }
    }
  }

  /** The first index at or after `i` where a capture exists is `k`. */
  predicate FirstCaptureAt(text: string, i: nat, k: nat) {
    && i <= k <= |text| && CaptureAt(text, k).Some?
    && forall j :: i <= j < k ==> CaptureAt(text, j).None?
  }

  /** The search returns the leftmost capture. */
  lemma {:induction false} SearchFirst(text: string, i: nat, k: nat)
    requires FirstCaptureAt(text, i, k)
    ensures SearchFrom(text, i) == CaptureAt(text, k)
    decreases k - i
  {
    if i < k {
      SearchFirst(text, i + 1, k);
    } else {
      assert StartsAt(text, k, Key);
    }
  }

  /** The search fails exactly when no capture exists at or after `i`. */
  lemma {:induction false} SearchNoneIff(text: string, i: nat)
    requires i <= |text|
    ensures SearchFrom(text, i).None? <==> forall k :: i <= k <= |text| ==> CaptureAt(text, k).None?
    decreases |text| - i
  {
    if i < |text| {
      SearchNoneIff(text, i + 1);
    } else {
      assert !StartsAt(text, i, Key);
    }
  }

  /** `get_current_py_version` fails exactly when the pattern matches
      nowhere in the text. */
  lemma ReadVersionNone(text: string)
    ensures ReadVersion(text).None? <==> forall i, q :: !ReaderMatch(text, i, q)
  {
    SearchNoneIff(text, 0);
    if ReadVersion(text).None? {
      forall i, q | ReaderMatch(text, i, q) ensures false {
        CaptureAtNone(text, i);
      }
    } else {
      SearchFound(text, 0);
      var k :| 0 <= k <= |text| && CaptureAt(text, k) == SearchFrom(text, 0);
      CaptureAtNone(text, k);
    }
  }

  /** When the leftmost match starts at `i` with group 1 ending at `q`,
      `get_current_py_version` returns `text[i + |Key|..q]`. */
  lemma ReadVersionLeftmost(text: string, i: nat, q: nat)
    requires ReaderMatch(text, i, q)
    requires forall j, q' :: 0 <= j < i ==> !ReaderMatch(text, j, q')
    ensures ReadVersion(text) == Some(text[i + |Key|..q])
  {
    CaptureAtIff(text, i, q);
    forall j | 0 <= j < i ensures CaptureAt(text, j).None? {
      CaptureAtNone(text, j);
    }
    SearchFirst(text, 0, i);
  }

  /** Indices before `k` where the key does not start are skipped. */
  lemma {:induction false} SearchSkips(text: string, i: nat, k: nat)
    requires i <= k <= |text|
    requires forall j :: i <= j < k ==> !StartsAt(text, j, Key)
    ensures SearchFrom(text, i) == SearchFrom(text, k)
    decreases k - i
  {
    if i < k {
      SearchSkips(text, i + 1, k);
    }
  }

  /** The assignment `VERSION = "v"` starts at `k`: `v` is non-empty and on
      one line, and the rest of its line holds no further quote. */
  predicate AssignedAt(text: string, k: nat, v: string) {
    && StartsAt(text, k, Key) && StartsAt(text, k + |Key|, v)
    && |v| > 0 && (forall m :: 0 <= m < |v| ==> v[m] != '\n')
    && k + |Key| + |v| < |text| && text[k + |Key| + |v|] == '"'
    && var rest := text[k + |Key| + |v| + 1..];
       forall m :: 0 <= m < LineEnd(rest, 0) ==> rest[m] != '"'
  }

  /** No occurrence of the key starts before `k`. */
  predicate FirstKeyAt(text: string, k: nat) {
    forall j :: 0 <= j < k ==> !StartsAt(text, j, Key)
  }

  /** The line end after the opening quote of an assignment. */
  lemma {:induction false} AssignedLineEnd(text: string, k: nat, v: string)
    requires AssignedAt(text, k, v)
    ensures var e := k + |Key| + |v| + 1;
            LineEnd(text, k + |Key|) == e + LineEnd(text[e..], 0)
  {
    var j, e := k + |Key|, k + |Key| + |v| + 1;
    var rest := text[e..];
    var l := e + LineEnd(rest, 0);
    forall m | j <= m < l ensures text[m] != '\n' {
      if m < e - 1 {
        assert text[m] == text[j..j + |v|][m - j] == v[m - j];
      } else if m >= e {
        assert text[m] == rest[m - e];
      }
    }
    assert l == |text| || text[l] == rest[l - e];
    LineEndUnique(text, j, l);
  }

  /** Reading a text whose first key starts an assignment of `v` yields `v`. */
  lemma {:induction false} ReadAssigned(text: string, k: nat, v: string)
    requires AssignedAt(text, k, v) && FirstKeyAt(text, k)
    ensures ReadVersion(text) == Some(v)
  {
    var j, e := k + |Key|, k + |Key| + |v| + 1;
    var rest := text[e..];
    var l := LineEnd(text, j);
    AssignedLineEnd(text, k, v);
    forall m | e - 1 < m < l ensures text[m] != '"' {
      assert text[m] == rest[m - e];
    }
    LastQuoteUnique(text, j + 1, l, e - 1);
    assert text[j..e - 1] == v;
    SearchSkips(text, 0, k);
  }

  /** Two texts that agree up to the end of the key at `k` agree on
      whether the key starts there and whether one starts earlier. */
  lemma {:induction false} SharedKeyPrefix(text: string, after: string, k: nat)
    requires k + |Key| <= |text| && k + |Key| <= |after|
    requires text[..k + |Key|] == after[..k + |Key|]
    ensures FirstKeyAt(text, k) ==> FirstKeyAt(after, k)
    ensures StartsAt(text, k, Key) ==> StartsAt(after, k, Key)
  {
    forall i | 0 <= i <= k ensures StartsAt(after, i, Key) == StartsAt(text, i, Key) {
      assert after[i..i + |Key|] == after[..k + |Key|][i..i + |Key|];
      assert text[i..i + |Key|] == text[..k + |Key|][i..i + |Key|];
    }
  }

  /** The literal rewrite of the single occurrence of `cur` at `j`. */
  lemma {:induction false} RewriteOnce(text: string, j: nat, cur: string, next: string)
    requires |cur| > 0 && StartsAt(text, j, cur)
    requires forall i :: 0 <= i <= |text| && i != j ==> !StartsAt(text, i, cur)
    ensures var after := Sub(Literal(cur, next), text);
            && |after| == |text| - |cur| + |next|
            && after[..j] == text[..j] && StartsAt(after, j, next)
            && after[j + |next|..] == text[j + |cur|..]
  {
    LiteralOnce(text, j, cur, next);
    var after := Sub(Literal(cur, next), text);
    assert after == text[..j] + next + text[j + |cur|..];
    assert after[j..j + |next|] == next;
  }

  /** What follows the rewritten version is what followed the old one. */
  lemma TailAfterRewrite(text: string, after: string, j: nat, cur: string, next: string)
    requires j + |cur| < |text| && j + |next| <= |after|
    requires after[j + |next|..] == text[j + |cur|..]
    ensures j + |next| < |after| && after[j + |next|] == text[j + |cur|]
    ensures after[j + |next| + 1..] == text[j + |cur| + 1..]
  {
    var tail := text[j + |cur|..];
    assert after[j + |next|] == tail[0];
    assert after[j + |next| + 1..] == tail[1..];
  }

  /** After that rewrite the text assigns `next` at the same place. */
  lemma {:induction false} RewriteKeepsAssignment(text: string, k: nat, cur: string, next: string)
    requires AssignedAt(text, k, cur) && FirstKeyAt(text, k)
    requires forall j :: 0 <= j <= |text| && j != k + |Key| ==> !StartsAt(text, j, cur)
    requires |next| > 0 && forall m :: 0 <= m < |next| ==> next[m] != '\n'
    ensures AssignedAt(Sub(Literal(cur, next), text), k, next)
    ensures FirstKeyAt(Sub(Literal(cur, next), text), k)
  {
    var j := k + |Key|;
    RewriteOnce(text, j, cur, next);
    var after := Sub(Literal(cur, next), text);
    PrefixOfPrefix(text, j, k + |Key|);
    PrefixOfPrefix(after, j, k + |Key|);
    SharedKeyPrefix(text, after, k);
    TailAfterRewrite(text, after, j, cur, next);
  }

  lemma PrefixOfPrefix(s: string, j: nat, n: nat)
    requires n <= j <= |s|
    ensures s[..j][..n] == s[..n]
  {
  }

  /** The round trip of the version module: replacing the current version
      `cur`, which occurs only inside its assignment, by a one-line `next`
      leaves an assignment of `next` that the reader then returns. */
  lemma {:induction false} ReplaceAssigned(text: string, k: nat, cur: string, next: string)
    requires AssignedAt(text, k, cur) && FirstKeyAt(text, k)
    requires forall j :: 0 <= j <= |text| && j != k + |Key| ==> !StartsAt(text, j, cur)
    requires |next| > 0 && forall m :: 0 <= m < |next| ==> next[m] != '\n'
    ensures ReadVersion(text) == Some(cur)
    ensures ReadVersion(Sub(Literal(cur, next), text)) == Some(next)
  {
    ReadAssigned(text, k, cur);
    RewriteKeepsAssignment(text, k, cur, next);
    ReadAssigned(Sub(Literal(cur, next), text), k, next);
  }

  /** A text made of a `V`-free header, the assignment of a one-line `v`
      and a trailer whose first line holds no quote reads as `v`. */
  lemma {:induction false} ReadComposed(h: string, v: string, t: string)
    requires Lacks(h, 'V')
    requires |v| > 0 && forall m :: 0 <= m < |v| ==> v[m] != '\n'
    requires forall m :: 0 <= m < LineEnd(t, 0) ==> t[m] != '"'
    ensures ReadVersion(h + Key + v + "\"" + t) == Some(v)
  {
    var text := h + Key + v + "\"" + t;
    var k := |h|;
    forall j | 0 <= j < k ensures !StartsAt(text, j, Key) {
      assert text[j] == h[j];
    }
    assert text[k + |Key| + |v| + 1..] == t;
    assert text[k..k + |Key|] == Key;
    assert text[k + |Key|..k + |Key| + |v|] == v;
    ReadAssigned(text, k, v);
  }

  /** The header of the version module holds no `V`, hence no key. */
  lemma HeaderLacksV()
    ensures Lacks(MlflowVersion.SourceHeader, 'V')
  {
    assert MlflowVersion.SourceHeader == "import re\n\n";
  }

  /** The version module assigns its constant in the form the reader
      expects, so the reader returns the constant. */
  lemma {:induction false} ReadSource()
    ensures ReadVersion(MlflowVersion.Source) == Some(MlflowVersion.VERSION)
  {
    HeaderLacksV();
    assert MlflowVersion.SourceTrailer[0] == '\n';
    ReadComposed(MlflowVersion.SourceHeader, MlflowVersion.VERSION, MlflowVersion.SourceTrailer);
  }
}
