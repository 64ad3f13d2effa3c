/** Character classes, runs, windows and decimal numerals shared by the
    version grammar, the regular-expression rules and the version reader.
    Only ASCII is modelled: `\d` is '0'..'9' and `\s` is the ten ASCII
    characters for which `str.isspace()` holds. */
module Text {

  datatype Option<T> = None | Some(value: T)

  predicate IsDigit(c: char) { '0' <= c <= '9' }

  /** Python's `\s` on a str pattern, restricted to ASCII: `str.isspace()`
      holds for \t, \n, \v, \f, \r, the separators U+001C..U+001F and the
      space. */
  predicate IsSpace(c: char) {
    ('\t' <= c <= '\r') || ('\U{1C}' <= c <= '\U{1F}') || c == ' '
  }

  predicate AllDigits(s: string) {
    forall i :: 0 <= i < |s| ==> IsDigit(s[i])
  }

  /** `c` does not occur in `s`. */
  predicate Lacks(s: string, c: char) {
    forall j :: 0 <= j < |s| ==> s[j] != c
  }

  /** `p` occurs in `s` starting at index `i`. */
  predicate StartsAt(s: string, i: nat, p: string) {
    i + |p| <= |s| && s[i..i + |p|] == p
  }

  /** An occurrence of `p + q` is an occurrence of `p` followed by one of `q`. */
  lemma StartsAtSplit(s: string, i: nat, p: string, q: string)
    ensures StartsAt(s, i, p + q) <==> StartsAt(s, i, p) && StartsAt(s, i + |p|, q)
  {
    if StartsAt(s, i, p + q) {
      assert s[i..i + |p|] == (p + q)[..|p|];
      assert s[i + |p|..i + |p| + |q|] == (p + q)[|p|..];
    }
    if StartsAt(s, i, p) && StartsAt(s, i + |p|, q) {
      assert s[i..i + |p + q|] == s[i..i + |p|] + s[i + |p|..i + |p| + |q|];
    }
  }

  predicate EndsWith(s: string, p: string) {
    |p| <= |s| && s[|s| - |p|..] == p
  }

  /** End of the longest run of digits starting at `i`: what a greedy `\d+`
      consumes there. */
  function DigitsEnd(s: string, i: nat): (j: nat)
    requires i <= |s|
    ensures i <= j <= |s|
    ensures forall k :: i <= k < j ==> IsDigit(s[k])
    ensures j == |s| || !IsDigit(s[j])
    decreases |s| - i
  {
    if i == |s| || !IsDigit(s[i]) then i else DigitsEnd(s, i + 1)
  }

  /** The run end is the only index that closes a run of digits from `i`. */
  lemma DigitsEndUnique(s: string, i: nat, j: nat)
    requires i <= j <= |s|
    requires forall k :: i <= k < j ==> IsDigit(s[k])
    requires j == |s| || !IsDigit(s[j])
    ensures DigitsEnd(s, i) == j
  {
  }

  /** End of the longest run of whitespace starting at `i`: what a greedy
      `\s+` consumes there. */
  function SpacesEnd(s: string, i: nat): (j: nat)
    requires i <= |s|
    ensures i <= j <= |s|
    ensures forall k :: i <= k < j ==> IsSpace(s[k])
    ensures j == |s| || !IsSpace(s[j])
    decreases |s| - i
  {
    if i == |s| || !IsSpace(s[i]) then i else SpacesEnd(s, i + 1)
  }

  /** Index of the first newline at or after `i`, or `|s|`: where `$` matches
      in MULTILINE mode and where `.` stops. */
  function LineEnd(s: string, i: nat): (e: nat)
    requires i <= |s|
    ensures i <= e <= |s|
    ensures forall k :: i <= k < e ==> s[k] != '\n'
    ensures e == |s| || s[e] == '\n'
    decreases |s| - i
  {
    if i == |s| || s[i] == '\n' then i else LineEnd(s, i + 1)
  }

  /** The run end is the only index that closes a run of whitespace from `i`. */
  lemma SpacesEndUnique(s: string, i: nat, j: nat)
    requires i <= j <= |s|
    requires forall k :: i <= k < j ==> IsSpace(s[k])
    requires j == |s| || !IsSpace(s[j])
    ensures SpacesEnd(s, i) == j
  {
  }

  /** The line end is the first newline at or after `i`. */
  lemma LineEndUnique(s: string, i: nat, j: nat)
    requires i <= j <= |s|
    requires forall k :: i <= k < j ==> s[k] != '\n'
    requires j == |s| || s[j] == '\n'
    ensures LineEnd(s, i) == j
  {
  }

  function DigitChar(d: nat): (c: char)
    requires d < 10
    ensures IsDigit(c)
  {
    (d + '0' as int) as char
  }

  function DigitValue(c: char): (d: nat)
    requires IsDigit(c)
    ensures d < 10 && DigitChar(d) == c
  {
    c as int - '0' as int
  }

  /** Python's `str(n)` for a non-negative integer. */
  function Decimal(n: nat): (s: string)
    ensures |s| > 0 && AllDigits(s)
  {
    if n < 10 then [DigitChar(n)] else Decimal(n / 10) + [DigitChar(n % 10)]
  }

  /** The digits of `s` from `i` up to `j` form a number. */
  predicate DigitsBetween(s: string, i: nat, j: nat) {
    i <= j <= |s| && forall k :: i <= k < j ==> IsDigit(s[k])
  }

  /** Python's `int(s[i:j])` for ASCII digits (leading zeros allowed). */
  function Number(s: string, i: nat, j: nat): nat
    requires DigitsBetween(s, i, j)
    decreases j - i
  {
    if i == j then 0 else Number(s, i, j - 1) * 10 + DigitValue(s[j - 1])
  }

  /** The value of a digit string depends only on its characters. */
  lemma {:induction false} NumberFrame(s: string, i: nat, t: string, i': nat, n: nat)
    requires DigitsBetween(s, i, i + n) && i' + n <= |t|
    requires s[i..i + n] == t[i'..i' + n]
    ensures DigitsBetween(t, i', i' + n)
    ensures Number(s, i, i + n) == Number(t, i', i' + n)
  {
    forall k | i' <= k < i' + n ensures IsDigit(t[k]) {
      assert t[k] == t[i'..i' + n][k - i'] == s[i..i + n][k - i'] == s[k - i' + i];
    }
    if n > 0 {
      assert s[i..i + n - 1] == s[i..i + n][..n - 1] == t[i'..i' + n][..n - 1] == t[i'..i' + n - 1];
      assert s[i + n - 1] == s[i..i + n][n - 1];
      NumberFrame(s, i, t, i', n - 1);
    }
  }

  lemma {:induction false} DecimalRoundTrip(n: nat)
    ensures DigitsBetween(Decimal(n), 0, |Decimal(n)|)
    ensures Number(Decimal(n), 0, |Decimal(n)|) == n
  {
    var s := Decimal(n);
    if n >= 10 {
      var p := Decimal(n / 10);
      DecimalRoundTrip(n / 10);
      assert s[0..|p|] == p == p[0..|p|];
      NumberFrame(p, 0, s, 0, |p|);
    }
  }

  /** `str(n)` has no leading zero, so distinct numbers print differently. */
  lemma {:induction false} DecimalInjective(m: nat, n: nat)
    requires Decimal(m) == Decimal(n)
    ensures m == n
  {
    DecimalRoundTrip(m);
    DecimalRoundTrip(n);
  }
}
