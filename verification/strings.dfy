/**
 * Text helpers shared by the Python data pipeline and the browser scrapers:
 * character classes, whitespace trimming (`str.strip()` / `trim()`), maximal
 * runs of a character class, splitting on separator characters and joining
 * with a separator (`str.join` / `Array.prototype.join`).
 */
module Strings {

  /** Whose whitespace a trim removes: Python's `str.strip()` or JavaScript's `String.prototype.trim()`. */
  datatype Flavor = Python | JavaScript

  /**
   * The characters each language strips. Both remove U+0009..U+000D, the
   * space separators (category Zs) and U+2028/U+2029. Python's `str.isspace`
   * adds the separators U+001C..U+001F and U+0085; JavaScript's
   * WhiteSpace adds the byte-order mark U+FEFF.
   */
  predicate IsWhitespace(f: Flavor, c: char) {
    || '\t' <= c <= '\r' || c == ' ' || c == '\U{00A0}' || c == '\U{1680}'
    || '\U{2000}' <= c <= '\U{200A}' || c == '\U{2028}' || c == '\U{2029}'
    || c == '\U{202F}' || c == '\U{205F}' || c == '\U{3000}'
    || (f == Python && ('\U{001C}' <= c <= '\U{001F}' || c == '\U{0085}'))
    || (f == JavaScript && c == '\U{FEFF}')
  }

  /** An ASCII digit: `\d` in JavaScript, `[0-9]` in Python. */
  predicate IsDigit(c: char) {
    '0' <= c <= '9'
  }

  predicate IsAsciiLetter(c: char) {
    'a' <= c <= 'z' || 'A' <= c <= 'Z'
  }

  /** Every character is whitespace (this includes the empty string). */
  predicate IsBlank(f: Flavor, s: string) {
    forall i :: 0 <= i < |s| ==> IsWhitespace(f, s[i])
  }

  /** `s` begins with `prefix`. */
  predicate StartsWith(s: string, prefix: string) {
    |prefix| <= |s| && s[..|prefix|] == prefix
  }

  /** Whether a text starts with `prefix` is decided by its first `|prefix|` characters. */
  lemma StartsWithTruncated(s: string, prefix: string, m: nat)
    requires |prefix| <= m <= |s|
    ensures StartsWith(s[..m], prefix) <==> StartsWith(s, prefix)
  {
    assert s[..m][..|prefix|] == s[..|prefix|];
  }

  /** No character of `s` is in `seps`. */
  predicate Avoids(s: string, seps: set<char>) {
    forall i :: 0 <= i < |s| ==> s[i] !in seps
  }

  // ---------------------------------------------------------------------------
  // Trimming
  // ---------------------------------------------------------------------------

  /** The index of the first non-whitespace character of `s` at or after `i`, or `|s|`. */
  function SkipBlanks(f: Flavor, s: string, i: nat): (k: nat)
    requires i <= |s|
    ensures i <= k <= |s|
    ensures forall m :: i <= m < k ==> IsWhitespace(f, s[m])
    ensures k == |s| || !IsWhitespace(f, s[k])
    decreases |s| - i
  {
    if i < |s| && IsWhitespace(f, s[i]) then SkipBlanks(f, s, i + 1) else i
  }

  /**
   * Moving left from `j`, but not past `lo`: the index just after the last
   * non-whitespace character, or `lo`.
   */
  function SkipBlanksBack(f: Flavor, s: string, lo: nat, j: nat): (k: nat)
    requires lo <= j <= |s|
    ensures lo <= k <= j
    ensures forall m :: k <= m < j ==> IsWhitespace(f, s[m])
    ensures k == lo || !IsWhitespace(f, s[k - 1])
    decreases j - lo
  {
    if lo < j && IsWhitespace(f, s[j - 1]) then SkipBlanksBack(f, s, lo, j - 1) else j
  }

  /** Where the trimmed part of `s` begins. */
  function TrimOffset(f: Flavor, s: string): (i: nat)
    ensures i <= |s|
  {
    SkipBlanks(f, s, 0)
  }

  /**
   * `r` is `s` with the whitespace removed from both ends: it is the part of
   * `s` starting at `i`, only whitespace lies before and after it, and it
   * neither starts nor ends with whitespace.
   */
  predicate TrimmedAt(f: Flavor, s: string, i: int, r: string) {
    && 0 <= i && i + |r| <= |s| && r == s[i..i + |r|]
    && IsBlank(f, s[..i]) && IsBlank(f, s[i + |r|..])
    && (r == [] || (!IsWhitespace(f, r[0]) && !IsWhitespace(f, r[|r| - 1])))
  }

  /**
   * Python's `str.strip()` and JavaScript's `String.prototype.trim()`: the
   * contiguous middle part of `s` left after removing the whitespace on both
   * ends.
   */
  function Trim(f: Flavor, s: string): (r: string)
    ensures TrimmedAt(f, s, TrimOffset(f, s), r)
  {
    var i := SkipBlanks(f, s, 0);
    var j := SkipBlanksBack(f, s, i, |s|);
    BlankAround(f, s, i, j);
    s[i..j]
  }

  /** Cutting `s` at two bounds found by skipping whitespace from both ends trims it. */
  lemma BlankAround(f: Flavor, s: string, i: nat, j: nat)
    requires i <= j <= |s|
    requires forall m :: 0 <= m < i ==> IsWhitespace(f, s[m])
    requires forall m :: j <= m < |s| ==> IsWhitespace(f, s[m])
    requires i == |s| || !IsWhitespace(f, s[i])
    requires j == i || !IsWhitespace(f, s[j - 1])
    ensures TrimmedAt(f, s, i, s[i..j])
  {
    var r := s[i..j];
    assert forall m :: 0 <= m < i ==> s[..i][m] == s[m];
    assert forall m :: 0 <= m < |s| - j ==> s[j..][m] == s[j + m];
    assert |r| > 0 ==> r[0] == s[i] && r[|r| - 1] == s[j - 1];
  }

  lemma BlankBefore(f: Flavor, s: string, i: nat, m: nat)
    requires i <= |s| && IsBlank(f, s[..i]) && m < i
    ensures IsWhitespace(f, s[m])
  {
    assert s[..i][m] == s[m];
  }

  lemma BlankFrom(f: Flavor, s: string, j: nat, m: nat)
    requires j <= m < |s| && IsBlank(f, s[j..])
    ensures IsWhitespace(f, s[m])
  {
    assert s[j..][m - j] == s[m];
  }

  /** Two trimmings of the same text agree on where the middle part lies. */
  lemma TrimBoundsAgree(f: Flavor, s: string, i: nat, j: nat, k: nat, k': nat)
    requires i <= j <= |s| && k <= k' <= |s|
    requires IsBlank(f, s[..i]) && IsBlank(f, s[j..]) && IsBlank(f, s[..k]) && IsBlank(f, s[k'..])
    requires i == j || (!IsWhitespace(f, s[i]) && !IsWhitespace(f, s[j - 1]))
    requires k == k' || (!IsWhitespace(f, s[k]) && !IsWhitespace(f, s[k' - 1]))
    ensures s[i..j] == s[k..k']
  {
    if i == j && k != k' {
      if k < i { BlankBefore(f, s, i, k); } else { BlankFrom(f, s, j, k); }
    } else if i != j && k == k' {
      if i < k { BlankBefore(f, s, k, i); } else { BlankFrom(f, s, k', i); }
    } else if i != j {
      if k < i { BlankBefore(f, s, i, k); }
      else if i < k { BlankBefore(f, s, k, i); }
    }
  }

  /**
   * The trimmed string is determined by its characterization: any middle part
   * with only whitespace around it and non-whitespace at its ends is `Trim(f, s)`.
   */
  lemma TrimUnique(f: Flavor, s: string, i: nat, j: nat)
    requires i <= j <= |s|
    requires IsBlank(f, s[..i]) && IsBlank(f, s[j..])
    requires i == j || (!IsWhitespace(f, s[i]) && !IsWhitespace(f, s[j - 1]))
    ensures Trim(f, s) == s[i..j]
  {
    TrimmedAtUnique(f, s, i, j, TrimOffset(f, s), Trim(f, s));
  }

  lemma TrimmedAtUnique(f: Flavor, s: string, i: nat, j: nat, k: int, r: string)
    requires i <= j <= |s|
    requires IsBlank(f, s[..i]) && IsBlank(f, s[j..])
    requires i == j || (!IsWhitespace(f, s[i]) && !IsWhitespace(f, s[j - 1]))
    requires TrimmedAt(f, s, k, r)
    ensures r == s[i..j]
  {
    TrimmedAtEnds(f, s, k, r);
    TrimBoundsAgree(f, s, i, j, k, k + |r|);
  }

  /** The trimmed part, seen as a slice `s[k..k + |r|]` of the text. */
  lemma TrimmedAtEnds(f: Flavor, s: string, k: int, r: string)
    requires TrimmedAt(f, s, k, r)
    ensures 0 <= k <= k + |r| <= |s| && r == s[k..k + |r|]
    ensures IsBlank(f, s[..k]) && IsBlank(f, s[k + |r|..])
    ensures r == [] || (!IsWhitespace(f, s[k]) && !IsWhitespace(f, s[k + |r| - 1]))
    ensures forall m :: 0 <= m < |r| ==> r[m] == s[k + m]
  {
    assert |r| > 0 ==> r[0] == s[k] && r[|r| - 1] == s[k + |r| - 1];
  }

  /** Trimming leaves nothing exactly when the string is all whitespace. */
  lemma TrimEmptyIffBlank(f: Flavor, s: string)
    ensures Trim(f, s) == [] <==> IsBlank(f, s)
  {
    var r := Trim(f, s);
    var k := TrimOffset(f, s);
    if r == [] {
      BlankHalves(f, s, k);
    } else {
      assert !IsWhitespace(f, s[k]);
    }
  }

  /** A text whose two halves are blank is blank. */
  lemma BlankHalves(f: Flavor, s: string, k: nat)
    requires k <= |s| && IsBlank(f, s[..k]) && IsBlank(f, s[k..])
    ensures IsBlank(f, s)
  {
    forall m | 0 <= m < |s|
      ensures IsWhitespace(f, s[m])
    {
      if m < k { BlankBefore(f, s, k, m); } else { BlankFrom(f, s, k, m); }
    }
  }

  /** Trimming keeps no character the text did not have. */
  lemma TrimAvoids(f: Flavor, s: string, seps: set<char>)
    requires Avoids(s, seps)
    ensures Avoids(Trim(f, s), seps)
  {
    var r := Trim(f, s);
    TrimmedAtEnds(f, s, TrimOffset(f, s), r);
  }

  /** Trimming twice is trimming once. */
  lemma TrimIdempotent(f: Flavor, s: string)
    ensures Trim(f, Trim(f, s)) == Trim(f, s)
  {
    var r := Trim(f, s);
    assert r[..0] == [] && r[|r|..] == [];
    TrimUnique(f, r, 0, |r|);
    assert r[0..|r|] == r;
  }

  // ---------------------------------------------------------------------------
  // Runs of a character class
  // ---------------------------------------------------------------------------

  /** The length of the longest prefix of `s` whose characters all satisfy `inClass`. */
  function RunLength(s: string, inClass: char -> bool): (n: nat)
    ensures n <= |s|
    ensures forall i :: 0 <= i < n ==> inClass(s[i])
    ensures n < |s| ==> !inClass(s[n])
    decreases |s|
  {
    if |s| == 0 || !inClass(s[0]) then 0 else 1 + RunLength(s[1..], inClass)
  }

  /** A run is determined by where the class first fails. */
  lemma RunLengthIs(s: string, inClass: char -> bool, k: nat)
    requires k <= |s|
    requires forall i :: 0 <= i < k ==> inClass(s[i])
    requires k < |s| ==> !inClass(s[k])
    ensures RunLength(s, inClass) == k
  {
  }

  // ---------------------------------------------------------------------------
  // Splitting and joining
  // ---------------------------------------------------------------------------

  /** `sep.join(parts)` in Python, `parts.join(sep)` in JavaScript. */
  function Join(parts: seq<string>, sep: string): string
    decreases |parts|
  {
    if |parts| == 0 then ""
    else if |parts| == 1 then parts[0]
    else parts[0] + sep + Join(parts[1..], sep)
  }

  /**
   * JavaScript's `s.split(re)` for a pattern that matches exactly one
   * character of `seps`: the pieces between consecutive separators,
   * including empty ones.
   */
  function Split(s: string, seps: set<char>): (parts: seq<string>)
    ensures |parts| >= 1
    ensures forall k :: 0 <= k < |parts| ==> Avoids(parts[k], seps)
    ensures Avoids(s, seps) <==> |parts| == 1
    ensures |parts| == 1 ==> parts == [s]
    decreases |s|
  {
    if |s| == 0 then [""]
    else
      var rest := Split(s[1..], seps);
      if s[0] in seps then
        assert !Avoids(s, seps);
        [""] + rest
      else
        var parts := [[s[0]] + rest[0]] + rest[1..];
        assert Avoids(s, seps) <==> Avoids(s[1..], seps) by {
          if Avoids(s[1..], seps) {
            forall i | 0 <= i < |s| ensures s[i] !in seps {
              if i > 0 { assert s[i] == s[1..][i - 1]; }
            }
          }
        }
        assert s == [s[0]] + s[1..];
        parts
  }

  /** Each separator character of `s` replaced by `c`. */
  function ReplaceAll(s: string, seps: set<char>, c: char): (r: string)
    ensures |r| == |s|
    ensures forall i :: 0 <= i < |s| ==> r[i] == if s[i] in seps then c else s[i]
  {
    seq(|s|, i requires 0 <= i < |s| => if s[i] in seps then c else s[i])
  }

  lemma JoinConsFirst(x: char, y: string, tail: seq<string>, sep: string)
    ensures Join([[x] + y] + tail, sep) == [x] + Join([y] + tail, sep)
  {
    var a := [[x] + y] + tail;
    var b := [y] + tail;
    if |tail| > 0 {
      assert a[1..] == tail && b[1..] == tail;
    }
  }

  /**
   * Joining the pieces of a split with the one-character separator `c` gives
   * the original text with every separator replaced by `c`.
   */
  lemma {:induction false} JoinSplit(s: string, seps: set<char>, c: char)
    ensures Join(Split(s, seps), [c]) == ReplaceAll(s, seps, c)
    decreases |s|
  {
    if |s| == 0 {
    } else {
      var rest := Split(s[1..], seps);
      var head := if s[0] in seps then c else s[0];
      assert Join(Split(s, seps), [c]) == [head] + Join(rest, [c]) by {
        if s[0] in seps {
          var parts := [""] + rest;
          assert parts[1..] == rest;
        } else {
          JoinConsFirst(s[0], rest[0], rest[1..], [c]);
          assert [rest[0]] + rest[1..] == rest;
        }
      }
      JoinSplit(s[1..], seps, c);
      assert ReplaceAll(s, seps, c) == [head] + ReplaceAll(s[1..], seps, c);
    }
  }

  /** Splitting `a + t` where `a` has no separator extends the first piece of `t`'s split. */
  lemma {:induction false} SplitAfterPlainPrefix(a: string, t: string, seps: set<char>)
    requires Avoids(a, seps)
    ensures Split(a + t, seps) == [a + Split(t, seps)[0]] + Split(t, seps)[1..]
    decreases |a|
  {
    if |a| > 0 {
      assert (a + t)[1..] == a[1..] + t;
      assert Avoids(a[1..], seps) by {
        forall i | 0 <= i < |a[1..]| ensures a[1..][i] !in seps { assert a[1..][i] == a[i + 1]; }
      }
      SplitAfterPlainPrefix(a[1..], t, seps);
      assert a[0] !in seps;
      assert [a[0]] + (a[1..] + Split(t, seps)[0]) == a + Split(t, seps)[0];
    } else {
      assert a + t == t;
      assert a + Split(t, seps)[0] == Split(t, seps)[0];
      assert Split(t, seps) == [Split(t, seps)[0]] + Split(t, seps)[1..];
    }
  }

  /**
   * The split of a text whose first separator is at `i`: the part before it,
   * then the split of the rest.
   */
  lemma SplitAtFirst(s: string, seps: set<char>, i: nat)
    requires i < |s| && s[i] in seps && Avoids(s[..i], seps)
    ensures Split(s, seps) == [s[..i]] + Split(s[i + 1..], seps)
  {
    assert s == s[..i] + s[i..];
    SplitAfterPlainPrefix(s[..i], s[i..], seps);
    assert s[i..][1..] == s[i + 1..];
    assert Split(s[i..], seps) == [""] + Split(s[i + 1..], seps);
    assert s[..i] + "" == s[..i];
  }

  /**
   * Round trip: splitting the join of separator-free pieces on the joining
   * separator gives the pieces back.
   */
  lemma {:induction false} SplitJoin(parts: seq<string>, seps: set<char>, c: char)
    requires |parts| >= 1 && c in seps
    requires forall k :: 0 <= k < |parts| ==> Avoids(parts[k], seps)
    ensures Split(Join(parts, [c]), seps) == parts
    decreases |parts|
  {
    if |parts| == 1 {
      assert Split(parts[0], seps) == [parts[0]];
    } else {
      var tail := parts[1..];
      SplitJoin(tail, seps, c);
      var t := [c] + Join(tail, [c]);
      assert Join(parts, [c]) == parts[0] + t;
      SplitAfterPlainPrefix(parts[0], t, seps);
      assert t[1..] == Join(tail, [c]);
      assert Split(t, seps) == [""] + tail;
      assert parts[0] + "" == parts[0];
      assert [parts[0]] + tail == parts;
    }
  }
}
