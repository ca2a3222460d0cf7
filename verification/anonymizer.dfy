/**
 * The contact anonymiser of the mbox converter (`anonymize_text`): e-mail
 * addresses, and then URLs, are replaced by fixed placeholders with Python's
 * `re.sub`, which scans the text left to right and replaces every
 * non-overlapping match.
 *
 * Each of the two regular expressions is modelled twice: as a scanner
 * (`MatchAt`, built from maximal runs of a character class) and as the set of
 * strings it matches in full (`InLanguage`). `MatchAtIsGreedy` shows that the
 * scanner finds exactly the longest prefix in that set, which is what the
 * backtracking matcher returns for these two patterns.
 */
module Anonymizer {
  import opened Wrappers
  import opened Strings

  /** `\w` (its ASCII part). */
  predicate IsWordChar(c: char) {
    IsAsciiLetter(c) || IsDigit(c) || c == '_'
  }

  /** `[\w\.-]`, the class on both sides of the `@`. */
  predicate IsEmailChar(c: char) {
    IsWordChar(c) || c == '.' || c == '-'
  }

  /**
   * What one repetition of the URL pattern's group consumes: `[a-zA-Z]`,
   * `[0-9]`, the range `$`..`_` together with `@ . & +`, and `! * \ ( ) ,`.
   * The `%XX` alternative adds nothing: `%`, `0-9` and `A-F` lie in the
   * range and `a-f` in `[a-zA-Z]` (see `PercentEscapeIsUrlChars`).
   */
  predicate IsUrlChar(c: char) {
    || IsAsciiLetter(c) || IsDigit(c) || ('$' <= c <= '_')
    || c == '@' || c == '.' || c == '&' || c == '+'
    || c == '!' || c == '*' || c == '\\' || c == '(' || c == ')' || c == ','
  }

  /** A hexadecimal digit, as `[0-9a-fA-F]` reads it. */
  predicate IsHexDigit(c: char) {
    IsDigit(c) || 'a' <= c <= 'f' || 'A' <= c <= 'F'
  }

  /** Every character of a `%XX` escape is already a single URL character. */
  lemma PercentEscapeIsUrlChars(c1: char, c2: char)
    requires IsHexDigit(c1) && IsHexDigit(c2)
    ensures IsUrlChar('%') && IsUrlChar(c1) && IsUrlChar(c2)
  {
  }

  /** The two substitutions `anonymize_text` performs, in this order. */
  datatype Pattern = Email | Url

  /** The replacement text of each substitution. */
  function Placeholder(p: Pattern): string {
    match p
    case Email => "[email_address]"
    case Url => "[url]"
  }

  // ---------------------------------------------------------------------------
  // The two regular expressions as languages
  // ---------------------------------------------------------------------------

  /** The strings `[\w\.-]+@[\w\.-]+` matches in full. */
  ghost predicate IsEmailAddress(t: string) {
    exists k :: 0 < k < |t| - 1 && t[k] == '@' && forall i :: 0 <= i < |t| && i != k ==> IsEmailChar(t[i])
  }

  predicate AllUrlChars(t: string) {
    forall i :: 0 <= i < |t| ==> IsUrlChar(t[i])
  }

  /** The strings the URL pattern matches in full: a scheme, then at least one URL character. */
  ghost predicate IsUrl(t: string) {
    || (|t| > 7 && StartsWith(t, "http://") && AllUrlChars(t[7..]))
    || (|t| > 8 && StartsWith(t, "https://") && AllUrlChars(t[8..]))
  }

  ghost predicate InLanguage(p: Pattern, t: string) {
    match p
    case Email => IsEmailAddress(t)
    case Url => IsUrl(t)
  }

  /** `s[..n]` is the longest prefix of `s` that `p` matches in full. */
  ghost predicate IsLongestMatch(p: Pattern, s: string, n: nat) {
    && n <= |s|
    && InLanguage(p, s[..n])
    && forall m :: n < m <= |s| ==> !InLanguage(p, s[..m])
  }

  // ---------------------------------------------------------------------------
  // The two regular expressions as scanners
  // ---------------------------------------------------------------------------

  /** Length of the `http://` or `https://` at the start of `s`, or 0 when there is none. */
  function SchemeLength(s: string): (n: nat)
    ensures n <= |s|
    ensures n == 7 <==> StartsWith(s, "http://")
    ensures n == 8 <==> StartsWith(s, "https://")
    ensures n == 0 || n == 7 || n == 8
  {
    if StartsWith(s, "https://") then
      assert s[..8][4] == 's';
      assert !StartsWith(s, "http://") by {
        assert s[..7][4] == s[..8][4];
      }
      8
    else if StartsWith(s, "http://") then 7
    else 0
  }

  /** Length of the match of `p`'s regular expression that starts at the beginning of `s`, if any. */
  function MatchAt(p: Pattern, s: string): (r: Option<nat>)
    ensures r.Some? ==> 0 < r.value <= |s|
  {
    match p
    case Email =>
      var k := RunLength(s, IsEmailChar);
      if 0 < k < |s| && s[k] == '@' then
        var m := RunLength(s[k + 1..], IsEmailChar);
        if m > 0 then Some(k + 1 + m) else None
      else None
    case Url =>
      var h := SchemeLength(s);
      if h == 0 then None
      else
        var m := RunLength(s[h..], IsUrlChar);
        if m > 0 then Some(h + m) else None
  }

  lemma EmailMatchSound(s: string)
    requires MatchAt(Email, s).Some?
    ensures IsEmailAddress(s[..MatchAt(Email, s).value])
  {
    var k := RunLength(s, IsEmailChar);
    var rest := s[k + 1..];
    var m := RunLength(rest, IsEmailChar);
    var t := s[..k + 1 + m];
    forall i | 0 <= i < |t| && i != k
      ensures IsEmailChar(t[i])
    {
      if i > k {
        assert t[i] == rest[i - k - 1];
      }
    }
    assert t[k] == '@';
  }

  lemma EmailMatchLongest(s: string, m: nat)
    requires MatchAt(Email, s).Some? && MatchAt(Email, s).value < m <= |s|
    ensures !IsEmailAddress(s[..m])
  {
    var k := RunLength(s, IsEmailChar);
    var rest := s[k + 1..];
    var n := MatchAt(Email, s).value;
    assert n == k + 1 + RunLength(rest, IsEmailChar);
    assert !IsEmailChar(s[n]) by {
      assert s[n] == rest[n - k - 1];
    }
    assert s[..m][k] == '@' && s[..m][n] == s[n];
  }

  lemma EmailMatchComplete(s: string, n: nat)
    requires n <= |s| && IsEmailAddress(s[..n])
    ensures MatchAt(Email, s).Some?
  {
    var t := s[..n];
    var k :| 0 < k < |t| - 1 && t[k] == '@' && forall i :: 0 <= i < |t| && i != k ==> IsEmailChar(t[i]);
    forall i | 0 <= i < k
      ensures IsEmailChar(s[i])
    {
      assert t[i] == s[i];
    }
    assert s[k] == '@';
    assert RunLength(s, IsEmailChar) == k;
    assert IsEmailChar(s[k + 1]) by {
      assert t[k + 1] == s[k + 1];
    }
    assert s[k + 1..][0] == s[k + 1];
  }

  lemma UrlMatchSound(s: string)
    requires MatchAt(Url, s).Some?
    ensures IsUrl(s[..MatchAt(Url, s).value])
  {
    var h := SchemeLength(s);
    var rest := s[h..];
    var m := RunLength(rest, IsUrlChar);
    var t := s[..h + m];
    assert t[..h] == s[..h];
    assert t[h..] == rest[..m];
  }

  lemma UrlMatchLongest(s: string, m: nat)
    requires MatchAt(Url, s).Some? && MatchAt(Url, s).value < m <= |s|
    ensures !IsUrl(s[..m])
  {
    var h := SchemeLength(s);
    var rest := s[h..];
    var n := MatchAt(Url, s).value;
    assert n == h + RunLength(rest, IsUrlChar);
    assert !IsUrlChar(s[n]) by {
      assert s[n] == rest[n - h];
    }
    var t := s[..m];
    assert 7 <= h < n < m;
    StartsWithTruncated(s, "http://", m);
    StartsWithTruncated(s, "https://", m);
    assert t[h..][n - h] == s[n];
  }

  lemma UrlMatchComplete(s: string, n: nat)
    requires n <= |s| && IsUrl(s[..n])
    ensures MatchAt(Url, s).Some?
  {
    var t := s[..n];
    if n >= 8 {
      StartsWithTruncated(s, "https://", n);
    }
    StartsWithTruncated(s, "http://", n);
    var h := SchemeLength(s);
    assert t[h..][0] == s[h..][0];
  }

  /**
   * The scanner agrees with the regular expression: a match starts at the
   * beginning of `s` exactly when some prefix of `s` is in the pattern's
   * language, and then the match is the longest such prefix (the run after
   * the `@`, or after the scheme, is taken maximally).
   */
  lemma MatchAtIsGreedy(p: Pattern, s: string)
    ensures MatchAt(p, s).Some? <==> exists n :: 0 <= n <= |s| && InLanguage(p, s[..n])
    ensures MatchAt(p, s).Some? ==> IsLongestMatch(p, s, MatchAt(p, s).value)
  {
    match p
    case Email =>
      if MatchAt(p, s).Some? {
        EmailMatchSound(s);
        forall m | MatchAt(p, s).value < m <= |s|
          ensures !InLanguage(p, s[..m])
        {
          EmailMatchLongest(s, m);
        }
      }
      forall n | 0 <= n <= |s| && InLanguage(p, s[..n])
        ensures MatchAt(p, s).Some?
      {
        EmailMatchComplete(s, n);
      }
    case Url =>
      if MatchAt(p, s).Some? {
        UrlMatchSound(s);
        forall m | MatchAt(p, s).value < m <= |s|
          ensures !InLanguage(p, s[..m])
        {
          UrlMatchLongest(s, m);
        }
      }
      forall n | 0 <= n <= |s| && InLanguage(p, s[..n])
        ensures MatchAt(p, s).Some?
      {
        UrlMatchComplete(s, n);
      }
  }

  /** `http://` or `https://` followed by no URL character is not a match (the group needs one repetition). */
  lemma BareSchemeIsNoMatch(scheme: string, t: string)
    requires scheme == "http://" || scheme == "https://"
    requires t == [] || !IsUrlChar(t[0])
    ensures MatchAt(Url, scheme + t).None?
  {
    var s := scheme + t;
    assert s[..|scheme|] == scheme;
    if scheme == "http://" {
      assert !StartsWith(s, "https://") by {
        if |s| >= 8 { assert s[..8][4] == ':'; }
      }
    }
    assert SchemeLength(s) == |scheme|;
    assert s[|scheme|..] == t;
  }

  // ---------------------------------------------------------------------------
  // re.sub
  // ---------------------------------------------------------------------------

  /** No match of `p` starts anywhere in `s`. */
  ghost predicate NoMatchIn(p: Pattern, s: string) {
    forall i :: 0 <= i < |s| ==> MatchAt(p, s[i..]).None?
  }

  /** `re.sub(pattern, Placeholder(p), s)`: each match, leftmost first, is replaced by the placeholder. */
  function Substitute(p: Pattern, s: string): (r: string)
    ensures forall c :: c in r ==> c in s || c in Placeholder(p)
    decreases |s|
  {
    if |s| == 0 then ""
    else
      match MatchAt(p, s)
      case Some(n) => Placeholder(p) + Substitute(p, s[n..])
      case None => [s[0]] + Substitute(p, s[1..])
  }

  /** `re.sub` at a position where no match starts keeps that character and goes on with the next. */
  lemma SubstituteKeeps(p: Pattern, s: string)
    requires |s| > 0 && MatchAt(p, s).None?
    ensures Substitute(p, s) == [s[0]] + Substitute(p, s[1..])
  {
  }

  /** `re.sub` at a match puts the placeholder in its place and goes on after it. */
  lemma SubstituteReplaces(p: Pattern, s: string, n: nat)
    requires |s| > 0 && MatchAt(p, s) == Some(n)
    ensures Substitute(p, s) == Placeholder(p) + Substitute(p, s[n..])
  {
  }

  lemma NoMatchInTail(p: Pattern, s: string)
    requires |s| > 0 && NoMatchIn(p, s)
    ensures MatchAt(p, s).None? && NoMatchIn(p, s[1..])
  {
    assert s[0..] == s;
    forall i | 0 <= i < |s| - 1 ensures MatchAt(p, s[1..][i..]).None? {
      assert s[1..][i..] == s[i + 1..];
    }
  }

  /** Text in which no match starts comes back unchanged. */
  lemma {:induction false} SubstituteWithoutMatch(p: Pattern, s: string)
    requires NoMatchIn(p, s)
    ensures Substitute(p, s) == s
    decreases |s|
  {
    if |s| > 0 {
      NoMatchInTail(p, s);
      SubstituteKeeps(p, s);
      SubstituteWithoutMatch(p, s[1..]);
      assert s == [s[0]] + s[1..];
    }
  }

  /** A piece of the input as the substitution consumes it: one character at which no match starts, or a whole match. */
  datatype Piece = Kept(c: char) | Matched(span: string)

  /** The input text one piece covers. */
  function PieceText(piece: Piece): string {
    match piece
    case Kept(c) => [c]
    case Matched(span) => span
  }

  /** The input text the pieces cover. */
  function Covered(ps: seq<Piece>): string
    decreases |ps|
  {
    if |ps| == 0 then "" else PieceText(ps[0]) + Covered(ps[1..])
  }

  /** The output the pieces produce: kept characters stay, each match becomes the placeholder. */
  function Rendered(p: Pattern, ps: seq<Piece>): string
    decreases |ps|
  {
    if |ps| == 0 then ""
    else
      (match ps[0] case Kept(c) => [c] case Matched(_) => Placeholder(p)) + Rendered(p, ps[1..])
  }

  /** The piece was cut where the scanner stands when `rest` is what remains of the input. */
  ghost predicate CutBy(p: Pattern, piece: Piece, rest: string) {
    match piece
    case Kept(_) => MatchAt(p, rest).None?
    case Matched(span) => MatchAt(p, rest) == Some(|span|)
  }

  /** Every piece of `ps` was cut where the scanner stands at it. */
  ghost predicate AllCut(p: Pattern, ps: seq<Piece>) {
    forall j :: 0 <= j < |ps| ==> CutBy(p, ps[j], Covered(ps[j..]))
  }

  lemma AllCutCons(p: Pattern, piece: Piece, tail: seq<Piece>)
    requires CutBy(p, piece, PieceText(piece) + Covered(tail)) && AllCut(p, tail)
    ensures AllCut(p, [piece] + tail)
  {
    var ps := [piece] + tail;
    assert ps[0..] == ps && ps[1..] == tail;
    forall j | 1 <= j < |ps|
      ensures CutBy(p, ps[j], Covered(ps[j..]))
    {
      assert ps[j..] == tail[j - 1..];
    }
  }

  /** The piece `re.sub` consumes at the start of a non-empty `s`. */
  function FirstPiece(p: Pattern, s: string): (piece: Piece)
    requires |s| > 0
    ensures 0 < |PieceText(piece)| <= |s| && PieceText(piece) == s[..|PieceText(piece)|]
    ensures CutBy(p, piece, s)
  {
    match MatchAt(p, s)
    case Some(n) => Matched(s[..n])
    case None => Kept(s[0])
  }

  lemma SegmentsStep(p: Pattern, s: string, piece: Piece, tail: seq<Piece>)
    requires 0 < |PieceText(piece)| <= |s| && PieceText(piece) == s[..|PieceText(piece)|]
    requires CutBy(p, piece, s)
    requires Covered(tail) == s[|PieceText(piece)|..] && AllCut(p, tail)
    ensures Covered([piece] + tail) == s && AllCut(p, [piece] + tail)
  {
    assert s == PieceText(piece) + Covered(tail);
    assert Covered([piece] + tail) == s by {
      var ps := [piece] + tail;
      assert ps[0] == piece && ps[1..] == tail;
    }
    assert AllCut(p, [piece] + tail) by {
      AllCutCons(p, piece, tail);
    }
  }

  /** How `re.sub` divides `s`: the pieces cover `s` exactly, in order, each cut where the scanner cuts it. */
  function Segments(p: Pattern, s: string): (ps: seq<Piece>)
    ensures Covered(ps) == s
    ensures AllCut(p, ps)
    decreases |s|
  {
    if |s| == 0 then []
    else
      var piece := FirstPiece(p, s);
      var tail := Segments(p, s[|PieceText(piece)|..]);
      SegmentsStep(p, s, piece, tail);
      [piece] + tail
  }

  /** The result of the substitution is the rendering of the pieces the scanner cuts the input into. */
  lemma {:induction false} SubstituteRendersSegments(p: Pattern, s: string)
    ensures Substitute(p, s) == Rendered(p, Segments(p, s))
    decreases |s|
  {
    if |s| > 0 {
      var ps := Segments(p, s);
      var n := |PieceText(FirstPiece(p, s))|;
      assert ps[0] == FirstPiece(p, s) && ps[1..] == Segments(p, s[n..]);
      match MatchAt(p, s)
      case Some(m) =>
        SubstituteReplaces(p, s, m);
        SubstituteRendersSegments(p, s[n..]);
      case None =>
        SubstituteKeeps(p, s);
        SubstituteRendersSegments(p, s[n..]);
    }
  }

  /**
   * Each piece, read against the input that remains at it, is what the
   * regular expression dictates: a kept character starts no prefix in the
   * pattern's language, and a matched span is the longest prefix that is.
   */
  lemma SegmentsFollowPattern(p: Pattern, s: string, j: nat)
    requires j < |Segments(p, s)|
    ensures var ps := Segments(p, s); var rest := Covered(ps[j..]);
      match ps[j]
      case Kept(c) => |rest| > 0 && rest[0] == c && forall n :: 0 <= n <= |rest| ==> !InLanguage(p, rest[..n])
      case Matched(span) => |span| <= |rest| && rest[..|span|] == span && IsLongestMatch(p, rest, |span|)
  {
    var ps := Segments(p, s);
    var rest := Covered(ps[j..]);
    assert ps[j..][0] == ps[j] && ps[j..][1..] == ps[j + 1..];
    MatchAtIsGreedy(p, rest);
    match ps[j]
    case Kept(c) =>
    case Matched(span) =>
      assert rest == span + Covered(ps[j + 1..]);
      assert rest[..|span|] == span;
  }

  // ---------------------------------------------------------------------------
  // anonymize_text
  // ---------------------------------------------------------------------------

  /** `s` contains `http://` or `https://` somewhere. */
  predicate ContainsScheme(s: string) {
    exists i :: 0 <= i <= |s| && (StartsWith(s[i..], "http://") || StartsWith(s[i..], "https://"))
  }

  lemma NoAtNoEmailMatch(s: string)
    requires '@' !in s
    ensures NoMatchIn(Email, s)
  {
    forall i | 0 <= i < |s|
      ensures MatchAt(Email, s[i..]).None?
    {
      var t := s[i..];
      var k := RunLength(t, IsEmailChar);
      if k < |t| {
        assert t[k] == s[i + k];
      }
    }
  }

  lemma NoSchemeNoUrlMatch(s: string)
    requires !ContainsScheme(s)
    ensures NoMatchIn(Url, s)
  {
    forall i | 0 <= i < |s|
      ensures MatchAt(Url, s[i..]).None?
    {
      assert !StartsWith(s[i..], "http://") && !StartsWith(s[i..], "https://");
    }
  }

  /**
   * `anonymize_text`. `None` stands for an argument that is not a `str`
   * (a missing body read back as NaN, say). E-mail addresses are masked
   * first, and the URL pass reads the already masked text.
   */
  function Anonymize(text: Option<string>): (r: string)
    ensures text.None? ==> r == ""
    ensures text.Some? && '@' !in text.value && !ContainsScheme(text.value) ==> r == text.value
  {
    match text
    case None => ""
    case Some(s) =>
      AnonymizeWithoutMatch(s);
      Substitute(Url, Substitute(Email, s))
  }

  /** Text with no `@` and no URL scheme goes through both passes unchanged. */
  lemma AnonymizeWithoutMatch(s: string)
    ensures '@' !in s && !ContainsScheme(s) ==> Substitute(Url, Substitute(Email, s)) == s
  {
    if '@' !in s && !ContainsScheme(s) {
      NoAtNoEmailMatch(s);
      SubstituteWithoutMatch(Email, s);
      NoSchemeNoUrlMatch(s);
      SubstituteWithoutMatch(Url, s);
    }
  }

  lemma EmailMatchOnExample()
    ensures MatchAt(Email, "x@http://y") == Some(6)
  {
    var s := "x@http://y";
    RunLengthIs(s, IsEmailChar, 1);
    RunLengthIs(s[2..], IsEmailChar, 4);
  }

  lemma EmailPassOnExample()
    ensures Substitute(Email, "x@http://y") == "[email_address]://y"
  {
    var s := "x@http://y";
    var t := "://y";
    EmailMatchOnExample();
    assert s[6..] == t;
    NoAtNoEmailMatch(t);
    SubstituteWithoutMatch(Email, t);
  }

  /** Every scheme starts with `h`. */
  lemma NoHNoScheme(s: string)
    requires 'h' !in s
    ensures !ContainsScheme(s)
  {
    forall i | 0 <= i <= |s|
      ensures !StartsWith(s[i..], "http://") && !StartsWith(s[i..], "https://")
    {
      if i < |s| { assert s[i..][0] == s[i]; }
    }
  }

  lemma MaskedExampleHasNoScheme()
    ensures !ContainsScheme("[email_address]://y")
  {
    NoHNoScheme("[email_address]://y");
  }

  /** The raw example text holds a URL match: `http://y` after its first two characters. */
  lemma RawExampleHasUrl()
    ensures MatchAt(Url, "x@http://y"[2..]) == Some(8)
  {
    var u := "x@http://y"[2..];
    assert u == "http://y";
    assert StartsWith(u, "http://");
    assert u[7..] == "y";
    RunLengthIs(u[7..], IsUrlChar, 1);
  }

  /**
   * `anonymize_text` on a string is two passes over pieces: the input is cut
   * into e-mail matches and kept characters and rendered, and that rendering
   * is cut into URL matches and kept characters and rendered again. Kept
   * characters come through unchanged and in order; every match becomes its
   * placeholder.
   */
  lemma AnonymizeIsTwoPasses(s: string)
    ensures var masked := Rendered(Email, Segments(Email, s));
      && Covered(Segments(Url, masked)) == masked
      && Anonymize(Some(s)) == Rendered(Url, Segments(Url, masked))
  {
    SubstituteRendersSegments(Email, s);
    SubstituteRendersSegments(Url, Substitute(Email, s));
  }

  /**
   * The order of the two passes is observable: `x@http://y` holds the URL
   * `http://y`, but the e-mail pass consumes `x@http` first, so no URL is
   * left for the second pass to mask.
   */
  lemma EmailMaskedBeforeUrl()
    ensures MatchAt(Url, "x@http://y"[2..]) == Some(8)
    ensures Anonymize(Some("x@http://y")) == "[email_address]://y"
  {
    RawExampleHasUrl();
    EmailPassOnExample();
    MaskedExampleHasNoScheme();
    NoSchemeNoUrlMatch("[email_address]://y");
    SubstituteWithoutMatch(Url, "[email_address]://y");
  }
}
