/**
 * The Google Play Console content script: reading the star count out of the
 * star widget's `aria-label`, trimming the text fields, keeping only complete
 * reviews, and reporting success or failure.
 */
module PlayConsoleScraper {
  import opened Wrappers
  import opened Strings
  import opened Reviews

  // ---------------------------------------------------------------------------
  // Star rating: `ariaLabel.match(/(\d+)/)` and `parseInt(..., 10)`
  // ---------------------------------------------------------------------------

  /** Index of the first ASCII digit of `s`, if there is one. */
  function FirstDigitIndex(s: string): (r: Option<nat>)
    ensures r.None? <==> forall i :: 0 <= i < |s| ==> !IsDigit(s[i])
    ensures r.Some? ==> r.value < |s| && IsDigit(s[r.value])
    ensures r.Some? ==> forall i :: 0 <= i < r.value ==> !IsDigit(s[i])
    decreases |s|
  {
    if |s| == 0 then None
    else if IsDigit(s[0]) then Some(0)
    else
      match FirstDigitIndex(s[1..])
      case None => None
      case Some(i) => Some(i + 1)
  }

  predicate AllDigits(d: string) {
    forall i :: 0 <= i < |d| ==> IsDigit(d[i])
  }

  function DigitValue(c: char): nat
    requires IsDigit(c)
  {
    (c as int) - ('0' as int)
  }

  function DigitChar(v: nat): (c: char)
    requires v < 10
    ensures IsDigit(c) && DigitValue(c) == v
  {
    (('0' as int) + v) as char
  }

  /** The number a run of decimal digits denotes (leading zeros allowed, as `parseInt` reads them). */
  function DecimalValue(d: string): nat
    requires AllDigits(d)
    decreases |d|
  {
    if |d| == 0 then 0 else DecimalValue(d[..|d| - 1]) * 10 + DigitValue(d[|d| - 1])
  }

  /** The decimal numeral of `n`, without leading zeros. */
  function DecimalString(n: nat): (d: string)
    ensures |d| > 0 && AllDigits(d)
    decreases n
  {
    if n < 10 then [DigitChar(n)] else DecimalString(n / 10) + [DigitChar(n % 10)]
  }

  /** Reading back a numeral gives the number it was written from. */
  lemma {:induction false} DecimalRoundTrip(n: nat)
    ensures DecimalValue(DecimalString(n)) == n
    decreases n
  {
    var d := DecimalString(n);
    if n >= 10 {
      DecimalRoundTrip(n / 10);
      assert d[..|d| - 1] == DecimalString(n / 10);
    }
  }

  /**
   * The star count: the value of the first maximal run of digits in the
   * label, or 0 when the label holds no digit.
   */
  function StarsFromLabel(ariaLabel: string): (stars: nat)
    ensures (forall i :: 0 <= i < |ariaLabel| ==> !IsDigit(ariaLabel[i])) ==> stars == 0
  {
    match FirstDigitIndex(ariaLabel)
    case None => 0
    case Some(i) =>
      var rest := ariaLabel[i..];
      var n := RunLength(rest, IsDigit);
      DecimalValue(rest[..n])
  }

  /**
   * Whatever text surrounds it, the first number of the label is the star
   * count: with no digit before it and none right after it, `digits` is
   * exactly what the pattern `(\d+)` matches.
   */
  lemma StarsReadFirstNumber(before: string, digits: string, after: string)
    requires forall i :: 0 <= i < |before| ==> !IsDigit(before[i])
    requires |digits| > 0 && AllDigits(digits)
    requires after == [] || !IsDigit(after[0])
    ensures StarsFromLabel(before + digits + after) == DecimalValue(digits)
  {
    var ariaLabel := before + digits + after;
    var rest := digits + after;
    assert ariaLabel == before + rest;
    FirstDigitAfter(before, rest);
    assert ariaLabel[|before|..] == rest;
    RunLengthIs(rest, IsDigit, |digits|);
    assert rest[..|digits|] == digits;
  }

  lemma FirstDigitAfter(before: string, rest: string)
    requires forall i :: 0 <= i < |before| ==> !IsDigit(before[i])
    requires |rest| > 0 && IsDigit(rest[0])
    ensures FirstDigitIndex(before + rest) == Some(|before|)
  {
    var s := before + rest;
    assert IsDigit(s[|before|]);
    assert forall i :: 0 <= i < |before| ==> s[i] == before[i];
  }

  /** A count written into the label as a numeral is read back unchanged. */
  lemma StarsReadNumeral(before: string, n: nat, after: string)
    requires forall i :: 0 <= i < |before| ==> !IsDigit(before[i])
    requires after == [] || !IsDigit(after[0])
    ensures StarsFromLabel(before + DecimalString(n) + after) == n
  {
    StarsReadFirstNumber(before, DecimalString(n), after);
    DecimalRoundTrip(n);
  }

  // ---------------------------------------------------------------------------
  // Scraping
  // ---------------------------------------------------------------------------

  /**
   * One `.review-container` element: the `textContent` of its author, date
   * and body elements and the `aria-label` of its star widget; `None` where
   * the element, or the attribute, is missing.
   */
  datatype ReviewElement = ReviewElement(
    author: Option<string>,
    date: Option<string>,
    text: Option<string>,
    starLabel: Option<string>)

  /** `el?.textContent.trim()` is truthy: the element exists and its trimmed text is not empty. */
  predicate HasContent(v: Option<string>) {
    v.Some? && Trim(JavaScript, v.value) != ""
  }

  /**
   * The record for one review element, kept only when author, date and text
   * all have content; the record stores the trimmed values.
   */
  function ScrapeElement(e: ReviewElement): (r: Option<Review>)
    ensures r.Some? <==> HasContent(e.author) && HasContent(e.date) && HasContent(e.text)
    ensures r.Some? ==> r.value == Review(Trim(JavaScript, e.author.value), Trim(JavaScript, e.date.value),
                                          StarsFromLabel(OrElse(e.starLabel, "")),
                                          Trim(JavaScript, e.text.value), None)
    ensures r.Some? ==> r.value.author != "" && r.value.date != "" && r.value.text != ""
  {
    var stars := StarsFromLabel(OrElse(e.starLabel, ""));
    if HasContent(e.author) && HasContent(e.date) && HasContent(e.text) then
      Some(Review(Trim(JavaScript, e.author.value), Trim(JavaScript, e.date.value), stars, Trim(JavaScript, e.text.value), None))
    else
      None
  }

  /** The `reviews` array after the `forEach`: the kept records, in page order. */
  function KeptReviews(elements: seq<ReviewElement>): (reviews: seq<Review>)
    ensures |reviews| <= |elements|
    ensures |reviews| == 0 <==> forall i :: 0 <= i < |elements| ==> ScrapeElement(elements[i]).None?
    ensures forall r :: r in reviews ==> r.author != "" && r.date != "" && r.text != "" && r.url.None?
    decreases |elements|
  {
    if |elements| == 0 then []
    else
      var tail := KeptReviews(elements[1..]);
      assert forall i :: 1 <= i < |elements| ==> elements[i] == elements[1..][i - 1];
      match ScrapeElement(elements[0])
      case Some(r) => [r] + tail
      case None => tail
  }

  /** Keeping is element by element: the records of a concatenation are the concatenated records. */
  lemma {:induction false} KeptReviewsAppend(a: seq<ReviewElement>, b: seq<ReviewElement>)
    ensures KeptReviews(a + b) == KeptReviews(a) + KeptReviews(b)
    decreases |a|
  {
    if |a| > 0 {
      assert (a + b)[0] == a[0] && (a + b)[1..] == a[1..] + b;
      KeptReviewsAppend(a[1..], b);
    } else {
      assert a + b == b;
    }
  }

  /** One element contributes its own record when it is complete, and nothing otherwise. */
  lemma KeptReviewsOne(e: ReviewElement)
    ensures KeptReviews([e]) == if ScrapeElement(e).Some? then [ScrapeElement(e).value] else []
  {
    assert [e][1..] == [];
  }

  /** `r` is the record of some complete element. */
  predicate IsRecordOf(elements: seq<ReviewElement>, r: Review) {
    exists i :: 0 <= i < |elements| && ScrapeElement(elements[i]) == Some(r)
  }

  /** The kept records are exactly the records of the complete elements. */
  lemma {:induction false} KeptReviewsContents(elements: seq<ReviewElement>)
    ensures forall r :: r in KeptReviews(elements) <==> IsRecordOf(elements, r)
    decreases |elements|
  {
    if |elements| > 0 {
      var tail := elements[1..];
      assert elements == [elements[0]] + tail;
      KeptReviewsAppend([elements[0]], tail);
      KeptReviewsOne(elements[0]);
      KeptReviewsContents(tail);
      forall r ensures r in KeptReviews(elements) <==> IsRecordOf(elements, r) {
        IsRecordOfCons(elements, r);
      }
    }
  }

  lemma IsRecordOfCons(elements: seq<ReviewElement>, r: Review)
    requires |elements| > 0
    ensures IsRecordOf(elements, r) <==> ScrapeElement(elements[0]) == Some(r) || IsRecordOf(elements[1..], r)
  {
    ImageCons(elements, ScrapeElement, Some(r));
  }

  /** Some element of a non-empty sequence maps to `y` exactly when its head or an element of its tail does. */
  lemma ImageCons<T, U>(xs: seq<T>, f: T -> U, y: U)
    requires |xs| > 0
    ensures (exists i :: 0 <= i < |xs| && f(xs[i]) == y)
        <==> f(xs[0]) == y || exists j :: 0 <= j < |xs[1..]| && f(xs[1..][j]) == y
  {
    var tail := xs[1..];
    if exists i :: 0 <= i < |xs| && f(xs[i]) == y {
      var i :| 0 <= i < |xs| && f(xs[i]) == y;
      if i > 0 {
        assert tail[i - 1] == xs[i];
      }
    }
    if exists j :: 0 <= j < |tail| && f(tail[j]) == y {
      var j :| 0 <= j < |tail| && f(tail[j]) == y;
      assert xs[j + 1] == tail[j];
    }
  }

  /**
   * `scrapeReviews`: the kept records are sent as `SCRAPED_REVIEWS` when
   * there is at least one; otherwise `SCRAPE_FAILED` is sent, without data.
   */
  function ScrapeReviews(elements: seq<ReviewElement>): (m: Message)
    ensures m.ScrapedReviews? || m == ScrapeFailed
    ensures m == ScrapeFailed <==> forall i :: 0 <= i < |elements| ==> ScrapeElement(elements[i]).None?
    ensures m.ScrapedReviews? ==> m.data == KeptReviews(elements) && |m.data| > 0
  {
    var reviews := KeptReviews(elements);
    if |reviews| > 0 then ScrapedReviews(reviews) else ScrapeFailed
  }
}
