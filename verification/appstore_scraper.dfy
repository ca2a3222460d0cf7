/**
 * The App Store content script: splitting the combined author/date line,
 * reading the star count, and assembling one review record per review
 * element of the page.
 */
module AppStoreScraper {
  import opened Wrappers
  import opened Strings
  import opened Reviews

  /** The separators `/–|-/` splits on: the en dash and the hyphen-minus. */
  const Dashes: set<char> := {'\U{2013}', '-'}

  datatype AuthorDate = AuthorDate(author: string, date: string)

  /** The first dash of `s` is at `i`. */
  ghost predicate FirstDashAt(s: string, i: nat) {
    i < |s| && s[i] in Dashes && Avoids(s[..i], Dashes)
  }

  /**
   * `parseAuthorAndDate`. The part before the first dash is the date; the
   * rest, with its pieces re-joined by `-`, is the author.
   */
  function ParseAuthorAndDate(text: Option<string>): (r: AuthorDate)
    ensures !Truthy(text) ==> r == AuthorDate(NotAvailable, NotAvailable)
    ensures Truthy(text) && Avoids(text.value, Dashes) ==> r == AuthorDate(Trim(JavaScript, text.value), NotAvailable)
    ensures Truthy(text) ==> forall i: nat :: FirstDashAt(text.value, i) ==>
              && r.date == Trim(JavaScript, text.value[..i])
              && r.author == Trim(JavaScript, ReplaceAll(text.value[i + 1..], Dashes, '-'))
  {
    if !Truthy(text) then AuthorDate(NotAvailable, NotAvailable)
    else
      var s := text.value;
      var parts := Split(s, Dashes);
      if |parts| >= 2 then
        var r := AuthorDate(Trim(JavaScript, Join(parts[1..], "-")), Trim(JavaScript, parts[0]));
        assert forall i: nat :: FirstDashAt(s, i) ==>
                 r.date == Trim(JavaScript, s[..i]) && r.author == Trim(JavaScript, ReplaceAll(s[i + 1..], Dashes, '-')) by {
          forall i: nat | FirstDashAt(s, i)
            ensures r.date == Trim(JavaScript, s[..i]) && r.author == Trim(JavaScript, ReplaceAll(s[i + 1..], Dashes, '-'))
          {
            SplitAtFirst(s, Dashes, i);
            assert parts[1..] == Split(s[i + 1..], Dashes);
            JoinSplit(s[i + 1..], Dashes, '-');
          }
        }
        r
      else
        AuthorDate(Trim(JavaScript, s), NotAvailable)
  }

  /** A dash somewhere in the text means a date was split off, and that date holds no dash. */
  lemma DateHasNoDash(text: Option<string>)
    requires Truthy(text) && !Avoids(text.value, Dashes)
    ensures Avoids(ParseAuthorAndDate(text).date, Dashes)
  {
    var parts := Split(text.value, Dashes);
    assert |parts| >= 2;
    TrimAvoids(JavaScript, parts[0], Dashes);
  }

  /**
   * `parseRating`: the number of children of the rating container (one icon
   * per star), or 0 when the review has no rating container.
   */
  function ParseRating(childElementCount: Option<nat>): (stars: nat)
    ensures childElementCount.None? ==> stars == 0
    ensures childElementCount.Some? ==> stars == childElementCount.value
  {
    match childElementCount
    case None => 0
    case Some(n) => n
  }

  /**
   * The review text: title and body separated by a blank line, or the body
   * alone when the title is empty or missing.
   */
  function ComposeText(title: string, body: string): (text: string)
    ensures |body| <= |text| && text[|text| - |body|..] == body
    ensures title == "" <==> text == body
    ensures title != "" ==> |text| == |title| + |ParagraphBreak| + |body|
    ensures title != "" ==> text[..|title| + 2] == title + ParagraphBreak
  {
    if title != "" then
      var text := title + ParagraphBreak + body;
      assert text[|text| - |body|..] == body;
      assert text[..|title| + 2] == title + ParagraphBreak;
      text
    else
      body
  }

  /**
   * One review element as the scraper sees it: the `innerText` of the
   * author/date, title and body elements, and the child count of the rating
   * container; `None` where the element's selector finds nothing.
   */
  datatype ReviewElement = ReviewElement(
    authorDate: Option<string>,
    ratingChildren: Option<nat>,
    title: Option<string>,
    body: Option<string>)

  /** The record built from one review element of the page at `url`. */
  function ScrapeElement(e: ReviewElement, url: string): (r: Review)
    ensures r.url == Some(url)
    ensures AuthorDate(r.author, r.date) == ParseAuthorAndDate(e.authorDate)
    ensures r.stars == ParseRating(e.ratingChildren)
    ensures r.text == ComposeText(ValueOr(e.title, ""), ValueOr(e.body, ""))
  {
    var ad := ParseAuthorAndDate(e.authorDate);
    Review(ad.author, ad.date, ParseRating(e.ratingChildren),
           ComposeText(ValueOr(e.title, ""), ValueOr(e.body, "")), Some(url))
  }

  /**
   * `scrapeAppStoreReviews`: no review element means the failure message;
   * otherwise one record per element, in document order, all for the same
   * page.
   */
  function ScrapeAppStoreReviews(elements: seq<ReviewElement>, url: string): (m: Message)
    ensures m == ShowScrapeFailedError <==> |elements| == 0
    ensures m != ShowScrapeFailedError ==> m.ScrapedReviews? && |m.data| == |elements|
    ensures m.ScrapedReviews? ==> forall i :: 0 <= i < |elements| ==> m.data[i] == ScrapeElement(elements[i], url)
    ensures m.ScrapedReviews? ==> forall r :: r in m.data ==> r.url == Some(url)
  {
    if |elements| == 0 then ShowScrapeFailedError
    else ScrapedReviews(seq(|elements|, i requires 0 <= i < |elements| => ScrapeElement(elements[i], url)))
  }
}
