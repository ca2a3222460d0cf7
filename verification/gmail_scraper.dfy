/**
 * The Gmail content script: the open message becomes a single review record
 * when its subject, sender, date and body elements are all on the page.
 */
module GmailScraper {
  import opened Wrappers
  import opened Reviews

  /** The sender element (`span[email]`) with its `name` and `email` attributes. */
  datatype SenderElement = SenderElement(name: Option<string>, email: Option<string>)

  /** The date element (`span.g3[title]`) with its `title` attribute. */
  datatype DateElement = DateElement(title: Option<string>)

  /**
   * What the script reads from the page: the `innerText` of the subject and
   * body elements, the sender and date elements, and the page address;
   * `None` where a selector finds nothing.
   */
  datatype GmailPage = GmailPage(
    subject: Option<string>,
    sender: Option<SenderElement>,
    date: Option<DateElement>,
    body: Option<string>,
    url: string)

  /** The sender's display name, else the address, else `N/A`. */
  function AuthorOf(sender: SenderElement): (author: string)
    ensures author != ""
    ensures Truthy(sender.name) ==> author == sender.name.value
    ensures !Truthy(sender.name) && Truthy(sender.email) ==> author == sender.email.value
    ensures !Truthy(sender.name) && !Truthy(sender.email) ==> author == NotAvailable
  {
    OrElse(sender.name, OrElse(sender.email, NotAvailable))
  }

  /** The date element's `title`, else `N/A`. */
  function DateOf(date: DateElement): (d: string)
    ensures d != ""
    ensures Truthy(date.title) ==> d == date.title.value
    ensures !Truthy(date.title) ==> d == NotAvailable
  {
    OrElse(date.title, NotAvailable)
  }

  predicate AllElementsFound(page: GmailPage) {
    page.subject.Some? && page.sender.Some? && page.date.Some? && page.body.Some?
  }

  /**
   * `scrapeGmail`: a missing element means the failure message and no
   * record; otherwise exactly one record, without stars, whose text is the
   * subject and the body separated by a blank line.
   */
  function ScrapeGmail(page: GmailPage): (m: Message)
    ensures m == ShowScrapeFailedError <==> !AllElementsFound(page)
    ensures m != ShowScrapeFailedError ==> m.ScrapedReviews? && |m.data| == 1
    ensures m.ScrapedReviews? ==>
              m.data[0] == Review(AuthorOf(page.sender.value), DateOf(page.date.value), 0,
                                  page.subject.value + ParagraphBreak + page.body.value, Some(page.url))
  {
    if !AllElementsFound(page) then ShowScrapeFailedError
    else
      var text := page.subject.value + ParagraphBreak + page.body.value;
      ScrapedReviews([Review(AuthorOf(page.sender.value), DateOf(page.date.value), 0, text, Some(page.url))])
  }

  /**
   * The one record of a successful scrape always names an author and a date,
   * carries no stars, and its text gives back the subject and the body.
   */
  lemma GmailRecordIsComplete(page: GmailPage)
    requires AllElementsFound(page)
    ensures var r := ScrapeGmail(page).data[0];
      && r.author != "" && r.date != "" && r.stars == 0
      && r.text[..|page.subject.value|] == page.subject.value
      && r.text[|page.subject.value| + |ParagraphBreak|..] == page.body.value
  {
    var r := ScrapeGmail(page).data[0];
    var s := page.subject.value;
    assert r.text == s + ParagraphBreak + page.body.value;
    assert r.text[..|s|] == s;
    assert r.text[|s| + |ParagraphBreak|..] == page.body.value;
  }
}
