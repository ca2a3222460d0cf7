/**
 * What the three content scripts of the browser extension produce: review
 * records, and the one message each scrape sends back to the extension with
 * `chrome.runtime.sendMessage`.
 */
module Reviews {
  import opened Wrappers

  /**
   * A scraped review. `url` is the page address; Play Console records carry
   * none, so theirs is `None`.
   */
  datatype Review = Review(author: string, date: string, stars: nat, text: string, url: Option<string>)

  /** The message a scrape sends, by its `type` field. */
  datatype Message =
    | ScrapedReviews(data: seq<Review>)  // 'SCRAPED_REVIEWS' with the records
    | ScrapeFailed                       // 'SCRAPE_FAILED'
    | ShowScrapeFailedError              // 'SHOW_SCRAPE_FAILED_ERROR'

  /** The placeholder for an author or date the page does not show. */
  const NotAvailable: string := "N/A"

  /** The blank line the scrapers put between a title or subject and the body. */
  const ParagraphBreak: string := "\n\n"

  /** JavaScript truthiness of a string that may be `null` or `undefined`: present and non-empty. */
  predicate Truthy(v: Option<string>) {
    v.Some? && v.value != ""
  }

  /** `v || fallback` for a string that may be `null`. */
  function OrElse(v: Option<string>, fallback: string): string {
    if Truthy(v) then v.value else fallback
  }

  /** `v` when present, else `fallback` (`el ? el.innerText : fallback`). */
  function ValueOr(v: Option<string>, fallback: string): string {
    match v
    case Some(s) => s
    case None => fallback
  }
}
