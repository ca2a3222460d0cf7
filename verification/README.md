# Review-reply assistant: text transforms in Dafny

This project models the text-processing core of a review-reply assistant. The
assistant gathers app reviews and e-mails and turns them into training pairs
for a language model. The model covers five pure transforms.

- **Contact anonymiser** (`anonymize_text`). Two left-to-right regular-expression
  substitutions run in order: e-mail-shaped spans become `[email_address]`, then
  URLs become `[url]`. Each pattern is modelled as an explicit scanner (`MatchAt`)
  and as a declared language (`InLanguage`). The model proves the scanner finds the
  longest prefix in that language. `re.sub` is modelled as a left-to-right
  substitution. It is also described as a cut of the input into kept characters
  and matched spans (`Segments`).
- **Training-record builder** (the data-processing notebook):
  - the link and title columns are dropped;
  - rows with a missing or blank review or reply are dropped;
  - each remaining row becomes a prompt of `column: value` lines, one for each
    column other than the reply;
  - the completion is the stripped reply.

  A table is a sequence of column names plus rows of cells. A missing cell reads
  `nan`.
- **App Store scraper**:
  - `parseAuthorAndDate` splits at the first `-` or `–`;
  - `parseRating` counts children;
  - title and body are composed into the review text;
  - the page yields one record per review element.
- **Play Console scraper**:
  - the star count is the first run of digits in the `aria-label`;
  - fields are trimmed;
  - a review is kept only when author, date and text all have content;
  - the scrape reports success or failure.
- **Gmail scraper**:
  - it fails unless all four elements are present;
  - author and date fall back to other attributes, then to `N/A`;
  - subject and body are composed into the text;
  - it yields a single record.

The document, the network and the extension's messaging are not part of this
model. The scrapers take element contents and attributes as `Option` inputs
(`None` when a selector finds nothing). They take the page address as a
parameter. They return the message they would send (`Reviews.Message`).

Files:

| file | module |
|---|---|
| `wrappers.dfy` | `Option` and `Result` |
| `strings.dfy` | the whitespace of Python's `strip` and JavaScript's `trim`, trimming, maximal runs, split and join |
| `anonymizer.dfy` | `anonymize_text` |
| `training_data.dfy` | the notebook's training-set builder |
| `reviews.dfy` | review records and scraper messages shared by the three scrapers |
| `appstore_scraper.dfy` | the App Store content script |
| `play_console_scraper.dfy` | the Play Console content script |
| `gmail_scraper.dfy` | the Gmail content script |

## Model

| member | source | states |
|---|---|---|
| Anonymizer.Anonymize | data/scripts/mbox_converter.py:51-57 | An argument that is not a string gives the empty string. A text with no `@` and no `http://` or `https://` comes back unchanged. |
| Anonymizer.AnonymizeWithoutMatch | data/scripts/mbox_converter.py:54-56 | A text with no `@` and no `http://` or `https://` goes through the e-mail pass and then the URL pass unchanged. |
| Anonymizer.SchemeLength | data/scripts/mbox_converter.py:56 | The scheme read at the start is 8 long exactly for `https://`, 7 long exactly for `http://`, and 0 otherwise. |
| Anonymizer.EmailMatchSound | data/scripts/mbox_converter.py:54 | A match the e-mail scanner reports is in the language of `[\w\.-]+@[\w\.-]+`. |
| Anonymizer.EmailMatchLongest | data/scripts/mbox_converter.py:54 | No prefix longer than the e-mail match is in that language, so the right-hand run is taken greedily. |
| Anonymizer.EmailMatchComplete | data/scripts/mbox_converter.py:54 | If any prefix is an e-mail address, the scanner reports a match. |
| Anonymizer.PercentEscapeIsUrlChars | data/scripts/mbox_converter.py:56 | `%` and each hexadecimal digit of a `%XX` escape are already single characters of the URL class. |
| Anonymizer.UrlMatchSound | data/scripts/mbox_converter.py:56 | A URL match is a scheme followed by at least one allowed character. |
| Anonymizer.UrlMatchLongest | data/scripts/mbox_converter.py:56 | No prefix longer than the URL match is a URL: the run of allowed characters is maximal. |
| Anonymizer.UrlMatchComplete | data/scripts/mbox_converter.py:56 | If any prefix is a URL, the scanner reports a match. |
| Anonymizer.MatchAtIsGreedy | data/scripts/mbox_converter.py:54-56 | For both patterns, a match starts at a position exactly when some prefix there is in the pattern's language. The match is then the longest such prefix. |
| Anonymizer.MatchAt | data/scripts/mbox_converter.py:54-56 | The scanner for one position of either pattern. For the e-mail pattern (line 54) it reads an e-mail run, an `@`, then another e-mail run. For the URL pattern (line 56) it reads `http://` or `https://`, then a run of URL characters. A match it reports is non-empty and stays inside the text. `MatchAtIsGreedy` states that it finds exactly the longest prefix in the pattern's language. |
| Anonymizer.BareSchemeIsNoMatch | data/scripts/mbox_converter.py:56 | `http://` or `https://` followed by no allowed character is not a match, because the `+` needs one repetition. |
| Anonymizer.SubstituteWithoutMatch | data/scripts/mbox_converter.py:54-56 | A substitution leaves a text unchanged when no match starts anywhere in it. |
| Anonymizer.Segments | data/scripts/mbox_converter.py:54-56 | The pieces a substitution cuts cover the input exactly and in order. Each piece is cut where the scanner stands. |
| Anonymizer.SubstituteRendersSegments | data/scripts/mbox_converter.py:54-56 | The result of `re.sub` renders those pieces: each kept character is itself, in its original order, and each match is exactly the placeholder. |
| Anonymizer.Substitute | data/scripts/mbox_converter.py:54-56 | `re.sub` with one pattern: every character of the result comes from the input text or from the placeholder. `SubstituteRendersSegments` states the exact result. |
| Anonymizer.SegmentsFollowPattern | data/scripts/mbox_converter.py:54-56 | A kept character starts no match in the remaining input. A matched span is the longest match of the remaining input. |
| Anonymizer.AnonymizeIsTwoPasses | data/scripts/mbox_converter.py:54-56 | `anonymize_text` first renders the e-mail pieces of its input. It then renders the URL pieces of that masked text. |
| Anonymizer.EmailMaskedBeforeUrl | data/scripts/mbox_converter.py:54-56 | The order of the two passes shows in the output. The raw text `x@http://y` holds the URL `http://y`, but the e-mail pass consumes `x@http` first, so the result is `[email_address]://y` with no `[url]`. |
| Strings.Trim | extension/public/content.js:17-19 | The trimmed string is the part of the input between a blank prefix and a blank suffix, and neither of its ends is whitespace. Whitespace is that of the language doing the trim: Python's `str.isspace` set or JavaScript's WhiteSpace and LineTerminator set. |
| Strings.TrimEmptyIffBlank | notebooks/1_data_processing.py:73-74 | `strip()` gives the empty string exactly when the text is all whitespace. |
| Strings.TrimIdempotent | notebooks/1_data_processing.py:87 | Stripping a stripped text changes nothing. |
| Strings.Split | extension/public/content_appstore.js:15 | Splitting gives at least one part, and no part contains a separator. It gives a single part, the whole text, exactly when the text has no separator. |
| Strings.SplitAtFirst | extension/public/content_appstore.js:15-17 | Splitting at the first separator gives the text before it, then the parts of the text after it. |
| Strings.JoinSplit | extension/public/content_appstore.js:18 | Joining the parts with `-` turns every separator into `-` and changes nothing else. |
| Strings.SplitJoin | notebooks/1_data_processing.py:81 | Joining separator-free parts with a separator, then splitting, gives the parts back. |
| TrainingData.IndexOf | notebooks/1_data_processing.py:62 | A column is found exactly when it is among the columns. The position found holds that name and is its first occurrence. |
| TrainingData.DropColumn | notebooks/1_data_processing.py:62-63 | The dropped column is gone and the other columns keep their order. Every row keeps the other cells, no row is lost, and an absent column changes nothing. |
| TrainingData.WithoutLinkAndTitle | notebooks/1_data_processing.py:62-69 | After both drops, `Review Link` and `Review Title` are not columns. Every other column, every row and every remaining cell is kept. |
| TrainingData.KeepUsable | notebooks/1_data_processing.py:72-74 | A row is kept exactly when its review and its reply are both present and non-blank after stripping. |
| TrainingData.SeparatorOnlyReplyIsUnusable | notebooks/1_data_processing.py:74 | A reply made only of U+001F is dropped, because `str.strip()` removes it. JavaScript's `trim()` would keep that character. |
| TrainingData.KeepUsableAppend | notebooks/1_data_processing.py:72-74 | The filter works row by row and keeps row order. |
| TrainingData.Missing | notebooks/1_data_processing.py:72 | The error names exactly the required columns the table lacks. |
| TrainingData.Prepare | notebooks/1_data_processing.py:62-74 | The build fails exactly when the review or reply column is absent, naming what is missing. On success the link and title columns are gone, the review and reply columns are there, and every kept row is usable. The rows are exactly the usable rows of the trimmed table. |
| TrainingData.PromptEntriesSpec | notebooks/1_data_processing.py:77-81 | A prompt's entries are every column except the reply, in column order. Each such column gives one entry with its own cell. |
| TrainingData.PromptEntries | notebooks/1_data_processing.py:79 | `row.drop` of the reply column: there are no entries exactly when every column is the reply column. Each entry has a column of the table other than the reply, and a cell of the row. `PromptEntriesSpec` states the exact list. |
| TrainingData.EntryCells | notebooks/1_data_processing.py:79-81 | Each prompt entry carries the row's cell under that entry's column. |
| TrainingData.EntryFromColumn | notebooks/1_data_processing.py:79-81 | Every entry of a prompt is some column other than the reply, paired with that column's own cell of the row. |
| TrainingData.PromptLinesRoundTrip | notebooks/1_data_processing.py:79-81 | When no column name and no value outside the reply holds a newline, splitting the prompt at newlines gives back one `column: value` line per entry. So there is no extra or trailing separator. |
| TrainingData.CreatePrompt | notebooks/1_data_processing.py:77-81 | `create_prompt`: the prompt is empty exactly when the table has no column besides the reply. `PromptLinesRoundTrip` states that splitting it at newlines gives back its lines. |
| TrainingData.ExampleOf | notebooks/1_data_processing.py:77-87 | A row's example has the prompt built from that row and the row's reply, stripped, as its completion. When the reply is usable, the completion is non-empty and already stripped. |
| TrainingData.ToExamples | notebooks/1_data_processing.py:84-93 | There is one example per row, in row order. Its prompt is built from that row. Its completion is the stripped reply, and it is non-empty with no whitespace at either end when the reply is usable. |
| TrainingData.BuildTrainingData | notebooks/1_data_processing.py:62-93 | The build succeeds exactly when both the review and reply columns exist. It never yields more examples than rows, and every completion is non-empty and stripped. |
| TrainingData.PromptsSkipDroppedColumns | notebooks/1_data_processing.py:77-93 | There is one example per kept row. No prompt has an entry for the link, title or reply column. Every entry holds its row's cell, the review text is always an entry, and the completion is that row's stripped reply. |
| TrainingData.BuildTrainingDataAppend | notebooks/1_data_processing.py:84-93 | The examples of rows `a` followed by rows `b` are those of `a` followed by those of `b`, so the examples follow the kept rows in order. |
| AppStoreScraper.ParseAuthorAndDate | extension/public/content_appstore.js:12-22 | A null or empty text gives `N/A` for both fields. A text with no dash gives the trimmed text as author and `N/A` as date. Otherwise the date is the trimmed text before the first dash, and the author is the trimmed rest with every dash turned into `-`. |
| AppStoreScraper.DateHasNoDash | extension/public/content_appstore.js:15-17 | When the text holds a dash, the date holds none. |
| AppStoreScraper.ParseRating | extension/public/content_appstore.js:30-34 | A missing container gives 0. Otherwise the rating is the child count. |
| AppStoreScraper.ComposeText | extension/public/content_appstore.js:66 | The text ends with the body. It is exactly the body when the title is empty. Otherwise it is the title, a blank line, then the body. |
| AppStoreScraper.ScrapeElement | extension/public/content_appstore.js:52-75 | A record takes its author and date from the split line and its stars from the rating. Its text is composed from title and body, and its url is the page address. |
| AppStoreScraper.ScrapeAppStoreReviews | extension/public/content_appstore.js:42-78 | No element gives the failure message. Otherwise there is one record per element, in document order, all with the same url. |
| PlayConsoleScraper.FirstDigitIndex | extension/public/content.js:23 | The index found holds a digit and no earlier character does. None is found exactly when the label has no digit. |
| PlayConsoleScraper.DecimalRoundTrip | extension/public/content.js:24 | Reading a decimal numeral back gives the number it was written from. |
| PlayConsoleScraper.StarsFromLabel | extension/public/content.js:22-24 | A label with no digit, including the empty label used when the attribute is missing, gives 0 stars. |
| PlayConsoleScraper.StarsReadFirstNumber | extension/public/content.js:22-24 | Whatever text surrounds it, the first maximal run of digits, read in base 10, is the star count. |
| PlayConsoleScraper.StarsReadNumeral | extension/public/content.js:22-24 | A count written into the label as a numeral is read back unchanged. |
| PlayConsoleScraper.ScrapeElement | extension/public/content.js:16-28 | A review is kept exactly when author, date and text all have content after trimming. It stores the trimmed values and the parsed stars. |
| PlayConsoleScraper.KeptReviews | extension/public/content.js:15-32 | No more records than elements. The list is empty exactly when no element is complete. Every kept record has a non-empty author, date and text. |
| PlayConsoleScraper.KeptReviewsAppend | extension/public/content.js:15-32 | Keeping works element by element, so kept records keep page order. |
| PlayConsoleScraper.KeptReviewsOne | extension/public/content.js:16-28 | One element adds exactly its own trimmed record when it is complete, and nothing otherwise. With `KeptReviewsAppend` this fixes both the content and the order of the list. |
| PlayConsoleScraper.KeptReviewsContents | extension/public/content.js:15-32 | A record is in the list exactly when it is the record of some complete element. |
| PlayConsoleScraper.ScrapeReviews | extension/public/content.js:34-42 | A non-empty kept list is sent as `SCRAPED_REVIEWS` with exactly that list. An empty one sends `SCRAPE_FAILED` with no data. |
| GmailScraper.AuthorOf | extension/public/content_gmail.js:28 | The author is the `name` attribute if non-empty, else the `email` attribute if non-empty, else `N/A`. It is never empty. |
| GmailScraper.DateOf | extension/public/content_gmail.js:29 | The date is the `title` attribute if non-empty, else `N/A`. |
| GmailScraper.ScrapeGmail | extension/public/content_gmail.js:19-44 | Any missing element gives the failure message and no record. Otherwise there is exactly one record, with 0 stars. Its text is the subject, a blank line, then the body, and its url is the page address. |
| GmailScraper.GmailRecordIsComplete | extension/public/content_gmail.js:33-41 | The single record always has an author and a date and carries no stars. Its text gives back the subject and the body. |

## Left out

- `get_email_body` and `main` in `data/scripts/mbox_converter.py`: they are e-mail parsing, charset decoding and file I/O.
- `api_server.py`, `test_model.py`, `integrate_data.py`, `verify.py`, `verify_json.py` and `notebooks/2_modelling_plan.py` are SDK calls, file shuffling or prose, with no logic of their own. `extension/public/background.js` and `extension/src/App.js` are extension plumbing and UI.
- Reading the CSV, plotting, printing and the JSONL output of the notebook are I/O.
- pandas type inference is not modelled: every present cell is the text of its value, and a missing value reads `nan`.
- Column names are assumed distinct (`TrainingData.WellFormed`), as `read_csv` makes them.
- DOM queries, CSS selectors and `innerText`/`textContent` are replaced by `Option` inputs. The page address is a parameter, and the console logging is dropped.
- The message listeners and Gmail's 500 ms `setTimeout` are event plumbing.
- The `try`/`catch` in the Play Console loop is not modelled, because nothing in the modelled body can throw.
- Python's `\w` in the e-mail pattern is taken to be its ASCII members only (letters, digits, `_`). Other Unicode letters and digits are not modelled.
- `parseInt` on a very long run of digits loses precision in JavaScript; the model reads it as an unbounded `nat`.
- Play Console records carry no `url` key; the model gives them `url = None`.
- The `%XX` alternative of the URL pattern is not modelled separately. `%`, `0-9` and `A-F` lie in the `$`..`_` range and `a-f` in `[a-zA-Z]`, so an escape is already three single URL characters (`Anonymizer.PercentEscapeIsUrlChars`).
- AppStoreScraper.ParseAuthorAndDate follows the code, which takes the part before the first dash as the date. The doc comment at `extension/public/content_appstore.js:8` shows the author first.
- Anonymizer.Anonymize: its own contract states only the non-string and no-match cases. The masking itself is stated by `AnonymizeIsTwoPasses`, `SubstituteRendersSegments`, `SegmentsFollowPattern` and `MatchAtIsGreedy`.
- PlayConsoleScraper.StarsFromLabel: its own contract states only the no-digit case. The value for a label with digits is stated by `StarsReadFirstNumber`.
