# forum_analyzer core in Dafny

A model of the pure decisions inside `app.py` of forum_analyzer. The program
scrapes a paginated forum thread and hands the collected posts to a language
model. Three parts of it are modelled and proved here:

- **Page-count discovery** (`get_max_pages`). If there is an
  `a.pagination_last` link and its `href` holds digits, the count is the
  first maximal digit run of that href. Otherwise it is the largest
  all-digit text among the `ul.pagination_pages` anchors, or 1 when there is
  none. Module `PageCount`, on top of `Decimal`, which holds the digit
  strings, `re.search(r"\d+", …)`, `int(…)` and `str(n)`.
- **Post record extraction** (`scrape_page`). Each `section.post_body`
  container gives exactly one text record
  `[Post <number or N/A>](<url>)\n<timestamp>\n<content>`. A missing
  sub-element falls back to its own sentinel: "No content", "N/A",
  "Unknown", or the URL `base_url#N/A`. A permalink without an `href` is
  printed as the URL "None", the way a Python f-string prints `None`.
  Module `Posts`. It also has a reader, `ParseRecord`, that takes a record
  back apart into its values. The reader is the partner of the record
  layout.
- **Aggregation** (`scrape_forum_pages` and the join on line 114). Page
  `n` is requested at `base_url/n/` for n = 1..pages_to_scrape. Each page's
  records are appended when its request completes, so pages are concatenated
  in completion order. The final text joins the records with `"\n---\n"`.
  Modules `Pipeline` and `Gathering`.

HTML parsing is replaced by abstract inputs, with texts already stripped:

- a `LastPageLink` holding an optional href;
- the sequence of anchor texts;
- per container, an optional content text, an optional `Permalink`
  (text plus optional href) and an optional timestamp text.

Fetching a page and parsing it becomes a parameter
`fetch: string -> seq<PostContainer>`, from page URL to containers. The order
in which `asyncio.as_completed` hands back the pages becomes a parameter
`order`, which the scheduler guarantees is a permutation of 1..n
(`IsCompletionOrder`). Only facts that hold for every such order are stated
about the aggregate:

- its length;
- its multiset of records;
- each page's records sitting together and in document order.

Behaviour of `app.py` the model keeps:

- Pages are appended in the order their requests complete, not re-sorted
  into ascending page order (app.py:76-78).
- The page count can be 0: a lone anchor "0", or an href like `/page/0`,
  gives 0 (app.py:35, 39); if the user accepts that default at the prompt
  (app.py:107-108), nothing is scraped.
- A content, timestamp or href that is present but empty stays empty; only
  a missing element gets a sentinel (app.py:52, 57, 61; `Posts.PresentFieldsKept`). The label is the
  exception: it falls back to "N/A" even when the permalink text is empty
  (app.py:56, 64).
- `pages_to_scrape <= 0` gives no requests and no records, since
  `range(1, n + 1)` is then empty (app.py:72).

Some definitions carry no contract of their own; the lemmas below pin them
down, and their rows in the table say so:

- `Posts.PostNumber`, `Posts.PostUrl`, `Posts.Extract`: `Posts.Sentinels`,
  `Posts.PresentFieldsKept`, `Posts.FieldsIndependent`,
  `Posts.LabelNeverEmpty`;
- `Posts.Format`: `Posts.FormatThenParse`, `Posts.ParseThenFormat`;
- `Posts.Record`: `Posts.RecordReadsBack`, `Posts.PageRecords`;
- `Pipeline.PageUrl`, with its reader `Pipeline.PageOfUrl`: `Pipeline.PageUrlThenPage`, `Pipeline.PageThenPageUrl`,
  `Pipeline.PageUrlInjective`;
- `Gathering.Gather` and `Pipeline.Aggregate`: `Gathering.GatherAppend`,
  `Gathering.GatherPermutation`, `Gathering.GatherContiguous`,
  `Pipeline.AggregateCount`, `Pipeline.AggregateContiguous`;
- `Pipeline.TotalPosts`: `Pipeline.AscendingLength`, `Pipeline.AggregateCount`;
- `Pipeline.JoinPosts`, beyond its own contract for zero and one record:
  `Pipeline.JoinLength`, `Pipeline.JoinAppend`.

## Model

| member | source | states |
|---|---|---|
| Decimal.Value | app.py:35-39 | `int(s)` of a digit string of length k is below 10^k, and at least 10^(k-1) when s does not start with '0'; `ValueAppend` and the round trips below fix it as the decimal value |
| Decimal.ValueAppend | app.py:35-39 | `int` reads digits positionally: the value of p followed by q is the value of p times 10^len(q) plus the value of q |
| Decimal.LeadingZeroIgnored | app.py:35-39 | a leading '0' does not change the value, so, applied once per zero, `int("007") == 7`, as for the href "/page/007" or the anchor "07" |
| Decimal.ToDecimal | app.py:43 | `str(n)` yields a canonical digit string: non-empty, all digits, and starting with '0' exactly when n is 0 |
| Decimal.ValueOfToDecimal | app.py:43 | reading back the decimal form of a page number gives the number again |
| Decimal.ToDecimalOfValue | app.py:43 | a canonical digit string is the decimal form of its own value, which is the other direction of the round trip |
| Decimal.ToDecimalInjective | app.py:43 | distinct page numbers have distinct decimal forms |
| Decimal.RunEnd | app.py:33 | the greedy `\d+` run starting at i is all digits and stops at the end or at a non-digit |
| Decimal.FirstRun | app.py:33 | `re.search(r"\d+", s)` returns the leftmost maximal run of digits, and finds nothing exactly when s has no digit |
| Decimal.FirstRunUnique | app.py:33 | a string has at most one leftmost maximal digit run |
| Decimal.FirstRunExact | app.py:33 | the search returns a span exactly when that span is the leftmost maximal digit run (both directions) |
| Decimal.FirstNumber | app.py:33-35 | there is a number exactly when the string has a digit |
| Decimal.FirstNumberOfRun | app.py:33-35 | the number is `int` of the leftmost maximal digit run |
| PageCount.LinkNumber | app.py:31-35 | the last-page link yields a number exactly when it exists and its href (`get("href", "")`, so "" when missing) holds a digit, and the number is the first number of that href |
| PageCount.NumericMax | app.py:38-39 | the result is absent exactly when no anchor text is all digits; otherwise it is the value of some all-digit anchor and no all-digit anchor exceeds it |
| PageCount.MaxPages | app.py:31-39 | `get_max_pages`: with a last-page href holding a digit, the first number of that href; otherwise an upper bound of every all-digit anchor value that is itself one of them, or 1 when no anchor text is all digits |
| PageCount.LastLinkDecides | app.py:31-35 | a last-page href with a digit run gives the value of its first maximal run, whatever the anchors are |
| PageCount.AnchorFallback | app.py:37-39 | with no last-page link, or an href without digits, the count is the largest all-digit anchor value, or 1 when there is none |
| PageCount.MissingHrefFallsThrough | app.py:31-39 | a last-page link without href behaves like href "" and like no link at all |
| PageCount.NumericMaxMonotone | app.py:39 | if every numeric anchor value of one list occurs in another, the first maximum is at most the second |
| PageCount.NumericMaxByValues | app.py:39 | two anchor lists with the same numeric values give the same maximum |
| PageCount.NonNumericAnchorIgnored | app.py:39 | inserting a non-numeric text such as "Next" anywhere in the anchors never changes the count |
| PageCount.FirstRunOfHrefExample | app.py:31-35 | the href "/t/123/page/7" gives 123, the first run and not the last |
| PageCount.AnchorsExample | app.py:37-39 | the anchors "1", "2", "…", "7", "Next" give 7 |
| PageCount.CountCanBeZero | app.py:31-39 | the count is 0 for a lone anchor "0" and for the href "/page/0" |
| Posts.PageRecords | app.py:46-65 | one record per container, in document order, with none dropped |
| Posts.ExtractPosts | app.py:48-65 | the loop appends exactly the record of each container in turn, so the output length equals the number of containers |
| Posts.Sentinels | app.py:51-61 | `Extract`, built from `PostNumber` and `PostUrl`: missing content gives "No content" and missing timestamp gives "Unknown"; a missing permalink gives number "N/A" and URL `base_url#N/A`; a permalink without href gives URL "None" |
| Posts.PresentFieldsKept | app.py:50-61 | `Extract`: a present content, timestamp or href is printed exactly as given, even when empty, and a non-empty permalink text is the label |
| Posts.FieldsIndependent | app.py:50-61 | each printed field depends only on its own sub-element, so the fallbacks are independent of each other |
| Posts.LabelNeverEmpty | app.py:56-64 | the printed label is never empty; it is "N/A" exactly when there is no permalink or its text is "" or "N/A" |
| Posts.FormatThenParse | app.py:64 | `Format`, the f-string layout: a record whose number has no ']', whose URL has no ')' and whose timestamp has no line break reads back as its four values |
| Posts.ParseThenFormat | app.py:64 | `Format`, the other direction: every string that reads back as a record is exactly the record of the values read |
| Posts.RecordReadsBack | app.py:51-64 | `Record`, the text appended for a container, reads back as its extracted values, sentinels included, whenever they are unambiguous |
| Pipeline.PageUrlThenPage | app.py:43 | `PageUrl`, the page URL `base_url/n/`, reads back as page n |
| Pipeline.PageThenPageUrl | app.py:43 | every URL that reads back as page n is exactly the URL of page n |
| Pipeline.PageUrlInjective | app.py:43 | different pages are requested at different URLs |
| Pipeline.PageNumbers | app.py:72 | `range(1, n + 1)` lists 1..n in ascending order and is empty when n is not positive |
| Pipeline.PageNumbersOnce | app.py:72 | each of 1..n occurs once in the task list and no other number occurs |
| Pipeline.RequestsAreExactlyThePages | app.py:70-77 | in any completion order, every page 1..n is requested, nothing else is, and no URL is requested twice |
| Pipeline.AscendingLength | app.py:70-78 | `Aggregate` in page order has one record per container of pages 1..n, counted by `TotalPosts` |
| Pipeline.AggregateCount | app.py:70-78 | in any completion order the aggregate has one record per container of pages 1..n, and the same records as in page order |
| Pipeline.AggregateContiguous | app.py:76-78 | the k-th completed page's records sit together, in document order, right after those of the pages completed before it |
| Pipeline.ScrapePage | app.py:41-65 | a page's records come from the containers fetched at that page's URL, one per container |
| Pipeline.ScrapeForumPages | app.py:67-80 | given any completion order the scheduler may produce, the loop's result is that order's pages' record lists concatenated in that order; what holds for every order is in AggregateCount and AggregateContiguous |
| Pipeline.JoinLength | app.py:114 | `JoinPosts`, the `"\n---\n"` join: the joined text is as long as all records plus one five-character separator between each pair |
| Pipeline.JoinPosts | app.py:114 | `"\n---\n".join` of no records is "" and of one record is that record; with `JoinAppend` this fixes the join of any list |
| Pipeline.JoinAppend | app.py:114 | joining two non-empty runs of records equals joining each and putting one separator between them |
| Gathering.GatherAppend | app.py:76-78 | `Gather`, extending by the pages of an order: extending by two runs of pages equals extending by their concatenation |
| Gathering.GatherPermutation | app.py:76-78 | any two orders of the same pages gather the same multiset of records |
| Gathering.GatherContiguous | app.py:76-78 | each page's list appears whole, right after the lists of the pages before it |

## Left out

- `fetch_page`, `aiohttp.ClientSession`, the request headers and the global `asyncio.Semaphore(200)` (app.py:10-22): network I/O and concurrency. The fetch-and-parse of a page is the parameter `fetch`.
- BeautifulSoup parsing and CSS selection (app.py:28, 31, 38, 45-61): a foreign library. It is replaced by abstract optional inputs, with `get_text(strip=True)` already applied.
- The scheduling of `asyncio.as_completed` (app.py:76): it is the parameter `order`, any permutation of 1..n, and is not itself modelled. The progress `print` on line 79 is left out.
- `analyze_posts` and the OpenAI call (app.py:82-99): an external service.
- `main` (app.py:101-124): console `input`/`print`, `int(pages_input)` on user input, and `asyncio.run`. Only the join on line 114 is modelled.
- Decimal.FirstRun: matches only the ASCII digits '0'..'9', while Python's `\d` also matches other Unicode decimal digits.
- PageCount.NumericMax: treats only ASCII digit strings as numeric, while `str.isdigit` also accepts other Unicode digits. For some of those, such as superscripts, `int` then raises an error, which the model does not reproduce.
- Decimal.FirstNumber: returns the value of a digit run of any length. On Python 3.12 and later, `int` raises ValueError on a string of more than 4300 digits (the default integer string-conversion limit), so app.py:35 fails on such an href; the model does not reproduce that error.
- PageCount.NumericMax: likewise returns a value for an all-digit anchor text of more than 4300 digits, where `int` on app.py:39 raises ValueError.
- Pipeline.ScrapeForumPages: `fetch` is total, so a request cannot fail. In app.py an exception from `fetch_page` (app.py:21-22) is re-raised by `await task` (app.py:77), which ends the loop and discards the pages already gathered; that all-or-nothing behaviour is not modelled.
- PageCount.MaxPages: the first-page request on app.py:27 can fail the same way and end `get_max_pages` with an exception; the model always returns a count.
