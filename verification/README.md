# Thai Rath highlight-news scraper, modelled in Dafny

This project models the core of a small news scraper. It has two halves.

- The site-independent base scraper:
  - configuration with default request headers;
  - `extract_text`, which returns an element's stripped text or a default;
  - `make_request`, which fetches a URL with a random delay before every attempt, makes at most `max_retries` attempts, and sleeps `2**attempt` seconds after every failed attempt but the last.
- The Thai Rath scraper:
  - `scrape_highlight_news` fetches a category's listing page and builds one record per link in its highlight carousel;
  - `scrape_news_content` fetches each linked article and joins the text of its paragraphs;
  - `scrape` drives both over the six fixed categories.

Modules:

- `Types`: Python's `Optional`, and the exceptions that escape the scraper code as `Result.Raised`.
- `Text`: `str.strip()` over Python's whitespace set, and concatenation without a separator.
- `BaseScraper`: configuration, `ExtractText`, and the retry loop `Retry` / `MakeRequest`, with `Schedule` as an independent reference for the sleeps and requests a fetch performs.
- `ThaiRath`: the site scraper, plus the `scrape` driver both as written and corrected.
- `Scenarios`: concrete runs on small pages.

Randomness, the network and the clock are not effects here:

- An `Env` supplies the `j`-th `random.uniform` value (`draw`) and the outcome of the `j`-th request (`send`).
- A `Cursor` counts how many of each have been consumed.
- Every sleep and request is recorded in a trace of `Event`s: `Jitter(seconds)`, `Get(url, attempt)` and `Backoff(pause)`.

A parsed page is reduced to the two containers the scraper looks for. Each is `None` when the page lacks it:

- the `slick-track` carousel's anchors;
- the `article-body`'s paragraph texts.

The model follows the code in these places:

- Paragraph texts are concatenated as `getText()` returns them. They are not stripped.
- A page without the expected container makes the `.find_all` call on `None` raise `AttributeError`. The model has `Raised(NoContainer(class))`. No empty result is substituted.
- `max_retries <= 0` is accepted: the loop runs zero times and the answer is `None`.
- `make_request` can raise after all: `random.uniform` over a range with a negative bound can return a negative delay, and `time.sleep` then raises `ValueError` (`NegativeSleep`). `DelaysWithinRange` shows that a non-negative range rules this out.
- An anchor without `href` yields the link `url + "None"`, because that is how the f-string renders `None`.

## Model

| member | source | states |
|---|---|---|
| BaseScraper.SelectHeaders | src/scrapers/base_scraper.py:32-35 | The defaults are used exactly when the supplied headers are absent, empty, or already the defaults. A non-empty supplied map is kept unchanged. The result is never empty. |
| BaseScraper.SelectHeadersIdempotent | src/scrapers/base_scraper.py:32-35 | Feeding the chosen headers back in chooses the same headers. |
| BaseScraper.NewScraper | src/scrapers/base_scraper.py:14-38 | Base URL, retry count, timeout and delay range are stored as given. Headers are chosen as `SelectHeaders` says and are never empty. |
| BaseScraper.ExtractText | src/scrapers/base_scraper.py:85-97 | A falsy element, or one whose text extraction raises, gives the default. A present element gives text with no surrounding whitespace, and an element without text gives the empty string. |
| BaseScraper.ExtractTextAppend | src/scrapers/base_scraper.py:94 | The text of an element whose strings are those of two elements, one after the other, is the first element's text followed by the second's: each string is stripped on its own and the results are joined without a separator. |
| BaseScraper.ExtractTextSingle | src/scrapers/base_scraper.py:94 | An element with a single text string yields exactly that string stripped. |
| Text.Strip | src/scrapers/base_scraper.py:94 | The stripped text starts and ends with a non-whitespace character (or is empty) and is no longer than the input. |
| Text.StripFramed | src/scrapers/base_scraper.py:94 | Stripping removes only whitespace: the result is a contiguous slice of the input, with nothing but whitespace before and after it. |
| Text.StripCharacterization | src/scrapers/base_scraper.py:94 | Whenever a string splits into whitespace, a trimmed core and whitespace, stripping returns exactly that core. |
| Text.StripIdempotent | src/scrapers/base_scraper.py:94 | Stripping twice is stripping once. |
| Text.ConcatTrimmed | src/scrapers/base_scraper.py:94 | Joining stripped strings with no separator gives a string with no surrounding whitespace. |
| Text.ConcatAppend | src/scrapers/thairath_news_scrapper.py:65-67 | Joining a sequence split anywhere equals joining each part and concatenating the two results. |
| Text.ConcatPiece | src/scrapers/thairath_news_scrapper.py:65-67 | Each paragraph appears unchanged and unseparated, after the join of the paragraphs before it and before the join of those after it. |
| BaseScraper.Retry | src/scrapers/base_scraper.py:54-83 | From iteration `attempt`, an attempt is made exactly when `attempt < max_retries`, and never more than `max_retries - attempt`. One random draw is consumed per attempt, and one request per attempt not cut short by a negative sleep: an escaping exception leaves one request fewer than attempts. The only exception that escapes is a negative sleep. A `None` answer means every remaining iteration ran. |
| BaseScraper.MakeRequest | src/scrapers/base_scraper.py:47-83 | With `max_retries <= 0`: `None`, no attempt, no event, nothing consumed. Otherwise: at most `max_retries` attempts; `None` only after all `max_retries` attempts; only a negative-sleep exception escapes; one draw consumed per attempt, and one request per attempt that is not cut short by a negative sleep. |
| BaseScraper.MakeRequestFollowsSchedule | src/scrapers/base_scraper.py:54-81 | When `make_request` does not raise, its sleeps and requests are exactly the reference schedule of as many attempts as it made. |
| BaseScraper.RetryFollowsSchedule | src/scrapers/base_scraper.py:54-81 | The same, from any iteration on: the trace equals the independently built `Schedule`. |
| BaseScraper.ScheduleFirst | src/scrapers/base_scraper.py:74-81 | A schedule of `n + 1` attempts is its first attempt (delay, request, backoff `2**a0`) followed by the schedule of the remaining `n` attempts. |
| BaseScraper.ScheduleShape | src/scrapers/base_scraper.py:54-81 | A schedule of `n > 0` attempts has `3n - 1` events. It starts with a random delay and ends with the last attempt's request. Every request follows a delay and is for the given URL. Every backoff lies between a request of attempt `k` and the next delay, and lasts `2**k`. |
| BaseScraper.ScheduleSleep | src/scrapers/base_scraper.py:57-81 | `n` attempts from attempt 0 sleep the `n` random delays plus `1 + 2 + ... + 2**(n-2) = 2**(n-1) - 1` seconds of backoff. |
| BaseScraper.AllAttemptsFail | src/scrapers/base_scraper.py:54-78 | Against a transport that always fails, exactly `max_retries` attempts are made and the answer is `None`. The time slept is the random delays plus `2**(max_retries-1) - 1`. |
| BaseScraper.RetryAllFail | src/scrapers/base_scraper.py:68-78 | Failures on every remaining attempt end in a `None` answer. |
| BaseScraper.FirstSuccessAt | src/scrapers/base_scraper.py:54-66 | If attempt `k` is the first to succeed, its document is returned after exactly `k + 1` attempts. The time slept is `k + 1` random delays plus `2**k - 1`. |
| BaseScraper.RetryFirstSuccess | src/scrapers/base_scraper.py:54-66 | `k` failures followed by a delivered document, counted from any iteration, return that document after `k + 1` attempts. |
| BaseScraper.RetryLocal | src/scrapers/base_scraper.py:54-66 | A fetch depends only on the draws and requests it consumed. No outcome after the first success, or after the last attempt, is consulted. |
| BaseScraper.DelaysWithinRange | src/scrapers/base_scraper.py:57 | Every pre-attempt delay lies between the two bounds of `delay_range`, in either order. With a non-negative range, `make_request` never raises. |
| BaseScraper.RetryDelaysWithin | src/scrapers/base_scraper.py:57 | From any iteration on, every delay in the trace is one of the in-range draws. |
| BaseScraper.RetryNeverRaises | src/scrapers/base_scraper.py:55-57 | Non-negative draws mean no exception escapes the loop. |
| BaseScraper.NegativeDelayRaises | src/scrapers/base_scraper.py:55-68 | A negative first draw raises before any request is sent, and the trace is empty. |
| BaseScraper.NegativeDelayAt | src/scrapers/base_scraper.py:54-81 | After `k` failed attempts, a negative draw before attempt `k` raises `ValueError` from the sleep: `k + 1` attempts made, `k + 1` draws and `k` requests consumed, and the trace is the `k` attempts' schedule followed by the backoff `2**(k-1)` after the last of them. |
| BaseScraper.RetryNegativeAt | src/scrapers/base_scraper.py:54-81 | The same from any iteration on: the first negative draw after `k` failures raises, with `k + 1` attempts, and the environment is left after `k + 1` draws and `k` requests. |
| BaseScraper.RetryNegativeTrace | src/scrapers/base_scraper.py:54-81 | The same run's trace is the independently built schedule of the `k` failed attempts plus the backoff after the last; the attempt cut short contributes neither delay nor request. |
| ThaiRath.NewThaiRath | src/scrapers/thairath_news_scrapper.py:9-18 | Default headers, the site's base URL, three retries, the default timeout and the default non-negative delay range, and the six categories in their fixed order from "royal" to "crime". |
| ThaiRath.LinkFor | src/scrapers/thairath_news_scrapper.py:42 | The link is the listing URL followed by exactly the anchor's href; there is no URL resolution. An anchor without `href` gives the listing URL followed by `None`. |
| ThaiRath.ScrapeNewsContent | src/scrapers/thairath_news_scrapper.py:53-68 | `None` exactly when the fetch gives up. `AttributeError` exactly when the delivered page has no article body. Otherwise the content is the body's paragraphs joined in order. Trace and environment are the fetch's own, and an exception from the fetch escapes unchanged. No other exception escapes except a negative sleep. |
| ThaiRath.Assemble | src/scrapers/thairath_news_scrapper.py:40-51 | A completed loop yields one record per anchor. Only a negative sleep or a missing article body can escape it. |
| ThaiRath.AssembleRecords | src/scrapers/thairath_news_scrapper.py:40-51 | Record `i` has anchor `i`'s title, the link built from anchor `i`, the given category, and a content that scraping that link gives from some point of the environment (`AssembleThreaded` says which point). An escaping exception is one raised by scraping some anchor's link. |
| ThaiRath.AssembleThreaded | src/scrapers/thairath_news_scrapper.py:40-51 | The articles are fetched one after another in anchor order: the first from the loop's start, each next one from where the previous one left the environment. A completed loop holds, as record `i`'s content, what article scrape `i` returned, and its trace is the article scrapes' traces in order. A loop that raises stopped at the scrape after the completed ones, which raised that exception, and that scrape's trace ends the loop's trace. |
| ThaiRath.ScrapeHighlightNews | src/scrapers/thairath_news_scrapper.py:25-51 | `None` exactly when the listing fetch gives up. `AttributeError` for `slick-track` exactly when the delivered page has no carousel. A list only for a page with a carousel, one record per anchor. An exception from the listing fetch escapes unchanged. When the listing fetch raises, gives up, or delivers a page without a carousel, the trace and the environment afterwards are the fetch's own. |
| ThaiRath.HighlightRecords | src/scrapers/thairath_news_scrapper.py:38-51 | Each listing record matches its carousel anchor in title, link, category, and a content that scraping the link gives from some point of the environment. |
| ThaiRath.HighlightThreaded | src/scrapers/thairath_news_scrapper.py:34-51 | The listing page is fetched first, then the articles in carousel order, the first from where the listing fetch left the environment and each next one from where the previous one left it. The listing's trace is the listing fetch's followed by the articles' traces. Record `i`'s content is what article scrape `i` returned, and an escaping exception is the one the first failing article scrape raised. |
| ThaiRath.ListingRecordsTagged | src/scrapers/thairath_news_scrapper.py:42-47 | Every record of a listing carries the requested category and a link under the listing URL. |
| ThaiRath.ListingUrl | src/scrapers/thairath_news_scrapper.py:22 | A category's listing URL is the base URL followed by exactly the category name. |
| ThaiRath.ScrapeAsWritten | src/scrapers/thairath_news_scrapper.py:20-23 | `scrape` raises exactly when there is a category to visit. It raises before any sleep or request. |
| ThaiRath.ScrapeAsWrittenRaises | src/scrapers/thairath_news_scrapper.py:20-22 | The site's scraper as constructed raises `TypeError` for the missing `category` on every call, whatever the network would answer. |
| ThaiRath.ScrapeCategories | src/scrapers/thairath_news_scrapper.py:21-23 | A completed run gives one listing result per category visited. |
| ThaiRath.Scrape | src/scrapers/thairath_news_scrapper.py:20-23 | The corrected driver returns one result per configured category. |
| ThaiRath.ScrapeCategoriesFirst | src/scrapers/thairath_news_scrapper.py:21-23 | A completed run's first result is what the listing scrape of the first category returns from the run's start. The rest are the run over the remaining categories, started right after the random pause drawn when that listing scrape ended, so strictly later in the environment. |
| ThaiRath.ScrapeCategoriesThreaded | src/scrapers/thairath_news_scrapper.py:20-23 | The categories are scraped one after another in order, each listing starting right after the pause drawn at the end of the previous one. A completed run's result `i` is what listing scrape `i` returned, and its trace is each listing's trace followed by its pause, in order. A run that raises stopped at the category after the completed ones: its listing scrape raised that exception, or returned and was followed by a negative pause. |
| ThaiRath.ScrapeCategoriesInOrder | src/scrapers/thairath_news_scrapper.py:21-23 | Result `i` is what the listing scrape of category `i` at its listing URL returns from some point of the environment (`ScrapeCategoriesThreaded` says which point). |
| ThaiRath.ScrapeRecordsTagged | src/scrapers/thairath_news_scrapper.py:21-23 | Every record in result `i` is typed with category `i` and linked under that category's listing URL. |
| ThaiRath.ScrapeVisitsCategoriesInOrder | src/scrapers/thairath_news_scrapper.py:10-23 | The site's scraper visits its six categories in their fixed order. Each listing starts strictly later in the environment than the one before. A completed run returns, as result `i`, what scraping `base_url + category` with category `i` returned from listing `i`'s start, and its trace is each listing's trace followed by its pause. |
| Scenarios.ExtractTextStrips | src/scrapers/base_scraper.py:94 | `"  Hello World  "` extracts as `"Hello World"`. |
| Scenarios.FetchFirstTime | src/scrapers/base_scraper.py:54-66 | A request that succeeds at once: one delay, one request, the document returned. |
| Scenarios.ArticleContentJoined | src/scrapers/thairath_news_scrapper.py:60-68 | Paragraphs "Part1" and "Part2" give the content "Part1Part2". |
| Scenarios.TwoAnchors | src/scrapers/thairath_news_scrapper.py:34-51 | Anchors `/a1` (title T1) and `/a2` (title T2) give two records in order. They are linked `url + "/a1"` and `url + "/a2"`, typed with the category, and each holds its article's joined paragraphs. |

## Left out

- HTTP and HTML parsing are abstracted. A request's outcome is `Delivered(page)` or `Failed`. Every `RequestException` (timeout, connection error, error status) is `Failed`, and a delivered response's body is taken as already parsed. Exceptions from `requests.get` that are not `RequestException`s are not modelled.
- Header values and the timeout are stored but have no effect: they only parameterise the transport, which is abstract.
- Logging (`logging.basicConfig`, warnings and errors) is left out. It has no effect on results.
- Sleeping is recorded as a trace event, not performed. An `OverflowError` from `time.sleep(2**attempt)` with a huge attempt number is not modelled.
- `random.uniform` is an arbitrary stream of reals. That its values lie in the range is an assumption that lemmas take (`DrawsWithin`), not something the model enforces. Floating point is modelled as exact reals.
- Whitespace for stripping is Python's `str.isspace()` set as listed in `Text.SpaceChars`. There is no Unicode normalisation.
- `ExtractText`: `get_text(strip=True)` also drops strings that strip to empty. With no separator this cannot change the result, so it is not modelled separately.
- `BaseScraper.scrape`, which only raises `NotImplementedError`, is not modelled.
- `ScrapeCategories`: the source discards each category's result. The corrected driver returns the results instead.
- `ScrapeHighlightNews`: a parsed document is always truthy, so `if not soup` tests only for `None`. An empty page is a page without containers.

## Findings

| source | as written | input that shows it | evidently intended | confidence | as-written member | corrected member |
|---|---|---|---|---|---|---|
| src/scrapers/thairath_news_scrapper.py:22 | `scrape` calls `scrape_highlight_news` with the listing URL only, omitting the required `category` argument | any call `ThaiRathNewsScraper().scrape(u)`: the first category raises `TypeError` before any request is sent, so nothing is ever scraped | pass the category along, `scrape_highlight_news(f"{base_url}{category}", category)`, and keep the results | high; not executed | ThaiRath.ScrapeAsWritten | ThaiRath.ScrapeVisitsCategoriesInOrder |
