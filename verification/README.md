# matome-antenna: crawler and article page, modelled in Dafny

The system is a small blog "antenna". A Python crawler
(`backend/fetch_rss.py`) does four things:

- It reads a list of feed URLs from `sites.txt`.
- It takes the first five entries of each feed, in feed order.
- It sorts all of them by timestamp, newest first.
- It writes them to `articles.json`.

A Next.js page (`frontend/app/page.tsx`) loads that file and sorts it again,
newest first. It then renders one card per article. Each card shows the
article's date split into a day token and a time token.

The model covers that pipeline once the I/O is replaced by parameters:

| file | module | what it holds |
|---|---|---|
| `articles.dfy` | `Articles` | the `Article` record; the stable newest-first order `SortedNewestFirst`, its properties, and the in-place insertion sort `SortNewestFirst` on an `array<Article>` |
| `fetch_rss.dfy` | `FetchRss` | `load_sites` (`LoadSites`), `fetch_feed` (`FetchFeed`, specified by `FeedArticles`), `main` (`RunCrawler`) |
| `home_page.dfy` | `HomePage` | `getArticles` (`GetArticles`), the card fields, and `Home` |
| `pystr.dfy` | `PyStr` | Python's `str.strip()` and the whitespace it removes |
| `jsstr.dfy` | `JsStr` | ECMAScript `split`/`join` with a one-character separator |
| `strftime.dfy` | `Strftime` | the `'%Y-%m-%d %H:%M'` display date |
| `wrappers.dfy` | `Wrappers` | `Option` |

Both sorts in the source are stable and descending by timestamp:

- Python: `list.sort(key=..., reverse=True)`. Python documents that `reverse` keeps stability.
- JavaScript: `Array.prototype.sort` with the comparator `b.timestamp - a.timestamp`. ECMA-262 has required this sort to be stable since ES2019.

`Articles.StableOrderIsUnique` proves that a newest-first list is fully
determined by its records and by their order within each timestamp. So
every stable descending sort has the same result, whether it is Timsort or
V8's sort, and one insertion sort models both.

The page splits the date on the single character `' '`
(`page.tsx:56,62`). So a date with no space has no time token, and two
spaces in a row give an empty token.

## Model

| member | source | states |
|---|---|---|
| `PyStr.TrimStartSpec` | backend/fetch_rss.py:18 | the left-stripped line is a suffix of the line; everything removed is whitespace; what is left does not begin with whitespace |
| `PyStr.TrimEndSpec` | backend/fetch_rss.py:18 | the right-stripped line is a prefix of the line; everything removed is whitespace; what is left does not end with whitespace |
| `PyStr.StripRemovesOuterSpace` | backend/fetch_rss.py:18 | `line.strip()` is an infix of the line with only whitespace before and after it, and it neither begins nor ends with whitespace |
| `PyStr.StripIsIdempotent` | backend/fetch_rss.py:18 | stripping an already stripped line changes nothing |
| `FetchRss.LoadSites` | backend/fetch_rss.py:13-21 | the loop returns exactly `ListedSites(lines)` when the sites file exists, and the empty list when it does not |
| `FetchRss.ListedSitesAppend` | backend/fetch_rss.py:17-20 | the sites of two runs of lines are the first run's sites followed by the second's, so file order is kept |
| `FetchRss.ListedSitesMembers` | backend/fetch_rss.py:17-20 | a string is listed if and only if some line strips to it and it is non-empty and does not start with `#` |
| `FetchRss.ListedSitesAreClean` | backend/fetch_rss.py:18-19 | every listed site is non-empty, does not start with `#`, and has no leading or trailing whitespace |
| `FetchRss.FirstEntries` | backend/fetch_rss.py:30 | `entries[:5]`: a prefix of the entries, of length min(5, n) |
| `FetchRss.FeedArticlesCount` | backend/fetch_rss.py:23-54 | at most 5 articles; none if parsing raised, if the feed has no entries, or if one of the first five entries lacks a title or a link; otherwise one article per entry among the first min(5, n) |
| `FetchRss.FeedArticlesFields` | backend/fetch_rss.py:29-50 | article i comes from entry i. Title and URL are copied. The blog title is the feed title, or "Unknown Blog" when there is none. The timestamp is `published`, else `updated`, else `now`. The date is the formatted timestamp |
| `FetchRss.FeedArticlesDates` | backend/fetch_rss.py:41-48 | every article of a feed carries the display date of its own timestamp |
| `FetchRss.FetchFeed` | backend/fetch_rss.py:23-54 | the loop with the fallback chain and the exception handler returns exactly `FeedArticles` |
| `FetchRss.GatheredBound` | backend/fetch_rss.py:60-62 | the concatenated per-site lists hold at most 5 articles per listed site |
| `FetchRss.GatheredDates` | backend/fetch_rss.py:60-62 | every gathered article carries the display date of its own timestamp |
| `FetchRss.GatherAll` | backend/fetch_rss.py:60-62 | the loop over the sites returns exactly the per-site article lists concatenated in site order |
| `FetchRss.RunCrawler` | backend/fetch_rss.py:56-71 | what is written is the stable newest-first sort of the per-site lists concatenated in site order |
| `FetchRss.CrawlerOutput` | backend/fetch_rss.py:58-65 | the written list is newest first, a permutation of the gathered articles, and stable, and it holds at most 5 articles per site |
| `Articles.SortIsNewestFirst` | frontend/app/page.tsx:18 | in the sorted list, every record is at least as recent as every record after it (so `a.timestamp >= b.timestamp` for each adjacent pair) |
| `Articles.SortPermutes` | frontend/app/page.tsx:16-18 | the sorted list holds the same records as the input, each with every field unchanged (multiset equality) |
| `Articles.SortIsStable` | frontend/app/page.tsx:18 | for every timestamp, the records carrying it appear in the same order as in the input |
| `Articles.SortKeepsNewestFirst` | frontend/app/page.tsx:17-18 | a list that is already newest first is returned unchanged |
| `Articles.SortIsIdempotent` | backend/fetch_rss.py:65 | sorting a sorted list again changes nothing |
| `Articles.StableOrderIsUnique` | backend/fetch_rss.py:65 | two newest-first lists that agree, timestamp by timestamp, on their records and on the order of those records are equal, so every stable descending sort has one result |
| `Articles.SortIsOrderIndependent` | frontend/app/page.tsx:18 | the same records given in any two orders sort to lists of the same length with the same timestamp at every index, so only records sharing a timestamp can come out in a different order |
| `Articles.SortNewestFirst` | backend/fetch_rss.py:65 | the in-place array sort leaves the array holding `SortedNewestFirst` of its old contents |
| `Strftime.DecimalRoundTrip` | backend/fetch_rss.py:41 | reading a number's decimal numeral back gives the number |
| `Strftime.ZeroPaddedShape` | backend/fetch_rss.py:41 | a padded field is all digits. It is `width` long, or the numeral's length if that is longer. It is the numeral after a run of zeros |
| `Strftime.DatePartsHaveNoSpace` | backend/fetch_rss.py:41 | `%Y-%m-%d` holds only digits and dashes, and `%H:%M` only digits and a colon |
| `JsStr.Split` | frontend/app/page.tsx:56 | `split(' ')` gives one more piece than there are spaces, and no piece contains a space |
| `JsStr.JoinSplit` | frontend/app/page.tsx:56 | joining the pieces of a split with the separator gives back the string |
| `JsStr.SplitJoin` | frontend/app/page.tsx:62 | splitting separator-free pieces joined by the separator gives back the pieces |
| `HomePage.GetArticles` | frontend/app/page.tsx:12-23 | a read failure, a parse failure, or a non-array value gives `[]`; a parsed array is sorted in place, newest first, and returned |
| `HomePage.ResortKeepsCrawlerOrder` | frontend/app/page.tsx:17-18 | the page's re-sort leaves the crawler's output unchanged |
| `HomePage.CardSplitsDateAtSpace` | frontend/app/page.tsx:56-62 | when a date has exactly one space, token 0 is the part before the space and token 1 the part after it; neither token contains a space; joining them with a space gives the date back |
| `HomePage.CardOfCrawledDate` | frontend/app/page.tsx:56-62 | for a date formatted as `'%Y-%m-%d %H:%M'`, the card shows `%Y-%m-%d` as the day and `%H:%M` as the time |
| `HomePage.CrawledCardsShowDayAndTime` | frontend/app/page.tsx:43-63 | every card built from the crawler's output shows the day and the time of day of its article's timestamp |
| `HomePage.Home` | frontend/app/page.tsx:25-43 | the displayed count equals the number of cards and the number of loaded records. It is 0 on any failure. Card i shows the i-th article of the sorted list |

## Left out

- Fetching and parsing a feed (`feedparser.parse`) is the parameter `fetch: string -> Fetched`. `Raised` covers any exception the parser throws. Which inputs make it throw is not modelled.
- Because `fetch` is a function, a URL listed twice gets the same answer both times. The source fetches it twice, and the two answers may differ.
- `Entry.published` and `Entry.updated` stand for `time.mktime(entry.published_parsed)` and `time.mktime(entry.updated_parsed)`. The model takes these timestamps as given. The time zone in which the parser reports the parsed dates, and the local-time reading `mktime` applies to them, are not modelled; the parser is not part of this model.
- An entry whose `published_parsed` is present but unusable is not modelled. In the source, `time.mktime` would then raise and the feed would give `[]`. The model treats a date as either present as an integer or absent.
- Timestamps are integers. `time.mktime` and `time.time()` both return floats, and `time.time()` has a fractional part, so the timestamps the source writes for undated entries are not whole seconds. That is not modelled. Only the order of timestamps matters to the model.
- `time.time()` is the parameter `now`. The model uses one value for a whole run, while the source reads the clock again for each entry that has no date. Because of this, undated entries keep their crawl order after the descending sort in the model. In the source, each later reading of the clock is normally newer or equal, though it can be older if the system clock is set back. So those entries normally come out in reverse crawl order, except that entries whose readings are equal, as on a coarse clock, keep their crawl order.
- `datetime.fromtimestamp` (`fetch_rss.py:41`) can raise for a timestamp outside its range (`OverflowError`, `OSError` or `ValueError`); the handler at `fetch_rss.py:52-54` then returns `[]` for the whole feed. `formatDate` and `toLocal` are total, so this path is not modelled, and such a feed still yields articles in the model.
- `datetime.fromtimestamp` (the local time zone) is the parameter `toLocal`, or the whole formatter `formatDate`. `strftime` is modelled for `'%Y-%m-%d %H:%M'` only. `%Y` is padded to four digits, as Python's documentation shows; some C libraries do not pad years below 1000.
- File I/O is replaced by values:
  - `os.path.exists` is a boolean.
  - Reading `sites.txt` gives a sequence of lines.
  - `os.makedirs` and `json.dump` are left out; the written list is `RunCrawler`'s result.
  - `fs.readFile` and `JSON.parse` together give the `Loaded` outcome.
- The parsed array is assumed to hold only well-formed article records (`Loaded.ArticleArray` carries a sequence of `Article`). Two failure paths of the page are therefore not modelled. First, a `null` element in an array of two or more makes the comparator throw when it reads `timestamp` of the null element (`page.tsx:18`), and the `catch` returns `[]`. Second, a record whose `date` is missing or not a string makes `article.date.split(' ')` (`page.tsx:56,62`) throw while rendering, outside the `try`, so the page fails.
- Records whose `timestamp` is not a number are not modelled. Subtraction turns some values (`null`, booleans, numeric strings) into numbers. The others give `NaN`, which the sort treats as equal. So the order is implementation-defined when such records are mixed with numeric ones.
- The Python list that `main` sorts in place is modelled as an array. The gathered sequence is copied into the array and sorted there. The page does the same with its parsed array.
- Logging (`print`, `console.error`) is left out because it has no effect on the results.
- React markup, Tailwind classes, `next/link` and the footer's `new Date()` are left out. The page is reduced to the count and each card's fields.
- `async`/`await` is left out. It only orders the I/O.
