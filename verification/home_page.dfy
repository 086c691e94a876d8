/** The page (frontend/app/page.tsx): load the articles the crawler wrote,
    sort them newest first once more, and show one card per article with the
    date split into its day and its time of day.

    Reading `public/articles.json` and `JSON.parse` are a parameter: the
    `Loaded` outcome. The markup is reduced to what it shows: the count and
    the fields of each card. */
module HomePage {
  import opened Wrappers
  import opened Articles
  import opened JsStr
  import opened Strftime
  import FetchRss

  /** What reading and parsing the feed file gives. Reading may fail, the
      text may not be JSON, and a JSON value that is not an array has no
      `sort` method, so calling it throws. */
  datatype Loaded = ReadFailed | ParseFailed | NotAnArray | ArticleArray(records: seq<Article>)

  /** `getArticles`: every failure is caught and gives no articles; a parsed
      array is sorted in place, newest first, and returned. */
  method GetArticles(loaded: Loaded) returns (articles: seq<Article>)
    ensures !loaded.ArticleArray? ==> articles == []
    ensures loaded.ArticleArray? ==> articles == SortedNewestFirst(loaded.records)
  {
    match loaded {
      case ArticleArray(records) =>
        var parsed := new Article[|records|](k requires 0 <= k < |records| => records[k]);
        assert parsed[..] == records;
        SortNewestFirst(parsed);
        articles := parsed[..];
      case _ =>
        articles := [];
    }
  }

  /** Sorting on the page is a no-op on what the crawler wrote: the crawler
      already wrote its articles newest first. */
  lemma ResortKeepsCrawlerOrder(sites: seq<string>, fetch: string -> FetchRss.Fetched, now: int, formatDate: int -> string)
    ensures var written := SortedNewestFirst(FetchRss.Gathered(sites, fetch, now, formatDate));
      SortedNewestFirst(written) == written
  {
    SortIsIdempotent(FetchRss.Gathered(sites, fetch, now, formatDate));
  }

  /** What one card shows: the link, the blog title, the time of day (the
      second space-separated token of the date, absent when there is none),
      the headline and the day (the first token). */
  datatype Card = Card(href: string, blogTitle: string, time: Option<string>, title: string, day: string)

  function CardOf(a: Article): Card
  {
    var tokens := Split(a.date, ' ');
    Card(a.url, a.blogTitle, if |tokens| > 1 then Some(tokens[1]) else None, a.title, tokens[0])
  }

  /** A date with exactly one space splits there: the day before it, the time
      after it, neither holding a space, and the two joined by a space give
      the date back. */
  lemma CardSplitsDateAtSpace(a: Article)
    requires Occurrences(a.date, ' ') == 1
    ensures var card := CardOf(a);
      card.time.Some?
      && card.day + " " + card.time.value == a.date
      && ' ' !in card.day && ' ' !in card.time.value
  {
    var tokens := Split(a.date, ' ');
    JoinSplit(a.date, ' ');
    assert tokens[1..][0] == tokens[1];
    assert tokens[0] in tokens && tokens[1] in tokens;
  }

  /** A card for a date the crawler formatted shows `%Y-%m-%d` as the day and
      `%H:%M` as the time. */
  lemma CardOfCrawledDate(a: Article, t: CivilTime)
    requires a.date == DateMinute(t)
    ensures CardOf(a).day == DayPart(t) && CardOf(a).time == Some(ClockPart(t))
  {
    DatePartsHaveNoSpace(t);
    var pieces := [DayPart(t), ClockPart(t)];
    assert forall piece <- pieces :: ' ' !in piece;
    assert Join(pieces, ' ') == DateMinute(t) by {
      assert pieces[1..] == [ClockPart(t)];
    }
    SplitJoin(pieces, ' ');
  }

  /** Every card of a page built from what the crawler wrote shows the day
      and the time of day of its article's timestamp, in the crawler's time
      zone `toLocal`. */
  lemma CrawledCardsShowDayAndTime(sites: seq<string>, fetch: string -> FetchRss.Fetched, now: int, toLocal: int -> CivilTime)
    ensures forall a <- SortedNewestFirst(FetchRss.Gathered(sites, fetch, now, LocalDateMinute(toLocal))) ::
      CardOf(a).day == DayPart(toLocal(a.timestamp)) && CardOf(a).time == Some(ClockPart(toLocal(a.timestamp)))
  {
    var all := FetchRss.Gathered(sites, fetch, now, LocalDateMinute(toLocal));
    SortPermutes(all);
    FetchRss.GatheredDates(sites, fetch, now, LocalDateMinute(toLocal));
    forall a <- SortedNewestFirst(all)
      ensures CardOf(a).day == DayPart(toLocal(a.timestamp)) && CardOf(a).time == Some(ClockPart(toLocal(a.timestamp)))
    {
      assert a in multiset(SortedNewestFirst(all));
      assert a in all;
      CardOfCrawledDate(a, toLocal(a.timestamp));
    }
  }

  /** What the page shows: the article count in the header and the cards in
      list order. */
  datatype Shown = Shown(count: nat, cards: seq<Card>)

  function View(articles: seq<Article>): Shown
  {
    Shown(|articles|, seq(|articles|, i requires 0 <= i < |articles| => CardOf(articles[i])))
  }

  /** `Home`: the count shown is the number of cards, which is the number of
      records loaded, zero on any failure; card i shows the i-th newest article. */
  method Home(loaded: Loaded) returns (page: Shown)
    ensures page.count == |page.cards|
    ensures !loaded.ArticleArray? ==> page.count == 0
    ensures loaded.ArticleArray? ==> page.count == |loaded.records|
    ensures loaded.ArticleArray? ==>
      forall i :: 0 <= i < page.count ==> page.cards[i] == CardOf(SortedNewestFirst(loaded.records)[i])
  {
    var articles := GetArticles(loaded);
    page := View(articles);
  }
}
