/** The crawler (backend/fetch_rss.py): read the list of feed URLs, take the
    first five entries of each feed, and write all of them newest first.

    The sites file, the feed parser, the clock and the date formatting are
    parameters: `lines` with `sitesFileExists`, a `fetch` function from URL to
    parse outcome, `now`, and `formatDate`, which stands for
    `datetime.fromtimestamp(t).strftime('%Y-%m-%d %H:%M')` (its formatting half
    is Strftime.DateMinute; the time zone is the caller's). */
module FetchRss {
  import opened Wrappers
  import opened PyStr
  import opened Strftime
  import opened Articles

  const MaxArticlesPerSite: nat := 5
  const UnknownBlog: string := "Unknown Blog"

  // ---------------------------------------------------------------- sites

  /** A stripped line names a site when it is non-empty and not a comment. */
  predicate NamesSite(stripped: string)
  {
    stripped != [] && !StartsWithHash(stripped)
  }

  /** The sites a file with these lines lists, in file order. */
  function ListedSites(lines: seq<string>): seq<string>
  {
    if lines == [] then []
    else (if NamesSite(Strip(lines[0])) then [Strip(lines[0])] else []) + ListedSites(lines[1..])
  }

  /** `load_sites`: the listed sites, or none when the sites file is absent. */
  method LoadSites(sitesFileExists: bool, lines: seq<string>) returns (sites: seq<string>)
    ensures sites == if sitesFileExists then ListedSites(lines) else []
  {
    sites := [];
    if sitesFileExists {
      var i := 0;
      while i < |lines|
        invariant 0 <= i <= |lines|
        invariant sites == ListedSites(lines[..i])
      {
        var line := Strip(lines[i]);
        ListedSitesAppend(lines[..i], [lines[i]]);
        assert lines[..i + 1] == lines[..i] + [lines[i]];
        if line != [] && !StartsWithHash(line) {
          sites := sites + [line];
        }
        i := i + 1;
      }
      assert lines[..|lines|] == lines;
    }
  }

  /** Reading two runs of lines one after the other lists the sites of the
      first run, then those of the second: file order is kept. */
  lemma {:induction false} ListedSitesAppend(a: seq<string>, b: seq<string>)
    ensures ListedSites(a + b) == ListedSites(a) + ListedSites(b)
  {
    if a != [] {
      ListedSitesAppend(a[1..], b);
      assert (a + b)[1..] == a[1..] + b;
    } else {
      assert a + b == b;
    }
  }

  /** A site is listed exactly when some line strips to it and it is
      neither empty nor a comment. */
  lemma {:induction false} ListedSitesMembers(lines: seq<string>)
    ensures forall site :: site in ListedSites(lines) <==>
      exists i :: 0 <= i < |lines| && Strip(lines[i]) == site && NamesSite(site)
  {
    if lines != [] {
      ListedSitesMembers(lines[1..]);
      forall site | (exists i :: 0 <= i < |lines| && Strip(lines[i]) == site && NamesSite(site))
        ensures site in ListedSites(lines)
      {
        var i :| 0 <= i < |lines| && Strip(lines[i]) == site && NamesSite(site);
        if i > 0 {
          assert lines[1..][i - 1] == lines[i];
        }
      }
      forall site | site in ListedSites(lines)
        ensures exists i :: 0 <= i < |lines| && Strip(lines[i]) == site && NamesSite(site)
      {
        if site !in ListedSites(lines[1..]) {
          assert Strip(lines[0]) == site;
        } else {
          var i :| 0 <= i < |lines| - 1 && Strip(lines[1..][i]) == site && NamesSite(site);
          assert lines[1..][i] == lines[i + 1];
        }
      }
    }
  }

  /** Every listed site is non-empty, is not a comment and has no leading or
      trailing whitespace. */
  lemma ListedSitesAreClean(lines: seq<string>)
    ensures forall site <- ListedSites(lines) ::
      site != [] && site[0] != '#' && !IsSpace(site[0]) && !IsSpace(site[|site| - 1])
  {
    ListedSitesMembers(lines);
    forall site <- ListedSites(lines)
      ensures site != [] && site[0] != '#' && !IsSpace(site[0]) && !IsSpace(site[|site| - 1])
    {
      var i :| 0 <= i < |lines| && Strip(lines[i]) == site && NamesSite(site);
      StripRemovesOuterSpace(lines[i]);
    }
  }

  // ---------------------------------------------------------------- feeds

  /** One feed entry as the parser returns it; a field may be missing.
      `published` and `updated` are the timestamps `time.mktime` makes of
      the parsed dates, taken here as given. */
  datatype Entry = Entry(
    title: Option<string>,
    link: Option<string>,
    published: Option<int>,
    updated: Option<int>)

  /** A parsed feed: its own title, if any, and its entries in feed order. */
  datatype Feed = Feed(title: Option<string>, entries: seq<Entry>)

  /** What fetching and parsing one URL gives: a feed, or an exception. */
  datatype Fetched = Raised | Parsed(feed: Feed)

  /** The fields `entry.title` and `entry.link` are read without a guard:
      an entry lacking one raises an attribute error. */
  predicate HasTitleAndLink(e: Entry)
  {
    e.title.Some? && e.link.Some?
  }

  /** The entries `fetch_feed` looks at: the first five, in feed order. */
  function FirstEntries(entries: seq<Entry>): (r: seq<Entry>)
    ensures |r| <= MaxArticlesPerSite && |r| <= |entries|
    ensures |r| == |entries| || |r| == MaxArticlesPerSite
    ensures r == entries[..|r|]
  {
    if |entries| <= MaxArticlesPerSite then entries else entries[..MaxArticlesPerSite]
  }

  /** The time an entry is filed under: when it was published, else when it
      was updated, else the time of the crawl. */
  function EntryTime(e: Entry, now: int): int
  {
    match e.published
    case Some(t) => t
    case None => e.updated.GetOr(now)
  }

  /** `fetch_feed(url)` given the outcome of parsing that URL. */
  function FeedArticles(fetched: Fetched, now: int, formatDate: int -> string): seq<Article>
  {
    match fetched
    case Raised => []
    case Parsed(feed) =>
      var taken := FirstEntries(feed.entries);
      if forall e <- taken :: HasTitleAndLink(e) then ArticlesOf(taken, feed.title.GetOr(UnknownBlog), now, formatDate)
      else []
  }

  /** One record per entry, in entry order. */
  function ArticlesOf(entries: seq<Entry>, blogTitle: string, now: int, formatDate: int -> string): seq<Article>
    requires forall e <- entries :: HasTitleAndLink(e)
  {
    if entries == [] then []
    else
      var last := entries[|entries| - 1];
      ArticlesOf(entries[..|entries| - 1], blogTitle, now, formatDate) + [ToArticle(last, blogTitle, now, formatDate)]
  }

  lemma {:induction false} ArticlesOfAt(entries: seq<Entry>, blogTitle: string, now: int, formatDate: int -> string)
    requires forall e <- entries :: HasTitleAndLink(e)
    ensures |ArticlesOf(entries, blogTitle, now, formatDate)| == |entries|
    ensures forall k :: 0 <= k < |entries| ==>
      ArticlesOf(entries, blogTitle, now, formatDate)[k] == ToArticle(entries[k], blogTitle, now, formatDate)
  {
    if entries != [] {
      var init := entries[..|entries| - 1];
      assert forall e <- init :: e in entries;
      ArticlesOfAt(init, blogTitle, now, formatDate);
    }
  }

  /** A feed yields no articles when parsing raised, when it has no entries,
      or when one of its first five entries lacks a title or a link; otherwise
      it yields one article per entry among its first five, in feed order. */
  lemma FeedArticlesCount(fetched: Fetched, now: int, formatDate: int -> string)
    ensures var r := FeedArticles(fetched, now, formatDate);
      |r| <= MaxArticlesPerSite
      && (fetched.Raised? ==> r == [])
      && (fetched.Parsed? ==>
            var entries := fetched.feed.entries;
            (r == [] <==> entries == [] || exists e <- FirstEntries(entries) :: !HasTitleAndLink(e))
            && (r != [] ==> |r| == if |entries| < MaxArticlesPerSite then |entries| else MaxArticlesPerSite))
  {
    if fetched.Parsed? {
      var taken := FirstEntries(fetched.feed.entries);
      if forall e <- taken :: HasTitleAndLink(e) {
        ArticlesOfAt(taken, fetched.feed.title.GetOr(UnknownBlog), now, formatDate);
      }
    }
  }

  /** The i-th article of a feed comes from its i-th entry: same title and
      link, the feed's title (or "Unknown Blog") as blog title, the entry's
      published time, else its updated time, else the crawl time as
      timestamp, and that timestamp's local time as display date. */
  lemma FeedArticlesFields(fetched: Fetched, now: int, formatDate: int -> string, i: nat)
    requires fetched.Parsed? && i < |FeedArticles(fetched, now, formatDate)|
    ensures i < |fetched.feed.entries|
    ensures var a := FeedArticles(fetched, now, formatDate)[i];
      var e := fetched.feed.entries[i];
      HasTitleAndLink(e) && a.title == e.title.value && a.url == e.link.value
      && a.blogTitle == (if fetched.feed.title.Some? then fetched.feed.title.value else UnknownBlog)
      && (e.published.Some? ==> a.timestamp == e.published.value)
      && (e.published.None? && e.updated.Some? ==> a.timestamp == e.updated.value)
      && (e.published.None? && e.updated.None? ==> a.timestamp == now)
      && a.date == formatDate(a.timestamp)
  {
    var taken := FirstEntries(fetched.feed.entries);
    ArticlesOfAt(taken, fetched.feed.title.GetOr(UnknownBlog), now, formatDate);
    assert taken[i] == fetched.feed.entries[i];
  }

  /** Every article of a feed carries the display date of its own timestamp. */
  lemma FeedArticlesDates(fetched: Fetched, now: int, formatDate: int -> string)
    ensures forall a <- FeedArticles(fetched, now, formatDate) :: a.date == formatDate(a.timestamp)
  {
    var r := FeedArticles(fetched, now, formatDate);
    forall a <- r ensures a.date == formatDate(a.timestamp) {
      var i :| 0 <= i < |r| && r[i] == a;
      FeedArticlesFields(fetched, now, formatDate, i);
    }
  }

  /** The record written for one entry of a feed titled `blogTitle`. */
  function ToArticle(e: Entry, blogTitle: string, now: int, formatDate: int -> string): Article
    requires HasTitleAndLink(e)
  {
    var t := EntryTime(e, now);
    Article(e.title.value, e.link.value, blogTitle, formatDate(t), t)
  }

  /** `fetch_feed`: up to five articles, one per leading entry, all under the
      feed's title; any exception while parsing or reading an entry gives none. */
  method FetchFeed(fetched: Fetched, now: int, formatDate: int -> string) returns (articles: seq<Article>)
    ensures articles == FeedArticles(fetched, now, formatDate)
  {
    articles := [];
    if fetched.Raised? {
      return;
    }
    var feed := fetched.feed;
    if feed.entries != [] {
      var blogTitle := feed.title.GetOr(UnknownBlog);
      var taken := FirstEntries(feed.entries);
      var i := 0;
      while i < |taken|
        invariant 0 <= i <= |taken|
        invariant forall e <- taken[..i] :: HasTitleAndLink(e)
        invariant articles == ArticlesOf(taken[..i], blogTitle, now, formatDate)
      {
        var entry := taken[i];
        var publishedAt: int;
        if entry.published.Some? {
          publishedAt := entry.published.value;
        } else if entry.updated.Some? {
          publishedAt := entry.updated.value;
        } else {
          publishedAt := now;
        }
        var dateStr := formatDate(publishedAt);
        if entry.title.None? || entry.link.None? {
          // the attribute error is caught by the handler, which returns []
          assert taken[i] in taken;
          return [];
        }
        var article := Article(entry.title.value, entry.link.value, blogTitle, dateStr, publishedAt);
        assert taken[..i + 1] == taken[..i] + [entry];
        articles := articles + [article];
        i := i + 1;
      }
      assert taken[..i] == taken;
    }
  }

  // ---------------------------------------------------------------- main

  /** The lists one after the other. */
  function Flatten(lists: seq<seq<Article>>): (r: seq<Article>)
  {
    if lists == [] then [] else Flatten(lists[..|lists| - 1]) + lists[|lists| - 1]
  }

  /** Lists of at most `n` records each flatten to at most `n` per list. */
  lemma {:induction false} FlattenBound(lists: seq<seq<Article>>, n: nat)
    requires forall l <- lists :: |l| <= n
    ensures |Flatten(lists)| <= n * |lists|
  {
    if lists != [] {
      var m := |lists| - 1;
      var init := lists[..m];
      assert forall l <- init :: l in lists;
      assert lists[m] in lists;
      FlattenBound(init, n);
      MulStep(n, |lists|);
    }
  }

  lemma MulStep(n: nat, k: nat)
    requires k >= 1
    ensures n * k == n * (k - 1) + n
  {
  }

  lemma {:induction false} FlattenMembers(lists: seq<seq<Article>>)
    ensures forall a <- Flatten(lists) :: exists l <- lists :: a in l
  {
    if lists != [] {
      var init := lists[..|lists| - 1];
      FlattenMembers(init);
      assert forall l <- init :: l in lists;
      assert lists[|lists| - 1] in lists;
    }
  }

  /** The articles of each site, site by site. */
  function PerSite(sites: seq<string>, fetch: string -> Fetched, now: int, formatDate: int -> string): seq<seq<Article>>
  {
    seq(|sites|, i requires 0 <= i < |sites| => FeedArticles(fetch(sites[i]), now, formatDate))
  }

  /** The articles of `sites` in site order, before sorting. */
  function Gathered(sites: seq<string>, fetch: string -> Fetched, now: int, formatDate: int -> string): seq<Article>
  {
    Flatten(PerSite(sites, fetch, now, formatDate))
  }

  /** Each site contributes at most five articles. */
  lemma GatheredBound(sites: seq<string>, fetch: string -> Fetched, now: int, formatDate: int -> string)
    ensures |Gathered(sites, fetch, now, formatDate)| <= MaxArticlesPerSite * |sites|
  {
    var lists := PerSite(sites, fetch, now, formatDate);
    forall l <- lists ensures |l| <= MaxArticlesPerSite {
      var i :| 0 <= i < |lists| && lists[i] == l;
      FeedArticlesCount(fetch(sites[i]), now, formatDate);
    }
    FlattenBound(lists, MaxArticlesPerSite);
  }

  /** Every gathered article carries the display date of its own timestamp. */
  lemma GatheredDates(sites: seq<string>, fetch: string -> Fetched, now: int, formatDate: int -> string)
    ensures forall a <- Gathered(sites, fetch, now, formatDate) :: a.date == formatDate(a.timestamp)
  {
    var lists := PerSite(sites, fetch, now, formatDate);
    FlattenMembers(lists);
    forall a <- Flatten(lists) ensures a.date == formatDate(a.timestamp) {
      var l :| l in lists && a in l;
      var i :| 0 <= i < |lists| && lists[i] == l;
      FeedArticlesDates(fetch(sites[i]), now, formatDate);
    }
  }

  /** The loop of `main` that fetches every site in turn and appends its
      articles, so the result is the per-site lists concatenated in site order. */
  method GatherAll(sites: seq<string>, fetch: string -> Fetched, now: int, formatDate: int -> string)
    returns (allArticles: seq<Article>)
    ensures allArticles == Gathered(sites, fetch, now, formatDate)
  {
    ghost var perSite := PerSite(sites, fetch, now, formatDate);
    allArticles := [];
    var i := 0;
    while i < |sites|
      invariant 0 <= i <= |sites|
      invariant allArticles == Flatten(perSite[..i])
    {
      var articles := FetchFeed(fetch(sites[i]), now, formatDate);
      assert perSite[..i + 1][..i] == perSite[..i];
      allArticles := allArticles + articles;
      i := i + 1;
    }
    assert perSite[..|sites|] == perSite;
  }

  /** `main`: fetch every listed site in order, concatenate the articles and
      sort them newest first; the result is what is written to the feed file. */
  method RunCrawler(sitesFileExists: bool, lines: seq<string>, fetch: string -> Fetched,
                    now: int, formatDate: int -> string)
    returns (written: seq<Article>)
    ensures var sites := if sitesFileExists then ListedSites(lines) else [];
      written == SortedNewestFirst(Gathered(sites, fetch, now, formatDate))
  {
    var sites := LoadSites(sitesFileExists, lines);
    var allArticles := GatherAll(sites, fetch, now, formatDate);
    var buffer := new Article[|allArticles|](k requires 0 <= k < |allArticles| => allArticles[k]);
    assert buffer[..] == allArticles;
    SortNewestFirst(buffer);
    written := buffer[..];
  }

  /** What the crawler writes is newest first, stable, holds exactly the
      gathered articles, and numbers at most five per listed site. */
  lemma CrawlerOutput(sites: seq<string>, fetch: string -> Fetched, now: int, formatDate: int -> string)
    ensures var all := Gathered(sites, fetch, now, formatDate);
      var written := SortedNewestFirst(all);
      IsNewestFirst(written)
      && multiset(written) == multiset(all)
      && (forall t :: StampedAt(written, t) == StampedAt(all, t))
      && |written| <= MaxArticlesPerSite * |sites|
  {
    var all := Gathered(sites, fetch, now, formatDate);
    SortIsNewestFirst(all);
    SortPermutes(all);
    SortIsStable(all);
    GatheredBound(sites, fetch, now, formatDate);
    assert |SortedNewestFirst(all)| == |all| by {
      assert |multiset(SortedNewestFirst(all))| == |multiset(all)|;
    }
  }
}
