/** The Thai Rath news scraper: for each news category, fetch the category's
    listing page, take every link in its highlight carousel, fetch each
    linked article and join its paragraphs into the record's content.

    A parsed page is abstracted to the two containers the scraper looks
    for: the `div.slick-track` carousel (its anchors, in document order)
    and the `div.article-body` (the `getText()` of each of its paragraphs,
    in document order). */
module ThaiRath {
  import opened Types
  import opened Text
  import opened BaseScraper

  const BaseUrl: string := "https://www.thairath.co.th/news/"

  const NewsCategories: seq<string> := ["royal", "society", "politic", "money", "foreign", "crime"]

  const SlickTrack: string := "slick-track"
  const ArticleBody: string := "article-body"

  /** A scraper configured for the site, with its categories in visiting order. */
  datatype ThaiRath = ThaiRath(scraper: Scraper, newsCategory: seq<string>)

  /** The constructor: the base scraper's defaults with the site's base URL. */
  function NewThaiRath(): (t: ThaiRath)
    ensures t.scraper.headers == DefaultHeaders
    ensures t.scraper.baseUrl == BaseUrl && t.scraper.maxRetries == DefaultMaxRetries
    ensures t.scraper.delayRange.0 >= 0.0 && t.scraper.delayRange.1 >= 0.0
    ensures |t.newsCategory| == 6 && t.newsCategory[0] == "royal" && t.newsCategory[5] == "crime"
    ensures t.newsCategory == NewsCategories
    ensures t.scraper.timeout == DefaultTimeout && t.scraper.delayRange == DefaultDelayRange
  {
    ThaiRath(NewScraper(BaseUrl, None, DefaultMaxRetries, DefaultTimeout, DefaultDelayRange), NewsCategories)
  }

  /** An `<a>` element: its `href` and `title` attributes, when present. */
  datatype Anchor = Anchor(href: Option<string>, title: Option<string>)

  /** A parsed page, reduced to the containers the scraper searches for. */
  datatype Page = Page(slickTrack: Option<seq<Anchor>>, articleBody: Option<seq<string>>)

  /** One highlight news item. */
  datatype Record = Record(title: Option<string>, link: string, newsType: string, content: Option<string>)

  /** The result of a scraping call together with its trace and where it
      left the environment. */
  datatype Run<T> = Run(result: Result<T>, trace: seq<Event>, next: Cursor)

  /** How an f-string renders an optional string: `None` prints as "None". */
  function Interpolate(v: Option<string>): (text: string)
  {
    match v
    case Some(x) => x
    case None => "None"
  }

  /** `f"{url}{news.get('href')}"`: plain concatenation, no URL resolution. */
  function LinkFor(url: string, a: Anchor): (link: string)
    ensures url <= link
    ensures a.href.Some? ==> link[|url|..] == a.href.value
    ensures a.href.None? ==> link == url + "None"
  {
    url + Interpolate(a.href)
  }

  /** The document a fetch delivered, if it delivered one. */
  predicate Delivers(f: Fetch<Page>) {
    f.answer.Ok? && f.answer.value.Some?
  }

  /** `scrape_news_content(url)`: `None` when the fetch gives up; otherwise
      the `getText()` of every paragraph of the article body, joined in
      order with no separator and not stripped. A page without an article
      body raises. */
  function ScrapeNewsContent(s: Scraper, url: string, env: Env<Page>, at: Cursor): (r: Run<Option<string>>)
    ensures var f := MakeRequest(s, url, env, at);
            && r.trace == f.trace && r.next == f.next
            && (r.result == Ok(None) <==> f.answer == Ok(None))
            && (r.result == Raised(NoContainer(ArticleBody)) <==> Delivers(f) && f.answer.value.value.articleBody.None?)
            && (r.result.Ok? && r.result.value.Some? <==> Delivers(f) && f.answer.value.value.articleBody.Some?)
            && (r.result.Ok? && r.result.value.Some? ==> r.result.value.value == Concat(f.answer.value.value.articleBody.value))
            && (r.result.Raised? ==> r.result.error == NegativeSleep || r.result.error == NoContainer(ArticleBody))
            && (f.answer.Raised? ==> r.result == Raised(f.answer.error))
  {
    var f := MakeRequest(s, url, env, at);
    match f.answer
    case Raised(e) => Run(Raised(e), f.trace, f.next)
    case Ok(None) => Run(Ok(None), f.trace, f.next)
    case Ok(Some(page)) =>
      match page.articleBody
      case None => Run(Raised(NoContainer(ArticleBody)), f.trace, f.next)
      case Some(paragraphs) => Run(Ok(Some(Concat(paragraphs))), f.trace, f.next)
  }

  /** The loop of `scrape_highlight_news` over the carousel's anchors: one
      record per anchor, in order, each article fetched in turn. An
      exception from an article fetch ends the loop and escapes. */
  function Assemble(s: Scraper, url: string, category: string, anchors: seq<Anchor>, env: Env<Page>, at: Cursor): (r: Run<seq<Record>>)
    ensures r.result.Ok? ==> |r.result.value| == |anchors|
    ensures r.result.Raised? ==> r.result.error == NegativeSleep || r.result.error == NoContainer(ArticleBody)
    ensures at.draws <= r.next.draws && at.sends <= r.next.sends
    decreases |anchors|
  {
    if anchors == [] then Run(Ok([]), [], at)
    else
      var link := LinkFor(url, anchors[0]);
      var c := ScrapeNewsContent(s, link, env, at);
      match c.result
      case Raised(e) => Run(Raised(e), c.trace, c.next)
      case Ok(content) =>
        var record := Record(anchors[0].title, link, category, content);
        var rest := Assemble(s, url, category, anchors[1..], env, c.next);
        var result := match rest.result
          case Ok(records) => Ok([record] + records)
          case Raised(e) => Raised(e);
        Run(result, c.trace + rest.trace, rest.next)
  }

  /** `scrape_highlight_news(url, category)`: `None` when the listing fetch
      gives up, an exception when the page has no carousel, and otherwise
      one record per carousel anchor. */
  function ScrapeHighlightNews(s: Scraper, url: string, category: string, env: Env<Page>, at: Cursor): (r: Run<Option<seq<Record>>>)
    ensures var f := MakeRequest(s, url, env, at);
            && (r.result == Ok(None) <==> f.answer == Ok(None))
            && (r.result == Raised(NoContainer(SlickTrack)) <==> Delivers(f) && f.answer.value.value.slickTrack.None?)
            && (r.result.Ok? && r.result.value.Some? ==>
                  Delivers(f) && f.answer.value.value.slickTrack.Some?
                  && |r.result.value.value| == |f.answer.value.value.slickTrack.value|)
    ensures var f := MakeRequest(s, url, env, at);
            !(Delivers(f) && f.answer.value.value.slickTrack.Some?) ==> r.trace == f.trace && r.next == f.next
    ensures var f := MakeRequest(s, url, env, at);
            f.answer.Raised? ==> r.result == Raised(f.answer.error)
    ensures at.draws <= r.next.draws && at.sends <= r.next.sends
  {
    var f := MakeRequest(s, url, env, at);
    match f.answer
    case Raised(e) => Run(Raised(e), f.trace, f.next)
    case Ok(None) => Run(Ok(None), f.trace, f.next)
    case Ok(Some(page)) =>
      match page.slickTrack
      case None => Run(Raised(NoContainer(SlickTrack)), f.trace, f.next)
      case Some(anchors) =>
        var a := Assemble(s, url, category, anchors, env, f.next);
        var result := match a.result
          case Ok(records) => Ok(Some(records))
          case Raised(e) => Raised(e);
        Run(result, f.trace + a.trace, a.next)
  }

  /** `content` is what scraping `link` gives, starting at some point of
      the environment. */
  ghost predicate ContentOf(s: Scraper, link: string, env: Env<Page>, content: Option<string>) {
    exists o :: ScrapeNewsContent(s, link, env, o).result == Ok(content)
  }

  /** `e` is what scraping `link` raises, starting at some point of the
      environment. */
  ghost predicate RaisedBy(s: Scraper, link: string, env: Env<Page>, e: Error) {
    exists o :: ScrapeNewsContent(s, link, env, o).result == Raised(e)
  }

  /** Record `i` comes from anchor `i`: its title is the anchor's title, its
      link is the listing URL followed by the anchor's href, its type is the
      category, and its content is what scraping that very link gave. An
      exception out of the loop is one raised by scraping some anchor's
      link. */
  lemma {:induction false} AssembleRecords(s: Scraper, url: string, category: string, anchors: seq<Anchor>, env: Env<Page>, at: Cursor)
    ensures var r := Assemble(s, url, category, anchors, env, at);
            && (r.result.Ok? ==> forall i :: 0 <= i < |anchors| ==>
                  && r.result.value[i].title == anchors[i].title
                  && r.result.value[i].link == LinkFor(url, anchors[i])
                  && r.result.value[i].newsType == category
                  && ContentOf(s, r.result.value[i].link, env, r.result.value[i].content))
            && (r.result.Raised? ==> exists i :: 0 <= i < |anchors| && RaisedBy(s, LinkFor(url, anchors[i]), env, r.result.error))
    decreases |anchors|
  {
    if anchors != [] {
      var r := Assemble(s, url, category, anchors, env, at);
      var link := LinkFor(url, anchors[0]);
      var c := ScrapeNewsContent(s, link, env, at);
      var next := AssembleStep(s, url, category, anchors, env, at);
      if c.result.Ok? {
        var rest := Assemble(s, url, category, anchors[1..], env, next);
        AssembleRecords(s, url, category, anchors[1..], env, next);
        if r.result.Ok? {
          var rs := r.result.value;
          forall i | 0 <= i < |anchors|
            ensures && rs[i].title == anchors[i].title
                    && rs[i].link == LinkFor(url, anchors[i])
                    && rs[i].newsType == category
                    && ContentOf(s, rs[i].link, env, rs[i].content)
          {
            if i == 0 {
              assert ScrapeNewsContent(s, rs[0].link, env, at).result == Ok(rs[0].content);
            } else {
              assert rs[i] == rest.result.value[i - 1];
              assert anchors[i] == anchors[1..][i - 1];
            }
          }
        } else {
          var i :| 0 <= i < |anchors[1..]| && RaisedBy(s, LinkFor(url, anchors[1..][i]), env, rest.result.error);
          assert anchors[1..][i] == anchors[i + 1];
        }
      } else {
        assert RaisedBy(s, link, env, r.result.error);
      }
    }
  }

  /** One step of the loop: the first anchor's article is scraped; an
      exception there ends the loop, otherwise its record heads the records
      of the remaining anchors, scraped from where it left the environment. */
  lemma AssembleStep(s: Scraper, url: string, category: string, anchors: seq<Anchor>, env: Env<Page>, at: Cursor) returns (next: Cursor)
    requires anchors != []
    ensures var r := Assemble(s, url, category, anchors, env, at);
            var c := ScrapeNewsContent(s, LinkFor(url, anchors[0]), env, at);
            var rest := Assemble(s, url, category, anchors[1..], env, next);
            && next == c.next
            && (c.result.Raised? ==> r.result == Raised(c.result.error) && r.trace == c.trace && r.next == c.next)
            && (c.result.Ok? ==> r.trace == c.trace + rest.trace && r.next == rest.next)
            && (c.result.Ok? && r.result.Ok? ==>
                  rest.result.Ok? && r.result.value == [Record(anchors[0].title, LinkFor(url, anchors[0]), category, c.result.value)] + rest.result.value)
            && (c.result.Ok? && r.result.Raised? ==> rest.result == Raised(r.result.error))
  {
    next := ScrapeNewsContent(s, LinkFor(url, anchors[0]), env, at).next;
  }

  /** The article scrape of anchor `i`, started at cursor `cs[i]`. */
  ghost function Article(s: Scraper, url: string, anchors: seq<Anchor>, env: Env<Page>, cs: seq<Cursor>, i: nat): Run<Option<string>>
    requires i < |anchors| && i < |cs|
  {
    ScrapeNewsContent(s, LinkFor(url, anchors[i]), env, cs[i])
  }

  /** `cs` threads the environment through completed article scrapes: scrape
      `i` starts at `cs[i]`, returns without an exception, and leaves the
      environment at `cs[i + 1]`. */
  ghost predicate ArticlesThreaded(s: Scraper, url: string, anchors: seq<Anchor>, env: Env<Page>, cs: seq<Cursor>) {
    && 1 <= |cs| <= |anchors| + 1
    && forall i :: 0 <= i < |cs| - 1 ==>
         Article(s, url, anchors, env, cs, i).result.Ok? && Article(s, url, anchors, env, cs, i).next == cs[i + 1]
  }

  /** The traces of the completed article scrapes, in order: the first
      anchor's, then those of the later anchors along the later cursors. */
  ghost function ArticleTraces(s: Scraper, url: string, anchors: seq<Anchor>, env: Env<Page>, cs: seq<Cursor>): (ts: seq<seq<Event>>)
    requires 1 <= |cs| <= |anchors| + 1
    ensures |ts| == |cs| - 1
    decreases |cs|
  {
    if |cs| == 1 then [] else [Article(s, url, anchors, env, cs, 0).trace] + ArticleTraces(s, url, anchors[1..], env, cs[1..])
  }

  /** A loop run `r` that completes scraped every anchor's article in turn:
      record `i`'s content is what the scrape of anchor `i`'s link returned,
      the loop's trace is the scrapes' traces in order, and it leaves the
      environment where the last scrape did. */
  ghost predicate ArticlesDone(s: Scraper, url: string, anchors: seq<Anchor>, env: Env<Page>, cs: seq<Cursor>, r: Run<seq<Record>>)
    requires 1 <= |cs| <= |anchors| + 1
  {
    var n := |cs| - 1;
    r.result.Ok? ==>
      && n == |anchors| && |r.result.value| == n && r.next == cs[n]
      && r.trace == Concat(ArticleTraces(s, url, anchors, env, cs))
      && forall i :: 0 <= i < n ==> Ok(r.result.value[i].content) == Article(s, url, anchors, env, cs, i).result
  }

  /** A loop run `r` that raises stopped at the scrape right after the
      completed ones: that scrape raised the loop's exception, and its trace
      ends the loop's trace. */
  ghost predicate ArticlesStopped(s: Scraper, url: string, anchors: seq<Anchor>, env: Env<Page>, cs: seq<Cursor>, r: Run<seq<Record>>)
    requires 1 <= |cs| <= |anchors| + 1
  {
    var n := |cs| - 1;
    r.result.Raised? ==>
      && n < |anchors|
      && Article(s, url, anchors, env, cs, n).result == Raised(r.result.error)
      && r.next == Article(s, url, anchors, env, cs, n).next
      && r.trace == Concat(ArticleTraces(s, url, anchors, env, cs)) + Article(s, url, anchors, env, cs, n).trace
  }

  /** The loop fetches the articles one after another, in anchor order: the
      first from `at`, each next one from where the previous one left the
      environment, as `ArticlesDone` and `ArticlesStopped` describe. */
  ghost predicate ArticlesInTurn(s: Scraper, url: string, category: string, anchors: seq<Anchor>, env: Env<Page>, at: Cursor, cs: seq<Cursor>) {
    var r := Assemble(s, url, category, anchors, env, at);
    && ArticlesThreaded(s, url, anchors, env, cs) && cs[0] == at
    && ArticlesDone(s, url, anchors, env, cs, r)
    && ArticlesStopped(s, url, anchors, env, cs, r)
  }

  /** There is a cursor for every completed article scrape such that the
      loop runs as `ArticlesInTurn` describes. */
  lemma {:induction false} AssembleThreaded(s: Scraper, url: string, category: string, anchors: seq<Anchor>, env: Env<Page>, at: Cursor)
    returns (cs: seq<Cursor>)
    ensures ArticlesInTurn(s, url, category, anchors, env, at, cs)
    decreases |anchors|
  {
    if anchors == [] {
      cs := [at];
      assert ArticleTraces(s, url, anchors, env, cs) == [];
    } else {
      var c := ScrapeNewsContent(s, LinkFor(url, anchors[0]), env, at);
      var next := AssembleStep(s, url, category, anchors, env, at);
      if c.result.Raised? {
        cs := [at];
        assert ArticleTraces(s, url, anchors, env, cs) == [];
        assert Article(s, url, anchors, env, cs, 0) == c;
      } else {
        var cs' := AssembleThreaded(s, url, category, anchors[1..], env, next);
        cs := [at] + cs';
        var r := Assemble(s, url, category, anchors, env, at);
        var rest := Assemble(s, url, category, anchors[1..], env, next);
        ArticlesShift(s, url, anchors, env, cs, cs');
        assert Article(s, url, anchors, env, cs, 0) == c;
        ArticlesDoneCons(s, url, category, anchors, env, cs, cs', c, r, rest);
        ArticlesStoppedCons(s, url, anchors, env, cs, cs', c, r, rest);
      }
    }
  }

  lemma ArticlesDoneCons(s: Scraper, url: string, category: string, anchors: seq<Anchor>, env: Env<Page>, cs: seq<Cursor>, cs': seq<Cursor>,
                         c: Run<Option<string>>, r: Run<seq<Record>>, rest: Run<seq<Record>>)
    requires anchors != [] && |cs| == |cs'| + 1 && cs[1..] == cs' && 1 <= |cs'| <= |anchors|
    requires c == Article(s, url, anchors, env, cs, 0) && c.result.Ok?
    requires r.result.Ok? ==>
               && rest.result.Ok? && r.trace == c.trace + rest.trace && r.next == rest.next
               && r.result.value == [Record(anchors[0].title, LinkFor(url, anchors[0]), category, c.result.value)] + rest.result.value
    requires ArticlesDone(s, url, anchors[1..], env, cs', rest) && ShiftedBy(s, url, anchors, env, cs, cs')
    ensures ArticlesDone(s, url, anchors, env, cs, r)
  {
    if r.result.Ok? {
      ArticleTracesCons(s, url, anchors, env, cs, cs');
      forall i | 0 <= i < |cs| - 1
        ensures Ok(r.result.value[i].content) == Article(s, url, anchors, env, cs, i).result
      {
        if i > 0 {
          assert r.result.value[i] == rest.result.value[i - 1];
        }
      }
    }
  }

  lemma ArticlesStoppedCons(s: Scraper, url: string, anchors: seq<Anchor>, env: Env<Page>, cs: seq<Cursor>, cs': seq<Cursor>,
                            c: Run<Option<string>>, r: Run<seq<Record>>, rest: Run<seq<Record>>)
    requires anchors != [] && |cs| == |cs'| + 1 && cs[1..] == cs' && 1 <= |cs'| <= |anchors|
    requires c == Article(s, url, anchors, env, cs, 0)
    requires r.result.Raised? ==>
               && rest.result == Raised(r.result.error) && r.trace == c.trace + rest.trace && r.next == rest.next
    requires ArticlesStopped(s, url, anchors[1..], env, cs', rest) && ShiftedBy(s, url, anchors, env, cs, cs')
    ensures ArticlesStopped(s, url, anchors, env, cs, r)
  {
    if r.result.Raised? {
      ArticleTracesCons(s, url, anchors, env, cs, cs');
      var n' := |cs'| - 1;
      var a := Article(s, url, anchors[1..], env, cs', n');
      assert Article(s, url, anchors, env, cs, n' + 1) == a;
      StoppedAfter(r, rest, c.trace, a, Concat(ArticleTraces(s, url, anchors, env, cs)), Concat(ArticleTraces(s, url, anchors[1..], env, cs')));
    }
  }

  /** A loop that raises in its remaining iterations, after a first
      iteration that completed, raises the same exception at the same scrape. */
  lemma StoppedAfter(r: Run<seq<Record>>, rest: Run<seq<Record>>, first: seq<Event>, a: Run<Option<string>>, done: seq<Event>, done': seq<Event>)
    requires r.result.Raised? && rest.result == Raised(r.result.error) && r.trace == first + rest.trace && r.next == rest.next
    requires a.result == Raised(rest.result.error) && rest.next == a.next && rest.trace == done' + a.trace
    requires done == first + done'
    ensures a.result == Raised(r.result.error) && r.next == a.next && r.trace == done + a.trace
  {
    assert first + (done' + a.trace) == (first + done') + a.trace;
  }

  /** The completed scrapes' traces are the first scrape's trace followed by
      those of the later ones. */
  lemma ArticleTracesCons(s: Scraper, url: string, anchors: seq<Anchor>, env: Env<Page>, cs: seq<Cursor>, cs': seq<Cursor>)
    requires anchors != [] && 1 <= |cs'| <= |anchors| && |cs| == |cs'| + 1 && cs[1..] == cs'
    ensures Concat(ArticleTraces(s, url, anchors, env, cs))
         == Article(s, url, anchors, env, cs, 0).trace + Concat(ArticleTraces(s, url, anchors[1..], env, cs'))
  {
    var ts := ArticleTraces(s, url, anchors, env, cs);
    assert ts[1..] == ArticleTraces(s, url, anchors[1..], env, cs');
    ConcatCons(ts, ArticleTraces(s, url, anchors[1..], env, cs'));
  }

  /** Article scrape `i + 1` along `cs` is article scrape `i` of the later
      anchors along `cs'`. */
  ghost predicate ShiftedBy(s: Scraper, url: string, anchors: seq<Anchor>, env: Env<Page>, cs: seq<Cursor>, cs': seq<Cursor>)
    requires anchors != [] && |cs| == |cs'| + 1
  {
    forall i :: 0 <= i < |cs'| && i < |anchors| - 1 ==>
      Article(s, url, anchors, env, cs, i + 1) == Article(s, url, anchors[1..], env, cs', i)
  }

  /** Prepending the first article's cursor shifts every later article scrape
      by one anchor. */
  lemma ArticlesShift(s: Scraper, url: string, anchors: seq<Anchor>, env: Env<Page>, cs: seq<Cursor>, cs': seq<Cursor>)
    requires anchors != [] && ArticlesThreaded(s, url, anchors[1..], env, cs')
    requires |cs| == |cs'| + 1 && cs[1..] == cs'
    requires var c := ScrapeNewsContent(s, LinkFor(url, anchors[0]), env, cs[0]);
             c.result.Ok? && c.next == cs'[0]
    ensures ArticlesThreaded(s, url, anchors, env, cs)
    ensures ShiftedBy(s, url, anchors, env, cs, cs')
  {
    forall i | 0 <= i < |cs'| && i < |anchors| - 1
      ensures Article(s, url, anchors, env, cs, i + 1) == Article(s, url, anchors[1..], env, cs', i)
    {
      assert anchors[i + 1] == anchors[1..][i] && cs[i + 1] == cs'[i];
    }
    forall i | 0 <= i < |cs| - 1
      ensures Article(s, url, anchors, env, cs, i).result.Ok? && Article(s, url, anchors, env, cs, i).next == cs[i + 1]
    {
      if i > 0 {
        assert Article(s, url, anchors, env, cs, i) == Article(s, url, anchors[1..], env, cs', i - 1);
      }
    }
  }

  /** The listing scrape, end to end: a successful result has one record
      per anchor of the delivered page's carousel, built as
      `AssembleRecords` describes. */
  lemma HighlightRecords(s: Scraper, url: string, category: string, env: Env<Page>, at: Cursor)
    ensures var r := ScrapeHighlightNews(s, url, category, env, at);
            var f := MakeRequest(s, url, env, at);
            r.result.Ok? && r.result.value.Some? ==>
              var anchors := f.answer.value.value.slickTrack.value;
              var records := r.result.value.value;
              forall i :: 0 <= i < |anchors| ==>
                && records[i].title == anchors[i].title
                && records[i].link == url + Interpolate(anchors[i].href)
                && records[i].newsType == category
                && ContentOf(s, records[i].link, env, records[i].content)
  {
    var f := MakeRequest(s, url, env, at);
    if Delivers(f) && f.answer.value.value.slickTrack.Some? {
      AssembleRecords(s, url, category, f.answer.value.value.slickTrack.value, env, f.next);
    }
  }

  /** The listing scrape fetches the listing page, then the articles in
      carousel order: the first from where the listing fetch left the
      environment, each next one from where the previous one left it. The
      listing's trace is the listing fetch's followed by the articles' in
      turn. */
  lemma HighlightThreaded(s: Scraper, url: string, category: string, env: Env<Page>, at: Cursor) returns (cs: seq<Cursor>)
    ensures var r := ScrapeHighlightNews(s, url, category, env, at);
            var f := MakeRequest(s, url, env, at);
            Delivers(f) && f.answer.value.value.slickTrack.Some? ==>
              var anchors := f.answer.value.value.slickTrack.value;
              var n := |cs| - 1;
              && ArticlesThreaded(s, url, anchors, env, cs) && cs[0] == f.next
              && (r.result.Ok? ==>
                    && r.result.value.Some? && n == |anchors| && r.next == cs[n]
                    && r.trace == f.trace + Concat(ArticleTraces(s, url, anchors, env, cs))
                    && forall i :: 0 <= i < n ==> Ok(r.result.value.value[i].content) == Article(s, url, anchors, env, cs, i).result)
              && (r.result.Raised? ==>
                    && n < |anchors| && Article(s, url, anchors, env, cs, n).result == Raised(r.result.error)
                    && r.next == Article(s, url, anchors, env, cs, n).next
                    && r.trace == f.trace + (Concat(ArticleTraces(s, url, anchors, env, cs)) + Article(s, url, anchors, env, cs, n).trace))
  {
    var f := MakeRequest(s, url, env, at);
    cs := [at];
    if Delivers(f) && f.answer.value.value.slickTrack.Some? {
      var anchors := f.answer.value.value.slickTrack.value;
      cs := AssembleThreaded(s, url, category, anchors, env, f.next);
      var r := ScrapeHighlightNews(s, url, category, env, at);
      var a := Assemble(s, url, category, anchors, env, f.next);
      assert r.trace == f.trace + a.trace && r.next == a.next;
      if a.result.Ok? {
        assert r.result == Ok(Some(a.result.value));
      } else {
        assert r.result == Raised(a.result.error);
      }
    }
  }

  // ---------------------------------------------------------------------
  // The top-level driver

  /** The listing URL of a category: the base URL with the category appended. */
  function ListingUrl(t: ThaiRath, category: string): (url: string)
    ensures t.scraper.baseUrl <= url && url[|t.scraper.baseUrl|..] == category
  {
    t.scraper.baseUrl + category
  }

  /** `scrape(url)` as written: its first iteration calls
      `scrape_highlight_news` with the listing URL only, which raises a
      `TypeError` for the missing `category` before any request is sent.
      The `url` argument is never used. */
  function ScrapeAsWritten(t: ThaiRath, url: string, at: Cursor): (r: Run<()>)
    ensures r.trace == [] && r.next == at
    ensures r.result.Raised? <==> t.newsCategory != []
  {
    if t.newsCategory == [] then Run(Ok(()), [], at)
    else Run(Raised(MissingArgument("category")), [], at)
  }

  /** The site's scraper, as constructed, cannot scrape anything: every
      call raises at once, whatever the network would have answered. */
  lemma ScrapeAsWrittenRaises(url: string, at: Cursor)
    ensures var r := ScrapeAsWritten(NewThaiRath(), url, at);
            r.result == Raised(MissingArgument("category")) && r.trace == []
  {
  }

  /** `scrape` with the category passed along: each category in order, its
      listing scraped and followed by a random pause. The per-category
      results are returned rather than discarded. */
  function ScrapeCategories(t: ThaiRath, categories: seq<string>, env: Env<Page>, at: Cursor): (r: Run<seq<Option<seq<Record>>>>)
    ensures r.result.Ok? ==> |r.result.value| == |categories|
    decreases |categories|
  {
    if categories == [] then Run(Ok([]), [], at)
    else
      var h := ScrapeHighlightNews(t.scraper, ListingUrl(t, categories[0]), categories[0], env, at);
      match h.result
      case Raised(e) => Run(Raised(e), h.trace, h.next)
      case Ok(listing) =>
        var d := env.draw(h.next.draws);
        var at' := Cursor(h.next.draws + 1, h.next.sends);
        if d < 0.0 then Run(Raised(NegativeSleep), h.trace, at')
        else
          var rest := ScrapeCategories(t, categories[1..], env, at');
          var result := match rest.result
            case Ok(listings) => Ok([listing] + listings)
            case Raised(e) => Raised(e);
          Run(result, h.trace + [Jitter(d)] + rest.trace, rest.next)
  }

  function Scrape(t: ThaiRath, env: Env<Page>, at: Cursor): (r: Run<seq<Option<seq<Record>>>>)
    ensures r.result.Ok? ==> |r.result.value| == |t.newsCategory|
  {
    ScrapeCategories(t, t.newsCategory, env, at)
  }

  /** `listing` is what scraping `category`'s listing page gives, starting at
      some point of the environment. */
  ghost predicate ListingOf(t: ThaiRath, category: string, env: Env<Page>, listing: Option<seq<Record>>) {
    exists o :: ScrapeHighlightNews(t.scraper, ListingUrl(t, category), category, env, o).result == Ok(listing)
  }

  /** Result `i` of the corrected driver is the listing scrape of category
      `i`'s URL with category `i`. */
  lemma {:induction false} ScrapeCategoriesInOrder(t: ThaiRath, categories: seq<string>, env: Env<Page>, at: Cursor)
    ensures var r := ScrapeCategories(t, categories, env, at);
            r.result.Ok? ==> forall i :: 0 <= i < |categories| ==> ListingOf(t, categories[i], env, r.result.value[i])
    decreases |categories|
  {
    var r := ScrapeCategories(t, categories, env, at);
    if categories != [] && r.result.Ok? {
      var at' := ScrapeCategoriesFirst(t, categories, env, at);
      var rest := ScrapeCategories(t, categories[1..], env, at');
      var results := r.result.value;
      ScrapeCategoriesInOrder(t, categories[1..], env, at');
      forall i | 1 <= i < |categories|
        ensures ListingOf(t, categories[i], env, results[i])
      {
        assert results[i] == rest.result.value[i - 1];
        assert categories[i] == categories[1..][i - 1];
      }
    }
  }

  /** One step of the corrected driver: a successful run lists the first
      category, then continues from a later point of the environment. */
  lemma ScrapeCategoriesFirst(t: ThaiRath, categories: seq<string>, env: Env<Page>, at: Cursor) returns (at': Cursor)
    requires categories != [] && ScrapeCategories(t, categories, env, at).result.Ok?
    ensures var r := ScrapeCategories(t, categories, env, at);
            var rest := ScrapeCategories(t, categories[1..], env, at');
            var h := ScrapeHighlightNews(t.scraper, ListingUrl(t, categories[0]), categories[0], env, at);
            && h.result == Ok(r.result.value[0])
            && at' == Cursor(h.next.draws + 1, h.next.sends)
            && at'.draws > at.draws
            && ListingOf(t, categories[0], env, r.result.value[0])
            && rest.result.Ok?
            && r.result.value[1..] == rest.result.value
  {
    var r := ScrapeCategories(t, categories, env, at);
    var h := Listing(t, categories, env, [at], 0);
    at' := ScrapeCategoriesStep(t, categories, env, at);
    var rest := ScrapeCategories(t, categories[1..], env, at');
    assert r.result.value == [h.result.value] + rest.result.value;
    assert h.result == Ok(r.result.value[0]);
  }

  /** One step of the corrected driver: the first category's listing is
      scraped; an exception there, or a negative pause drawn after it, ends
      the run, and otherwise the pause is logged and the remaining
      categories are scraped from the point after the draw. */
  lemma ScrapeCategoriesStep(t: ThaiRath, categories: seq<string>, env: Env<Page>, at: Cursor) returns (next: Cursor)
    requires categories != []
    ensures var r := ScrapeCategories(t, categories, env, at);
            var h := Listing(t, categories, env, [at], 0);
            var d := env.draw(h.next.draws);
            var rest := ScrapeCategories(t, categories[1..], env, next);
            && next == Cursor(h.next.draws + 1, h.next.sends)
            && (h.result.Raised? ==> r.result == Raised(h.result.error) && r.trace == h.trace && r.next == h.next)
            && (h.result.Ok? && d < 0.0 ==> r.result == Raised(NegativeSleep) && r.trace == h.trace && r.next == next)
            && (h.result.Ok? && d >= 0.0 ==>
                  && r.trace == (h.trace + [Jitter(d)]) + rest.trace && r.next == rest.next
                  && (r.result.Ok? ==> rest.result.Ok? && r.result.value == [h.result.value] + rest.result.value)
                  && (r.result.Raised? ==> rest.result == Raised(r.result.error)))
  {
    var r := ScrapeCategories(t, categories, env, at);
    var h := Listing(t, categories, env, [at], 0);
    assert h == ScrapeHighlightNews(t.scraper, ListingUrl(t, categories[0]), categories[0], env, at);
    next := Cursor(h.next.draws + 1, h.next.sends);
    var d := env.draw(h.next.draws);
    if h.result.Raised? {
      assert r == Run(Raised(h.result.error), h.trace, h.next);
    } else if d < 0.0 {
      assert r == Run(Raised(NegativeSleep), h.trace, next);
    } else {
      var rest := ScrapeCategories(t, categories[1..], env, next);
      assert r.trace == (h.trace + [Jitter(d)]) + rest.trace && r.next == rest.next;
    }
  }

  /** The listing scrape of category `i`, started at cursor `cs[i]`. */
  ghost function Listing(t: ThaiRath, categories: seq<string>, env: Env<Page>, cs: seq<Cursor>, i: nat): Run<Option<seq<Record>>>
    requires i < |categories| && i < |cs|
  {
    ScrapeHighlightNews(t.scraper, ListingUrl(t, categories[i]), categories[i], env, cs[i])
  }

  /** The pause drawn right after listing scrape `i`. */
  ghost function Pause(t: ThaiRath, categories: seq<string>, env: Env<Page>, cs: seq<Cursor>, i: nat): real
    requires i < |categories| && i < |cs|
  {
    env.draw(Listing(t, categories, env, cs, i).next.draws)
  }

  /** `cs` threads the environment through completed categories: listing
      scrape `i` starts at `cs[i]` and returns without an exception, the
      pause drawn after it is not negative, and category `i + 1` starts
      right after that draw. */
  ghost predicate ListingsThreaded(t: ThaiRath, categories: seq<string>, env: Env<Page>, cs: seq<Cursor>) {
    && 1 <= |cs| <= |categories| + 1
    && forall i :: 0 <= i < |cs| - 1 ==>
         && Listing(t, categories, env, cs, i).result.Ok?
         && Pause(t, categories, env, cs, i) >= 0.0
         && cs[i + 1] == Cursor(Listing(t, categories, env, cs, i).next.draws + 1, Listing(t, categories, env, cs, i).next.sends)
  }

  /** The traces of the completed categories, in order: each listing scrape's
      trace followed by its pause, the first category's, then those of the
      later categories along the later cursors. */
  ghost function ListingTraces(t: ThaiRath, categories: seq<string>, env: Env<Page>, cs: seq<Cursor>): (ts: seq<seq<Event>>)
    requires 1 <= |cs| <= |categories| + 1
    ensures |ts| == |cs| - 1
    decreases |cs|
  {
    if |cs| == 1 then []
    else [Listing(t, categories, env, cs, 0).trace + [Jitter(Pause(t, categories, env, cs, 0))]]
         + ListingTraces(t, categories[1..], env, cs[1..])
  }

  /** A driver run `r` that completes scraped every category in turn:
      result `i` is what listing scrape `i` returned, and the run's trace is
      the completed categories' traces in order. */
  ghost predicate CategoriesDone(t: ThaiRath, categories: seq<string>, env: Env<Page>, cs: seq<Cursor>, r: Run<seq<Option<seq<Record>>>>)
    requires 1 <= |cs| <= |categories| + 1
  {
    var n := |cs| - 1;
    r.result.Ok? ==>
      && n == |categories| && |r.result.value| == n && r.next == cs[n]
      && r.trace == Concat(ListingTraces(t, categories, env, cs))
      && forall i :: 0 <= i < n ==> Ok(r.result.value[i]) == Listing(t, categories, env, cs, i).result
  }

  /** A driver run `r` that raises stopped at the category right after the
      completed ones: either its listing scrape raised the run's exception,
      or it returned and the pause drawn after it was negative. */
  ghost predicate CategoriesStopped(t: ThaiRath, categories: seq<string>, env: Env<Page>, cs: seq<Cursor>, r: Run<seq<Option<seq<Record>>>>)
    requires 1 <= |cs| <= |categories| + 1
  {
    var n := |cs| - 1;
    r.result.Raised? ==>
      && n < |categories|
      && r.trace == Concat(ListingTraces(t, categories, env, cs)) + Listing(t, categories, env, cs, n).trace
      && StoppedAt(Listing(t, categories, env, cs, n), env, r)
  }

  /** How a category's listing scrape `h` ends a driver run `r`: by raising
      the run's exception, or by a negative pause drawn right after it. */
  ghost predicate StoppedAt(h: Run<Option<seq<Record>>>, env: Env<Page>, r: Run<seq<Option<seq<Record>>>>) {
    r.result.Raised? &&
    if h.result.Raised? then r.result.error == h.result.error && r.next == h.next
    else env.draw(h.next.draws) < 0.0 && r.result.error == NegativeSleep && r.next == Cursor(h.next.draws + 1, h.next.sends)
  }

  /** The driver scrapes the categories one after another, in order: the
      first from `at`, each next one from right after the pause drawn at the
      end of the previous one, as `CategoriesDone` and `CategoriesStopped`
      describe. */
  ghost predicate CategoriesInTurn(t: ThaiRath, categories: seq<string>, env: Env<Page>, at: Cursor, cs: seq<Cursor>) {
    var r := ScrapeCategories(t, categories, env, at);
    && ListingsThreaded(t, categories, env, cs) && cs[0] == at
    && CategoriesDone(t, categories, env, cs, r)
    && CategoriesStopped(t, categories, env, cs, r)
  }

  /** There is a cursor for every completed category such that the driver
      runs as `CategoriesInTurn` describes. */
  lemma {:induction false} ScrapeCategoriesThreaded(t: ThaiRath, categories: seq<string>, env: Env<Page>, at: Cursor)
    returns (cs: seq<Cursor>)
    ensures CategoriesInTurn(t, categories, env, at, cs)
    decreases |categories|
  {
    if categories == [] {
      cs := [at];
      assert ListingTraces(t, categories, env, cs) == [];
    } else {
      var h := Listing(t, categories, env, [at], 0);
      var next := ScrapeCategoriesStep(t, categories, env, at);
      if h.result.Raised? || env.draw(h.next.draws) < 0.0 {
        cs := [at];
        assert ListingTraces(t, categories, env, cs) == [];
        assert Listing(t, categories, env, cs, 0) == h;
      } else {
        var cs' := ScrapeCategoriesThreaded(t, categories[1..], env, next);
        cs := [at] + cs';
        var r := ScrapeCategories(t, categories, env, at);
        var rest := ScrapeCategories(t, categories[1..], env, next);
        ListingsShift(t, categories, env, cs, cs');
        assert Listing(t, categories, env, cs, 0) == h;
        CategoriesDoneCons(t, categories, env, cs, cs', h, r, rest);
        CategoriesStoppedCons(t, categories, env, cs, cs', h, r, rest);
      }
    }
  }

  lemma CategoriesDoneCons(t: ThaiRath, categories: seq<string>, env: Env<Page>, cs: seq<Cursor>, cs': seq<Cursor>,
                           h: Run<Option<seq<Record>>>, r: Run<seq<Option<seq<Record>>>>, rest: Run<seq<Option<seq<Record>>>>)
    requires categories != [] && |cs| == |cs'| + 1 && cs[1..] == cs' && 1 <= |cs'| <= |categories|
    requires h == Listing(t, categories, env, cs, 0) && h.result.Ok?
    requires r.result.Ok? ==>
               && rest.result.Ok? && r.trace == (h.trace + [Jitter(env.draw(h.next.draws))]) + rest.trace && r.next == rest.next
               && r.result.value == [h.result.value] + rest.result.value
    requires CategoriesDone(t, categories[1..], env, cs', rest) && ListingsShiftedBy(t, categories, env, cs, cs')
    ensures CategoriesDone(t, categories, env, cs, r)
  {
    if r.result.Ok? {
      ListingTracesCons(t, categories, env, cs, cs');
      forall i | 0 <= i < |cs| - 1
        ensures Ok(r.result.value[i]) == Listing(t, categories, env, cs, i).result
      {
        if i > 0 {
          assert r.result.value[i] == rest.result.value[i - 1];
        }
      }
    }
  }

  lemma CategoriesStoppedCons(t: ThaiRath, categories: seq<string>, env: Env<Page>, cs: seq<Cursor>, cs': seq<Cursor>,
                              h: Run<Option<seq<Record>>>, r: Run<seq<Option<seq<Record>>>>, rest: Run<seq<Option<seq<Record>>>>)
    requires categories != [] && |cs| == |cs'| + 1 && cs[1..] == cs' && 1 <= |cs'| <= |categories|
    requires h == Listing(t, categories, env, cs, 0)
    requires r.result.Raised? ==>
               && rest.result == Raised(r.result.error)
               && r.trace == (h.trace + [Jitter(env.draw(h.next.draws))]) + rest.trace && r.next == rest.next
    requires CategoriesStopped(t, categories[1..], env, cs', rest) && ListingsShiftedBy(t, categories, env, cs, cs')
    ensures CategoriesStopped(t, categories, env, cs, r)
  {
    if r.result.Raised? {
      ListingTracesCons(t, categories, env, cs, cs');
      var n' := |cs'| - 1;
      var g := Listing(t, categories[1..], env, cs', n');
      assert Listing(t, categories, env, cs, n' + 1) == g;
      CategoryStoppedAfter(r, rest, h.trace + [Jitter(env.draw(h.next.draws))], g, env,
        Concat(ListingTraces(t, categories, env, cs)), Concat(ListingTraces(t, categories[1..], env, cs')));
    }
  }

  /** A driver run that raises in its remaining categories, after a first
      category that completed, stops at the same listing in the same way. */
  lemma CategoryStoppedAfter(r: Run<seq<Option<seq<Record>>>>, rest: Run<seq<Option<seq<Record>>>>, first: seq<Event>,
                             g: Run<Option<seq<Record>>>, env: Env<Page>, done: seq<Event>, done': seq<Event>)
    requires r.result.Raised? && rest.result == Raised(r.result.error) && r.trace == first + rest.trace && r.next == rest.next
    requires StoppedAt(g, env, rest) && rest.trace == done' + g.trace
    requires done == first + done'
    ensures StoppedAt(g, env, r) && r.trace == done + g.trace
  {
    assert first + (done' + g.trace) == (first + done') + g.trace;
  }

  /** The completed categories' traces are the first category's trace
      followed by those of the later ones. */
  lemma ListingTracesCons(t: ThaiRath, categories: seq<string>, env: Env<Page>, cs: seq<Cursor>, cs': seq<Cursor>)
    requires categories != [] && 1 <= |cs'| <= |categories| && |cs| == |cs'| + 1 && cs[1..] == cs'
    ensures Concat(ListingTraces(t, categories, env, cs))
         == Listing(t, categories, env, cs, 0).trace + [Jitter(Pause(t, categories, env, cs, 0))]
            + Concat(ListingTraces(t, categories[1..], env, cs'))
  {
    var ts := ListingTraces(t, categories, env, cs);
    assert ts[1..] == ListingTraces(t, categories[1..], env, cs');
    ConcatCons(ts, ListingTraces(t, categories[1..], env, cs'));
  }

  /** Listing scrape `i + 1` along `cs` is listing scrape `i` of the later
      categories along `cs'`. */
  ghost predicate ListingsShiftedBy(t: ThaiRath, categories: seq<string>, env: Env<Page>, cs: seq<Cursor>, cs': seq<Cursor>)
    requires categories != [] && |cs| == |cs'| + 1
  {
    forall i :: 0 <= i < |cs'| && i < |categories| - 1 ==>
      Listing(t, categories, env, cs, i + 1) == Listing(t, categories[1..], env, cs', i)
  }

  /** Prepending the first category's cursor shifts every later listing
      scrape by one category. */
  lemma ListingsShift(t: ThaiRath, categories: seq<string>, env: Env<Page>, cs: seq<Cursor>, cs': seq<Cursor>)
    requires categories != [] && ListingsThreaded(t, categories[1..], env, cs')
    requires |cs| == |cs'| + 1 && cs[1..] == cs'
    requires var h := Listing(t, categories, env, cs, 0);
             h.result.Ok? && env.draw(h.next.draws) >= 0.0 && cs'[0] == Cursor(h.next.draws + 1, h.next.sends)
    ensures ListingsThreaded(t, categories, env, cs)
    ensures ListingsShiftedBy(t, categories, env, cs, cs')
  {
    forall i | 0 <= i < |cs'| && i < |categories| - 1
      ensures Listing(t, categories, env, cs, i + 1) == Listing(t, categories[1..], env, cs', i)
    {
      assert categories[i + 1] == categories[1..][i] && cs[i + 1] == cs'[i];
    }
    forall i | 0 <= i < |cs| - 1
      ensures && Listing(t, categories, env, cs, i).result.Ok?
              && Pause(t, categories, env, cs, i) >= 0.0
              && cs[i + 1] == Cursor(Listing(t, categories, env, cs, i).next.draws + 1, Listing(t, categories, env, cs, i).next.sends)
    {
      if i > 0 {
        assert Listing(t, categories, env, cs, i) == Listing(t, categories[1..], env, cs', i - 1);
      }
    }
  }

  /** Every record the corrected driver returns for category `i` is typed
      with that category and linked under that category's listing URL. */
  lemma ScrapeRecordsTagged(t: ThaiRath, env: Env<Page>, at: Cursor)
    ensures var r := Scrape(t, env, at);
            r.result.Ok? ==> forall i :: 0 <= i < |t.newsCategory| && r.result.value[i].Some? ==>
              forall record :: record in r.result.value[i].value ==>
                record.newsType == t.newsCategory[i] && ListingUrl(t, t.newsCategory[i]) <= record.link
  {
    var r := Scrape(t, env, at);
    if r.result.Ok? {
      ScrapeCategoriesInOrder(t, t.newsCategory, env, at);
      forall i | 0 <= i < |t.newsCategory| && r.result.value[i].Some?
        ensures forall record :: record in r.result.value[i].value ==>
                  record.newsType == t.newsCategory[i] && ListingUrl(t, t.newsCategory[i]) <= record.link
      {
        var c := t.newsCategory[i];
        var o :| ScrapeHighlightNews(t.scraper, ListingUrl(t, c), c, env, o).result == Ok(r.result.value[i]);
        ListingRecordsTagged(t.scraper, ListingUrl(t, c), c, env, o);
      }
    }
  }

  /** Every record of a successful listing scrape carries the category it
      was asked for and a link under the listing URL. */
  lemma ListingRecordsTagged(s: Scraper, url: string, category: string, env: Env<Page>, at: Cursor)
    ensures var r := ScrapeHighlightNews(s, url, category, env, at);
            r.result.Ok? && r.result.value.Some? ==>
              forall record :: record in r.result.value.value ==> record.newsType == category && url <= record.link
  {
    var r := ScrapeHighlightNews(s, url, category, env, at);
    if r.result.Ok? && r.result.value.Some? {
      HighlightRecords(s, url, category, env, at);
      var records := r.result.value.value;
      forall record | record in records
        ensures record.newsType == category && url <= record.link
      {
        var i :| 0 <= i < |records| && records[i] == record;
      }
    }
  }

  /** The corrected driver visits the site's six categories in their fixed
      order: it lists `base_url + category` for each, every listing starting
      later in the environment than the one before, and a successful run
      returns the six listings in that order, its trace being theirs, each
      followed by its pause. */
  lemma ScrapeVisitsCategoriesInOrder(env: Env<Page>, at: Cursor) returns (cs: seq<Cursor>)
    ensures var t := NewThaiRath();
            var r := Scrape(t, env, at);
            && 1 <= |cs| <= 7 && cs[0] == at
            && (forall i :: 0 <= i < |cs| - 1 ==> cs[i].draws < cs[i + 1].draws)
            && (r.result.Ok? ==>
                  && |cs| == 7 && |r.result.value| == 6
                  && r.trace == Concat(ListingTraces(t, NewsCategories, env, cs))
                  && forall i :: 0 <= i < 6 ==>
                       ScrapeHighlightNews(t.scraper, BaseUrl + NewsCategories[i], NewsCategories[i], env, cs[i]).result
                       == Ok(r.result.value[i]))
  {
    var t := NewThaiRath();
    assert t.newsCategory == NewsCategories && t.scraper.baseUrl == BaseUrl;
    cs := ScrapeCategoriesThreaded(t, NewsCategories, env, at);
    forall i | 0 <= i < |cs| - 1
      ensures cs[i].draws < cs[i + 1].draws
    {
      assert cs[i].draws <= Listing(t, NewsCategories, env, cs, i).next.draws;
    }
    var r := Scrape(t, env, at);
    if r.result.Ok? {
      forall i | 0 <= i < 6
        ensures ScrapeHighlightNews(t.scraper, BaseUrl + NewsCategories[i], NewsCategories[i], env, cs[i]).result == Ok(r.result.value[i])
      {
        assert ListingUrl(t, NewsCategories[i]) == BaseUrl + NewsCategories[i];
      }
    }
  }
}
