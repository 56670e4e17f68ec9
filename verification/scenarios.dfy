/** Concrete runs of the model on small pages, against a network that
    answers every request at once and a random generator that always
    draws one second. */
module Scenarios {
  import opened Types
  import opened Text
  import opened BaseScraper
  import opened ThaiRath

  const ListingPage: Page :=
    Page(Some([Anchor(Some("/a1"), Some("T1")), Anchor(Some("/a2"), Some("T2"))]), None)

  const ArticlePage: Page := Page(None, Some(["Part1", "Part2"]))

  /** Every draw is one second; the listing URL serves `ListingPage` and
      every other URL serves `ArticlePage`. */
  function Steady(listingUrl: string): Env<Page> {
    Env(j => 1.0, (u, j) => if u == listingUrl then Delivered(ListingPage) else Delivered(ArticlePage))
  }

  /** Surrounding whitespace is stripped from an element's text. */
  lemma ExtractTextStrips()
    ensures ExtractText(Node(["  Hello World  "]), "") == "Hello World"
  {
    var s := "  Hello World  ";
    var core := "Hello World";
    assert s == "  " + core + "  ";
    assert s[..2] == "  " && s[2..13] == core && s[13..] == "  ";
    assert Trimmed(core) by { assert core[0] == 'H' && core[|core| - 1] == 'd'; }
    StripCharacterization(s, 2, 13);
    ExtractTextSingle(s, "");
  }

  /** A fetch that succeeds at once makes one attempt after one delay. */
  lemma FetchFirstTime(url: string)
    ensures var f := MakeRequest(NewThaiRath().scraper, url, Steady(url), Cursor(0, 0));
            f.answer == Ok(Some(ListingPage)) && f.attempts == 1 && f.trace == [Jitter(1.0), Get(url, 0)]
  {
  }

  /** The paragraphs "Part1" and "Part2" are joined as "Part1Part2". */
  lemma ArticleContentJoined(listingUrl: string, url: string, at: Cursor)
    requires url != listingUrl
    ensures ScrapeNewsContent(NewThaiRath().scraper, url, Steady(listingUrl), at).result == Ok(Some("Part1Part2"))
  {
    var t := NewThaiRath();
    assert t.scraper.maxRetries == 3;
    assert MakeRequest(t.scraper, url, Steady(listingUrl), at).answer == Ok(Some(ArticlePage));
    var ps := ["Part1", "Part2"];
    ConcatAppend([ps[0]], [ps[1]]);
    ConcatSingle(ps[0]);
    ConcatSingle(ps[1]);
    assert [ps[0]] + [ps[1]] == ps;
    assert Concat(ps) == "Part1Part2";
    assert ArticlePage.articleBody == Some(ps);
  }

  /** A carousel of two anchors gives two records, in order, linked by
      plain concatenation, typed with the category, and each holding its
      article's joined paragraphs. */
  lemma TwoAnchors(at: Cursor)
    ensures var url := BaseUrl + "politic";
            ScrapeHighlightNews(NewThaiRath().scraper, url, "politic", Steady(url), at).result
            == Ok(Some([Record(Some("T1"), url + "/a1", "politic", Some("Part1Part2")),
                        Record(Some("T2"), url + "/a2", "politic", Some("Part1Part2"))]))
  {
    var t := NewThaiRath();
    var url := BaseUrl + "politic";
    var env := Steady(url);
    assert t.scraper.maxRetries == 3;
    var f := MakeRequest(t.scraper, url, env, at);
    assert f.answer == Ok(Some(ListingPage));
    var l1, l2 := url + "/a1", url + "/a2";
    assert l1 != url && l2 != url by {
      assert |l1| == |url| + 3 && |l2| == |url| + 3;
    }
    var anchors := ListingPage.slickTrack.value;
    assert LinkFor(url, anchors[0]) == l1 && LinkFor(url, anchors[1]) == l2;
    ArticleContentJoined(url, l1, f.next);
    var c1 := ScrapeNewsContent(t.scraper, l1, env, f.next);
    ArticleContentJoined(url, l2, c1.next);
    var c2 := ScrapeNewsContent(t.scraper, l2, env, c1.next);
    var r1 := Record(Some("T1"), l1, "politic", Some("Part1Part2"));
    var r2 := Record(Some("T2"), l2, "politic", Some("Part1Part2"));
    assert anchors[1..][0] == anchors[1] && anchors[1..][1..] == [];
    assert anchors[0].title == Some("T1") && anchors[1].title == Some("T2");
    assert c1.result == Ok(Some("Part1Part2")) && c2.result == Ok(Some("Part1Part2"));
    var a2 := Assemble(t.scraper, url, "politic", anchors[1..][1..], env, c2.next);
    assert a2.result == Ok([]);
    var a1 := Assemble(t.scraper, url, "politic", anchors[1..], env, c1.next);
    assert a1 == Run(Ok([r2] + []), c2.trace + a2.trace, a2.next);
    assert [r2] + [] == [r2];
    assert a1.result == Ok([r2]);
    var a0 := Assemble(t.scraper, url, "politic", anchors, env, f.next);
    assert a0 == Run(Ok([r1] + [r2]), c1.trace + a1.trace, a1.next);
    assert [r1] + [r2] == [r1, r2];
  }
}
