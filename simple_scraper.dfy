/**
 * scraper/simple_scraper.py: the older scraper. It reads at most 15 containers,
 * keeps those with a long enough title and any link, and saves them with the same
 * insert-if-new loop. An element whose extraction raises is skipped on its own.
 */
module SimpleScraper {
  import opened Wrappers
  import opened Slicing
  import opened LinkStore

  /** One container: its extraction raised, or it gave these (possibly missing) fields. */
  datatype Element = Faulty | Fields(title: Option<string>, link: Option<string>)

  datatype Article = Article(title: string, link: string)

  /** What the browser gives: an error before the loop (navigation, wait, a missing selector), or the containers. */
  datatype Page = Unavailable | Loaded(elements: seq<Element>)

  const CAP := 15

  /** The validity test of the element loop: no `http` prefix, no date. */
  predicate Keeps(e: Element)
    ensures Keeps(e) <==> e.Fields? && e.title.Some? && |e.title.value| > 10 && e.link.Some? && e.link.value != []
  {
    && e.Fields?
    && e.title.Some? && e.title.value != []
    && e.link.Some? && e.link.value != []
    && |e.title.value| > 10
  }

  /** The articles the element loop appends, in order. */
  function Kept(es: seq<Element>): (r: seq<Article>)
    ensures |r| <= |es|
    ensures forall t, l :: Article(t, l) in r <==> Fields(Some(t), Some(l)) in es && |t| > 10 && l != []
    decreases |es|
  {
    if |es| == 0 then []
    else
      var e := es[|es| - 1];
      Kept(es[..|es| - 1]) + (if Keeps(e) then [Article(e.title.value, e.link.value)] else [])
  }

  /** The loop handles each element alone. */
  lemma {:induction false} KeptAppend(a: seq<Element>, b: seq<Element>)
    ensures Kept(a + b) == Kept(a) + Kept(b)
    decreases |b|
  {
    if |b| == 0 {
      assert a + b == a;
    } else {
      var b' := b[..|b| - 1];
      assert (a + b)[..|a + b| - 1] == a + b';
      assert (a + b)[|a + b| - 1] == b[|b| - 1];
      KeptAppend(a, b');
    }
  }

  /** An element whose extraction raises costs only that element. */
  lemma FaultIsolation(a: seq<Element>, b: seq<Element>)
    ensures Kept(a + [Faulty] + b) == Kept(a) + Kept(b)
  {
    assert Kept([Faulty]) == [] by {
      assert [Faulty][..0] == [];
    }
    KeptAppend(a, [Faulty]);
    KeptAppend(a + [Faulty], b);
  }

  /** The articles `scrape_website` returns for a page. */
  function SiteArticles(page: Page): seq<Article> {
    match page
    case Unavailable => []
    case Loaded(es) => Kept(Prefix(es, CAP))
  }

  /** At most 15 articles, each from one of the first 15 containers. */
  lemma SiteArticlesCapped(page: Page)
    ensures |SiteArticles(page)| <= CAP
    ensures page.Loaded? ==> forall a :: a in SiteArticles(page) ==>
      Fields(Some(a.title), Some(a.link)) in page.elements[..if |page.elements| < CAP then |page.elements| else CAP]
  {
  }

  /** The element loop of `scrape_website`. */
  method ScrapeWebsite(page: Page) returns (articles: seq<Article>)
    ensures articles == SiteArticles(page)
  {
    articles := [];
    if page.Unavailable? {
      return;
    }
    var elements := Prefix(page.elements, CAP);
    for i := 0 to |elements|
      invariant articles == Kept(elements[..i])
    {
      assert elements[..i + 1][..i] == elements[..i];
      var e := elements[i];
      if Keeps(e) {
        articles := articles + [Article(e.title.value, e.link.value)];
      }
    }
    assert elements[..|elements|] == elements;
  }

  function Links(articles: seq<Article>): (ls: seq<string>)
    ensures |ls| == |articles| && forall i :: 0 <= i < |articles| ==> ls[i] == articles[i].link
  {
    if |articles| == 0 then [] else [articles[0].link] + Links(articles[1..])
  }

  /** `save_articles`: insert each article whose link is not stored, counting the inserts. */
  method SaveArticles(table: Table, articles: seq<Article>) returns (saved: nat)
    modifies table
    ensures table.links == Inserted(old(table.links), Links(articles)).0
    ensures saved == Inserted(old(table.links), Links(articles)).1
  {
    ghost var initial := table.links;
    saved := 0;
    var links := Links(articles);
    for i := 0 to |links|
      invariant table.links == Inserted(initial, links[..i]).0
      invariant saved == Inserted(initial, links[..i]).1
    {
      var link := links[i];
      ghost var before := Inserted(initial, links[..i]);
      ghost var after := Inserted(initial, links[..i + 1]);
      assert after.0 == before.0 + {link} && after.1 == before.1 + (if link in before.0 then 0 else 1) by {
        assert links[..i + 1] == links[..i] + [link];
        InsertedStep(initial, links[..i], link);
      }
      var stored := table.Exists(link);
      if !stored {
        table.Create(link);
        saved := saved + 1;
      }
    }
    assert links[..|links|] == links;
  }
}
