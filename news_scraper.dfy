/**
 * `GenericNewsScraper` of scraper/scraper.py: load each site's JSON config, read the
 * first `limit` article containers of its page, admit the records that are valid,
 * new and recent, then save the whole batch to the link table.
 *
 * The browser is a parameter: `render` gives, for a loaded config, either a page whose
 * navigation failed or the records extracted from its containers, in document order.
 */
module NewsScraper {
  import opened Wrappers
  import opened Text
  import opened Calendar
  import opened Slicing
  import opened LinkStore

  // ---------------------------------------------------------------- configuration

  /**
   * A config file as `json.load` sees it: unreadable or malformed, or an object with
   * these top-level keys, the `base_url` value, the keys of the `article` selector
   * object and the `limit` value if there is one.
   */
  datatype ConfigFile =
    | Unreadable
    | Json(keys: set<string>, baseUrl: string, selectorKeys: set<string>, limit: Option<int>)

  datatype Config = Config(baseUrl: string, selectorKeys: set<string>, limit: Option<int>)

  const DEFAULT_LIMIT := 20

  /** `load_config`: only the presence of `base_url` and `article` is checked. */
  function LoadConfig(f: ConfigFile): (c: Option<Config>)
    ensures c.Some? <==> f.Json? && "base_url" in f.keys && "article" in f.keys
    ensures c.Some? ==> c.value.baseUrl == f.baseUrl && c.value.selectorKeys == f.selectorKeys
                        && c.value.limit == f.limit
  {
    match f
    case Unreadable => None
    case Json(keys, baseUrl, selectorKeys, limit) =>
      if "base_url" in keys && "article" in keys then Some(Config(baseUrl, selectorKeys, limit)) else None
  }

  // ---------------------------------------------------------------- admission

  /**
   * One extracted record; a field the extraction did not produce is `None`.
   * `hasSource` says whether the extraction got as far as setting `source`, its
   * last step: an exception in the image, author or snippet lookup skips it.
   */
  datatype Record = Record(title: Option<string>, link: Option<string>, published: Option<DateTime>, hasSource: bool)

  /**
   * `validate_article`. The two truthiness tests are implied by the length and
   * prefix tests: validity is a title of more than 10 characters and a link
   * starting with `http`.
   */
  predicate IsValid(r: Record)
    ensures IsValid(r) <==> r.title.Some? && |r.title.value| > 10 && r.link.Some? && StartsWith(r.link.value, "http")
  {
    && r.title.Some? && r.title.value != []
    && r.link.Some? && r.link.value != []
    && |r.title.value| > 10
    && StartsWith(r.link.value, "http")
  }

  /**
   * `published_date >= cutoff_time`. Aware date-times compare as instants: the
   * wall clock, shifted back by the record's own UTC offset, against the cutoff.
   */
  predicate IsRecent(r: Record, cutoff: int)
    ensures IsRecent(r, cutoff) <==> r.published.Some? && LocalMicros(r.published.value) >= cutoff + r.published.value.offset * US_PER_SECOND
  {
    r.published.Some? && Instant(r.published.value) >= cutoff
  }

  /** What the container loop does with a record, reasons checked in the source's order. */
  datatype Verdict = Admitted | Invalid | Duplicate | Stale

  function Classify(r: Record, existing: set<string>, cutoff: int): (v: Verdict)
    ensures v == Admitted <==> IsValid(r) && r.link.value !in existing && IsRecent(r, cutoff)
    ensures v == Invalid <==> !IsValid(r)
    ensures v == Duplicate <==> IsValid(r) && r.link.value in existing
    ensures v == Stale <==> IsValid(r) && r.link.value !in existing && !IsRecent(r, cutoff)
  {
    if !IsValid(r) then Invalid
    else if r.link.value in existing then Duplicate
    else if !IsRecent(r, cutoff) then Stale
    else Admitted
  }

  /** The admitted records of `rs`, in document order. */
  function AdmittedOf(rs: seq<Record>, existing: set<string>, cutoff: int): (a: seq<Record>)
    ensures |a| <= |rs|
    ensures forall r :: r in a <==> r in rs && Classify(r, existing, cutoff) == Admitted
    decreases |rs|
  {
    if |rs| == 0 then []
    else
      var last := rs[|rs| - 1];
      AdmittedOf(rs[..|rs| - 1], existing, cutoff) + (if Classify(last, existing, cutoff) == Admitted then [last] else [])
  }

  /** Admission looks at each record alone. */
  lemma {:induction false} AdmittedOfAppend(a: seq<Record>, b: seq<Record>, existing: set<string>, cutoff: int)
    ensures AdmittedOf(a + b, existing, cutoff) == AdmittedOf(a, existing, cutoff) + AdmittedOf(b, existing, cutoff)
    decreases |b|
  {
    if |b| == 0 {
      assert a + b == a;
    } else {
      var b', last := b[..|b| - 1], b[|b| - 1];
      var tail := if Classify(last, existing, cutoff) == Admitted then [last] else [];
      assert (a + b)[..|a + b| - 1] == a + b';
      assert (a + b)[|a + b| - 1] == last;
      assert AdmittedOf(a + b, existing, cutoff) == AdmittedOf(a + b', existing, cutoff) + tail;
      assert AdmittedOf(b, existing, cutoff) == AdmittedOf(b', existing, cutoff) + tail;
      AdmittedOfAppend(a, b', existing, cutoff);
    }
  }

  /**
   * The filter does not add admitted links to `existing`, so two records with the same
   * new link are both admitted; the table keeps one of them at save time.
   */
  lemma SameLinkAdmittedTwice(r1: Record, r2: Record, existing: set<string>, cutoff: int)
    requires Classify(r1, existing, cutoff) == Admitted && Classify(r2, existing, cutoff) == Admitted
    requires r1.link == r2.link
    ensures AdmittedOf([r1, r2], existing, cutoff) == [r1, r2]
    ensures Inserted(existing, [r1.link.value, r2.link.value]).1 == 1
  {
    assert [r1, r2][..1] == [r1];
    assert [r1][..0] == [];
    RepeatedLinkStoredOnce(existing, r1.link.value);
  }

  /** A later cutoff admits no record an earlier one rejects. */
  lemma RecencyMonotone(r: Record, earlier: int, later: int)
    requires earlier <= later && IsRecent(r, later)
    ensures IsRecent(r, earlier)
  {
  }

  /** The cutoff itself is recent; a microsecond earlier is not. */
  lemma RecencyBoundary(r: Record, cutoff: int)
    requires r.published.Some?
    ensures Instant(r.published.value) == cutoff ==> IsRecent(r, cutoff)
    ensures Instant(r.published.value) == cutoff - 1 ==> !IsRecent(r, cutoff)
  {
  }

  /**
   * Against the scraper's cutoff, 25 hours before its clock: an article published
   * 24 hours before `now` is recent, one published 26 hours before is stale.
   */
  lemma CutoffWindow(now: DateTime, r: Record)
    requires ValidDateTime(now) && SubtractMicros(now, 26 * US_PER_HOUR).Some?
    ensures IsRecent(r.(published := SubtractMicros(now, 24 * US_PER_HOUR)), Instant(now) - 25 * US_PER_HOUR)
    ensures !IsRecent(r.(published := SubtractMicros(now, 26 * US_PER_HOUR)), Instant(now) - 25 * US_PER_HOUR)
  {
  }

  /** A title of 10 characters is too short, one of 11 is long enough. */
  lemma TitleLengthBoundary(title: string, link: string, p: Option<DateTime>)
    requires StartsWith(link, "http")
    ensures |title| == 10 ==> !IsValid(Record(Some(title), Some(link), p, true))
    ensures |title| == 11 ==> IsValid(Record(Some(title), Some(link), p, true))
  {
  }

  /** One step of the save loop: an article with a source offers its link, any other offers nothing. */
  lemma SaveStep(stored: set<string>, articles: seq<Record>, i: nat)
    requires i < |articles| && forall j :: 0 <= j < |articles| ==> articles[j].link.Some?
    ensures var before := Inserted(stored, SavedLinks(articles[..i]));
      var link := articles[i].link.value;
      Inserted(stored, SavedLinks(articles[..i + 1]))
        == if articles[i].hasSource then (before.0 + {link}, before.1 + (if link in before.0 then 0 else 1)) else before
  {
    var a, p := articles[i], articles[..i + 1];
    assert p[..|p| - 1] == articles[..i] && p[|p| - 1] == a;
    assert SavedLinks(p) == SavedLinks(articles[..i]) + (if a.hasSource then [a.link.value] else []);
    if a.hasSource {
      InsertedStep(stored, SavedLinks(articles[..i]), a.link.value);
    } else {
      assert SavedLinks(p) == SavedLinks(articles[..i]);
    }
  }

  /**
   * The links `save_articles` can create, in order: `NewsArticle.objects.create`
   * reads `article['source']`, so an article without one raises `KeyError`, which
   * the loop catches; it is neither stored, counted nor remembered.
   */
  function SavedLinks(rs: seq<Record>): (ls: seq<string>)
    requires forall j :: 0 <= j < |rs| ==> rs[j].link.Some?
    ensures |ls| <= |rs|
    decreases |rs|
  {
    if |rs| == 0 then []
    else
      var last := rs[|rs| - 1];
      SavedLinks(rs[..|rs| - 1]) + (if last.hasSource then [last.link.value] else [])
  }

  /** A link is offered to the table exactly when some article with a source carries it. */
  lemma {:induction false} SavedLinksSpec(rs: seq<Record>, l: string)
    requires forall j :: 0 <= j < |rs| ==> rs[j].link.Some?
    ensures l in SavedLinks(rs) <==> exists j :: 0 <= j < |rs| && rs[j].hasSource && rs[j].link == Some(l)
    decreases |rs|
  {
    if |rs| > 0 {
      var prefix := rs[..|rs| - 1];
      SavedLinksSpec(prefix, l);
      if exists j :: 0 <= j < |rs| && rs[j].hasSource && rs[j].link == Some(l) {
        var j :| 0 <= j < |rs| && rs[j].hasSource && rs[j].link == Some(l);
        if j < |prefix| {
          assert prefix[j] == rs[j];
        }
      }
      if l in SavedLinks(prefix) {
        var j :| 0 <= j < |prefix| && prefix[j].hasSource && prefix[j].link == Some(l);
        assert rs[j] == prefix[j];
      }
    }
  }

  /**
   * Once the links of a batch are known, the same records admit nothing new, whatever
   * later cutoff a new scraper computes.
   */
  lemma {:induction false} RerunAdmitsNothing(rs: seq<Record>, existing: set<string>, cutoff: int,
                                              existing': set<string>, cutoff': int)
    requires cutoff' >= cutoff
    requires existing <= existing'
    requires forall r :: r in AdmittedOf(rs, existing, cutoff) ==> r.link.Some? && r.link.value in existing'
    ensures AdmittedOf(rs, existing', cutoff') == []
    decreases |rs|
  {
    if |rs| > 0 {
      var prefix, last := rs[..|rs| - 1], rs[|rs| - 1];
      assert forall r :: r in prefix ==> r in rs;
      RerunAdmitsNothing(prefix, existing, cutoff, existing', cutoff');
      if Classify(last, existing, cutoff) == Admitted {
        assert last in AdmittedOf(rs, existing, cutoff);
      }
      assert Classify(last, existing', cutoff') != Admitted;
    }
  }

  // ---------------------------------------------------------------- one site

  /** What the browser gives for a site: failed navigation, or the extracted containers. */
  datatype Page = NavigationFailed | Rendered(containers: seq<Record>)

  /** The containers `scrape_website` reads: none if the page fails or has no `container` selector. */
  function Considered(config: Config, page: Page): (rs: seq<Record>)
    ensures page.NavigationFailed? || "container" !in config.selectorKeys ==> rs == []
    ensures page.Rendered? && "container" in config.selectorKeys ==>
      rs == Prefix(page.containers, config.limit.GetOr(DEFAULT_LIMIT))
  {
    if page.NavigationFailed? || "container" !in config.selectorKeys then []
    else Prefix(page.containers, config.limit.GetOr(DEFAULT_LIMIT))
  }

  /** The articles one site contributes to the batch. */
  function SiteArticles(config: Config, page: Page, existing: set<string>, cutoff: int): seq<Record> {
    AdmittedOf(Considered(config, page), existing, cutoff)
  }

  /** Every record of a site's articles is valid, new and recent, and comes from its first `limit` containers. */
  lemma SiteArticlesAdmitted(config: Config, page: Page, existing: set<string>, cutoff: int)
    ensures forall r :: r in SiteArticles(config, page, existing, cutoff) ==>
      && r in Considered(config, page)
      && IsValid(r) && r.link.value !in existing && IsRecent(r, cutoff)
    ensures |SiteArticles(config, page, existing, cutoff)| <= |Considered(config, page)|
  {
  }

  /** The articles of every config that loads, in file order. */
  function BatchArticles(files: seq<ConfigFile>, render: Config -> Page, existing: set<string>, cutoff: int): (a: seq<Record>)
    ensures forall r :: r in a ==> IsValid(r) && r.link.value !in existing && IsRecent(r, cutoff)
    decreases |files|
  {
    if |files| == 0 then []
    else
      var prefix := BatchArticles(files[..|files| - 1], render, existing, cutoff);
      match LoadConfig(files[|files| - 1])
      case None => prefix
      case Some(config) => prefix + SiteArticles(config, render(config), existing, cutoff)
  }

  /** A config that does not load contributes nothing. */
  lemma BatchSkipsBadConfig(files: seq<ConfigFile>, f: ConfigFile, render: Config -> Page,
                             existing: set<string>, cutoff: int)
    requires LoadConfig(f).None?
    ensures BatchArticles(files + [f], render, existing, cutoff) == BatchArticles(files, render, existing, cutoff)
  {
    assert (files + [f])[..|files|] == files;
  }

  /** A config that loads contributes its site's articles, after those of the earlier files. */
  lemma BatchTakesLoadedConfig(files: seq<ConfigFile>, f: ConfigFile, render: Config -> Page,
                               existing: set<string>, cutoff: int)
    requires LoadConfig(f).Some?
    ensures BatchArticles(files + [f], render, existing, cutoff) ==
      BatchArticles(files, render, existing, cutoff) + SiteArticles(LoadConfig(f).value, render(LoadConfig(f).value), existing, cutoff)
  {
    assert (files + [f])[..|files|] == files;
  }

  /** An article is in the batch exactly when it is one of the site articles of some file that loads. */
  lemma {:induction false} BatchArticlesSpec(files: seq<ConfigFile>, render: Config -> Page,
                                             existing: set<string>, cutoff: int, r: Record)
    ensures r in BatchArticles(files, render, existing, cutoff) <==>
      exists j :: 0 <= j < |files| && LoadConfig(files[j]).Some? &&
        r in SiteArticles(LoadConfig(files[j]).value, render(LoadConfig(files[j]).value), existing, cutoff)
    decreases |files|
  {
    if |files| > 0 {
      var init, f := files[..|files| - 1], files[|files| - 1];
      assert files == init + [f];
      BatchArticlesSpec(init, render, existing, cutoff, r);
      if LoadConfig(f).Some? {
        BatchTakesLoadedConfig(init, f, render, existing, cutoff);
      } else {
        BatchSkipsBadConfig(init, f, render, existing, cutoff);
      }
      forall j | 0 <= j < |init|
        ensures init[j] == files[j]
      {
      }
    }
  }

  // ---------------------------------------------------------------- the scraper

  class GenericNewsScraper {
    /** Links already stored, read at construction. */
    var existingLinks: set<string>
    /** The instant 25 hours before construction; a record published before it is stale. */
    const cutoff: int

    constructor (table: Table, now: DateTime)
      ensures existingLinks == table.links
      ensures cutoff == Instant(now) - 25 * US_PER_HOUR
    {
      existingLinks := table.links;
      cutoff := Instant(now) - 25 * US_PER_HOUR;
    }

    /** The container loop of `scrape_website`. */
    method ScrapeWebsite(config: Config, page: Page) returns (articles: seq<Record>)
      ensures articles == SiteArticles(config, page, existingLinks, cutoff)
    {
      var containers := Considered(config, page);
      articles := [];
      var newArticlesCount := 0;
      for i := 0 to |containers|
        invariant articles == AdmittedOf(containers[..i], existingLinks, cutoff)
        invariant newArticlesCount == |articles|
      {
        var r := containers[i];
        assert containers[..i + 1][..i] == containers[..i];
        match Classify(r, existingLinks, cutoff)
        case Admitted =>
          articles := articles + [r];
          newArticlesCount := newArticlesCount + 1;
        case _ =>
      }
      assert containers[..|containers|] == containers;
    }

    /**
     * `save_articles`: insert each article whose link is not stored, and remember it;
     * an article without `source` fails at `create` and is passed over.
     */
    method SaveArticles(table: Table, articles: seq<Record>) returns (saved: nat)
      requires forall j :: 0 <= j < |articles| ==> articles[j].link.Some?
      modifies this, table
      ensures table.links == Inserted(old(table.links), SavedLinks(articles)).0
      ensures saved == Inserted(old(table.links), SavedLinks(articles)).1
      ensures existingLinks == old(existingLinks) + (table.links - old(table.links))
    {
      ghost var initial := table.links;
      saved := 0;
      for i := 0 to |articles|
        invariant table.links == Inserted(initial, SavedLinks(articles[..i])).0
        invariant saved == Inserted(initial, SavedLinks(articles[..i])).1
        invariant existingLinks == old(existingLinks) + (table.links - initial)
      {
        var article := articles[i];
        var link := article.link.value;
        ghost var before := Inserted(initial, SavedLinks(articles[..i]));
        ghost var after := Inserted(initial, SavedLinks(articles[..i + 1]));
        assert after == if article.hasSource then (before.0 + {link}, before.1 + (if link in before.0 then 0 else 1)) else before by {
          SaveStep(initial, articles, i);
        }
        var stored := table.Exists(link);
        if stored {
          // `continue` at line 343
        } else if !article.hasSource {
          // the `KeyError` of `article['source']` is caught at line 363
        } else {
          table.Create(link);
          saved := saved + 1;
          existingLinks := existingLinks + {link};
        }
      }
      assert articles[..|articles|] == articles;
    }

    /** `run_all_scrapers`: scrape every config that loads, then save the batch if it is not empty. */
    method RunAllScrapers(table: Table, files: seq<ConfigFile>, render: Config -> Page)
      returns (found: nat, saved: nat)
      modifies this, table
      ensures found == |BatchArticles(files, render, old(existingLinks), cutoff)|
      ensures found == 0 ==> saved == 0 && table.links == old(table.links) && existingLinks == old(existingLinks)
      ensures found > 0 ==>
        && table.links == Inserted(old(table.links), SavedLinks(BatchArticles(files, render, old(existingLinks), cutoff))).0
        && saved == Inserted(old(table.links), SavedLinks(BatchArticles(files, render, old(existingLinks), cutoff))).1
      ensures existingLinks == old(existingLinks) + (table.links - old(table.links))
      ensures saved <= found
    {
      ghost var existing := existingLinks;
      var allArticles: seq<Record> := [];
      for i := 0 to |files|
        invariant existingLinks == existing && table.links == old(table.links)
        invariant allArticles == BatchArticles(files[..i], render, existing, cutoff)
      {
        assert files[..i + 1][..i] == files[..i];
        assert files[..i + 1][i] == files[i];
        var config := LoadConfig(files[i]);
        if config.Some? {
          var articles := ScrapeWebsite(config.value, render(config.value));
          allArticles := allArticles + articles;
        }
      }
      assert files[..|files|] == files;
      found := |allArticles|;
      saved := 0;
      if found > 0 {
        saved := SaveArticles(table, allArticles);
        InsertedSpec(old(table.links), SavedLinks(allArticles));
      }
    }
  }
}
