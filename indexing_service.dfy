/**
 * `IndexingServiceImpl`: the start/stop state machine on the `indexingStarted`
 * flag, one tick of the supervisor that settles finished crawls, the
 * single-page reindex, and search (posting-list intersection, titles,
 * relevance and the final ordering).
 *
 * Threads are replaced by sequential steps: the body of the thread that
 * `startIndexing` or `stopIndexing` spawns runs to its end inside the call,
 * and one poll of the scheduled supervisor is one call of `Poll`.
 */
module IndexingService {
  import opened Wrappers
  import opened Text
  import opened Entities
  import opened Tables
  import opened Store
  import opened Morphology
  import DS = DataSaver
  import PR = PageRepository
  import SP = SiteParser
  import LF = LemmaFinder

  /** One entry of the configured site list (`searchengine.config.Site`). */
  datatype SiteConf = SiteConf(url: string, name: string)

  /** An `IndexingResponse`; `Thrown` is the exception a page without a document raises. */
  datatype Reply = Reply(result: bool, error: Option<string>) | Thrown

  const AlreadyStarted := "Индексация уже запущена."
  const NotStarted := "Индексация ещё не запущена."
  const StoppedByUser := "Индексация остановлена пользователем"
  const PageNotIndexed := "Не удалось проиндексировать страницу"
  const OutsideSites := "Данная страница находится за пределами сайтов, указанных в конфигурационном файле"
  const EmptyQuery := "Задан пустой поисковый запрос"
  const DefaultTitle := "Default Title"

  // ----- urls -----

  /** `siteUrlToBaseForm`: every "www." removed, left to right, as `String.replace` does. */
  function BaseForm(url: string): string {
    RemoveAll(url, "www.")
  }

  /** A prefix without the letter w is kept as it is: no "www." can start inside it. */
  lemma {:induction false} BaseFormKeepsPlainPrefix(p: string, rest: string)
    requires 'w' !in p
    ensures BaseForm(p + rest) == p + BaseForm(rest)
    decreases |p|
  {
    if p == [] {
      assert p + rest == rest;
    } else {
      var s := p + rest;
      assert s[0] == p[0] && p[0] != 'w';
      if |s| >= 4 {
        assert s[..4][0] == s[0];
        assert s[..4] != "www.";
      }
      assert s[1..] == p[1..] + rest;
      assert 'w' !in p[1..] by {
        forall i | 0 <= i < |p[1..]| ensures p[1..][i] != 'w' {
          assert p[1..][i] == p[i + 1];
        }
      }
      BaseFormKeepsPlainPrefix(p[1..], rest);
      assert p + BaseForm(rest) == [p[0]] + (p[1..] + BaseForm(rest));
      if |s| < 4 {
        assert |rest| < 4;
        assert BaseForm(s) == s && BaseForm(rest) == rest;
      } else {
        calc {
          BaseForm(s);
          [s[0]] + BaseForm(s[1..]);
          [p[0]] + BaseForm(p[1..] + rest);
          [p[0]] + (p[1..] + BaseForm(rest));
          p + BaseForm(rest);
        }
      }
    }
  }

  /** "https://www.site.ru" and "https://site.ru" have the same base form. */
  lemma WwwAfterSchemeDropped(scheme: string, rest: string)
    requires 'w' !in scheme
    ensures BaseForm(scheme + "www." + rest) == scheme + BaseForm(rest)
  {
    BaseFormKeepsPlainPrefix(scheme, "www." + rest);
    assert scheme + "www." + rest == scheme + ("www." + rest);
    var s := "www." + rest;
    assert s[..4] == "www." && s[4..] == rest;
  }

  /** The index of the first configured site whose base form prefixes `url`, or -1. */
  function ConfigIndex(confs: seq<SiteConf>, url: string): (i: int)
    ensures -1 <= i < |confs|
    ensures i >= 0 ==> StartsWith(url, BaseForm(confs[i].url))
    ensures forall j | 0 <= j < |confs| && (i == -1 || j < i) :: !StartsWith(url, BaseForm(confs[j].url))
  {
    if confs == [] then -1
    else if StartsWith(url, BaseForm(confs[0].url)) then 0
    else
      var k := ConfigIndex(confs[1..], url);
      assert forall j | 1 <= j < |confs| :: confs[j] == confs[1..][j - 1];
      if k == -1 then -1 else k + 1
  }

  /** `configContainsUrl`: the first configured site whose base form prefixes `url`, or null. */
  function ConfigContainsUrl(confs: seq<SiteConf>, url: string): (r: Option<SiteConf>)
    ensures r.None? <==> forall c | c in confs :: !StartsWith(url, BaseForm(c.url))
    ensures r.Some? ==> r.value in confs && StartsWith(url, BaseForm(r.value.url))
  {
    var i := ConfigIndex(confs, url);
    if i == -1 then None else Some(confs[i])
  }

  /** The configured site with the smallest position wins when several prefix `url`. */
  lemma ConfigContainsUrlIsFirst(confs: seq<SiteConf>, url: string, j: int)
    requires 0 <= j < |confs| && StartsWith(url, BaseForm(confs[j].url))
    requires forall k | 0 <= k < j :: !StartsWith(url, BaseForm(confs[k].url))
    ensures ConfigContainsUrl(confs, url) == Some(confs[j])
  {
    var i := ConfigIndex(confs, url);
    assert i != -1;
    assert !(j < i);
  }

  /** What `indexPage(uri)` reads off the configuration: the site, its base url and the path. */
  datatype Target = Target(conf: SiteConf, url: string, path: string)

  /** The url resolution of `indexPage`: base form, first containing site, path after its url. */
  function Resolve(confs: seq<SiteConf>, uri: string): (r: Option<Target>)
    ensures r.None? <==> forall c | c in confs :: !StartsWith(BaseForm(uri), BaseForm(c.url))
    ensures r.Some? ==> r.value.conf in confs && r.value.url == BaseForm(r.value.conf.url)
                        && BaseForm(uri) == r.value.url + r.value.path
  {
    var u := BaseForm(uri);
    var conf := ConfigContainsUrl(confs, u);
    if conf.None? then None
    else
      var url := BaseForm(conf.value.url);
      assert u == url + u[|url|..];
      Some(Target(conf.value, url, u[|url|..]))
  }

  /** The row `saveSite(siteConf)` stores, before the database gives it an id. */
  function NewSite(conf: SiteConf, started: bool, now: Time): Site {
    Site(0, if started then INDEXING else INDEXED, now, None, BaseForm(conf.url), conf.name)
  }

  // ----- titles -----

  /**
   * `selectTitle`: the greedy match of `<title>[\s\S]*</title>` found first. It starts at the
   * first "<title>" and ends at the last "</title>" that begins after it; the text between
   * is the title. Without such a pair the title is "Default Title".
   */
  function SelectTitle(content: string): (r: string)
    ensures !HasTitlePair(content) ==> r == DefaultTitle
    ensures HasTitlePair(content)
            ==> exists i, j | TitlePair(content, i, j) ::
                  r == content[i + 7..j]
                  && (forall k | 0 <= k < i :: !OccursAt(content, "<title>", k))
                  && (forall k | j < k :: !OccursAt(content, "</title>", k))
  {
    var i := IndexOfFrom(content, "<title>", 0);
    var j := LastIndexOfUpTo(content, "</title>", |content| - 8);
    if i == -1 || j < i + 7 then
      assert !HasTitlePair(content) by {
        forall i0, j0 | TitlePair(content, i0, j0) ensures i != -1 && i <= i0 && j0 <= j {
        }
      }
      DefaultTitle
    else
      assert forall k | j < k :: !OccursAt(content, "</title>", k) by {
        forall k | j < k ensures !OccursAt(content, "</title>", k) {
          if k > |content| - 8 {
            assert k + 8 > |content|;
          }
        }
      }
      assert TitlePair(content, i, j);
      content[i + 7..j]
  }

  /** "<title>" starts at `i` and a "</title>" that begins after its end starts at `j`. */
  predicate TitlePair(content: string, i: int, j: int) {
    OccursAt(content, "<title>", i) && OccursAt(content, "</title>", j) && i + 7 <= j
  }

  /** `<title>[\s\S]*</title>` has a match in `content`. */
  ghost predicate HasTitlePair(content: string) {
    exists i, j :: TitlePair(content, i, j)
  }

  /** A page whose content is exactly a title element gets that element's text. */
  lemma TitleOfTitleElement(t: string)
    ensures SelectTitle("<title>" + t + "</title>") == t
  {
    var s := "<title>" + t + "</title>";
    assert s[0..7] == "<title>";
    assert OccursAt(s, "<title>", 0);
    var e := |s| - 8;
    assert s[e..e + 8] == "</title>";
    assert OccursAt(s, "</title>", e);
    assert IndexOfFrom(s, "<title>", 0) == 0;
    assert LastIndexOfUpTo(s, "</title>", e) == e;
    assert s[7..e] == t;
  }

  // ----- search: posting-list intersection -----

  /** `index.getLemma().getLemma().equals(form)`: the posting's lemma row has the form. */
  predicate IsHit(x: Index, lemmas: seq<Lemma>, form: string) {
    var l := LemmaById(lemmas, x.lemmaId);
    l.Some? && l.value.form == form
  }

  /** How many of the postings are hits for the form. */
  function Hits(ps: seq<Index>, lemmas: seq<Lemma>, form: string): (n: nat)
    ensures n > 0 <==> exists x | x in ps :: IsHit(x, lemmas, form)
  {
    if ps == [] then 0
    else
      var k := |ps| - 1;
      assert forall x | x in ps :: x in ps[..k] || x == ps[k];
      Hits(ps[..k], lemmas, form) + (if IsHit(ps[k], lemmas, form) then 1 else 0)
  }

  /** `n` copies of a page. */
  function Repeat(p: Page, n: nat): (r: seq<Page>)
    ensures |r| == n && forall q | q in r :: q == p
  {
    if n == 0 then [] else Repeat(p, n - 1) + [p]
  }

  /** Counting one more posting. */
  lemma HitsStep(ps: seq<Index>, lemmas: seq<Lemma>, form: string, j: int)
    requires 0 <= j < |ps|
    ensures Hits(ps[..j + 1], lemmas, form) == Hits(ps[..j], lemmas, form) + (if IsHit(ps[j], lemmas, form) then 1 else 0)
  {
    assert ps[..j + 1][..j] == ps[..j];
  }

  /** The page has a posting that is a hit for the form. */
  ghost predicate Holds(indexes: seq<Index>, lemmas: seq<Lemma>, pageId: int, form: string) {
    exists x | x in indexes :: x.pageId == pageId && IsHit(x, lemmas, form)
  }

  /** One round of `selectPageWithLemma`: each page once per posting of it that is a hit. */
  function Pass(pages: seq<Page>, indexes: seq<Index>, lemmas: seq<Lemma>, form: string): seq<Page> {
    if pages == [] then []
    else
      var k := |pages| - 1;
      Pass(pages[..k], indexes, lemmas, form)
        + Repeat(pages[k], Hits(PostingsOfPage(indexes, pages[k].id), lemmas, form))
  }

  /** A round over one more page. */
  lemma PassStep(pages: seq<Page>, indexes: seq<Index>, lemmas: seq<Lemma>, form: string, i: int)
    requires 0 <= i < |pages|
    ensures Pass(pages[..i + 1], indexes, lemmas, form)
            == Pass(pages[..i], indexes, lemmas, form) + Repeat(pages[i], Hits(PostingsOfPage(indexes, pages[i].id), lemmas, form))
  {
    assert pages[..i + 1][..i] == pages[..i];
  }

  /** A page survives a round exactly when it was there and has a hit for the form. */
  lemma {:induction false} PassMembers(pages: seq<Page>, indexes: seq<Index>, lemmas: seq<Lemma>, form: string, p: Page)
    ensures p in Pass(pages, indexes, lemmas, form) <==> p in pages && Holds(indexes, lemmas, p.id, form)
  {
    if pages != [] {
      var k := |pages| - 1;
      PassMembers(pages[..k], indexes, lemmas, form, p);
      var ps := PostingsOfPage(indexes, pages[k].id);
      var n := Hits(ps, lemmas, form);
      assert pages == pages[..k] + [pages[k]];
      if p == pages[k] {
        if Holds(indexes, lemmas, p.id, form) {
          var x :| x in indexes && x.pageId == p.id && IsHit(x, lemmas, form);
          assert x in ps;
          assert n > 0;
          assert Repeat(pages[k], n)[0] in Repeat(pages[k], n);
        }
        if n > 0 {
          var x :| x in ps && IsHit(x, lemmas, form);
        }
      }
    }
  }

  /** `selectPageWithLemma` over the whole list: one round per lemma, first to last. */
  function Narrow(list: seq<Lemma>, pages: seq<Page>, indexes: seq<Index>, lemmas: seq<Lemma>): seq<Page>
    decreases |list|
  {
    if list == [] then pages
    else Narrow(list[1..], Pass(pages, indexes, lemmas, list[0].form), indexes, lemmas)
  }

  /** The pages that come out are exactly the input pages with a hit for every listed form. */
  lemma {:induction false} NarrowMembers(list: seq<Lemma>, pages: seq<Page>, indexes: seq<Index>, lemmas: seq<Lemma>, p: Page)
    ensures p in Narrow(list, pages, indexes, lemmas) <==>
            p in pages && forall l | l in list :: Holds(indexes, lemmas, p.id, l.form)
    decreases |list|
  {
    if list != [] {
      var next := Pass(pages, indexes, lemmas, list[0].form);
      NarrowMembers(list[1..], next, indexes, lemmas, p);
      PassMembers(pages, indexes, lemmas, list[0].form, p);
      assert forall l | l in list :: l == list[0] || l in list[1..];
    }
  }

  // ----- search: relevance and ordering -----

  /** The sum of the postings' ranks. */
  function SumRanks(xs: seq<Index>): int {
    if xs == [] then 0 else SumRanks(xs[..|xs| - 1]) + xs[|xs| - 1].rank
  }

  /** With no negative rank, the sum is at least each posting's rank. */
  lemma {:induction false} SumRanksBound(xs: seq<Index>, x: Index)
    requires forall y | y in xs :: y.rank >= 0
    requires x in xs
    ensures SumRanks(xs) >= x.rank
  {
    var k := |xs| - 1;
    if xs[k] == x {
      SumRanksNonNegative(xs[..k]);
    } else {
      assert x in xs[..k];
      SumRanksBound(xs[..k], x);
    }
  }

  lemma {:induction false} SumRanksNonNegative(xs: seq<Index>)
    requires forall y | y in xs :: y.rank >= 0
    ensures SumRanks(xs) >= 0
  {
    if xs != [] {
      SumRanksNonNegative(xs[..|xs| - 1]);
    }
  }

  /** `calculateRelevance(page, list)` as a value: the ranks of the page's postings of listed lemmas. */
  function Relevance(indexes: seq<Index>, page: Page, list: seq<Lemma>): int {
    SumRanks(PostingsOfPageAndLemmas(indexes, page.id, set l | l in list :: l.id))
  }

  /** As written, `search` hands `calculateRelevance` the list `selectPageWithLemma` emptied,
   *  so every relevance is 0. */
  lemma ConsumedListGivesZero(indexes: seq<Index>, page: Page)
    ensures Relevance(indexes, page, []) == 0
  {
  }

  /** A page with one posting of positive rank: against the emptied list its relevance is 0,
   *  against the list holding the posting's lemma it is that rank. */
  lemma ConsumedListLosesRank(page: Page, l: Lemma, rank: int)
    requires rank > 0
    ensures var indexes := [Index(1, page.id, l.id, rank)];
            Relevance(indexes, page, []) == 0 && Relevance(indexes, page, [l]) == rank
  {
    var indexes := [Index(1, page.id, l.id, rank)];
    var xs := PostingsOfPageAndLemmas(indexes, page.id, set m | m in [l] :: m.id);
    assert indexes[0] in xs;
    assert xs == indexes;
  }

  /** Over the query's lemmas, a posting of the page for one of them counts with its rank. */
  lemma RelevanceCountsPostings(indexes: seq<Index>, page: Page, found: seq<Lemma>, x: Index)
    requires forall y | y in indexes :: y.rank >= 0
    requires x in indexes && x.pageId == page.id && exists l | l in found :: l.id == x.lemmaId
    ensures Relevance(indexes, page, found) >= x.rank
  {
    var xs := PostingsOfPageAndLemmas(indexes, page.id, set l | l in found :: l.id);
    assert x in xs;
    SumRanksBound(xs, x);
  }

  /** One entry of the search response (the snippet is not part of this model). */
  datatype SearchData = SearchData(uri: string, site: string, siteName: string, title: string, relevance: int)

  /** Highest relevance first. */
  predicate SortedByRelevance(ds: seq<SearchData>) {
    forall i, j | 0 <= i < j < |ds| :: ds[i].relevance >= ds[j].relevance
  }

  /** Puts `d` before the first entry that is not more relevant than it. */
  function InsertByRelevance(d: SearchData, ds: seq<SearchData>): seq<SearchData> {
    if ds == [] then [d]
    else if d.relevance >= ds[0].relevance then [d] + ds
    else [ds[0]] + InsertByRelevance(d, ds[1..])
  }

  /** The insertion adds exactly `d`. */
  lemma {:induction false} InsertByRelevanceCount(d: SearchData, ds: seq<SearchData>)
    ensures multiset(InsertByRelevance(d, ds)) == multiset(ds) + multiset{d}
  {
    if ds != [] && d.relevance < ds[0].relevance {
      InsertByRelevanceCount(d, ds[1..]);
      assert ds == [ds[0]] + ds[1..];
    }
  }

  /** An insertion brings in no entry above a bound that `d` and `ds` stay under. */
  lemma {:induction false} InsertByRelevanceBounded(d: SearchData, ds: seq<SearchData>, bound: int)
    requires d.relevance <= bound
    requires forall x | x in ds :: x.relevance <= bound
    ensures forall x | x in InsertByRelevance(d, ds) :: x.relevance <= bound
  {
    if ds != [] && d.relevance < ds[0].relevance {
      InsertByRelevanceBounded(d, ds[1..], bound);
    }
  }

  /** The tail of a sorted sequence is sorted and stays under its head. */
  lemma SortedTail(ds: seq<SearchData>)
    requires ds != [] && SortedByRelevance(ds)
    ensures SortedByRelevance(ds[1..])
    ensures forall x | x in ds[1..] :: x.relevance <= ds[0].relevance
  {
    var tail := ds[1..];
    forall x | x in tail ensures x.relevance <= ds[0].relevance {
      var k :| 0 <= k < |tail| && tail[k] == x;
      assert ds[k + 1] == x;
    }
  }

  /** The insertion keeps the entries sorted. */
  lemma {:induction false} InsertByRelevanceSorted(d: SearchData, ds: seq<SearchData>)
    requires SortedByRelevance(ds)
    ensures SortedByRelevance(InsertByRelevance(d, ds))
  {
    if ds != [] && d.relevance < ds[0].relevance {
      SortedTail(ds);
      InsertByRelevanceSorted(d, ds[1..]);
      InsertByRelevanceBounded(d, ds[1..], ds[0].relevance);
      var rest := InsertByRelevance(d, ds[1..]);
      var r := [ds[0]] + rest;
      forall i, j | 0 <= i < j < |r| ensures r[i].relevance >= r[j].relevance {
        assert r[j] == rest[j - 1];
        if i > 0 {
          assert r[i] == rest[i - 1];
        }
      }
    }
  }

  /** The `sort` of the response data: a stable sort, most relevant first. */
  function SortByRelevance(ds: seq<SearchData>): seq<SearchData> {
    if ds == [] then [] else InsertByRelevance(ds[0], SortByRelevance(ds[1..]))
  }

  /** The sort orders by relevance and loses or adds no entry. */
  lemma {:induction false} SortByRelevanceSorted(ds: seq<SearchData>)
    ensures SortedByRelevance(SortByRelevance(ds)) && multiset(SortByRelevance(ds)) == multiset(ds)
  {
    if ds != [] {
      SortByRelevanceSorted(ds[1..]);
      InsertByRelevanceSorted(ds[0], SortByRelevance(ds[1..]));
      InsertByRelevanceCount(ds[0], SortByRelevance(ds[1..]));
      assert ds == [ds[0]] + ds[1..];
    }
  }

  /** Stability: entries of equal relevance keep their order, so equal ones are not reordered. */
  lemma {:induction false} SortKeepsEqualOrder(ds: seq<SearchData>, v: int)
    requires forall d | d in ds :: d.relevance == v
    ensures SortByRelevance(ds) == ds
  {
    if ds != [] {
      SortKeepsEqualOrder(ds[1..], v);
      assert ds == [ds[0]] + ds[1..];
    }
  }

  /** The response entry of a result page, with the relevance it is given. */
  function Entry(p: Page, relevance: int): SearchData {
    SearchData(p.path, p.site.url, p.site.name, SelectTitle(p.content), relevance)
  }

  /** The response entries of the result pages, each relevance computed against `list`. */
  function Entries(pages: seq<Page>, indexes: seq<Index>, list: seq<Lemma>): (r: seq<SearchData>)
    ensures |r| == |pages|
  {
    if pages == [] then []
    else
      var k := |pages| - 1;
      Entries(pages[..k], indexes, list) + [Entry(pages[k], Relevance(indexes, pages[k], list))]
  }

  /** Against the emptied list every entry has relevance 0. */
  lemma {:induction false} EntriesOfConsumedList(pages: seq<Page>, indexes: seq<Index>)
    ensures forall d | d in Entries(pages, indexes, []) :: d.relevance == 0
  {
    if pages != [] {
      var k := |pages| - 1;
      EntriesOfConsumedList(pages[..k], indexes);
      ConsumedListGivesZero(indexes, pages[k]);
    }
  }

  /** A `SearchResponse`; `data` is `None` where the response leaves it null. */
  datatype SearchResponse = SearchResponse(result: bool, error: Option<string>, count: int, data: Option<seq<SearchData>>)

  /** The lemma list passed to `selectPageWithLemma`, which removes its entries. */
  class LemmaList {
    var items: seq<Lemma>

    constructor (items: seq<Lemma>)
      ensures this.items == items
    {
      this.items := items;
    }
  }

  // ----- the service -----

  /** How a crawl's root task has ended, as `isCompletedNormally` / `isCompletedAbnormally` see it. */
  datatype Completion = Running | Normal | Abnormal

  /** What a crawl's parser shows the supervisor: its site object and how its task ended. */
  datatype Progress = Progress(site: Site, completion: Completion)

  /** The site rows after the rows with the given ids are marked FAILED by the stop. */
  function Halted(sites: seq<Site>, ids: set<int>, now: Time): (r: seq<Site>)
    ensures |r| == |sites|
    ensures forall k | 0 <= k < |r| :: r[k].Key() == sites[k].Key()
    ensures forall k | 0 <= k < |r| && sites[k].id in ids ::
              r[k].status == FAILED && r[k].statusTime == now && r[k].lastError == Some(StoppedByUser)
    ensures forall k | 0 <= k < |r| && sites[k].id !in ids :: r[k] == sites[k]
  {
    seq(|sites|, i requires 0 <= i < |sites| =>
      if sites[i].id in ids then sites[i].(status := FAILED, statusTime := now, lastError := Some(StoppedByUser))
      else sites[i])
  }

  /** One more stopped site. */
  lemma HaltedStep(sites: seq<Site>, ids: set<int>, id: int, now: Time)
    ensures Tables.UpdateSite(Halted(sites, ids, now), id, FAILED, now, Some(StoppedByUser)) == Halted(sites, ids + {id}, now)
  {
    var a := Tables.UpdateSite(Halted(sites, ids, now), id, FAILED, now, Some(StoppedByUser));
    var b := Halted(sites, ids + {id}, now);
    forall i | 0 <= i < |sites| ensures a[i] == b[i] {
    }
  }

  /** The status a finished crawl gives its site. */
  function Outcome(c: Completion): SiteStatus
    requires !c.Running?
  {
    if c.Normal? then INDEXED else FAILED
  }

  /** The crawl of `id` is seen to have ended. */
  predicate Finished(progress: map<int, Progress>, id: int) {
    id in progress && !progress[id].completion.Running?
  }

  /**
   * The site rows after a poll has settled the crawls of `ids` that ended: status INDEXED or
   * FAILED, the poll's time, and the error the parser's site object carries.
   */
  function Settled(sites: seq<Site>, progress: map<int, Progress>, ids: set<int>, now: Time): (r: seq<Site>)
    ensures |r| == |sites|
    ensures forall k | 0 <= k < |r| :: r[k].Key() == sites[k].Key()
    ensures forall k | 0 <= k < |r| && sites[k].id in ids && Finished(progress, sites[k].id) ::
              r[k].status != INDEXING && (r[k].status == INDEXED <==> progress[sites[k].id].completion.Normal?)
              && r[k].statusTime == now && r[k].lastError == progress[sites[k].id].site.lastError
    ensures forall k | 0 <= k < |r| && !(sites[k].id in ids && Finished(progress, sites[k].id)) :: r[k] == sites[k]
  {
    seq(|sites|, i requires 0 <= i < |sites| =>
      var id := sites[i].id;
      if id in ids && Finished(progress, id)
      then sites[i].(status := Outcome(progress[id].completion), statusTime := now, lastError := progress[id].site.lastError)
      else sites[i])
  }

  /** One more settled crawl. */
  lemma SettledStep(sites: seq<Site>, progress: map<int, Progress>, ids: set<int>, id: int, now: Time)
    requires Finished(progress, id)
    ensures Tables.UpdateSite(Settled(sites, progress, ids, now), id, Outcome(progress[id].completion), now,
                              progress[id].site.lastError)
            == Settled(sites, progress, ids + {id}, now)
  {
    var a := Tables.UpdateSite(Settled(sites, progress, ids, now), id, Outcome(progress[id].completion), now,
                               progress[id].site.lastError);
    var b := Settled(sites, progress, ids + {id}, now);
    forall i | 0 <= i < |sites| ensures a[i] == b[i] {
    }
  }

  /** A crawl not seen to end changes nothing when it is looked at. */
  lemma SettledUnfinished(sites: seq<Site>, progress: map<int, Progress>, ids: set<int>, id: int, now: Time)
    requires !Finished(progress, id)
    ensures Settled(sites, progress, ids, now) == Settled(sites, progress, ids + {id}, now)
  {
  }

  /** A crawl nobody has seen end is still running. */
  function StillRunning(pools: map<int, Site>, progress: map<int, Progress>): map<int, Site> {
    map id | id in pools && !Finished(progress, id) :: pools[id]
  }

  /** `deleteAllSiteData(url)`: the cascade delete of the first site stored under `url`, if any. */
  function SiteDataDeleted(t: Snapshot, url: string): Snapshot {
    var found := FindSiteByUrl(t.sites, url);
    if found.Some? then DS.WithoutSite(t, found.value.id) else t
  }

  /** The thread body of `startIndexing` on the store: per configured site, its old data is
   *  deleted and a fresh row in status INDEXING is saved. */
  function Launch(t: Snapshot, confs: seq<SiteConf>, now: Time): Snapshot {
    if confs == [] then t
    else
      var k := |confs| - 1;
      LaunchStep(Launch(t, confs[..k], now), confs[k], now)
  }

  /** One configured site in `startIndexing`: its stored data deleted, then a fresh INDEXING row. */
  function LaunchStep(t: Snapshot, conf: SiteConf, now: Time): Snapshot {
    var t2 := SiteDataDeleted(t, BaseForm(conf.url));
    t2.(sites := t2.sites + [NewSite(conf, true, now).(id := t2.nextSiteId)], nextSiteId := t2.nextSiteId + 1)
  }

  /** The thread body of `startIndexing` on `poolParserMap`: the crawl of each fresh row is
   *  tracked under the row's id, the rows taking the ids from `first` on. */
  function Tracked(pools: map<int, Site>, first: int, confs: seq<SiteConf>, now: Time): map<int, Site> {
    if confs == [] then pools
    else
      var k := |confs| - 1;
      Tracked(pools, first, confs[..k], now)[first + k := NewSite(confs[k], true, now).(id := first + k)]
  }

  /** The tracked crawls left once those of `done` that ended are dropped. */
  function Remaining(pools: map<int, Site>, progress: map<int, Progress>, done: set<int>): (r: map<int, Site>)
    ensures forall id | id in r :: id in pools && r[id] == pools[id]
    ensures forall id | id in pools && id !in done :: id in r
  {
    map id | id in pools && !(id in done && Finished(progress, id)) :: pools[id]
  }

  lemma RemainingNone(pools: map<int, Site>, progress: map<int, Progress>)
    ensures Remaining(pools, progress, {}) == pools
  {
  }

  /** Settling one more crawl drops it exactly when it ended. */
  lemma RemainingStep(pools: map<int, Site>, progress: map<int, Progress>, done: set<int>, id: int)
    requires id in pools && id !in done
    ensures Remaining(pools, progress, done + {id})
            == if Finished(progress, id) then Remaining(pools, progress, done) - {id} else Remaining(pools, progress, done)
  {
  }

  /** Once every tracked crawl is settled, the ones left are those still running. */
  lemma RemainingAll(pools: map<int, Site>, progress: map<int, Progress>)
    ensures Remaining(pools, progress, pools.Keys) == StillRunning(pools, progress)
  {
  }

  /** The cascade delete keeps the id counters. */
  lemma SiteDataDeletedKeepsCounter(t: Snapshot, url: string)
    ensures SiteDataDeleted(t, url).nextSiteId == t.nextSiteId
  {
  }

  /** Every configured site takes one fresh id. */
  lemma {:induction false} LaunchCounter(t: Snapshot, confs: seq<SiteConf>, now: Time)
    ensures Launch(t, confs, now).nextSiteId == t.nextSiteId + |confs|
  {
    if confs != [] {
      var k := |confs| - 1;
      LaunchCounter(t, confs[..k], now);
      SiteDataDeletedKeepsCounter(Launch(t, confs[..k], now), BaseForm(confs[k].url));
    }
  }

  /** Crawl `first + k` is tracked as the fresh row of the `k`-th configured site. */
  predicate Tracks(p: map<int, Site>, first: int, confs: seq<SiteConf>, now: Time) {
    forall id | first <= id < first + |confs| :: id in p && p[id] == NewSite(confs[id - first], true, now).(id := id)
  }

  /** The launch tracks one crawl per configured site, under consecutive fresh ids, each of a
   *  site row in status INDEXING under the site's base url. */
  lemma {:induction false} LaunchTracksEverySite(pools: map<int, Site>, first: int, confs: seq<SiteConf>, now: Time)
    ensures Tracks(Tracked(pools, first, confs, now), first, confs, now)
  {
    if confs != [] {
      var k := |confs| - 1;
      var front := Tracked(pools, first, confs[..k], now);
      LaunchTracksEverySite(pools, first, confs[..k], now);
      var v := NewSite(confs[k], true, now).(id := first + k);
      assert Tracked(pools, first, confs, now) == front[first + k := v];
      var q := front[first + k := v];
      forall id | first <= id < first + |confs|
        ensures id in q && q[id] == NewSite(confs[id - first], true, now).(id := id)
      {
        if id < first + k {
          assert confs[..k][id - first] == confs[id - first];
        }
      }
    }
  }

  /** Ids outside the fresh range keep the crawls tracked before. */
  lemma {:induction false} LaunchKeepsOthers(pools: map<int, Site>, first: int, confs: seq<SiteConf>, now: Time)
    ensures var p1 := Tracked(pools, first, confs, now);
            forall id | id in p1 && !(first <= id < first + |confs|) :: id in pools && p1[id] == pools[id]
  {
    if confs != [] {
      LaunchKeepsOthers(pools, first, confs[..|confs| - 1], now);
    }
  }

  // ----- search and page indexing as values -----

  /** The lemma rows of the query's forms, of the named site or of every site, most rare first. */
  ghost function QueryLemmas(t: Snapshot, morph: Oracle, site: string, query: string): seq<Lemma>
    requires WellFormed(morph)
  {
    DS.FindLemmas(t, Tally(map[], KeptLemmas(Words(query), morph)).Keys, FindSiteByUrl(t.sites, site))
  }

  /** The pages of the first (rarest) lemma, narrowed by every other lemma in turn. */
  function SelectedPages(t: Snapshot, list: seq<Lemma>, site: Option<Site>): seq<Page>
    requires list != []
  {
    var pages := PagesByForm(t.pages, t.indexes, t.lemmas, list[0].form, if site.None? then None else Some(site.value.id));
    Narrow(list[1..], pages, t.indexes, t.lemmas)
  }

  /** What `search(site, query)` answers, the relevance computed against the emptied list. */
  ghost function SearchAnswer(t: Snapshot, morph: Oracle, site: string, query: string): SearchResponse
    requires WellFormed(morph)
  {
    if IsBlank(query) then SearchResponse(false, Some(EmptyQuery), 0, None)
    else
      var list := QueryLemmas(t, morph, site, query);
      if list == [] then SearchResponse(true, None, 0, None)
      else
        var result := SelectedPages(t, list, FindSiteByUrl(t.sites, site));
        SearchResponse(true, None, |result|, Some(SortByRelevance(Entries(result, t.indexes, []))))
  }

  /** A blank query is refused; otherwise the answer counts its entries, all of relevance 0,
   *  and keeps them in the order the narrowing left the pages in. */
  lemma SearchAnswerShape(t: Snapshot, morph: Oracle, site: string, query: string)
    requires WellFormed(morph)
    ensures var r := SearchAnswer(t, morph, site, query);
            (r.result <==> !IsBlank(query))
            && (r.error.Some? <==> IsBlank(query))
            && (r.data.Some? ==>
                  var list := QueryLemmas(t, morph, site, query);
                  list != []
                  && r.data.value == Entries(SelectedPages(t, list, FindSiteByUrl(t.sites, site)), t.indexes, [])
                  && r.count == |r.data.value|
                  && SortedByRelevance(r.data.value)
                  && forall d | d in r.data.value :: d.relevance == 0)
  {
    if !IsBlank(query) {
      var list := QueryLemmas(t, morph, site, query);
      if list != [] {
        var es := Entries(SelectedPages(t, list, FindSiteByUrl(t.sites, site)), t.indexes, []);
        EntriesOfConsumedList(SelectedPages(t, list, FindSiteByUrl(t.sites, site)), t.indexes);
        SortKeepsEqualOrder(es, 0);
      }
    }
  }

  /** The answer `search` evidently intends: the same pages, each relevance computed against
   *  the query's whole lemma list rather than the emptied one. */
  ghost function IntendedSearchAnswer(t: Snapshot, morph: Oracle, site: string, query: string): SearchResponse
    requires WellFormed(morph)
  {
    if IsBlank(query) then SearchResponse(false, Some(EmptyQuery), 0, None)
    else
      var list := QueryLemmas(t, morph, site, query);
      if list == [] then SearchResponse(true, None, 0, None)
      else
        var result := SelectedPages(t, list, FindSiteByUrl(t.sites, site));
        SearchResponse(true, None, |result|, Some(SortByRelevance(Entries(result, t.indexes, list))))
  }

  /** The entry at position `i` is the `i`-th page's, with that page's relevance. */
  lemma {:induction false} EntryAt(pages: seq<Page>, indexes: seq<Index>, list: seq<Lemma>, i: int)
    requires 0 <= i < |pages|
    ensures Entries(pages, indexes, list)[i] == Entry(pages[i], Relevance(indexes, pages[i], list))
  {
    var k := |pages| - 1;
    var front := Entries(pages[..k], indexes, list);
    assert Entries(pages, indexes, list) == front + [Entry(pages[k], Relevance(indexes, pages[k], list))];
    if i < k {
      EntryAt(pages[..k], indexes, list, i);
      assert pages[..k][i] == pages[i];
    }
  }

  /** In the intended answer every result page appears with a relevance at least the rank of
   *  each of its postings for a query lemma, and the entries come most relevant first. */
  lemma IntendedSearchRanksPostings(t: Snapshot, morph: Oracle, site: string, query: string, i: int, x: Index)
    requires WellFormed(morph)
    requires forall y | y in t.indexes :: y.rank >= 0
    requires !IsBlank(query) && QueryLemmas(t, morph, site, query) != []
    requires 0 <= i < |SelectedPages(t, QueryLemmas(t, morph, site, query), FindSiteByUrl(t.sites, site))|
    requires x in t.indexes && exists l | l in QueryLemmas(t, morph, site, query) :: l.id == x.lemmaId
    requires x.pageId == SelectedPages(t, QueryLemmas(t, morph, site, query), FindSiteByUrl(t.sites, site))[i].id
    ensures var list := QueryLemmas(t, morph, site, query);
            var result := SelectedPages(t, list, FindSiteByUrl(t.sites, site));
            var r := IntendedSearchAnswer(t, morph, site, query);
            var e := Entries(result, t.indexes, list)[i];
            r.data.Some? && SortedByRelevance(r.data.value) && e in r.data.value
            && e.uri == result[i].path && e.relevance >= x.rank
  {
    var list := QueryLemmas(t, morph, site, query);
    var result := SelectedPages(t, list, FindSiteByUrl(t.sites, site));
    var es := Entries(result, t.indexes, list);
    EntryAt(result, t.indexes, list, i);
    RelevanceCountsPostings(t.indexes, result[i], list, x);
    SortByRelevanceSorted(es);
    assert es[i] in multiset(es);
  }

  /** A page is selected exactly when it is stored, belongs to the searched site (if one was
   *  found), holds the first lemma's form and has a posting hit for every other lemma. */
  lemma SelectedPagesMembers(t: Snapshot, list: seq<Lemma>, site: Option<Site>, p: Page)
    requires list != []
    ensures p in SelectedPages(t, list, site) <==>
            p in t.pages && (site.None? || p.site.id == site.value.id)
            && HasPosting(t.indexes, t.lemmas, p.id, list[0].form)
            && forall l | l in list[1..] :: Holds(t.indexes, t.lemmas, p.id, l.form)
  {
    var pages := PagesByForm(t.pages, t.indexes, t.lemmas, list[0].form, if site.None? then None else Some(site.value.id));
    NarrowMembers(list[1..], pages, t.indexes, t.lemmas, p);
  }

  /** `indexPage`'s preparation: the site row is found by base url or saved anew, and a page
   *  stored at the path is removed together with its postings. */
  function Prepared(t: Snapshot, tg: Target, started: bool, now: Time): (Snapshot, Site) {
    var found := FindSiteByUrl(t.sites, tg.url);
    var site := if found.Some? then found.value else NewSite(tg.conf, started, now).(id := t.nextSiteId);
    var t1 := if found.Some? then t else t.(sites := t.sites + [site], nextSiteId := t.nextSiteId + 1);
    var page := FindPage(t1.pages, tg.path, site.id);
    (if page.Some? then DS.WithoutPage(t1, page.value) else t1, site)
  }

  /** The prepared site has the page's base url, is stored, and no page of it is left at the path. */
  lemma PreparedSiteFitsUri(t: Snapshot, confs: seq<SiteConf>, uri: string, started: bool, now: Time)
    requires Resolve(confs, uri).Some?
    ensures var tg := Resolve(confs, uri).value;
            var (t2, site) := Prepared(t, tg, started, now);
            site.url + tg.path == BaseForm(uri)
            && site in t2.sites
            && !HasPage(t2.pages, tg.path, site.id)
  {
    var tg := Resolve(confs, uri).value;
    var found := FindSiteByUrl(t.sites, tg.url);
    var site := Prepared(t, tg, started, now).1;
    var t1 := if found.Some? then t else t.(sites := t.sites + [site], nextSiteId := t.nextSiteId + 1);
    assert site in t1.sites;
    var page := FindPage(t1.pages, tg.path, site.id);
    if page.Some? {
      assert DS.WithoutPage(t1, page.value).pages == RemovePage(t1.pages, tg.path, site.id);
    }
  }

  class IndexingService {
    /** The static `indexingStarted` flag. */
    var started: bool
    /** `poolParserMap`: one pool per crawled site, identified here by that site's id. */
    var pools: map<int, Site>
    const confs: seq<SiteConf>
    const saver: DS.DataSaver
    const repo: PR.PageRepository
    const morph: Oracle

    /** Crawls are only tracked while indexing runs, each under its site's id. */
    ghost predicate Valid()
      reads this
    {
      (!started ==> pools == map[]) && forall id | id in pools :: pools[id].id == id
    }

    constructor (confs: seq<SiteConf>, saver: DS.DataSaver, repo: PR.PageRepository, morph: Oracle)
      ensures Valid() && !started && pools == map[]
      ensures this.confs == confs && this.saver == saver && this.repo == repo && this.morph == morph
    {
      started := false;
      pools := map[];
      this.confs := confs;
      this.saver := saver;
      this.repo := repo;
      this.morph := morph;
    }

    /** `saveSite(siteConf)`. */
    method SaveSite(conf: SiteConf, now: Time) returns (saved: Site)
      modifies saver.db
      ensures saved == NewSite(conf, started, now).(id := old(saver.db.nextSiteId))
      ensures saver.db.State() == old(saver.db.State()).(sites := old(saver.db.sites) + [saved],
                                                          nextSiteId := old(saver.db.nextSiteId) + 1)
    {
      saved := saver.SaveSite(NewSite(conf, started, now));
    }

    /** `deleteAllSiteData(url)`. */
    method DeleteAllSiteData(url: string)
      modifies saver.db
      ensures saver.db.State() == SiteDataDeleted(old(saver.db.State()), url)
    {
      var found := saver.FindSiteByUrl(url);
      if found.Some? {
        saver.RemoveAllBySite(found.value);
      }
    }

    /** One pass of the thread body of `startIndexing`: the site's data deleted, its row saved. */
    method LaunchSite(conf: SiteConf, now: Time) returns (site: Site)
      requires started
      modifies saver.db
      ensures saver.db.State() == LaunchStep(old(saver.db.State()), conf, now)
      ensures site == NewSite(conf, true, now).(id := old(saver.db.nextSiteId))
    {
      DeleteAllSiteData(BaseForm(conf.url));
      SiteDataDeletedKeepsCounter(old(saver.db.State()), BaseForm(conf.url));
      site := SaveSite(conf, now);
    }

    /** `startIndexing`, its thread body included. */
    method StartIndexing(now: Time) returns (reply: Reply)
      requires Valid()
      modifies this, saver.db
      ensures Valid() && started
      ensures old(started) ==> reply == Reply(false, Some(AlreadyStarted))
                               && pools == old(pools) && saver.db.State() == old(saver.db.State())
      ensures !old(started) ==> reply == Reply(true, None)
                                && saver.db.State() == Launch(old(saver.db.State()), confs, now)
                                && pools == Tracked(old(pools), old(saver.db.nextSiteId), confs, now)
    {
      if started {
        return Reply(false, Some(AlreadyStarted));
      }
      started := true;
      ghost var t := saver.db.State();
      ghost var p := pools;
      var i := 0;
      while i < |confs|
        invariant 0 <= i <= |confs| && started
        invariant forall id | id in pools :: pools[id].id == id
        invariant saver.db.State() == Launch(t, confs[..i], now)
        invariant saver.db.nextSiteId == t.nextSiteId + i
        invariant pools == Tracked(p, t.nextSiteId, confs[..i], now)
      {
        assert confs[..i + 1][..i] == confs[..i];
        var site := LaunchSite(confs[i], now);
        pools := pools[site.id := site];
        assert saver.db.State() == Launch(t, confs[..i + 1], now);
        assert pools == Tracked(p, t.nextSiteId, confs[..i + 1], now);
        i := i + 1;
      }
      assert confs[..i] == confs;
      return Reply(true, None);
    }

    /** `stopIndexing`, its thread body included: every tracked site is marked FAILED with the
     *  stop message and dropped. */
    method StopIndexing(now: Time) returns (reply: Reply)
      requires Valid()
      modifies this, saver.db
      ensures Valid() && !started && pools == map[]
      ensures !old(started) ==> reply == Reply(false, Some(NotStarted)) && saver.db.State() == old(saver.db.State())
      ensures old(started) ==> reply == Reply(true, None)
                               && saver.db.State() == old(saver.db.State()).(sites := Halted(old(saver.db.sites), old(pools).Keys, now))
    {
      if !started {
        return Reply(false, Some(NotStarted));
      }
      started := false;
      ghost var t := saver.db.State();
      ghost var all := pools.Keys;
      while pools != map[]
        invariant !started && pools.Keys <= all
        invariant forall id | id in pools :: pools[id].id == id
        invariant saver.db.State() == t.(sites := Halted(t.sites, all - pools.Keys, now))
        decreases |pools.Keys|
      {
        var id :| id in pools;
        var site := pools[id];
        ghost var done := all - pools.Keys;
        HaltedStep(t.sites, done, id, now);
        saver.UpdateSite(site, FAILED, Some(StoppedByUser), now);
        pools := pools - {id};
        assert all - pools.Keys == done + {id};
      }
      assert all - pools.Keys == all;
      return Reply(true, None);
    }

    /** The status update `poll` makes for one tracked crawl, when its parser has ended. */
    method SettleSite(site: Site, progress: map<int, Progress>, now: Time) returns (finished: bool)
      modifies saver.db
      ensures finished == Finished(progress, site.id)
      ensures finished ==> saver.db.State() == old(saver.db.State()).(sites := Tables.UpdateSite(old(saver.db.sites),
                             site.id, Outcome(progress[site.id].completion), now, progress[site.id].site.lastError))
      ensures !finished ==> saver.db.State() == old(saver.db.State())
    {
      var id := site.id;
      if id in progress && progress[id].completion.Normal? {
        saver.UpdateSite(site, INDEXED, progress[id].site.lastError, now);
        finished := true;
      } else if id in progress && progress[id].completion.Abnormal? {
        saver.UpdateSite(site, FAILED, progress[id].site.lastError, now);
        finished := true;
      } else {
        finished := false;
      }
    }

    /**
     * One run of the supervisor scheduled by `startCheckForEndingIndexing`. A crawl whose task
     * ended normally sets its site INDEXED, one that ended exceptionally sets it FAILED, both
     * keeping the parser's error and leaving the map; when the map is empty the flag is cleared.
     * `progress` is what the parsers, which run concurrently, show at that moment.
     */
    method Poll(progress: map<int, Progress>, now: Time)
      requires Valid()
      modifies this, saver.db
      ensures Valid()
      ensures pools == StillRunning(old(pools), progress)
      ensures started == (old(started) && pools != map[])
      ensures saver.db.State() == old(saver.db.State()).(sites := Settled(old(saver.db.sites), progress, old(pools).Keys, now))
    {
      ghost var t := saver.db.State();
      ghost var all := pools.Keys;
      ghost var before := pools;
      RemainingNone(before, progress);
      var todo := pools.Keys;
      while todo != {}
        invariant todo <= all && started == old(started)
        invariant forall id | id in before :: before[id].id == id
        invariant pools == Remaining(before, progress, all - todo)
        invariant saver.db.State() == t.(sites := Settled(t.sites, progress, all - todo, now))
        decreases |todo|
      {
        var id :| id in todo;
        ghost var done := all - todo;
        var site := pools[id];
        var finished := SettleSite(site, progress, now);
        RemainingStep(before, progress, done, id);
        if finished {
          SettledStep(t.sites, progress, done, id, now);
          pools := pools - {id};
        } else {
          SettledUnfinished(t.sites, progress, done, id, now);
        }
        todo := todo - {id};
        assert all - todo == done + {id};
      }
      assert all - todo == before.Keys;
      RemainingAll(before, progress);
      if pools == map[] {
        started := false;
      }
    }

    /** The inner loop of `selectPageWithLemma`: the page once per posting of it that is a hit. */
    method CopiesOf(page: Page, form: string) returns (copies: seq<Page>)
      ensures copies == Repeat(page, Hits(PostingsOfPage(saver.db.indexes, page.id), saver.db.lemmas, form))
    {
      var ps := PostingsOfPage(saver.db.indexes, page.id);
      var lemmas := saver.db.lemmas;
      copies := [];
      var j := 0;
      while j < |ps|
        invariant 0 <= j <= |ps|
        invariant copies == Repeat(page, Hits(ps[..j], lemmas, form))
      {
        HitsStep(ps, lemmas, form, j);
        if IsHit(ps[j], lemmas, form) {
          copies := copies + [page];
        }
        j := j + 1;
      }
      assert ps[..j] == ps;
    }

    /** The outer loop of `selectPageWithLemma`: each page once per posting of it that is a hit. */
    method SelectRound(pages: seq<Page>, form: string) returns (acc: seq<Page>)
      ensures acc == Pass(pages, saver.db.indexes, saver.db.lemmas, form)
    {
      acc := [];
      var i := 0;
      while i < |pages|
        invariant 0 <= i <= |pages|
        invariant acc == Pass(pages[..i], saver.db.indexes, saver.db.lemmas, form)
      {
        var copies := CopiesOf(pages[i], form);
        PassStep(pages, saver.db.indexes, saver.db.lemmas, form, i);
        acc := acc + copies;
        i := i + 1;
      }
      assert pages[..i] == pages;
    }

    /** `selectPageWithLemma`: one narrowing round per listed lemma, each removed from the list. */
    method SelectPageWithLemma(list: LemmaList, pages: seq<Page>) returns (result: seq<Page>)
      modifies list
      ensures list.items == []
      ensures result == Narrow(old(list.items), pages, saver.db.indexes, saver.db.lemmas)
      decreases |list.items|
    {
      if list.items == [] {
        return pages;
      }
      var acc := SelectRound(pages, list.items[0].form);
      list.items := list.items[1..];
      result := SelectPageWithLemma(list, acc);
    }

    /** `calculateRelevance`: the ranks of the page's postings of the listed lemmas, summed. */
    method CalculateRelevance(page: Page, list: seq<Lemma>) returns (result: int)
      ensures result == Relevance(saver.db.indexes, page, list)
    {
      var xs := saver.FindIndexByPageAndLemmaList(page, list);
      result := 0;
      var i := 0;
      while i < |xs|
        invariant 0 <= i <= |xs|
        invariant result == SumRanks(xs[..i])
      {
        assert xs[..i + 1][..i] == xs[..i];
        result := result + xs[i].rank;
        i := i + 1;
      }
      assert xs[..i] == xs;
    }

    /** `search(site, query)`. */
    method Search(site: string, query: string) returns (resp: SearchResponse)
      requires WellFormed(morph)
      ensures resp == SearchAnswer(saver.db.State(), morph, site, query)
    {
      if IsBlank(query) {
        return SearchResponse(false, Some(EmptyQuery), 0, None);
      }
      ghost var t := saver.db.State();
      var counts := LF.FindLemma(query, morph);
      var siteObj := saver.FindSiteByUrl(site);
      var found := saver.FindLemmaByLemmaListAndSite(counts.Keys, siteObj);
      assert found == QueryLemmas(t, morph, site, query);
      if found == [] {
        return SearchResponse(true, None, 0, None);
      }
      var pages := saver.FindPagesByLemmaAndSite(found[0].form, siteObj);
      var list := new LemmaList(found[1..]);
      var result := SelectPageWithLemma(list, pages);
      assert result == SelectedPages(t, found, siteObj);
      var data := EntriesOf(result, list);
      resp := SearchResponse(true, None, |result|, Some(SortByRelevance(data)));
    }

    /** The loop of `search` that pairs each selected page with its relevance over `list`. */
    method EntriesOf(result: seq<Page>, list: LemmaList) returns (data: seq<SearchData>)
      ensures data == Entries(result, saver.db.indexes, list.items)
    {
      data := [];
      var i := 0;
      while i < |result|
        invariant 0 <= i <= |result|
        invariant data == Entries(result[..i], saver.db.indexes, list.items)
      {
        var relevance := CalculateRelevance(result[i], list.items);
        assert result[..i + 1][..i] == result[..i];
        data := data + [Entry(result[i], relevance)];
        i := i + 1;
      }
      assert result[..i] == result;
    }

    /** The site lookup (or save) and the removal of the stored copy at the start of `indexPage`. */
    method PrepareSite(tg: Target, now: Time) returns (site: Site)
      modifies saver.db
      ensures (saver.db.State(), site) == Prepared(old(saver.db.State()), tg, started, now)
    {
      var found := saver.FindSiteByUrl(tg.url);
      if found.Some? {
        site := found.value;
      } else {
        site := SaveSite(tg.conf, now);
      }
      var page := saver.FindPageByPathAndSite(tg.path, site);
      if page.Some? {
        saver.RemoveAllByPage(page.value);
      }
    }

    /** `indexPage(uri)`: a page outside the configured sites is refused; otherwise its site is
     *  found or saved, its stored copy removed, and a fresh parser indexes it. */
    method IndexPage(uri: string, fetch: SP.FetchOutcome, connectWrite: Option<int>, pageWrite: Option<int>, now: Time)
      returns (reply: Reply)
      requires WellFormed(morph)
      modifies saver.db, repo
      ensures Resolve(confs, uri).None? ==>
                reply == Reply(false, Some(OutsideSites))
                && saver.db.State() == old(saver.db.State()) && repo.sitePaths == old(repo.sitePaths)
      ensures Resolve(confs, uri).Some? ==>
                var tg := Resolve(confs, uri).value;
                var (t, site) := Prepared(old(saver.db.State()), tg, started, now);
                var (u, v) := SP.IndexStep(SP.Unit(site, None, false, old(repo.sitePaths)), tg.path,
                                           fetch, started, connectWrite, pageWrite, now);
                repo.sitePaths == u.claims
                && (v.Saved? ==>
                      exists records | SP.RecordsFor(records, Tally(map[], KeptLemmas(Words(v.text), morph)), site.Key()) ::
                        saver.db.State() == DS.SaveCandidates(t, SP.CandidatesOf(records), v.page.id))
                && (!v.Saved? ==> saver.db.State() == t)
                && (reply == Thrown <==> v.NoContentType? || v.NoDocument?)
                && (reply == Reply(true, None) <==> v.Saved?)
                && (reply == Reply(false, Some(PageNotIndexed)) <==> v.Skipped? || v.Unsaved?)
    {
      var tg := Resolve(confs, uri);
      if tg.None? {
        return Reply(false, Some(OutsideSites));
      }
      var site := PrepareSite(tg.value, now);
      ghost var claims := repo.sitePaths;
      var parser := new SP.SiteParser(tg.value.path, site, repo, saver.db, morph);
      assert parser.State() == SP.Unit(site, None, false, claims);
      var r := parser.IndexPage(fetch, started, connectWrite, pageWrite, now);
      if r.Raised? {
        return Thrown;
      }
      if r.Indexed? {
        return Reply(true, None);
      }
      return Reply(false, Some(PageNotIndexed));
    }
  }
}
