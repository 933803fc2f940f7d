/**
 * The statistics service: one item per configured site, read off the stored site row when
 * there is one (found by the site's base url) and made up from the configuration otherwise,
 * with page and lemma totals summed over the items.
 */
module Statistics {
  import opened Wrappers
  import opened Entities
  import opened Tables
  import opened Store
  import DS = DataSaver
  import IS = IndexingService

  /** A `DetailedStatisticsItem`; the status time stays a `LocalDateTime` (no epoch conversion). */
  datatype Item = Item(name: string, url: string, pages: int, lemmas: int, status: string,
                       error: Option<string>, statusTime: Time)

  /** A `TotalStatistics`. */
  datatype Total = Total(sites: int, pages: int, lemmas: int, indexing: bool)

  /** A `StatisticsResponse` with its `StatisticsData`. */
  datatype StatisticsResponse = StatisticsResponse(result: bool, total: Total, detailed: seq<Item>)

  const NotIndexing := "DON'T INDEXING"

  /** `createStatisticsItemFromDBSite`: the stored row's fields and the counts of its rows. */
  function ItemFromSite(t: Snapshot, site: Site): Item {
    Item(site.name, site.url, CountPagesBySite(t.pages, site.id), CountLemmasBySite(t.lemmas, site.id),
         StatusName(site.status), site.lastError, site.statusTime)
  }

  /** `createStatisticsItemFromSiteConf`: nothing stored yet, so no pages, no lemmas, no error. */
  function ItemFromConf(conf: IS.SiteConf, now: Time): Item {
    Item(conf.name, IS.BaseForm(conf.url), 0, 0, NotIndexing, Some(""), now)
  }

  /** The item of one configured site: from its stored row if its base url has one. */
  function ItemOf(t: Snapshot, conf: IS.SiteConf, now: Time): Item {
    var stored := FindSiteByUrl(t.sites, IS.BaseForm(conf.url));
    if stored.Some? then ItemFromSite(t, stored.value) else ItemFromConf(conf, now)
  }

  function SumPages(items: seq<Item>): int {
    if items == [] then 0 else SumPages(items[..|items| - 1]) + items[|items| - 1].pages
  }

  function SumLemmas(items: seq<Item>): int {
    if items == [] then 0 else SumLemmas(items[..|items| - 1]) + items[|items| - 1].lemmas
  }

  /** Appending an item adds its counts to the totals. */
  lemma SumsStep(items: seq<Item>, item: Item)
    ensures SumPages(items + [item]) == SumPages(items) + item.pages
    ensures SumLemmas(items + [item]) == SumLemmas(items) + item.lemmas
  {
    assert (items + [item])[..|items|] == items;
  }

  /** Every item reports the base url of its configured site, and it reports "DON'T INDEXING"
   *  exactly when no row is stored under that url; then it has no pages and no lemmas. */
  lemma ItemOfConfiguredSite(t: Snapshot, conf: IS.SiteConf, now: Time)
    ensures var item := ItemOf(t, conf, now);
            item.url == IS.BaseForm(conf.url)
            && (item.status == NotIndexing <==> forall s | s in t.sites :: s.url != IS.BaseForm(conf.url))
            && (item.status == NotIndexing ==> item.pages == 0 && item.lemmas == 0 && item.error == Some(""))
  {
    var stored := FindSiteByUrl(t.sites, IS.BaseForm(conf.url));
    if stored.Some? {
      assert StatusName(stored.value.status) != NotIndexing;
    }
  }

  /** A stored site's item carries that row's name, status and error, and counts no more pages
   *  and lemmas than are stored. */
  lemma ItemOfStoredSite(t: Snapshot, conf: IS.SiteConf, now: Time, s: Site)
    requires s in t.sites && s.url == IS.BaseForm(conf.url)
    requires forall r | r in t.sites && r.url == s.url :: r == s
    ensures var item := ItemOf(t, conf, now);
            item.name == s.name && item.status == StatusName(s.status) && item.error == s.lastError
            && 0 <= item.pages <= |t.pages| && 0 <= item.lemmas <= |t.lemmas|
  {
    var stored := FindSiteByUrl(t.sites, IS.BaseForm(conf.url));
    assert stored == Some(s);
  }

  /** Counts are never negative, so the totals are at least each item's count. */
  lemma {:induction false} TotalsCoverEveryItem(items: seq<Item>, k: int)
    requires forall i | 0 <= i < |items| :: items[i].pages >= 0 && items[i].lemmas >= 0
    requires 0 <= k < |items|
    ensures SumPages(items) >= items[k].pages && SumLemmas(items) >= items[k].lemmas
  {
    var n := |items| - 1;
    if k == n {
      SumsNonNegative(items[..n]);
    } else {
      TotalsCoverEveryItem(items[..n], k);
    }
  }

  lemma {:induction false} SumsNonNegative(items: seq<Item>)
    requires forall i | 0 <= i < |items| :: items[i].pages >= 0 && items[i].lemmas >= 0
    ensures SumPages(items) >= 0 && SumLemmas(items) >= 0
  {
    if items != [] {
      SumsNonNegative(items[..|items| - 1]);
    }
  }

  class StatisticsService {
    const confs: seq<IS.SiteConf>
    const saver: DS.DataSaver

    constructor (confs: seq<IS.SiteConf>, saver: DS.DataSaver)
      ensures this.confs == confs && this.saver == saver
    {
      this.confs := confs;
      this.saver := saver;
    }

    /** The item of one configured site, built from its stored row when the lookup finds one. */
    method ItemFor(conf: IS.SiteConf, now: Time) returns (item: Item)
      ensures item == ItemOf(saver.db.State(), conf, now)
    {
      var stored := saver.FindSiteByUrl(IS.BaseForm(conf.url));
      if stored.Some? {
        item := Item(stored.value.name, stored.value.url, saver.CountPageBySite(stored.value),
                     saver.CountLemmaBySite(stored.value), StatusName(stored.value.status),
                     stored.value.lastError, stored.value.statusTime);
      } else {
        item := ItemFromConf(conf, now);
      }
    }

    /** One loop step of `getStatistics`: the item joins the list and its counts join the totals. */
    static method Add(total: Total, detailed: seq<Item>, item: Item) returns (total': Total, detailed': seq<Item>)
      requires total.pages == SumPages(detailed) && total.lemmas == SumLemmas(detailed)
      ensures detailed' == detailed + [item]
      ensures total' == total.(pages := SumPages(detailed'), lemmas := SumLemmas(detailed'))
    {
      total' := total.(pages := total.pages + item.pages, lemmas := total.lemmas + item.lemmas);
      SumsStep(detailed, item);
      detailed' := detailed + [item];
    }

    /** `getStatistics`; `now` is the clock reading used for sites with no stored row. */
    method GetStatistics(now: Time) returns (resp: StatisticsResponse)
      ensures resp.result && resp.total.indexing && resp.total.sites == |confs|
      ensures |resp.detailed| == |confs|
      ensures forall k | 0 <= k < |confs| :: resp.detailed[k] == ItemOf(saver.db.State(), confs[k], now)
      ensures resp.total.pages == SumPages(resp.detailed) && resp.total.lemmas == SumLemmas(resp.detailed)
    {
      ghost var t := saver.db.State();
      var total := Total(|confs|, 0, 0, true);
      var detailed: seq<Item> := [];
      var i := 0;
      while i < |confs|
        invariant 0 <= i <= |confs| && |detailed| == i
        invariant forall k | 0 <= k < i :: detailed[k] == ItemOf(t, confs[k], now)
        invariant total == Total(|confs|, SumPages(detailed), SumLemmas(detailed), true)
      {
        var item := ItemFor(confs[i], now);
        assert item == ItemOf(t, confs[i], now);
        ghost var before := detailed;
        total, detailed := Add(total, detailed, item);
        assert forall k | 0 <= k < i :: detailed[k] == before[k];
        assert detailed[i] == item;
        i := i + 1;
      }
      resp := StatisticsResponse(true, total, detailed);
    }
  }
}
