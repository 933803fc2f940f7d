/**
 * `DataSaver`: the composite store operations the services use. Saving a
 * page with its lemmas, and the two cascades that undo it (one page, one
 * site), are sequences of repository calls in a fixed order.
 */
module DataSaver {
  import opened Wrappers
  import opened Entities
  import opened Tables
  import opened Store

  /** `saveAll(lemmaList)`: one upsert after the other, each with its postings. */
  function SaveCandidates(t: Snapshot, cs: seq<Candidate>, pageId: int): Snapshot {
    if cs == [] then t
    else SaveCandidate(SaveCandidates(t, cs[..|cs| - 1], pageId), cs[|cs| - 1], pageId)
  }

  /** `saveIndexingData(lemmaList, page)`: nothing when (path, site) is stored already;
   *  otherwise the page under the next page id, then the lemmas pointing at it. */
  function WithIndexingData(t: Snapshot, cs: seq<Candidate>, page: Page): Snapshot {
    if HasPage(t.pages, page.path, page.site.id) then t
    else
      var saved := page.(id := t.nextPageId);
      SaveCandidates(t.(pages := InsertIgnorePage(t.pages, saved), nextPageId := t.nextPageId + 1), cs, t.nextPageId)
  }

  /** `removeAllBySite(site)`: postings of its pages, its lemmas, its pages, its row. */
  function WithoutSite(t: Snapshot, siteId: int): Snapshot {
    var t1 := t.(indexes := RemoveIndexesBySite(t.indexes, t.pages, siteId));
    var t2 := t1.(lemmas := RemoveLemmasBySite(t1.lemmas, siteId));
    var t3 := t2.(pages := RemovePagesBySite(t2.pages, siteId));
    t3.(sites := RemoveSite(t3.sites, siteId))
  }

  /** `removeAllByPage(page)`: its postings go, every lemma they referenced loses one,
   *  lemmas left at frequency 0 or less go, and the page goes. */
  function WithoutPage(t: Snapshot, page: Page): Snapshot {
    var referenced := LemmasOfPage(t.indexes, t.lemmas, page.id);
    var t1 := t.(indexes := RemoveIndexesByPage(t.indexes, page.id));
    var t2 := t1.(lemmas := DecrementFrequency(t1.lemmas, set l | l in referenced :: l.id));
    var t3 := t2.(lemmas := RemoveNonPositive(t2.lemmas));
    t3.(pages := RemovePage(t3.pages, page.path, page.site.id))
  }

  /** Every posting points at a stored page. */
  predicate PostingsResolve(t: Snapshot) {
    forall x | x in t.indexes :: exists p | p in t.pages :: p.id == x.pageId
  }

  /** The site cascade removes exactly that site's data, and because postings go before
   *  pages, no surviving posting is left pointing at a deleted page. */
  lemma RemoveAllBySiteEffect(t: Snapshot, siteId: int)
    ensures var r := WithoutSite(t, siteId);
      (forall s :: s in r.sites <==> s in t.sites && s.id != siteId)
      && (forall p :: p in r.pages <==> p in t.pages && p.site.id != siteId)
      && (forall l :: l in r.lemmas <==> l in t.lemmas && l.site.id != siteId)
      && (forall x :: x in r.indexes <==>
            x in t.indexes && !(exists p | p in t.pages :: p.id == x.pageId && p.site.id == siteId))
      && (PostingsResolve(t) ==> PostingsResolve(r))
  {
    var r := WithoutSite(t, siteId);
    if PostingsResolve(t) {
      forall x | x in r.indexes ensures exists p | p in r.pages :: p.id == x.pageId {
        var p :| p in t.pages && p.id == x.pageId;
        assert p in r.pages;
      }
    }
  }

  /** `findLemmaByLemmaListAndSite`: all sites when no site is given, else only that one. */
  function FindLemmas(t: Snapshot, forms: set<string>, site: Option<Site>): (r: seq<Lemma>)
    ensures SortedByFrequency(r)
    ensures forall l :: l in r <==> l in t.lemmas && l.form in forms && (site.None? || l.site.id == site.value.id)
  {
    if site.None? then FindByForms(t.lemmas, forms) else FindByFormsAndSite(t.lemmas, forms, site.value.id)
  }

  class DataSaver {
    const db: Database

    constructor (db: Database)
      ensures this.db == db
    {
      this.db := db;
    }

    /** `findSiteByUrl`. */
    function FindSiteByUrl(url: string): Option<Site>
      reads db
    {
      db.FindByUrl(url)
    }

    /** `findPageByPathAndSite`. */
    function FindPageByPathAndSite(path: string, site: Site): Option<Page>
      reads db
    {
      db.FindByPathAndSite(path, site.id)
    }

    /** `isPageSaved` (`existsByPathAndSite`). */
    predicate IsPageSaved(path: string, site: Site)
      reads db
    {
      HasPage(db.pages, path, site.id)
    }

    /** `saveSite`. */
    method SaveSite(site: Site) returns (saved: Site)
      modifies db
      ensures saved == site.(id := old(db.nextSiteId))
      ensures db.State() == old(db.State()).(sites := old(db.sites) + [saved], nextSiteId := old(db.nextSiteId) + 1)
    {
      saved := db.SaveSite(site);
    }

    /** `updateSite(site)`: the row takes the object's status, time and error. */
    method UpdateSiteRow(site: Site)
      modifies db
      ensures db.State() == old(db.State()).(sites := Tables.UpdateSite(old(db.sites), site.id, site.status, site.statusTime, site.lastError))
    {
      db.UpdateSite(site.status, site.statusTime, site.lastError, site.id);
    }

    /** `updateSite(site, status, lastError)`: the row's status, time and error; nothing else. */
    method UpdateSite(site: Site, status: SiteStatus, lastError: Option<string>, now: Time)
      modifies db
      ensures db.State() == old(db.State()).(sites := Tables.UpdateSite(old(db.sites), site.id, status, now, lastError))
    {
      db.UpdateSite(status, now, lastError, site.id);
    }

    /** `findLemmaByLemmaListAndSite`; `None` is the null site. */
    function FindLemmaByLemmaListAndSite(forms: set<string>, site: Option<Site>): seq<Lemma>
      reads db
    {
      FindLemmas(db.State(), forms, site)
    }

    /** `findPagesByLemmaAndSite`; `None` is the null site. */
    function FindPagesByLemmaAndSite(form: string, site: Option<Site>): seq<Page>
      reads db
    {
      PagesByForm(db.pages, db.indexes, db.lemmas, form, if site.None? then None else Some(site.value.id))
    }

    /** `findIndexByPageAndLemmaList`. */
    function FindIndexByPageAndLemmaList(page: Page, list: seq<Lemma>): seq<Index>
      reads db
    {
      PostingsOfPageAndLemmas(db.indexes, page.id, set l | l in list :: l.id)
    }

    /** `saveIndexingData`. */
    method SaveIndexingData(cs: seq<Candidate>, page: Page)
      modifies db
      ensures db.State() == WithIndexingData(old(db.State()), cs, page)
    {
      if HasPage(db.pages, page.path, page.site.id) {
        return;
      }
      var saved := db.SavePage(page);
      ghost var start := db.State();
      assert start == old(db.State()).(pages := InsertIgnorePage(old(db.pages), saved), nextPageId := saved.id + 1);
      var i := 0;
      while i < |cs|
        invariant 0 <= i <= |cs|
        invariant db.State() == SaveCandidates(start, cs[..i], saved.id)
      {
        assert cs[..i + 1][..i] == cs[..i];
        ghost var before := db.State();
        db.SaveLemma(cs[i], saved.id);
        assert db.State() == SaveCandidate(before, cs[i], saved.id);
        i := i + 1;
      }
      assert cs[..i] == cs;
    }

    /** `removeAllBySite`. */
    method RemoveAllBySite(site: Site)
      modifies db
      ensures db.State() == WithoutSite(old(db.State()), site.id)
    {
      db.RemoveIndexesBySite(site.id);
      db.RemoveLemmasBySite(site.id);
      db.RemovePagesBySite(site.id);
      db.RemoveSite(site.id);
    }

    /** `removeIndexByPage`: the lemmas of the page's postings, then the postings are deleted. */
    method RemoveIndexByPage(page: Page) returns (result: seq<Lemma>)
      modifies db
      ensures result == LemmasOfPage(old(db.indexes), old(db.lemmas), page.id)
      ensures db.State() == old(db.State()).(indexes := RemoveIndexesByPage(old(db.indexes), page.id))
    {
      result := db.FindLemmaByPage(page.id);
      db.RemoveByPage(page.id);
    }

    /** `removeAllByPage`. */
    method RemoveAllByPage(page: Page)
      modifies db
      ensures db.State() == WithoutPage(old(db.State()), page)
    {
      var list := RemoveIndexByPage(page);
      db.DecrementFrequencyById(list);
      db.RemoveIfFrequencyIsZero();
      db.RemoveByPathAndSite(page.path, page.site.id);
    }

    /** `countLemmaBySite`. */
    function CountLemmaBySite(site: Site): nat
      reads db
    {
      CountLemmasBySite(db.lemmas, site.id)
    }

    /** `countPageBySite`. */
    function CountPageBySite(site: Site): nat
      reads db
    {
      CountPagesBySite(db.pages, site.id)
    }
  }
}
