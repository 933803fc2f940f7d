/**
 * The database behind the Spring Data repositories: four tables held by one
 * object whose methods are the repository operations. Each modifying method
 * replaces exactly one table by the result of the matching query function
 * of `Tables`; generated ids come from one counter per table.
 */
module Store {
  import opened Wrappers
  import opened Entities
  import opened Tables

  /** The whole database as a value. */
  datatype Snapshot = Snapshot(sites: seq<Site>, pages: seq<Page>, lemmas: seq<Lemma>, indexes: seq<Index>,
                               nextSiteId: int, nextPageId: int, nextLemmaId: int, nextIndexId: int)

  /** A lemma handed to `saveAll`, with the ranks of the postings it carries
   *  (through `cascade = ALL`) for the page being saved. */
  datatype Candidate = Candidate(row: Lemma, ranks: seq<int>)

  /** The postings of one candidate: consecutive ids from `firstId`, all on one page and one lemma row. */
  function NewPostings(ranks: seq<int>, pageId: int, lemmaId: int, firstId: int): (r: seq<Index>)
    ensures |r| == |ranks|
    ensures forall k | 0 <= k < |r| :: r[k] == Index(firstId + k, pageId, lemmaId, ranks[k])
  {
    seq(|ranks|, k requires 0 <= k < |ranks| => Index(firstId + k, pageId, lemmaId, ranks[k]))
  }

  /** `lemmaRepository.save(c)`: the upsert and the cascaded postings. The identity counter
   *  advances on every insert statement, including one that turns into an update. */
  function SaveCandidate(t: Snapshot, c: Candidate, pageId: int): Snapshot {
    var (lemmas, lemmaId) := UpsertLemma(t.lemmas, c.row, t.nextLemmaId);
    t.(lemmas := lemmas, nextLemmaId := t.nextLemmaId + 1,
       indexes := t.indexes + NewPostings(c.ranks, pageId, lemmaId, t.nextIndexId),
       nextIndexId := t.nextIndexId + |c.ranks|)
  }

  class Database {
    var sites: seq<Site>
    var pages: seq<Page>
    var lemmas: seq<Lemma>
    var indexes: seq<Index>
    var nextSiteId: int
    var nextPageId: int
    var nextLemmaId: int
    var nextIndexId: int

    function State(): Snapshot
      reads this
    {
      Snapshot(sites, pages, lemmas, indexes, nextSiteId, nextPageId, nextLemmaId, nextIndexId)
    }

    constructor ()
      ensures State() == Snapshot([], [], [], [], 1, 1, 1, 1)
    {
      sites, pages, lemmas, indexes := [], [], [], [];
      nextSiteId, nextPageId, nextLemmaId, nextIndexId := 1, 1, 1, 1;
    }

    // ----- SiteRepositoryInterface -----

    /** `update(status, statusTime, lastError, id)`. */
    method UpdateSite(status: SiteStatus, time: Time, err: Option<string>, id: int)
      modifies this
      ensures State() == old(State()).(sites := Tables.UpdateSite(old(sites), id, status, time, err))
    {
      sites := Tables.UpdateSite(sites, id, status, time, err);
    }

    /** `findByUrl`. */
    function FindByUrl(url: string): Option<Site>
      reads this
    {
      FindSiteByUrl(sites, url)
    }

    /** `remove(id)`. */
    method RemoveSite(id: int)
      modifies this
      ensures State() == old(State()).(sites := Tables.RemoveSite(old(sites), id))
    {
      sites := Tables.RemoveSite(sites, id);
    }

    /** `save(site)` of a new site: the row is inserted under the next generated id. */
    method SaveSite(s: Site) returns (saved: Site)
      modifies this
      ensures saved == s.(id := old(nextSiteId))
      ensures State() == old(State()).(sites := old(sites) + [saved], nextSiteId := old(nextSiteId) + 1)
    {
      saved := s.(id := nextSiteId);
      sites := sites + [saved];
      nextSiteId := nextSiteId + 1;
    }

    // ----- PageRepositoryInterface -----

    /** `findByPathAndSite`. */
    function FindByPathAndSite(path: string, siteId: int): Option<Page>
      reads this
    {
      FindPage(pages, path, siteId)
    }

    /** `save(page)` through `insert ignore`: the page gets the next id; its row is kept
     *  only when (path, site) is new. */
    method SavePage(p: Page) returns (saved: Page)
      modifies this
      ensures saved == p.(id := old(nextPageId))
      ensures State() == old(State()).(pages := InsertIgnorePage(old(pages), saved), nextPageId := old(nextPageId) + 1)
    {
      saved := p.(id := nextPageId);
      pages := InsertIgnorePage(pages, saved);
      nextPageId := nextPageId + 1;
    }

    /** `PageRepositoryInterface.removeAllBySite`. */
    method RemovePagesBySite(siteId: int)
      modifies this
      ensures State() == old(State()).(pages := Tables.RemovePagesBySite(old(pages), siteId))
    {
      pages := Tables.RemovePagesBySite(pages, siteId);
    }

    /** `removeByPathAndSite`. */
    method RemoveByPathAndSite(path: string, siteId: int)
      modifies this
      ensures State() == old(State()).(pages := RemovePage(old(pages), path, siteId))
    {
      pages := RemovePage(pages, path, siteId);
    }

    // ----- LemmaRepositoryInterface -----

    /** One element of `saveAll`. */
    method SaveLemma(c: Candidate, pageId: int)
      modifies this
      ensures State() == SaveCandidate(old(State()), c, pageId)
    {
      var found := FindLemma(lemmas, c.row.form, c.row.site.id);
      var lemmaId: int;
      if found.Some? {
        lemmas := Bump(lemmas, found.value.id);
        lemmaId := found.value.id;
      } else {
        lemmas := lemmas + [c.row.(id := nextLemmaId)];
        lemmaId := nextLemmaId;
      }
      nextLemmaId := nextLemmaId + 1;
      indexes := indexes + NewPostings(c.ranks, pageId, lemmaId, nextIndexId);
      nextIndexId := nextIndexId + |c.ranks|;
    }

    /** `LemmaRepositoryInterface.removeAllBySite`. */
    method RemoveLemmasBySite(siteId: int)
      modifies this
      ensures State() == old(State()).(lemmas := Tables.RemoveLemmasBySite(old(lemmas), siteId))
    {
      lemmas := Tables.RemoveLemmasBySite(lemmas, siteId);
    }

    /** `decrementFrequencyById(lemmaList)`: the list is compared by row id. */
    method DecrementFrequencyById(list: seq<Lemma>)
      modifies this
      ensures State() == old(State()).(lemmas := DecrementFrequency(old(lemmas), set l | l in list :: l.id))
    {
      lemmas := DecrementFrequency(lemmas, set l | l in list :: l.id);
    }

    /** `removeIfFrequencyIsZero`. */
    method RemoveIfFrequencyIsZero()
      modifies this
      ensures State() == old(State()).(lemmas := RemoveNonPositive(old(lemmas)))
    {
      lemmas := RemoveNonPositive(lemmas);
    }

    // ----- IndexRepositoryInterface -----

    /** `IndexRepositoryInterface.removeAllBySite`: the site's pages are read before any is deleted. */
    method RemoveIndexesBySite(siteId: int)
      modifies this
      ensures State() == old(State()).(indexes := Tables.RemoveIndexesBySite(old(indexes), old(pages), siteId))
    {
      indexes := Tables.RemoveIndexesBySite(indexes, pages, siteId);
    }

    /** `removeByPage`. */
    method RemoveByPage(pageId: int)
      modifies this
      ensures State() == old(State()).(indexes := RemoveIndexesByPage(old(indexes), pageId))
    {
      indexes := RemoveIndexesByPage(indexes, pageId);
    }

    /** `findLemmaByPage`. */
    function FindLemmaByPage(pageId: int): seq<Lemma>
      reads this
    {
      LemmasOfPage(indexes, lemmas, pageId)
    }
  }
}
