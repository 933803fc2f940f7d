/**
 * The claim map of `PageRepository`: for every site (compared by
 * `Site.equals`) the set of paths already taken in this crawl generation.
 * A path is claimed before the page is written, and a page is written only
 * by the caller that claimed it. The database write itself is outside the
 * model: its outcome is a parameter.
 */
module PageRepository {
  import opened Wrappers
  import opened Entities

  type Claims = map<SiteKey, set<string>>

  /** The paths claimed for `site`, empty when the site has no entry. */
  function PathsOf(c: Claims, site: SiteKey): set<string> {
    if site in c then c[site] else {}
  }

  /** `isPageSaved(path, site)`: the site has a set and the path is in it. */
  predicate Claimed(c: Claims, site: SiteKey, path: string) {
    site in c && path in c[site]
  }

  /** The claim map after `paths.add(path)`, creating the site's set first if needed. */
  function WithClaim(c: Claims, site: SiteKey, path: string): Claims {
    c[site := PathsOf(c, site) + {path}]
  }

  /** The claim map after `clearMap(site)`. */
  function WithoutSite(c: Claims, site: SiteKey): Claims {
    c - {site}
  }

  /** The claim map after `removeFromMap(page)`. */
  function WithoutPath(c: Claims, site: SiteKey, path: string): Claims {
    if site in c then c[site := c[site] - {path}] else c
  }

  /** After a claim the path is claimed, the site has a set, and no other pair changed. */
  lemma ClaimEffect(c: Claims, site: SiteKey, path: string)
    ensures site in WithClaim(c, site, path)
    ensures forall s, p :: Claimed(WithClaim(c, site, path), s, p) <==> Claimed(c, s, p) || (s == site && p == path)
  {
  }

  /** Claiming a claimed path changes nothing. */
  lemma ClaimIdempotent(c: Claims, site: SiteKey, path: string)
    requires Claimed(c, site, path)
    ensures WithClaim(c, site, path) == c
  {
    assert PathsOf(c, site) + {path} == c[site];
  }

  /** After `clearMap(site)` none of that site's paths is claimed; other sites keep theirs. */
  lemma ClearEffect(c: Claims, site: SiteKey)
    ensures forall s, p :: Claimed(WithoutSite(c, site), s, p) <==> Claimed(c, s, p) && s != site
  {
  }

  /** After `removeFromMap(page)` only that (site, path) pair is released. */
  lemma UnclaimEffect(c: Claims, site: SiteKey, path: string)
    ensures forall s, p :: Claimed(WithoutPath(c, site, path), s, p) <==> Claimed(c, s, p) && !(s == site && p == path)
  {
  }

  class PageRepository {
    /** `sitePaths`. */
    var sitePaths: Claims

    constructor ()
      ensures sitePaths == map[]
    {
      sitePaths := map[];
    }

    /** `isPageSaved(path, site)`. */
    function IsPageSaved(path: string, site: SiteKey): bool
      reads this
    {
      Claimed(sitePaths, site, path)
    }

    /**
     * `savePage`: claims the page's path for its site, and only when the
     * path was not yet claimed attempts the write, whose outcome `stored` is
     * the id the database gave the row, or `None` when the write threw. The
     * claim stays in place even when the write fails.
     */
    method SavePage(page: Page, stored: Option<int>) returns (saved: Option<Page>)
      modifies this
      ensures sitePaths == WithClaim(old(sitePaths), page.site, page.path)
      ensures saved == if Claimed(old(sitePaths), page.site, page.path) then None
                       else if stored.None? then None
                       else Some(page.(id := stored.value))
    {
      var paths: set<string>;
      if page.site in sitePaths {
        paths := sitePaths[page.site];
      } else {
        paths := {};
        sitePaths := sitePaths[page.site := paths];
      }
      var added := page.path !in paths;
      sitePaths := sitePaths[page.site := paths + {page.path}];
      if added && stored.Some? {
        return Some(page.(id := stored.value));
      }
      return None;
    }

    /** `clearMap(site)`. */
    method ClearMap(site: SiteKey)
      modifies this
      ensures sitePaths == WithoutSite(old(sitePaths), site)
    {
      sitePaths := sitePaths - {site};
    }

    /** `removeFromMap(page)`. */
    method RemoveFromMap(page: Page)
      modifies this
      ensures sitePaths == WithoutPath(old(sitePaths), page.site, page.path)
    {
      if page.site in sitePaths {
        sitePaths := sitePaths[page.site := sitePaths[page.site] - {page.path}];
      }
    }
  }

  /** Two saves of one page: the second writes nothing and leaves the claims as they were. */
  method SaveTwice(repo: PageRepository, page: Page, first: Option<int>, second: Option<int>)
    returns (a: Option<Page>, b: Option<Page>)
    modifies repo
    ensures b == None
    ensures repo.sitePaths == WithClaim(old(repo.sitePaths), page.site, page.path)
    ensures repo.IsPageSaved(page.path, page.site)
  {
    a := repo.SavePage(page, first);
    ghost var after := repo.sitePaths;
    b := repo.SavePage(page, second);
    ClaimIdempotent(after, page.site, page.path);
  }
}
