/**
 * The persistent entities `Site`, `Page`, `Lemma` and `Index`, with the
 * equality each one declares. A reference from one entity to another is
 * kept as what the database compares it by: a page or lemma knows its
 * site's identity, a posting knows the ids of its page and its lemma.
 */
module Entities {
  import opened Wrappers

  /** The `status` column: ENUM('INDEXING', 'INDEXED', 'FAILED'). */
  datatype SiteStatus = INDEXING | INDEXED | FAILED

  /** A `LocalDateTime`; the model never looks inside one. */
  type Time = int

  /** The fields `Site.equals` and `Site.hashCode` look at. */
  datatype SiteKey = SiteKey(id: int, url: string, name: string)

  /** A site row; `lastError` is the only nullable column. */
  datatype Site = Site(id: int, status: SiteStatus, statusTime: Time, lastError: Option<string>,
                       url: string, name: string)
  {
    function Key(): SiteKey {
      SiteKey(id, url, name)
    }
  }

  /** `Site.equals`: status, statusTime, lastError and pages are excluded. */
  predicate SameSite(a: Site, b: Site) {
    a.Key() == b.Key()
  }

  /** A status change leaves a site equal to itself, so it stays the same map key. */
  lemma StatusChangeKeepsIdentity(s: Site, status: SiteStatus, time: Time, err: Option<string>)
    ensures SameSite(s, s.(status := status, statusTime := time, lastError := err))
    ensures s.(status := status, statusTime := time, lastError := err).Key() == s.Key()
  {
  }

  /** `status.toString()`. */
  function StatusName(s: SiteStatus): (r: string)
    ensures r in {"INDEXING", "INDEXED", "FAILED"}
  {
    match s
    case INDEXING => "INDEXING"
    case INDEXED => "INDEXED"
    case FAILED => "FAILED"
  }

  /** A page row: unique per (path, site id). */
  datatype Page = Page(id: int, site: SiteKey, path: string, code: int, content: string)

  /** `Page.equals` (Lombok, `exclude = {"content"}`). */
  predicate SamePage(a: Page, b: Page) {
    a.id == b.id && a.site == b.site && a.path == b.path && a.code == b.code
  }

  /** Two pages that differ only in content are equal. */
  lemma PageEqualityIgnoresContent(p: Page, content: string)
    ensures SamePage(p, p.(content := content))
  {
  }

  /** A lemma row (`form` is the `lemma` column): unique per (form, site id). */
  datatype Lemma = Lemma(id: int, site: SiteKey, form: string, frequency: int)

  /** `Lemma.equals`: id, site and form; never frequency or postings. */
  predicate SameLemma(a: Lemma, b: Lemma) {
    a.id == b.id && a.site == b.site && a.form == b.form
  }

  /** Changing a lemma's frequency does not change what it is equal to. */
  lemma LemmaEqualityIgnoresFrequency(l: Lemma, m: Lemma, f: int)
    ensures SameLemma(l, m) <==> SameLemma(l.(frequency := f), m)
  {
  }

  /** An `Index` row (a posting): a page, a lemma and an integer rank. */
  datatype Index = Index(id: int, pageId: int, lemmaId: int, rank: int)

  /** An `Index` object; `owner` is its `lemma` back-reference. */
  class IndexObject {
    var owner: LemmaObject?
    const row: Index

    constructor (row: Index)
      ensures this.row == row && owner == null
    {
      this.row := row;
      owner := null;
    }
  }

  /** A `Lemma` object with its list of postings (`indexes`). */
  class LemmaObject {
    var row: Lemma
    var indexes: seq<IndexObject>

    constructor (row: Lemma)
      ensures this.row == row && indexes == []
    {
      this.row := row;
      indexes := [];
    }

    /** `addIndex`: appends the posting and points its back-reference here. */
    method AddIndex(index: IndexObject)
      modifies this, index
      ensures indexes == old(indexes) + [index]
      ensures index.owner == this
      ensures row == old(row)
    {
      indexes := indexes + [index];
      index.owner := this;
    }
  }
}
