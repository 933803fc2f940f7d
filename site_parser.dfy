/**
 * `SiteParser`: one crawl unit. It fetches one path of one site, classifies
 * the outcome, stores the page, builds the lemma and posting records of the
 * page, and returns the paths of the child units to run next.
 *
 * The fetch is a parameter (`FetchOutcome`); so are the database's answer to
 * each page write, the `indexingStarted` flag and the clock.
 */
module SiteParser {
  import opened Wrappers
  import opened Text
  import opened Entities
  import opened Morphology
  import PR = PageRepository
  import L = Lemmatizer
  import Store
  import DS = DataSaver

  /** What a successful fetch yields: the response status and content type
   *  (absent when the response has no `Content-Type` header), the `href` of
   *  every `a` element, the body text and the whole markup. */
  datatype Document = Document(statusCode: int, contentType: Option<string>, hrefs: seq<string>,
                               text: string, html: string)

  /** How one fetch ends. */
  datatype FetchOutcome =
    | Fetched(doc: Document)
    | HttpError(code: int)
    | UnknownHost
    | Timeout
    | OtherIoError

  const AuthRequired := "Ошибка индексации: требуется авторизация"
  const WrongHost := "Ошибка подключиня: указан не верный хост"
  const RootUnavailable := "Ошибка индексации: главная страница сайта не доступна"
  const PageUnavailable := "Ошибка индексации: страница не доступна"
  const DefaultContent := "<Default Content>"

  /** `isCorrectPath`: a site-relative link or a link into the site. */
  predicate IsCorrectPath(href: string, url: string) {
    StartsWith(href, "/") || StartsWith(href, url)
  }

  /** The child path of an accepted link: absolute links lose every occurrence of the site url. */
  function ChildPath(href: string, url: string): string {
    if StartsWith(href, "http") then RemoveAll(href, url) else href
  }

  /** The child paths `compute` collects from `hrefs`, in document order. */
  function Children(hrefs: seq<string>, url: string, site: SiteKey, claims: PR.Claims): (r: seq<string>)
    ensures |r| <= |hrefs|
  {
    if hrefs == [] then []
    else
      var h := hrefs[|hrefs| - 1];
      var p := ChildPath(h, url);
      Children(hrefs[..|hrefs| - 1], url, site, claims)
        + (if IsCorrectPath(h, url) && !PR.Claimed(claims, site, p) then [p] else [])
  }

  /** A path is a child exactly when some accepted link yields it and it is not claimed yet. */
  lemma {:induction false} ChildrenExact(hrefs: seq<string>, url: string, site: SiteKey, claims: PR.Claims)
    ensures forall p :: p in Children(hrefs, url, site, claims) <==>
      exists h | h in hrefs :: IsCorrectPath(h, url) && p == ChildPath(h, url) && !PR.Claimed(claims, site, p)
  {
    if hrefs != [] {
      var n := |hrefs| - 1;
      ChildrenExact(hrefs[..n], url, site, claims);
      assert hrefs == hrefs[..n] + [hrefs[n]];
    }
  }

  /** An absolute link `url + rest` whose tail does not contain the url again becomes `rest`. */
  lemma AbsoluteLinkBecomesRelative(url: string, rest: string)
    requires StartsWith(url, "http") && !Contains(rest, url)
    ensures IsCorrectPath(url + rest, url)
    ensures ChildPath(url + rest, url) == rest
  {
    var href := url + rest;
    assert href[..|url|] == url;
    assert href[..4] == url[..4];
    RemoveAllLeading(href, url);
    assert href[|url|..] == rest;
    RemoveAllAbsent(rest, url);
  }

  /** The stored path: an empty path is stored as "/". */
  function StoredPath(path: string): (r: string)
    ensures r != []
    ensures path != [] ==> r == path
  {
    if |path| > 0 then path else "/"
  }

  /** The stored content: the markup of the last document, or the default content. */
  function Content(document: Option<Document>): string {
    if document.None? then DefaultContent else document.value.html
  }

  /** `siteRepository.update(site, FAILED, msg)` as seen on the shared site object. */
  function Fail(s: Site, msg: string, now: Time): (r: Site)
    ensures r.Key() == s.Key() && r.status == FAILED && r.lastError == Some(msg)
  {
    s.(status := FAILED, lastError := Some(msg), statusTime := now)
  }

  /** The state one crawl unit reads and changes: its site, its document,
   *  whether it has completed exceptionally, and the shared claim map. */
  datatype Unit = Unit(site: Site, document: Option<Document>, abnormal: bool, claims: PR.Claims)

  /** `savePage(code)`: what it changes and the page it returns. */
  function SaveStep(u: Unit, path: string, code: int, started: bool, stored: Option<int>, now: Time)
    : (r: (Unit, Option<Page>))
    ensures r.0.claims == PR.WithClaim(u.claims, u.site.Key(), StoredPath(path))
    ensures PR.Claimed(r.0.claims, u.site.Key(), StoredPath(path))
    ensures r.1.Some? <==> !PR.Claimed(u.claims, u.site.Key(), StoredPath(path)) && stored.Some?
    ensures r.1.Some? ==> r.1.value == Page(stored.value, u.site.Key(), StoredPath(path), code, Content(u.document))
    ensures r.1.Some? ==> r.0.site.status == (if started then INDEXING else u.site.status)
    ensures r.1.None? ==> r.0.site == u.site
    ensures r.0.site.Key() == u.site.Key() && r.0.site.lastError == u.site.lastError
    ensures r.0.document == u.document && r.0.abnormal == u.abnormal
  {
    var key := u.site.Key();
    var page := Page(0, key, StoredPath(path), code, Content(u.document));
    var saved := if PR.Claimed(u.claims, key, page.path) || stored.None? then None
                 else Some(page.(id := stored.value));
    var site := if saved.Some? then u.site.(status := if started then INDEXING else u.site.status, statusTime := now)
                else u.site;
    (u.(claims := PR.WithClaim(u.claims, key, page.path), site := site), saved)
  }

  /** The fetch succeeded but the response has no content type: `requireNonNull` throws in `connect()`. */
  predicate ContentTypeMissing(fetch: FetchOutcome) {
    fetch.Fetched? && fetch.doc.contentType.None?
  }

  /** The content type names a text format. */
  predicate IsText(d: Document) {
    d.contentType.Some? && Contains(ToLower(d.contentType.value), "text")
  }

  /**
   * `connect()`: the new state and whether the page is worth indexing. When
   * `ContentTypeMissing(fetch)` the call throws after storing the document;
   * the boolean is then false and the caller sees the exception.
   */
  function ConnectStep(u: Unit, path: string, fetch: FetchOutcome, started: bool, stored: Option<int>, now: Time)
    : (r: (Unit, bool))
    ensures r.0.site.Key() == u.site.Key()
    ensures r.1 <==> fetch.Fetched? && IsText(fetch.doc)
    ensures fetch.Fetched? ==> r.0 == u.(document := Some(fetch.doc))
    ensures !fetch.Fetched? ==> r.0.document == u.document
    ensures r.0.abnormal <==> u.abnormal || fetch.UnknownHost? || (fetch.HttpError? && fetch.code == 403 && path == [])
    ensures fetch.HttpError? ==> r.0.claims == PR.WithClaim(u.claims, u.site.Key(), StoredPath(path))
    ensures !fetch.HttpError? ==> r.0.claims == u.claims
    ensures fetch.HttpError? && fetch.code == 403 && path == [] ==> r.0.site.lastError == Some(AuthRequired)
    ensures fetch.HttpError? && !(fetch.code == 403 && path == []) ==> r.0.site.lastError == u.site.lastError
    ensures fetch.UnknownHost? ==> r.0.site == Fail(u.site, WrongHost, now)
    ensures fetch.Timeout? ==> r.0.site == Fail(u.site, if path == [] then RootUnavailable else PageUnavailable, now)
    ensures fetch.OtherIoError? ==> r.0 == u
  {
    var uri := u.site.url + path;
    assert uri == u.site.url <==> path == [] by {
      if uri == u.site.url { assert |uri| == |u.site.url| + |path|; }
    }
    match fetch
    case Fetched(d) => (u.(document := Some(d)), d.contentType.Some? && Contains(ToLower(d.contentType.value), "text"))
    case HttpError(code) =>
      var u1 := if code == 403 && u.site.url == uri then u.(site := Fail(u.site, AuthRequired, now), abnormal := true)
                else u;
      (SaveStep(u1, path, code, started, stored, now).0, false)
    case UnknownHost => (u.(site := Fail(u.site, WrongHost, now), abnormal := true), false)
    case Timeout =>
      (u.(site := Fail(u.site, if uri == u.site.url then RootUnavailable else PageUnavailable, now)), false)
    case OtherIoError => (u, false)
  }

  /** How `indexPage` ends, before any lemma record is built. */
  datatype Verdict =
    | Skipped                              // the fetch failed and indexing is not running
    | NoContentType                        // the fetch has no content type: `connect()` throws
    | NoDocument                           // no document was ever fetched: the status read throws
    | Unsaved                              // the page was claimed already or its write failed
    | Saved(page: Page, text: string)      // the page is stored; `text` is what gets lemmatised

  /** `indexPage()` up to its lemma loop: a second fetch, then a page save. */
  function IndexStep(u: Unit, path: string, fetch: FetchOutcome, started: bool,
                     connectWrite: Option<int>, pageWrite: Option<int>, now: Time): (r: (Unit, Verdict))
    ensures r.0.site.Key() == u.site.Key()
    ensures u.document.Some? ==> r.0.document.Some?
    ensures r.1.NoContentType? <==> ContentTypeMissing(fetch)
    ensures r.1.Skipped? <==> !ConnectStep(u, path, fetch, started, connectWrite, now).1 && !started
                              && !ContentTypeMissing(fetch)
    ensures r.1.Saved? ==> r.1.page.site == u.site.Key() && r.1.page.path == StoredPath(path)
    ensures r.1.Saved? ==> PR.Claimed(r.0.claims, u.site.Key(), StoredPath(path))
    ensures r.1.Saved? ==> !PR.Claimed(u.claims, u.site.Key(), StoredPath(path)) && !fetch.HttpError?
  {
    var (u1, ok) := ConnectStep(u, path, fetch, started, connectWrite, now);
    if ContentTypeMissing(fetch) then (u1, NoContentType)
    else if !ok && !started then (u1, Skipped)
    else if u1.document.None? then (u1, NoDocument)
    else
      var (u2, saved) := SaveStep(u1, path, u1.document.value.statusCode, started, pageWrite, now);
      if saved.None? then (u2, Unsaved) else (u2, Saved(saved.value, u1.document.value.text))
  }

  /** One lemma row (frequency 1) and the rank of the posting that goes with it. */
  datatype LemmaRecord = LemmaRecord(row: Lemma, rank: int)

  /**
   * `records` holds one record per lemma of `done` and no other: each record is a
   * lemma row of the site with frequency 1 whose rank is the lemma's count, and no
   * two records share a lemma.
   */
  predicate PartialRecords(records: seq<LemmaRecord>, counts: map<string, int>, done: set<string>, site: SiteKey) {
    |records| == |done| && done <= counts.Keys
    && (forall i | 0 <= i < |records| ::
          records[i].row == Lemma(0, site, records[i].row.form, 1)
          && records[i].row.form in done && records[i].rank == counts[records[i].row.form])
    && (forall i, j | 0 <= i < j < |records| :: records[i].row.form != records[j].row.form)
    && (forall l | l in done :: exists i | 0 <= i < |records| :: records[i].row.form == l)
  }

  /** One record per counted lemma, each with frequency 1 and rank equal to the lemma's count. */
  predicate RecordsFor(records: seq<LemmaRecord>, counts: map<string, int>, site: SiteKey) {
    PartialRecords(records, counts, counts.Keys, site)
  }

  /** One more lemma key, one more record. */
  lemma PartialRecordsStep(records: seq<LemmaRecord>, counts: map<string, int>, done: set<string>, site: SiteKey,
                           l: string)
    requires PartialRecords(records, counts, done, site) && l in counts && l !in done
    ensures PartialRecords(records + [LemmaRecord(Lemma(0, site, l, 1), counts[l])], counts, done + {l}, site)
  {
    var next := records + [LemmaRecord(Lemma(0, site, l, 1), counts[l])];
    forall m | m in done + {l} ensures exists i | 0 <= i < |next| :: next[i].row.form == m {
      if m == l {
        assert next[|records|].row.form == m;
      } else {
        var i :| 0 <= i < |records| && records[i].row.form == m;
        assert next[i].row.form == m;
      }
    }
  }

  /** The loop over `lemmas.keySet()`, in whatever order the map yields its keys. */
  method BuildRecords(counts: map<string, int>, site: SiteKey) returns (records: seq<LemmaRecord>)
    ensures RecordsFor(records, counts, site)
  {
    var keys := counts.Keys;
    ghost var done: set<string> := {};
    records := [];
    while keys != {}
      invariant keys !! done && keys + done == counts.Keys
      invariant PartialRecords(records, counts, done, site)
      decreases keys
    {
      var l :| l in keys;
      PartialRecordsStep(records, counts, done, site, l);
      records := records + [LemmaRecord(Lemma(0, site, l, 1), counts[l])];
      keys := keys - {l};
      done := done + {l};
    }
  }

  /** The lemma upserts of the records, each carrying the one posting `indexPage` saves after it. */
  function CandidatesOf(records: seq<LemmaRecord>): (r: seq<Store.Candidate>)
    ensures |r| == |records|
    ensures forall k | 0 <= k < |r| :: r[k] == Store.Candidate(records[k].row, [records[k].rank])
  {
    seq(|records|, k requires 0 <= k < |records| => Store.Candidate(records[k].row, [records[k].rank]))
  }

  /** The result of `indexPage()`; `Raised` stands for the exception it throws. */
  datatype IndexOutcome = NotIndexed | Raised | Indexed(page: Page, records: seq<LemmaRecord>)

  class SiteParser {
    const path: string
    const uri: string
    /** The site object shared by every unit of one crawl. */
    var site: Site
    var document: Option<Document>
    /** Set by `completeExceptionally`. */
    var abnormal: bool
    const repo: PR.PageRepository
    /** The tables behind `lemmaRepository` and `indexRepository`. */
    const db: Store.Database
    const morph: Oracle

    ghost predicate Valid()
      reads this
    {
      uri == site.url + path
    }

    function State(): Unit
      reads this, repo
    {
      Unit(site, document, abnormal, repo.sitePaths)
    }

    constructor (path: string, site: Site, repo: PR.PageRepository, db: Store.Database, morph: Oracle)
      ensures Valid()
      ensures this.path == path && this.site == site && document == None && !abnormal
      ensures this.repo == repo && this.db == db && this.morph == morph
    {
      this.path := path;
      this.site := site;
      this.repo := repo;
      this.db := db;
      this.morph := morph;
      uri := site.url + path;
      document := None;
      abnormal := false;
    }

    /** `savePage(statusCode)`. */
    method SavePage(code: int, started: bool, stored: Option<int>, now: Time) returns (saved: Option<Page>)
      requires Valid()
      modifies this, repo
      ensures Valid()
      ensures (State(), saved) == SaveStep(old(State()), path, code, started, stored, now)
    {
      var page := Page(0, site.Key(), if |path| > 0 then path else "/", code,
                       if document.None? then DefaultContent else document.value.html);
      saved := repo.SavePage(page, stored);
      if saved.Some? {
        site := site.(status := if started then INDEXING else site.status, statusTime := now);
      }
    }

    /** `connect()`. */
    method Connect(fetch: FetchOutcome, started: bool, stored: Option<int>, now: Time) returns (ok: bool)
      requires Valid()
      modifies this, repo
      ensures Valid()
      ensures (State(), ok) == ConnectStep(old(State()), path, fetch, started, stored, now)
    {
      match fetch {
        case Fetched(d) =>
          document := Some(d);
          ok := d.contentType.Some? && Contains(ToLower(d.contentType.value), "text");
        case HttpError(code) =>
          if code == 403 && site.url == uri {
            site := site.(status := FAILED, lastError := Some(AuthRequired), statusTime := now);
            abnormal := true;
          }
          var saved := SavePage(code, started, stored, now);
          ok := false;
        case UnknownHost =>
          site := site.(status := FAILED, lastError := Some(WrongHost), statusTime := now);
          abnormal := true;
          ok := false;
        case Timeout =>
          var msg := if uri == site.url then RootUnavailable else PageUnavailable;
          site := site.(status := FAILED, lastError := Some(msg), statusTime := now);
          ok := false;
        case OtherIoError =>
          ok := false;
      }
    }

    /** `indexPage()`: the lemma rows and postings of a saved page go to `db`, nothing else does. */
    method IndexPage(fetch: FetchOutcome, started: bool, connectWrite: Option<int>, pageWrite: Option<int>, now: Time)
      returns (r: IndexOutcome)
      requires Valid() && WellFormed(morph)
      modifies this, repo, db
      ensures Valid()
      ensures var (u, v) := IndexStep(old(State()), path, fetch, started, connectWrite, pageWrite, now);
              State() == u
              && (v.Skipped? || v.Unsaved? <==> r == NotIndexed)
              && (v.NoContentType? || v.NoDocument? <==> r == Raised)
              && (v.Saved? ==> r.Indexed? && r.page == v.page
                               && RecordsFor(r.records, Tally(map[], KeptLemmas(Words(v.text), morph)), site.Key()))
      ensures r.Indexed? ==> db.State() == DS.SaveCandidates(old(db.State()), CandidatesOf(r.records), r.page.id)
      ensures !r.Indexed? ==> db.State() == old(db.State())
    {
      var ok := Connect(fetch, started, connectWrite, now);
      if ContentTypeMissing(fetch) {
        return Raised;
      }
      if !ok && !started {
        return NotIndexed;
      }
      if document.None? {
        return Raised;
      }
      var page := SavePage(document.value.statusCode, started, pageWrite, now);
      if page.None? {
        return NotIndexed;
      }
      var records := Record(document.value.text, page.value.id);
      return Indexed(page.value, records);
    }

    /** The lemmas of the page text, one record per lemma, written to `db` for the page. */
    method Record(text: string, pageId: int) returns (records: seq<LemmaRecord>)
      requires WellFormed(morph)
      modifies db
      ensures RecordsFor(records, Tally(map[], KeptLemmas(Words(text), morph)), site.Key())
      ensures db.State() == DS.SaveCandidates(old(db.State()), CandidatesOf(records), pageId)
    {
      var lemmatizer := new L.Lemmatizer(morph);
      var counts := lemmatizer.Lemmatize(text);
      records := BuildRecords(counts, site.Key());
      SaveRecords(records, pageId);
    }

    /** The loop of `indexPage`: per record, `lemmaRepository.save` (the upsert) and then
     *  `indexRepository.save` of one posting on the page pointing at that lemma row. */
    method SaveRecords(records: seq<LemmaRecord>, pageId: int)
      modifies db
      ensures db.State() == DS.SaveCandidates(old(db.State()), CandidatesOf(records), pageId)
    {
      ghost var start := db.State();
      var i := 0;
      while i < |records|
        invariant 0 <= i <= |records|
        invariant db.State() == DS.SaveCandidates(start, CandidatesOf(records[..i]), pageId)
      {
        var c := Store.Candidate(records[i].row, [records[i].rank]);
        assert CandidatesOf(records[..i + 1])[..i] == CandidatesOf(records[..i]);
        assert CandidatesOf(records[..i + 1])[i] == c;
        db.SaveLemma(c, pageId);
        i := i + 1;
      }
      assert records[..i] == records;
    }

    /** The link loop of `compute()`: the child paths, read against the current claims. */
    method Links(hrefs: seq<string>) returns (children: seq<string>)
      ensures children == Children(hrefs, site.url, site.Key(), repo.sitePaths)
    {
      children := [];
      var i := 0;
      while i < |hrefs|
        invariant 0 <= i <= |hrefs|
        invariant children == Children(hrefs[..i], site.url, site.Key(), repo.sitePaths)
      {
        var href := hrefs[i];
        assert hrefs[..i + 1][..i] == hrefs[..i];
        if IsCorrectPath(href, site.url) {
          if StartsWith(href, "http") {
            href := RemoveAll(href, site.url);
          }
          if !repo.IsPageSaved(href, site.Key()) {
            children := children + [href];
          }
        }
        i := i + 1;
      }
      assert hrefs[..i] == hrefs;
    }

    /**
     * `compute()`: nothing happens unless indexing runs and the path is
     * unclaimed and the first fetch is accepted; then the page is indexed
     * (a second fetch) and the child paths of the last document's links
     * are returned, the document being dropped. An exception from either
     * fetch leaves `compute()` at once and completes the unit abnormally.
     */
    method Compute(first: FetchOutcome, second: FetchOutcome, started: bool,
                   firstWrite: Option<int>, connectWrite: Option<int>, pageWrite: Option<int>, now: Time)
      returns (children: seq<string>)
      requires Valid() && WellFormed(morph)
      modifies this, repo, db
      ensures Valid()
      ensures !started || PR.Claimed(old(repo.sitePaths), old(site).Key(), path) ==>
                children == [] && State() == old(State()) && db.State() == old(db.State())
      ensures started && !PR.Claimed(old(repo.sitePaths), old(site).Key(), path) ==>
                var (u1, ok) := ConnectStep(old(State()), path, first, started, firstWrite, now);
                if ContentTypeMissing(first) then
                  children == [] && State() == u1.(abnormal := true) && db.State() == old(db.State())
                else if !ok then children == [] && State() == u1 && db.State() == old(db.State())
                else
                  var (u2, v) := IndexStep(u1, path, second, started, connectWrite, pageWrite, now);
                  (v.Saved? ==>
                     exists records | RecordsFor(records, Tally(map[], KeptLemmas(Words(v.text), morph)), u2.site.Key()) ::
                       db.State() == DS.SaveCandidates(old(db.State()), CandidatesOf(records), v.page.id))
                  && (!v.Saved? ==> db.State() == old(db.State()))
                  && if v.NoContentType? then children == [] && State() == u2.(abnormal := true)
                     else State() == u2.(document := None)
                          && children == Children(u2.document.value.hrefs, site.url, site.Key(), u2.claims)
    {
      if !started || repo.IsPageSaved(path, site.Key()) {
        return [];
      }
      var ok := Connect(first, started, firstWrite, now);
      if ContentTypeMissing(first) {
        abnormal := true;
        return [];
      }
      if !ok {
        return [];
      }
      var outcome := IndexPage(second, started, connectWrite, pageWrite, now);
      if outcome.Raised? {
        abnormal := true;
        return [];
      }
      var hrefs := document.value.hrefs;
      document := None;
      children := Links(hrefs);
    }
  }

  /**
   * A unit whose path is empty, so that its uri is the site url itself (a reindex of the bare
   * base url, or an absolute link to it), ends abnormally with the authorisation error on a 403.
   */
  lemma RootForbiddenFailsSite(u: Unit, started: bool, stored: Option<int>, now: Time)
    ensures var r := ConnectStep(u, "", HttpError(403), started, stored, now);
            r.0.abnormal && r.0.site.lastError == Some(AuthRequired) && !r.1
  {
  }

  /** Any other unit answering 403 only stores the status page: the site is not failed. */
  lemma InnerForbiddenKeepsSite(u: Unit, path: string, started: bool, stored: Option<int>, now: Time)
    requires path != []
    ensures var r := ConnectStep(u, path, HttpError(403), started, stored, now);
            r.0.abnormal == u.abnormal && r.0.site.lastError == u.site.lastError && !r.1
  {
  }

  /**
   * The unit a crawl starts from has the path "/", so its uri is the site url followed by "/"
   * and never equals the site url: a 403 on the front page stores the status page without
   * failing the site, and a timeout there records the inner-page message.
   */
  lemma CrawlRootIsInnerPage(u: Unit, started: bool, stored: Option<int>, now: Time)
    ensures var r := ConnectStep(u, "/", HttpError(403), started, stored, now);
            r.0.abnormal == u.abnormal && r.0.site.lastError == u.site.lastError
    ensures ConnectStep(u, "/", Timeout, started, stored, now).0.site == Fail(u.site, PageUnavailable, now)
  {
    InnerForbiddenKeepsSite(u, "/", started, stored, now);
  }
}
