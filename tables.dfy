/**
 * The four tables `site`, `page`, `lemma` and `index` as sequences of rows,
 * and one function per query the repository interfaces declare. A
 * comparison of an entity parameter (`p.site = :site`) compares ids.
 */
module Tables {
  import opened Wrappers
  import opened Entities

  /** The rows of `s` that `keep` accepts, in their original order. */
  function Filter<T(!new)>(s: seq<T>, keep: T -> bool): (r: seq<T>)
    ensures |r| <= |s|
    ensures forall x :: x in r <==> x in s && keep(x)
  {
    if s == [] then [] else (if keep(s[0]) then [s[0]] else []) + Filter(s[1..], keep)
  }

  /** Filtering a concatenation filters each part. */
  lemma {:induction false} FilterAppend<T(!new)>(a: seq<T>, b: seq<T>, keep: T -> bool)
    ensures Filter(a + b, keep) == Filter(a, keep) + Filter(b, keep)
  {
    if a != [] {
      assert (a + b)[0] == a[0];
      assert (a + b)[1..] == a[1..] + b;
      FilterAppend(a[1..], b, keep);
      var head := if keep(a[0]) then [a[0]] else [];
      calc {
        Filter(a + b, keep);
        head + Filter(a[1..] + b, keep);
        head + (Filter(a[1..], keep) + Filter(b, keep));
        (head + Filter(a[1..], keep)) + Filter(b, keep);
      }
    } else {
      assert a + b == b;
    }
  }

  /** A filter that accepts no row leaves nothing. */
  lemma {:induction false} FilterDropsAll<T(!new)>(s: seq<T>, keep: T -> bool)
    requires forall x | x in s :: !keep(x)
    ensures Filter(s, keep) == []
  {
    if s != [] {
      FilterDropsAll(s[1..], keep);
    }
  }

  /** A filter that accepts every row changes nothing. */
  lemma {:induction false} FilterKeepsAll<T(!new)>(s: seq<T>, keep: T -> bool)
    requires forall x | x in s :: keep(x)
    ensures Filter(s, keep) == s
  {
    if s != [] {
      FilterKeepsAll(s[1..], keep);
      assert s == [s[0]] + s[1..];
    }
  }

  /** Two rows with the same tag are the same row: the table's ids are unique. */
  predicate UniqueLemmaIds(lemmas: seq<Lemma>) {
    forall i, j | 0 <= i < j < |lemmas| :: lemmas[i].id != lemmas[j].id
  }

  // ----- page -----

  predicate PageAt(p: Page, path: string, siteId: int) {
    p.path == path && p.site.id == siteId
  }

  predicate HasPage(pages: seq<Page>, path: string, siteId: int) {
    exists p | p in pages :: PageAt(p, path, siteId)
  }

  /** The unique key (path, site_id) of the page table. */
  predicate UniquePages(pages: seq<Page>) {
    forall i, j | 0 <= i < j < |pages| :: !PageAt(pages[j], pages[i].path, pages[i].site.id)
  }

  /** `findByPathAndSite`. */
  function FindPage(pages: seq<Page>, path: string, siteId: int): (r: Option<Page>)
    ensures r.Some? <==> HasPage(pages, path, siteId)
    ensures r.Some? ==> r.value in pages && PageAt(r.value, path, siteId)
  {
    if pages == [] then None
    else if PageAt(pages[0], path, siteId) then Some(pages[0])
    else FindPage(pages[1..], path, siteId)
  }

  /** The page insert (`insert ignore`): a row whose key exists already is dropped. */
  function InsertIgnorePage(pages: seq<Page>, p: Page): seq<Page> {
    if HasPage(pages, p.path, p.site.id) then pages else pages + [p]
  }

  /** The insert keeps the key unique, keeps every row, and afterwards the key is present. */
  lemma InsertIgnorePageKeepsKey(pages: seq<Page>, p: Page)
    requires UniquePages(pages)
    ensures UniquePages(InsertIgnorePage(pages, p))
    ensures HasPage(InsertIgnorePage(pages, p), p.path, p.site.id)
    ensures forall q | q in pages :: q in InsertIgnorePage(pages, p)
    ensures HasPage(pages, p.path, p.site.id) ==> InsertIgnorePage(pages, p) == pages
  {
    var r := InsertIgnorePage(pages, p);
    if !HasPage(pages, p.path, p.site.id) {
      assert r[|pages|] == p;
      assert p in r && PageAt(p, p.path, p.site.id);
      forall i, j | 0 <= i < j < |r| ensures !PageAt(r[j], r[i].path, r[i].site.id) {
        if j == |pages| {
          assert r[i] in pages;
        }
      }
    }
  }

  /** `PageRepositoryInterface.removeAllBySite`. */
  function RemovePagesBySite(pages: seq<Page>, siteId: int): (r: seq<Page>)
    ensures forall p :: p in r <==> p in pages && p.site.id != siteId
  {
    Filter(pages, (p: Page) => p.site.id != siteId)
  }

  /** `removeByPathAndSite`. */
  function RemovePage(pages: seq<Page>, path: string, siteId: int): (r: seq<Page>)
    ensures forall p :: p in r <==> p in pages && !PageAt(p, path, siteId)
    ensures !HasPage(r, path, siteId)
  {
    Filter(pages, (p: Page) => !PageAt(p, path, siteId))
  }

  /** `PageRepositoryInterface.countBySite`. */
  function CountPagesBySite(pages: seq<Page>, siteId: int): nat {
    |Filter(pages, (p: Page) => p.site.id == siteId)|
  }

  /** A site has no pages left after `removeAllBySite`, and the others keep theirs. */
  lemma RemovePagesBySiteCounts(pages: seq<Page>, siteId: int, other: int)
    requires other != siteId
    ensures CountPagesBySite(RemovePagesBySite(pages, siteId), siteId) == 0
    ensures CountPagesBySite(RemovePagesBySite(pages, siteId), other) == CountPagesBySite(pages, other)
  {
    var r := RemovePagesBySite(pages, siteId);
    FilterDropsAll(r, (p: Page) => p.site.id == siteId);
    assert Filter(r, (p: Page) => p.site.id == other) == Filter(pages, (p: Page) => p.site.id == other) by {
      FilterTwice(pages, (p: Page) => p.site.id != siteId, (p: Page) => p.site.id == other);
    }
  }

  /** Filtering by a test that implies the first filter's test undoes nothing the first one did. */
  lemma {:induction false} FilterTwice<T(!new)>(s: seq<T>, first: T -> bool, second: T -> bool)
    requires forall x | x in s && second(x) :: first(x)
    ensures Filter(Filter(s, first), second) == Filter(s, second)
  {
    if s != [] {
      FilterTwice(s[1..], first, second);
      var head := if first(s[0]) then [s[0]] else [];
      FilterAppend(head, Filter(s[1..], first), second);
    }
  }

  // ----- lemma -----

  predicate LemmaAt(l: Lemma, form: string, siteId: int) {
    l.form == form && l.site.id == siteId
  }

  /** The unique key (lemma, site_id) of the lemma table. */
  predicate UniqueLemmas(lemmas: seq<Lemma>) {
    forall i, j | 0 <= i < j < |lemmas| :: !LemmaAt(lemmas[j], lemmas[i].form, lemmas[i].site.id)
  }

  /** The row holding (form, site), if any. */
  function FindLemma(lemmas: seq<Lemma>, form: string, siteId: int): (r: Option<Lemma>)
    ensures r.Some? <==> exists l | l in lemmas :: LemmaAt(l, form, siteId)
    ensures r.Some? ==> r.value in lemmas && LemmaAt(r.value, form, siteId)
  {
    if lemmas == [] then None
    else if LemmaAt(lemmas[0], form, siteId) then Some(lemmas[0])
    else FindLemma(lemmas[1..], form, siteId)
  }

  /** `frequency = lemma.frequency + 1` on the row with the given id. */
  function Bump(lemmas: seq<Lemma>, id: int): (r: seq<Lemma>)
    ensures |r| == |lemmas|
    ensures forall i | 0 <= i < |r| :: r[i] == if lemmas[i].id == id then lemmas[i].(frequency := lemmas[i].frequency + 1) else lemmas[i]
  {
    seq(|lemmas|, i requires 0 <= i < |lemmas| =>
      if lemmas[i].id == id then lemmas[i].(frequency := lemmas[i].frequency + 1) else lemmas[i])
  }

  /** The lemma insert (`on duplicate key update frequency = lemma.frequency + 1`): the new
   *  lemmas and the id of the row that now holds the candidate's key. */
  function UpsertLemma(lemmas: seq<Lemma>, l: Lemma, newId: int): (r: (seq<Lemma>, int))
  {
    var found := FindLemma(lemmas, l.form, l.site.id);
    if found.Some? then (Bump(lemmas, found.value.id), found.value.id)
    else (lemmas + [l.(id := newId)], newId)
  }

  /** The frequency stored for (form, site), 0 for no row. */
  function FrequencyOf(lemmas: seq<Lemma>, form: string, siteId: int): int {
    var found := FindLemma(lemmas, form, siteId);
    if found.Some? then found.value.frequency else 0
  }

  /** Upserting a key that has a row adds one to that row's frequency and to no other key's. */
  lemma UpsertExisting(lemmas: seq<Lemma>, l: Lemma, newId: int, form: string, siteId: int)
    requires UniqueLemmas(lemmas) && UniqueLemmaIds(lemmas)
    requires FindLemma(lemmas, l.form, l.site.id).Some?
    ensures UniqueLemmas(UpsertLemma(lemmas, l, newId).0)
    ensures FrequencyOf(UpsertLemma(lemmas, l, newId).0, form, siteId)
            == FrequencyOf(lemmas, form, siteId) + (if LemmaAt(l, form, siteId) then 1 else 0)
  {
    var found := FindLemma(lemmas, l.form, l.site.id).value;
    var r := Bump(lemmas, found.id);
    FindInSameShape(lemmas, r, form, siteId);
    var q := FindLemma(lemmas, form, siteId);
    if q.Some? {
      var i :| 0 <= i < |lemmas| && q == Some(lemmas[i]) && FindLemma(r, form, siteId) == Some(r[i]);
      var k :| 0 <= k < |lemmas| && lemmas[k] == found;
      if LemmaAt(l, form, siteId) {
        assert i == k;
      } else {
        assert i != k;
      }
    }
  }

  /** Upserting a key that has no row appends it with its own frequency; other keys keep theirs. */
  lemma UpsertNew(lemmas: seq<Lemma>, l: Lemma, newId: int, form: string, siteId: int)
    requires UniqueLemmas(lemmas)
    requires FindLemma(lemmas, l.form, l.site.id).None?
    ensures UniqueLemmas(UpsertLemma(lemmas, l, newId).0)
    ensures FrequencyOf(UpsertLemma(lemmas, l, newId).0, form, siteId)
            == if LemmaAt(l, form, siteId) then l.frequency else FrequencyOf(lemmas, form, siteId)
  {
    var row := l.(id := newId);
    FindAppended(lemmas, row, form, siteId);
    var r := lemmas + [row];
    forall i, j | 0 <= i < j < |r| ensures !LemmaAt(r[j], r[i].form, r[i].site.id) {
      if j == |lemmas| {
        assert r[i] in lemmas;
      }
    }
  }

  /** A table whose rows keep their keys answers key lookups at the same positions. */
  lemma {:induction false} FindInSameShape(a: seq<Lemma>, b: seq<Lemma>, form: string, siteId: int)
    requires |a| == |b|
    requires forall i | 0 <= i < |a| :: b[i].form == a[i].form && b[i].site.id == a[i].site.id
    ensures FindLemma(b, form, siteId).Some? == FindLemma(a, form, siteId).Some?
    ensures FindLemma(a, form, siteId).Some? ==>
      exists i | 0 <= i < |a| :: FindLemma(a, form, siteId) == Some(a[i]) && FindLemma(b, form, siteId) == Some(b[i])
  {
    if a != [] {
      FindInSameShape(a[1..], b[1..], form, siteId);
      if !LemmaAt(a[0], form, siteId) && FindLemma(a, form, siteId).Some? {
        var i :| 0 <= i < |a[1..]| && FindLemma(a[1..], form, siteId) == Some(a[1..][i])
                 && FindLemma(b[1..], form, siteId) == Some(b[1..][i]);
        assert FindLemma(a, form, siteId) == Some(a[i + 1]);
      }
    }
  }

  /**
   * The increment works on the row that holds a key: the frequency stored for (form, site)
   * goes up by one exactly when that row has the id, and no key gains or loses a row.
   */
  lemma BumpFrequency(lemmas: seq<Lemma>, id: int, form: string, siteId: int)
    ensures FindLemma(Bump(lemmas, id), form, siteId).Some? == FindLemma(lemmas, form, siteId).Some?
    ensures var found := FindLemma(lemmas, form, siteId);
            FrequencyOf(Bump(lemmas, id), form, siteId)
            == FrequencyOf(lemmas, form, siteId) + (if found.Some? && found.value.id == id then 1 else 0)
  {
    FindInSameShape(lemmas, Bump(lemmas, id), form, siteId);
  }

  /**
   * `decrementFrequencyById` seen per key: the frequency stored for (form, site) drops by
   * exactly one when the row holding it has a listed id, and is unchanged otherwise; no key
   * gains or loses a row, and a listed id counts once however often the list repeats it.
   */
  lemma DecrementFrequencyEffect(lemmas: seq<Lemma>, ids: set<int>, form: string, siteId: int)
    ensures FindLemma(DecrementFrequency(lemmas, ids), form, siteId).Some? == FindLemma(lemmas, form, siteId).Some?
    ensures var found := FindLemma(lemmas, form, siteId);
            FrequencyOf(DecrementFrequency(lemmas, ids), form, siteId)
            == FrequencyOf(lemmas, form, siteId) - (if found.Some? && found.value.id in ids then 1 else 0)
  {
    FindInSameShape(lemmas, DecrementFrequency(lemmas, ids), form, siteId);
  }

  /** Appending a row whose key is new makes it the answer for its key and changes no other answer. */
  lemma {:induction false} FindAppended(a: seq<Lemma>, l: Lemma, form: string, siteId: int)
    requires FindLemma(a, l.form, l.site.id).None?
    ensures FindLemma(a + [l], form, siteId) == if LemmaAt(l, form, siteId) then Some(l) else FindLemma(a, form, siteId)
  {
    if a != [] {
      assert (a + [l])[1..] == a[1..] + [l];
      FindAppended(a[1..], l, form, siteId);
    }
  }

  /** Ascending by frequency. */
  predicate SortedByFrequency(s: seq<Lemma>) {
    forall i, j | 0 <= i < j < |s| :: s[i].frequency <= s[j].frequency
  }

  /** Places `x` before the first row with a larger frequency. */
  function InsertByFrequency(x: Lemma, s: seq<Lemma>): (r: seq<Lemma>)
    ensures multiset(r) == multiset(s) + multiset{x}
  {
    if s == [] || x.frequency <= s[0].frequency then [x] + s
    else
      assert s == [s[0]] + s[1..];
      [s[0]] + InsertByFrequency(x, s[1..])
  }

  /** Inserting a row keeps a lower bound every row meets. */
  lemma {:induction false} InsertKeepsBound(x: Lemma, s: seq<Lemma>, bound: int)
    requires x.frequency >= bound
    requires forall k | 0 <= k < |s| :: s[k].frequency >= bound
    ensures forall k | 0 <= k < |InsertByFrequency(x, s)| :: InsertByFrequency(x, s)[k].frequency >= bound
  {
    if s != [] && x.frequency > s[0].frequency {
      InsertKeepsBound(x, s[1..], bound);
      var rest := InsertByFrequency(x, s[1..]);
      forall k | 0 < k < |rest| + 1 ensures ([s[0]] + rest)[k].frequency >= bound {
        assert ([s[0]] + rest)[k] == rest[k - 1];
      }
    }
  }

  /** Inserting into a sorted table keeps it sorted. */
  lemma {:induction false} InsertSorted(x: Lemma, s: seq<Lemma>)
    requires SortedByFrequency(s)
    ensures SortedByFrequency(InsertByFrequency(x, s))
  {
    if s != [] && x.frequency > s[0].frequency {
      var rest := InsertByFrequency(x, s[1..]);
      InsertSorted(x, s[1..]);
      assert forall k | 0 <= k < |s[1..]| :: s[1..][k].frequency >= s[0].frequency by {
        forall k | 0 <= k < |s[1..]| ensures s[1..][k].frequency >= s[0].frequency {
          assert s[1..][k] == s[k + 1];
        }
      }
      InsertKeepsBound(x, s[1..], s[0].frequency);
      var r := [s[0]] + rest;
      assert InsertByFrequency(x, s) == r;
      forall i, j | 0 <= i < j < |r| ensures r[i].frequency <= r[j].frequency {
        assert r[j] == rest[j - 1];
        if i > 0 {
          assert r[i] == rest[i - 1];
        }
      }
    }
  }

  /** `order by l.frequency`. */
  function SortByFrequency(s: seq<Lemma>): (r: seq<Lemma>)
    ensures SortedByFrequency(r)
    ensures multiset(r) == multiset(s)
  {
    if s == [] then []
    else
      assert multiset(s) == multiset{s[0]} + multiset(s[1..]) by { assert s == [s[0]] + s[1..]; }
      InsertSorted(s[0], SortByFrequency(s[1..]));
      InsertByFrequency(s[0], SortByFrequency(s[1..]))
  }

  /** Two orderings of the same rows hold the same rows. */
  lemma SameMembers(a: seq<Lemma>, b: seq<Lemma>)
    requires multiset(a) == multiset(b)
    ensures forall l :: l in a <==> l in b
  {
    forall l ensures l in a <==> l in b {
      assert l in a <==> l in multiset(a);
      assert l in b <==> l in multiset(b);
    }
  }

  /** `findByLemmaListAndSite`: that site's rows whose form is listed, rarest first. */
  function FindByFormsAndSite(lemmas: seq<Lemma>, forms: set<string>, siteId: int): (r: seq<Lemma>)
    ensures SortedByFrequency(r)
    ensures forall l :: l in r <==> l in lemmas && l.form in forms && l.site.id == siteId
    ensures multiset(r) == multiset(Filter(lemmas, (l: Lemma) => l.form in forms && l.site.id == siteId))
  {
    var f := Filter(lemmas, (l: Lemma) => l.form in forms && l.site.id == siteId);
    var r := SortByFrequency(f);
    SameMembers(r, f);
    r
  }

  /** `findByLemmaList`: every site's rows whose form is listed, rarest first. */
  function FindByForms(lemmas: seq<Lemma>, forms: set<string>): (r: seq<Lemma>)
    ensures SortedByFrequency(r)
    ensures forall l :: l in r <==> l in lemmas && l.form in forms
    ensures multiset(r) == multiset(Filter(lemmas, (l: Lemma) => l.form in forms))
  {
    var f := Filter(lemmas, (l: Lemma) => l.form in forms);
    var r := SortByFrequency(f);
    SameMembers(r, f);
    r
  }

  /** `LemmaRepositoryInterface.removeAllBySite`. */
  function RemoveLemmasBySite(lemmas: seq<Lemma>, siteId: int): (r: seq<Lemma>)
    ensures forall l :: l in r <==> l in lemmas && l.site.id != siteId
  {
    Filter(lemmas, (l: Lemma) => l.site.id != siteId)
  }

  /** `decrementFrequencyById`: every row whose id is listed loses exactly one, however often it is listed. */
  function DecrementFrequency(lemmas: seq<Lemma>, ids: set<int>): (r: seq<Lemma>)
    ensures |r| == |lemmas|
    ensures forall i | 0 <= i < |r| ::
      r[i] == if lemmas[i].id in ids then lemmas[i].(frequency := lemmas[i].frequency - 1) else lemmas[i]
  {
    seq(|lemmas|, i requires 0 <= i < |lemmas| =>
      if lemmas[i].id in ids then lemmas[i].(frequency := lemmas[i].frequency - 1) else lemmas[i])
  }

  /** `removeIfFrequencyIsZero`: every row with frequency at most 0 goes, on every site. */
  function RemoveNonPositive(lemmas: seq<Lemma>): (r: seq<Lemma>)
    ensures forall l :: l in r <==> l in lemmas && l.frequency > 0
  {
    Filter(lemmas, (l: Lemma) => l.frequency > 0)
  }

  /** `LemmaRepositoryInterface.countBySite`. */
  function CountLemmasBySite(lemmas: seq<Lemma>, siteId: int): nat {
    |Filter(lemmas, (l: Lemma) => l.site.id == siteId)|
  }

  /** The per-site counts add up to the table size. */
  lemma {:induction false} CountsPartition(lemmas: seq<Lemma>, siteId: int)
    ensures CountLemmasBySite(lemmas, siteId) + |Filter(lemmas, (l: Lemma) => l.site.id != siteId)| == |lemmas|
  {
    if lemmas != [] {
      CountsPartition(lemmas[1..], siteId);
    }
  }

  // ----- index -----

  /** `IndexRepositoryInterface.removeAllBySite`: postings whose page is one of the site's pages. */
  function RemoveIndexesBySite(indexes: seq<Index>, pages: seq<Page>, siteId: int): (r: seq<Index>)
    ensures forall x :: x in r <==> x in indexes && !(exists p | p in pages :: p.id == x.pageId && p.site.id == siteId)
  {
    Filter(indexes, (x: Index) => !(exists p | p in pages :: p.id == x.pageId && p.site.id == siteId))
  }

  /** `removeByPage`. */
  function RemoveIndexesByPage(indexes: seq<Index>, pageId: int): (r: seq<Index>)
    ensures forall x :: x in r <==> x in indexes && x.pageId != pageId
  {
    Filter(indexes, (x: Index) => x.pageId != pageId)
  }

  /** The row with the given id, if any. */
  function LemmaById(lemmas: seq<Lemma>, id: int): (r: Option<Lemma>)
    ensures r.Some? <==> exists l | l in lemmas :: l.id == id
    ensures r.Some? ==> r.value in lemmas && r.value.id == id
  {
    if lemmas == [] then None
    else if lemmas[0].id == id then Some(lemmas[0])
    else LemmaById(lemmas[1..], id)
  }

  /** `findLemmaByPage`: the lemma of each posting of the page, one entry per posting. */
  function LemmasOfPage(indexes: seq<Index>, lemmas: seq<Lemma>, pageId: int): (r: seq<Lemma>)
    ensures forall l | l in r :: l in lemmas && exists x | x in indexes :: x.pageId == pageId && x.lemmaId == l.id
    ensures forall x | x in indexes && x.pageId == pageId && LemmaById(lemmas, x.lemmaId).Some? ::
              LemmaById(lemmas, x.lemmaId).value in r
  {
    if indexes == [] then []
    else
      var x := indexes[|indexes| - 1];
      var found := LemmaById(lemmas, x.lemmaId);
      LemmasOfPage(indexes[..|indexes| - 1], lemmas, pageId)
        + (if x.pageId == pageId && found.Some? then [found.value] else [])
  }

  /** A posting of the page whose lemma row exists. */
  function OfPageWithLemma(lemmas: seq<Lemma>, pageId: int): Index -> bool {
    (x: Index) => x.pageId == pageId && LemmaById(lemmas, x.lemmaId).Some?
  }

  /**
   * `findLemmaByPage` gives one entry per posting of the page, in the order of the
   * postings: the k-th entry is the lemma row of the k-th such posting.
   */
  lemma {:induction false} LemmasOfPagePerPosting(indexes: seq<Index>, lemmas: seq<Lemma>, pageId: int)
    ensures var ps := Filter(indexes, OfPageWithLemma(lemmas, pageId));
            var r := LemmasOfPage(indexes, lemmas, pageId);
            |r| == |ps| && forall k | 0 <= k < |ps| :: LemmaById(lemmas, ps[k].lemmaId) == Some(r[k])
  {
    if indexes != [] {
      var keep := OfPageWithLemma(lemmas, pageId);
      var n := |indexes| - 1;
      var x := indexes[n];
      LemmasOfPagePerPosting(indexes[..n], lemmas, pageId);
      assert indexes == indexes[..n] + [x];
      FilterAppend(indexes[..n], [x], keep);
      assert Filter([x], keep) == (if keep(x) then [x] else []) by {
        assert [x][1..] == [];
      }
    }
  }

  /** The page has a posting whose lemma row has the given form. */
  predicate HasPosting(indexes: seq<Index>, lemmas: seq<Lemma>, pageId: int, form: string) {
    exists x | x in indexes :: x.pageId == pageId && exists l | l in lemmas :: l.id == x.lemmaId && l.form == form
  }

  /** `findByLemma` / `findByLemmaAndSite`: the pages (of one site, or of all) holding the form. */
  function PagesByForm(pages: seq<Page>, indexes: seq<Index>, lemmas: seq<Lemma>, form: string, siteId: Option<int>)
    : (r: seq<Page>)
    ensures forall p :: p in r <==>
      p in pages && HasPosting(indexes, lemmas, p.id, form) && (siteId.None? || p.site.id == siteId.value)
  {
    Filter(pages, (p: Page) => HasPosting(indexes, lemmas, p.id, form) && (siteId.None? || p.site.id == siteId.value))
  }

  /** `page.getIndexes()`: the postings of the page, in table order. */
  function PostingsOfPage(indexes: seq<Index>, pageId: int): (r: seq<Index>)
    ensures forall x :: x in r <==> x in indexes && x.pageId == pageId
  {
    Filter(indexes, (x: Index) => x.pageId == pageId)
  }

  /** `findByPageAndLemmaList`: the postings of the page whose lemma row is listed (compared by id). */
  function PostingsOfPageAndLemmas(indexes: seq<Index>, pageId: int, lemmaIds: set<int>): (r: seq<Index>)
    ensures forall x :: x in r <==> x in indexes && x.pageId == pageId && x.lemmaId in lemmaIds
  {
    Filter(indexes, (x: Index) => x.pageId == pageId && x.lemmaId in lemmaIds)
  }

  // ----- site -----

  /** `SiteRepositoryInterface.update`: status, time and error of the rows with that id. */
  function UpdateSite(sites: seq<Site>, id: int, status: SiteStatus, time: Time, err: Option<string>): (r: seq<Site>)
    ensures |r| == |sites|
    ensures forall i | 0 <= i < |r| :: r[i].Key() == sites[i].Key()
    ensures forall i | 0 <= i < |r| && sites[i].id != id :: r[i] == sites[i]
    ensures forall i | 0 <= i < |r| && sites[i].id == id ::
              r[i].status == status && r[i].statusTime == time && r[i].lastError == err
  {
    seq(|sites|, i requires 0 <= i < |sites| =>
      if sites[i].id == id then sites[i].(status := status, statusTime := time, lastError := err) else sites[i])
  }

  /** `findByUrl`: the first row whose url is exactly `url`. */
  function FindSiteByUrl(sites: seq<Site>, url: string): (r: Option<Site>)
    ensures r.Some? <==> exists s | s in sites :: s.url == url
    ensures r.Some? ==> r.value in sites && r.value.url == url
  {
    if sites == [] then None
    else if sites[0].url == url then Some(sites[0])
    else FindSiteByUrl(sites[1..], url)
  }

  /** `remove(id)`. */
  function RemoveSite(sites: seq<Site>, id: int): (r: seq<Site>)
    ensures forall s :: s in r <==> s in sites && s.id != id
  {
    Filter(sites, (s: Site) => s.id != id)
  }
}
