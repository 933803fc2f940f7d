/**
 * Frequency bookkeeping across `saveIndexingData` and `removeAllByPage`.
 * A lemma's frequency counts the pages whose save touched it: the save adds
 * one per lemma (insert at 1, or +1 on an existing row), and the page
 * removal takes one from every lemma a posting of the page refers to, then
 * drops rows left at zero. Under the conditions below the two cancel.
 */
module Bookkeeping {
  import opened Wrappers
  import opened Entities
  import opened Tables
  import opened Store
  import opened DataSaver

  /** The unique key of the lemma table. */
  function KeyOf(l: Lemma): (string, int) {
    (l.form, l.site.id)
  }

  function Keys(cs: seq<Candidate>): set<(string, int)> {
    set c | c in cs :: KeyOf(c.row)
  }

  /** Unique keys and ids in the lemma table, and generated ids that are added. */
  predicate Consistent(t: Snapshot) {
    UniqueLemmas(t.lemmas) && UniqueLemmaIds(t.lemmas)
    && (forall l | l in t.lemmas :: l.id < t.nextLemmaId)
    && (forall x | x in t.indexes :: x.pageId < t.nextPageId)
  }

  /** No two candidates share a key. */
  predicate DistinctKeys(cs: seq<Candidate>) {
    forall i, j | 0 <= i < j < |cs| :: KeyOf(cs[i].row) != KeyOf(cs[j].row)
  }

  /** Candidates as `SiteParser` builds them: frequency 1 and at least one posting. */
  predicate Fresh(cs: seq<Candidate>) {
    forall c | c in cs :: c.row.frequency == 1 && |c.ranks| > 0
  }

  function Bumped(l: Lemma): Lemma {
    l.(frequency := l.frequency + 1)
  }

  /** The lemma rows after saving the keys `keys`, relative to the rows `before`: old rows of
   *  those keys have one more, the rows after them are new, of frequency 1, with one of those keys. */
  ghost predicate Shaped(before: seq<Lemma>, now: seq<Lemma>, keys: set<(string, int)>) {
    |before| <= |now|
    && (forall i | 0 <= i < |before| :: now[i] == if KeyOf(before[i]) in keys then Bumped(before[i]) else before[i])
    && (forall i | |before| <= i < |now| :: now[i].frequency == 1 && KeyOf(now[i]) in keys)
  }

  /** Unique keys, unique ids, and an id counter above every id. */
  ghost predicate Keyed(lemmas: seq<Lemma>, nextId: int) {
    UniqueLemmas(lemmas) && UniqueLemmaIds(lemmas) && forall l | l in lemmas :: l.id < nextId
  }

  /** Some row has the id and one of the keys. */
  ghost predicate RowOf(lemmas: seq<Lemma>, id: int, keys: set<(string, int)>) {
    exists l | l in lemmas :: l.id == id && KeyOf(l) in keys
  }

  /** Some posting points at a row of the key. */
  ghost predicate Posted(ps: seq<Index>, lemmas: seq<Lemma>, k: (string, int)) {
    exists x, l | x in ps && l in lemmas :: l.id == x.lemmaId && KeyOf(l) == k
  }

  /** Every posting is on the page and points at a row of one of the keys. */
  ghost predicate PointsInto(ps: seq<Index>, lemmas: seq<Lemma>, keys: set<(string, int)>, pageId: int) {
    forall x | x in ps :: x.pageId == pageId && RowOf(lemmas, x.lemmaId, keys)
  }

  /** Every key has a posting pointing at its row. */
  ghost predicate Covers(ps: seq<Index>, lemmas: seq<Lemma>, keys: set<(string, int)>) {
    forall k | k in keys :: Posted(ps, lemmas, k)
  }

  /** `b` keeps every row of `a` at its position, with its id and key. */
  ghost predicate Keeps(a: seq<Lemma>, b: seq<Lemma>) {
    |a| <= |b| && forall i | 0 <= i < |a| :: b[i].id == a[i].id && KeyOf(b[i]) == KeyOf(a[i])
  }

  /** The state after saving the candidates with keys `keys` on page `pageId`, relative to `base`. */
  ghost predicate Saved(base: Snapshot, s: Snapshot, keys: set<(string, int)>, pageId: int) {
    var m := |base.indexes|;
    m <= |s.indexes| && s.indexes == base.indexes + s.indexes[m..]
    && Shaped(base.lemmas, s.lemmas, keys)
    && Keyed(s.lemmas, s.nextLemmaId)
    && PointsInto(s.indexes[m..], s.lemmas, keys, pageId)
    && Covers(s.indexes[m..], s.lemmas, keys)
    && s.pages == base.pages && s.sites == base.sites
  }

  /** Rows of a table with unique keys that share a key are the same row. */
  lemma SameKeySameRow(lemmas: seq<Lemma>, a: Lemma, b: Lemma)
    requires UniqueLemmas(lemmas) && a in lemmas && b in lemmas && KeyOf(a) == KeyOf(b)
    ensures a == b
  {
    var i :| 0 <= i < |lemmas| && lemmas[i] == a;
    var j :| 0 <= j < |lemmas| && lemmas[j] == b;
    if i < j {
      assert LemmaAt(lemmas[j], lemmas[i].form, lemmas[i].site.id);
    } else if j < i {
      assert LemmaAt(lemmas[i], lemmas[j].form, lemmas[j].site.id);
    }
  }

  /** In a table with unique ids, the row at `k` is the only one with its id. */
  lemma OnlyRowWithId(lemmas: seq<Lemma>, k: int)
    requires UniqueLemmaIds(lemmas) && 0 <= k < |lemmas|
    ensures forall i | 0 <= i < |lemmas| && lemmas[i].id == lemmas[k].id :: i == k
  {
  }

  /** A new key appended as a new row of frequency 1. */
  lemma ShapedAppend(before: seq<Lemma>, now: seq<Lemma>, keys: set<(string, int)>, row: Lemma)
    requires Shaped(before, now, keys)
    requires forall l | l in now :: KeyOf(l) != KeyOf(row)
    requires row.frequency == 1
    ensures Shaped(before, now + [row], keys + {KeyOf(row)})
  {
    var r := now + [row];
    forall i | 0 <= i < |before|
      ensures r[i] == if KeyOf(before[i]) in keys + {KeyOf(row)} then Bumped(before[i]) else before[i]
    {
      assert now[i] in now;
    }
  }

  /** A new key whose row was an old row: that row, and only it, gains one. */
  lemma ShapedBump(before: seq<Lemma>, now: seq<Lemma>, keys: set<(string, int)>, k: int)
    requires Shaped(before, now, keys) && UniqueLemmas(now) && UniqueLemmaIds(now)
    requires 0 <= k < |now| && KeyOf(now[k]) !in keys
    ensures Shaped(before, Bump(now, now[k].id), keys + {KeyOf(now[k])})
  {
    var key := KeyOf(now[k]);
    var r := Bump(now, now[k].id);
    OnlyRowWithId(now, k);
    assert k < |before|;
    forall i | 0 <= i < |before|
      ensures r[i] == if KeyOf(before[i]) in keys + {key} then Bumped(before[i]) else before[i]
    {

    }
  }

  /** Appending a row under the counter's id keeps keys and ids unique. */
  lemma KeyedAppend(lemmas: seq<Lemma>, nextId: int, row: Lemma)
    requires Keyed(lemmas, nextId) && row.id == nextId
    requires forall l | l in lemmas :: KeyOf(l) != KeyOf(row)
    ensures Keyed(lemmas + [row], nextId + 1)
  {
    var r := lemmas + [row];
    forall i, j | 0 <= i < j < |r| ensures !LemmaAt(r[j], r[i].form, r[i].site.id) && r[i].id != r[j].id {
      if j == |lemmas| {
        assert r[i] in lemmas;
      }
    }
  }

  /** Bumping a frequency keeps keys and ids. */
  lemma KeyedBump(lemmas: seq<Lemma>, nextId: int, id: int)
    requires Keyed(lemmas, nextId)
    ensures Keyed(Bump(lemmas, id), nextId + 1)
    ensures Keeps(lemmas, Bump(lemmas, id))
  {
    var r := Bump(lemmas, id);
    forall l | l in r ensures l.id < nextId + 1 {
      var i :| 0 <= i < |r| && r[i] == l;
      assert lemmas[i] in lemmas;
    }
  }

  /** A row found in `a` is found in a table that keeps `a`'s rows. */
  lemma RowOfKept(a: seq<Lemma>, b: seq<Lemma>, id: int, keys: set<(string, int)>, more: set<(string, int)>)
    requires RowOf(a, id, keys) && Keeps(a, b) && keys <= more
    ensures RowOf(b, id, more)
  {
    var l :| l in a && l.id == id && KeyOf(l) in keys;
    var i :| 0 <= i < |a| && a[i] == l;
    assert b[i] in b;
  }

  /** A posted key stays posted when postings are added and rows kept. */
  lemma PostedKept(ps: seq<Index>, added: seq<Index>, a: seq<Lemma>, b: seq<Lemma>, k: (string, int))
    requires Posted(ps, a, k) && Keeps(a, b)
    ensures Posted(ps + added, b, k)
  {
    var x, l :| x in ps && l in a && l.id == x.lemmaId && KeyOf(l) == k;
    var i :| 0 <= i < |a| && a[i] == l;
    assert x in ps + added && b[i] in b;
  }

  /** The postings carry over to a table that keeps the old rows, and a batch of postings to
   *  a row of a new key points into the keys with that key added. */
  lemma PointsExtend(ps: seq<Index>, added: seq<Index>, a: seq<Lemma>, b: seq<Lemma>,
                     keys: set<(string, int)>, pageId: int, id: int, key: (string, int))
    requires PointsInto(ps, a, keys, pageId) && Keeps(a, b) && RowOf(b, id, {key})
    requires forall x | x in added :: x.pageId == pageId && x.lemmaId == id
    ensures PointsInto(ps + added, b, keys + {key}, pageId)
  {
    forall x | x in ps + added
      ensures x.pageId == pageId && RowOf(b, x.lemmaId, keys + {key})
    {
      if x in ps {
        RowOfKept(a, b, x.lemmaId, keys, keys + {key});
      } else {
        RowOfKept(b, b, id, {key}, keys + {key});
      }
    }
  }

  /** Coverage carries over, and a non-empty batch to a row of the new key covers that key. */
  lemma CoversExtend(ps: seq<Index>, added: seq<Index>, a: seq<Lemma>, b: seq<Lemma>,
                     keys: set<(string, int)>, id: int, key: (string, int))
    requires Covers(ps, a, keys) && Keeps(a, b) && RowOf(b, id, {key}) && |added| > 0
    requires forall x | x in added :: x.lemmaId == id
    ensures Covers(ps + added, b, keys + {key})
  {
    forall k | k in keys + {key} ensures Posted(ps + added, b, k) {
      if k in keys {
        PostedKept(ps, added, a, b, k);
      } else {
        var l :| l in b && l.id == id && KeyOf(l) in {key};
        assert added[0] in ps + added;
      }
    }
  }

  /** The postings a candidate cascades to a row of its key, on top of the earlier ones. */
  lemma PostingsStep(ps: seq<Index>, a: seq<Lemma>, b: seq<Lemma>, keys: set<(string, int)>, pageId: int,
                     id: int, key: (string, int), ranks: seq<int>, firstId: int)
    requires PointsInto(ps, a, keys, pageId) && Covers(ps, a, keys) && Keeps(a, b)
    requires RowOf(b, id, {key}) && |ranks| > 0
    ensures var added := NewPostings(ranks, pageId, id, firstId);
            PointsInto(ps + added, b, keys + {key}, pageId) && Covers(ps + added, b, keys + {key})
  {
    var added := NewPostings(ranks, pageId, id, firstId);
    PointsExtend(ps, added, a, b, keys, pageId, id, key);
    CoversExtend(ps, added, a, b, keys, id, key);
  }

  /** The upsert of a candidate row whose key is not yet saved, on the rows. */
  lemma UpsertStep(before: seq<Lemma>, now: seq<Lemma>, keys: set<(string, int)>, nextId: int, row: Lemma)
    requires Shaped(before, now, keys) && Keyed(now, nextId)
    requires KeyOf(row) !in keys && row.frequency == 1
    ensures var (r, id) := UpsertLemma(now, row, nextId);
            Shaped(before, r, keys + {KeyOf(row)}) && Keyed(r, nextId + 1) && Keeps(now, r)
            && RowOf(r, id, {KeyOf(row)})
  {
    var found := FindLemma(now, row.form, row.site.id);
    if found.Some? {
      var k :| 0 <= k < |now| && now[k] == found.value;
      ShapedBump(before, now, keys, k);
      KeyedBump(now, nextId, found.value.id);
      var r := Bump(now, found.value.id);
      assert r[k] in r;
    } else {
      var fresh_row := row.(id := nextId);
      ShapedAppend(before, now, keys, fresh_row);
      KeyedAppend(now, nextId, fresh_row);
      var r := now + [fresh_row];
      assert r[|now|] in r;
    }
  }

  /** Postings appended after a table that extends `base` extend its suffix past `base`. */
  lemma SuffixAppend(base: seq<Index>, s: seq<Index>, added: seq<Index>)
    requires |base| <= |s| && s == base + s[|base|..]
    ensures (s + added)[|base|..] == s[|base|..] + added
    ensures s + added == base + (s + added)[|base|..]
  {
    assert (s + added)[|base|..] == s[|base|..] + added;
  }

  /** One more candidate, with a key not yet saved. */
  lemma SavedStep(base: Snapshot, s: Snapshot, keys: set<(string, int)>, pageId: int, c: Candidate)
    requires Saved(base, s, keys, pageId)
    requires KeyOf(c.row) !in keys && c.row.frequency == 1 && |c.ranks| > 0
    ensures Saved(base, SaveCandidate(s, c, pageId), keys + {KeyOf(c.row)}, pageId)
  {
    var m := |base.indexes|;
    var r := SaveCandidate(s, c, pageId);
    var (lemmas, lemmaId) := UpsertLemma(s.lemmas, c.row, s.nextLemmaId);
    var added := NewPostings(c.ranks, pageId, lemmaId, s.nextIndexId);
    assert r.lemmas == lemmas && r.nextLemmaId == s.nextLemmaId + 1 && r.indexes == s.indexes + added;
    assert r.pages == base.pages && r.sites == base.sites;
    UpsertStep(base.lemmas, s.lemmas, keys, s.nextLemmaId, c.row);
    PostingsStep(s.indexes[m..], s.lemmas, lemmas, keys, pageId, lemmaId, KeyOf(c.row), c.ranks, s.nextIndexId);
    SuffixAppend(base.indexes, s.indexes, added);
    assert r.indexes[m..] == s.indexes[m..] + added;
  }

  /** The last candidate's key is new to the ones before it, and the prefix keeps both properties. */
  lemma LastKeyIsNew(cs: seq<Candidate>)
    requires DistinctKeys(cs) && Fresh(cs) && cs != []
    ensures var n := |cs| - 1;
            DistinctKeys(cs[..n]) && Fresh(cs[..n])
            && Keys(cs) == Keys(cs[..n]) + {KeyOf(cs[n].row)} && KeyOf(cs[n].row) !in Keys(cs[..n])
            && cs[n].row.frequency == 1 && |cs[n].ranks| > 0
  {
    var n := |cs| - 1;
    var c := cs[n];
    assert Keys(cs) == Keys(cs[..n]) + {KeyOf(c.row)} by {
      assert cs == cs[..n] + [c];
    }
    assert KeyOf(c.row) !in Keys(cs[..n]) by {
      forall d | d in cs[..n] ensures KeyOf(d.row) != KeyOf(c.row) {
        var i :| 0 <= i < n && cs[..n][i] == d;
      }
    }
    assert c in cs;
  }

  /** Saving the candidates one by one establishes `Saved` for all their keys. */
  lemma {:induction false} SavedAll(base: Snapshot, cs: seq<Candidate>, pageId: int)
    requires UniqueLemmas(base.lemmas) && UniqueLemmaIds(base.lemmas)
    requires forall l | l in base.lemmas :: l.id < base.nextLemmaId
    requires DistinctKeys(cs) && Fresh(cs)
    ensures Saved(base, SaveCandidates(base, cs, pageId), Keys(cs), pageId)
  {
    var m := |base.indexes|;
    if cs == [] {
      assert base.indexes + base.indexes[m..] == base.indexes;
    } else {
      var n := |cs| - 1;
      LastKeyIsNew(cs);
      SavedAll(base, cs[..n], pageId);
      SavedStep(base, SaveCandidates(base, cs[..n], pageId), Keys(cs[..n]), pageId, cs[n]);
    }
  }

  /** In a table with unique ids, looking a row's id up finds that row. */
  lemma ByIdFindsRow(lemmas: seq<Lemma>, i: int)
    requires UniqueLemmaIds(lemmas) && 0 <= i < |lemmas|
    ensures LemmaById(lemmas, lemmas[i].id) == Some(lemmas[i])
  {
    var found := LemmaById(lemmas, lemmas[i].id).value;
    var j :| 0 <= j < |lemmas| && lemmas[j] == found;
    OnlyRowWithId(lemmas, i);
  }

  /** A posting of the page makes its row one of the page's lemmas. */
  lemma PostingReferences(indexes: seq<Index>, lemmas: seq<Lemma>, pageId: int, x: Index, i: int)
    requires UniqueLemmaIds(lemmas) && 0 <= i < |lemmas|
    requires x in indexes && x.pageId == pageId && x.lemmaId == lemmas[i].id
    ensures lemmas[i] in LemmasOfPage(indexes, lemmas, pageId)
  {
    ByIdFindsRow(lemmas, i);
  }

  /** A row of a saved key is among the lemmas the page's postings reference. */
  lemma KeyedRowReferenced(indexes: seq<Index>, ps: seq<Index>, lemmas: seq<Lemma>,
                           keys: set<(string, int)>, pageId: int, i: int)
    requires Covers(ps, lemmas, keys) && UniqueLemmas(lemmas) && UniqueLemmaIds(lemmas)
    requires forall x | x in ps :: x in indexes && x.pageId == pageId
    requires 0 <= i < |lemmas| && KeyOf(lemmas[i]) in keys
    ensures lemmas[i] in LemmasOfPage(indexes, lemmas, pageId)
  {
    assert Posted(ps, lemmas, KeyOf(lemmas[i]));
    var x, l :| x in ps && l in lemmas && l.id == x.lemmaId && KeyOf(l) == KeyOf(lemmas[i]);
    SameKeySameRow(lemmas, l, lemmas[i]);
    PostingReferences(indexes, lemmas, pageId, x, i);
  }

  /** A row the page's postings reference has a saved key. */
  lemma ReferencedRowKeyed(base: seq<Index>, ps: seq<Index>, lemmas: seq<Lemma>,
                           keys: set<(string, int)>, pageId: int, i: int, l0: Lemma)
    requires PointsInto(ps, lemmas, keys, pageId) && UniqueLemmaIds(lemmas)
    requires forall x | x in base :: x.pageId != pageId
    requires 0 <= i < |lemmas| && l0 in LemmasOfPage(base + ps, lemmas, pageId) && l0.id == lemmas[i].id
    ensures KeyOf(lemmas[i]) in keys
  {
    var x :| x in base + ps && x.pageId == pageId && x.lemmaId == l0.id;
    assert x in ps;
    assert RowOf(lemmas, x.lemmaId, keys);
    var l :| l in lemmas && l.id == x.lemmaId && KeyOf(l) in keys;
    var j :| 0 <= j < |lemmas| && lemmas[j] == l;
    OnlyRowWithId(lemmas, i);
  }

  /** The ids of the lemmas the page's postings reference. */
  ghost function ReferencedIds(indexes: seq<Index>, lemmas: seq<Lemma>, pageId: int): set<int> {
    set l | l in LemmasOfPage(indexes, lemmas, pageId) :: l.id
  }

  /** A row of a saved key is referenced by the page. */
  lemma KeyedRowIn(base: seq<Index>, ps: seq<Index>, lemmas: seq<Lemma>, keys: set<(string, int)>,
                   pageId: int, i: int)
    requires Covers(ps, lemmas, keys) && UniqueLemmas(lemmas) && UniqueLemmaIds(lemmas)
    requires forall x | x in ps :: x.pageId == pageId
    requires 0 <= i < |lemmas| && KeyOf(lemmas[i]) in keys
    ensures lemmas[i].id in ReferencedIds(base + ps, lemmas, pageId)
  {
    KeyedRowReferenced(base + ps, ps, lemmas, keys, pageId, i);
  }

  /** A row referenced by the page has a saved key. */
  lemma RowInKeyed(base: seq<Index>, ps: seq<Index>, lemmas: seq<Lemma>, keys: set<(string, int)>,
                   pageId: int, i: int)
    requires PointsInto(ps, lemmas, keys, pageId) && UniqueLemmaIds(lemmas)
    requires forall x | x in base :: x.pageId != pageId
    requires 0 <= i < |lemmas| && lemmas[i].id in ReferencedIds(base + ps, lemmas, pageId)
    ensures KeyOf(lemmas[i]) in keys
  {
    var l0 :| l0 in LemmasOfPage(base + ps, lemmas, pageId) && l0.id == lemmas[i].id;
    ReferencedRowKeyed(base, ps, lemmas, keys, pageId, i, l0);
  }

  /** The page removal finds exactly the rows of the saved keys. */
  lemma ReferencedRows(base: seq<Index>, ps: seq<Index>, lemmas: seq<Lemma>, keys: set<(string, int)>, pageId: int)
    requires PointsInto(ps, lemmas, keys, pageId) && Covers(ps, lemmas, keys)
    requires UniqueLemmas(lemmas) && UniqueLemmaIds(lemmas)
    requires forall x | x in base :: x.pageId != pageId
    ensures forall i | 0 <= i < |lemmas| :: lemmas[i].id in ReferencedIds(base + ps, lemmas, pageId) <==> KeyOf(lemmas[i]) in keys
  {
    forall i | 0 <= i < |lemmas|
      ensures lemmas[i].id in ReferencedIds(base + ps, lemmas, pageId) <==> KeyOf(lemmas[i]) in keys
    {
      if KeyOf(lemmas[i]) in keys {
        KeyedRowIn(base, ps, lemmas, keys, pageId, i);
      }
      if lemmas[i].id in ReferencedIds(base + ps, lemmas, pageId) {
        RowInKeyed(base, ps, lemmas, keys, pageId, i);
      }
    }
  }

  /** Taking one from the rows of the saved keys and dropping rows at zero gives back the rows
   *  from before the save. */
  lemma DecrementUndoes(before: seq<Lemma>, now: seq<Lemma>, keys: set<(string, int)>, ids: set<int>)
    requires Shaped(before, now, keys)
    requires forall i | 0 <= i < |now| :: now[i].id in ids <==> KeyOf(now[i]) in keys
    requires forall l | l in before :: l.frequency >= 1
    ensures RemoveNonPositive(DecrementFrequency(now, ids)) == before
  {
    var n := |before|;
    var d := DecrementFrequency(now, ids);
    assert d[..n] == before by {
      forall i | 0 <= i < n ensures d[i] == before[i] {
        assert KeyOf(now[i]) == KeyOf(before[i]);
      }
    }
    assert d == d[..n] + d[n..];
    FilterAppend(d[..n], d[n..], (l: Lemma) => l.frequency > 0);
    FilterKeepsAll(before, (l: Lemma) => l.frequency > 0);
    FilterDropsAll(d[n..], (l: Lemma) => l.frequency > 0);
  }

  /** Removing the page's postings leaves the postings from before the save. */
  lemma PostingsUndone(base: seq<Index>, ps: seq<Index>, pageId: int)
    requires forall x | x in base :: x.pageId != pageId
    requires forall x | x in ps :: x.pageId == pageId
    ensures RemoveIndexesByPage(base + ps, pageId) == base
  {
    FilterAppend(base, ps, (x: Index) => x.pageId != pageId);
    FilterKeepsAll(base, (x: Index) => x.pageId != pageId);
    FilterDropsAll(ps, (x: Index) => x.pageId != pageId);
  }

  /** Removing the page after the save leaves the old lemma rows and the old postings. */
  lemma RemovalUndoesSave(base: Snapshot, s: Snapshot, keys: set<(string, int)>, page: Page)
    requires Saved(base, s, keys, page.id)
    requires forall x | x in base.indexes :: x.pageId != page.id
    requires forall l | l in base.lemmas :: l.frequency >= 1
    ensures WithoutPage(s, page).lemmas == base.lemmas
    ensures WithoutPage(s, page).indexes == base.indexes
    ensures WithoutPage(s, page).pages == RemovePage(base.pages, page.path, page.site.id)
    ensures WithoutPage(s, page).sites == base.sites
  {
    var m := |base.indexes|;
    var ps := s.indexes[m..];
    ReferencedRows(base.indexes, ps, s.lemmas, keys, page.id);
    assert s.indexes == base.indexes + ps;
    DecrementUndoes(base.lemmas, s.lemmas, keys, ReferencedIds(s.indexes, s.lemmas, page.id));
    PostingsUndone(base.indexes, ps, page.id);
  }

  /**
   * `saveIndexingData` of a page that is not stored yet, followed by `removeAllByPage` of the
   * stored page, gives back the lemma, posting and page tables it started from: frequencies
   * of lemmas that existed return to their value and lemmas it created are deleted again.
   * It needs every stored frequency to be at least 1 (else the cleanup would also delete
   * untouched rows), candidates with distinct keys (else a key gains two and loses one),
   * and candidates of frequency 1 that carry a posting (else a row is not found again).
   */
  lemma SaveThenRemoveRestores(t: Snapshot, cs: seq<Candidate>, page: Page)
    requires Consistent(t)
    requires forall l | l in t.lemmas :: l.frequency >= 1
    requires !HasPage(t.pages, page.path, page.site.id)
    requires DistinctKeys(cs) && Fresh(cs)
    ensures var r := WithoutPage(WithIndexingData(t, cs, page), page.(id := t.nextPageId));
            r.lemmas == t.lemmas && r.indexes == t.indexes && r.pages == t.pages && r.sites == t.sites
  {
    var saved := page.(id := t.nextPageId);
    var base := t.(pages := InsertIgnorePage(t.pages, saved), nextPageId := t.nextPageId + 1);
    assert WithIndexingData(t, cs, page) == SaveCandidates(base, cs, saved.id);
    CandidatesUndone(base, cs, saved);
    PageUndone(t.pages, saved);
  }

  /** Saving the candidates on a page with no postings, then removing the page. */
  lemma CandidatesUndone(base: Snapshot, cs: seq<Candidate>, page: Page)
    requires UniqueLemmas(base.lemmas) && UniqueLemmaIds(base.lemmas)
    requires forall l | l in base.lemmas :: l.id < base.nextLemmaId && l.frequency >= 1
    requires forall x | x in base.indexes :: x.pageId != page.id
    requires DistinctKeys(cs) && Fresh(cs)
    ensures var r := WithoutPage(SaveCandidates(base, cs, page.id), page);
            r.lemmas == base.lemmas && r.indexes == base.indexes && r.sites == base.sites
            && r.pages == RemovePage(base.pages, page.path, page.site.id)
  {
    SavedAll(base, cs, page.id);
    RemovalUndoesSave(base, SaveCandidates(base, cs, page.id), Keys(cs), page);
  }

  /** Removing a page just inserted into a table that did not have its key gives the table back. */
  lemma PageUndone(pages: seq<Page>, p: Page)
    requires !HasPage(pages, p.path, p.site.id)
    ensures RemovePage(InsertIgnorePage(pages, p), p.path, p.site.id) == pages
  {
    FilterAppend(pages, [p], (q: Page) => !PageAt(q, p.path, p.site.id));
    FilterKeepsAll(pages, (q: Page) => !PageAt(q, p.path, p.site.id));
  }
}
