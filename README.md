# search-engine: a Dafny model of the crawler's core

The search engine crawls the sites listed in its configuration. Each page it
fetches is stored with the Russian lemmas of its text. A lemma row counts the
pages that use it (its frequency). A posting (`Index`) links a page to a lemma
with a rank, the lemma's count on that page. A query is answered by
intersecting posting lists, rarest lemma first.

This project models everything between the network and the database:

- **Lemma counting** (`Lemmatizer`, `LemmaFinder`). Text is normalised, the
  analyses a morphology library returns are filtered against the stop tags,
  and lemmas are counted. The library is a function parameter (`Oracle`).
- **Page claims** (`PageRepository`). This is the per-site set of claimed
  paths. It decides whether a page write happens at all.
- **One crawl unit** (`SiteParser`). It classifies the outcome of a fetch,
  marks a site failed, saves the page, builds the lemma and posting records,
  and collects the child paths of a page's links. A crawl starts from the
  path "/", so its first unit's uri is the site url followed by "/": the
  checks that compare the uri with the site url (a 403 failing the site, the
  front-page timeout message) fire only for a unit whose path is empty.
- **The store.** Site, page, lemma and posting tables are modelled as
  sequences of rows (`Tables`, `Store`), following the queries of the
  repository interfaces:
  - the page insert is an insert-ignore on (path, site);
  - the lemma insert is an upsert on (lemma, site) that adds one to the frequency.

  `DataSaver` composes these into three operations: the merge insert of a
  page with its lemmas, the removal of one page (postings, frequency
  decrement, zero cleanup, page), and the cascade delete of a site.
  `Bookkeeping` proves that removing a freshly saved page gives back the
  tables from before the save.
- **The indexing service** (`IndexingService`):
  - the start/stop state machine on the `indexingStarted` flag, including
    the bodies of the threads these spawn;
  - one tick of the supervisor that settles finished crawls;
  - URL resolution and the single-page reindex;
  - search: the narrowing of posting lists, titles, relevance and the final
    ordering.
- **Statistics** (`Statistics`). One item per configured site and the totals
  summed over the items.

Operations that change state in place are class methods, each proved
against a function of the old state:

- `PageRepository`'s claim map;
- the `Database`, `DataSaver` and `SiteParser` objects;
- the `Lemmatizer`'s accumulator;
- the service's flag and crawl map;
- the lemma list `selectPageWithLemma` empties.

Loops stay loops: the lemma count, the link loop, the record loop, `saveAll`,
the stop and poll loops, posting intersection, relevance summation and
statistics. Pure decisions are functions, and their properties are lemmas.

## Model

| member | source | states |
|---|---|---|
| Entities.StatusChangeKeepsIdentity | src/main/java/searchengine/model/Site.java:15 | changing a site's status, status time and error leaves it equal to itself and keeps its key (id, url, name), so it stays the same map key |
| Entities.StatusName | src/main/java/searchengine/model/Site.java:22-24 | a stored status is one of INDEXING, INDEXED, FAILED |
| Entities.PageEqualityIgnoresContent | src/main/java/searchengine/model/Page.java:15 | two pages that differ only in content are equal |
| Entities.LemmaEqualityIgnoresFrequency | src/main/java/searchengine/model/Lemma.java:43-54 | changing a lemma's frequency never changes what it is equal to |
| Entities.LemmaObject.AddIndex | src/main/java/searchengine/model/Lemma.java:38-41 | the posting is appended to the lemma's list, its back-reference points at this lemma, the row is unchanged |
| Text.Trim | src/main/java/searchengine/utils/Lemmatizer.java:26 | the trimmed text is the slice of the input left after removing the longest prefix and suffix of characters at or below the space: everything cut off is at or below the space, and the result starts and ends above it |
| Text.RemoveAllAbsent | src/main/java/searchengine/services/IndexingServiceImpl.java:244-246 | `replace` leaves a string in which the pattern never occurs unchanged |
| Text.IndexOfFrom | src/main/java/searchengine/services/IndexingServiceImpl.java:164-173 | the first occurrence at or after a position, or -1 exactly when there is none |
| Text.LastIndexOfUpTo | src/main/java/searchengine/services/IndexingServiceImpl.java:164-173 | the last occurrence starting at or before a position, or -1 when none |
| Morphology.KeepLettersAndSpaces | src/main/java/searchengine/utils/Lemmatizer.java:26 | only letters of А–Я, а–я and whitespace survive the filter |
| Morphology.KeepLettersAndSpacesAppend | src/main/java/searchengine/utils/Lemmatizer.java:26 | the filter works character by character: filtering a concatenation concatenates the filtered parts |
| Morphology.KeepLettersAndSpacesSnoc | src/main/java/searchengine/utils/Lemmatizer.java:26 | one more character is kept exactly when it is a letter of А–Я, а–я or whitespace |
| Morphology.KeepLettersAndSpacesKeepsKept | src/main/java/searchengine/utils/Lemmatizer.java:26 | text made only of such characters passes unchanged, so filtering twice is filtering once |
| Morphology.Tokens | src/main/java/searchengine/utils/Lemmatizer.java:26 | splitting on whitespace runs yields non-empty words without whitespace, made of characters of the text |
| Morphology.TokensAreRuns | src/main/java/searchengine/utils/Lemmatizer.java:26 | every word is a maximal run of non-whitespace characters: a slice bounded by whitespace or the ends of the text |
| Morphology.RunsAreTokens | src/main/java/searchengine/utils/Lemmatizer.java:26 | every maximal run of non-whitespace characters of the text is a word |
| Morphology.TokensCoverText | src/main/java/searchengine/utils/Lemmatizer.java:26 | the words, one after the other, are exactly the non-whitespace characters of the text in order, so each such character belongs to exactly one word |
| Morphology.WordsShape | src/main/java/searchengine/utils/Lemmatizer.java:26 | every word of a normalised text is lower-case Cyrillic, and either the text gives the single empty word or no word is empty |
| Morphology.LowerKeepsAlphabet | src/main/java/searchengine/utils/Lemmatizer.java:26 | lower-casing a filtered text leaves only lower-case Cyrillic letters and whitespace |
| Morphology.LemmaOf | src/main/java/searchengine/utils/Lemmatizer.java:31 | the lemma is the prefix of the analysis before its first bar, and contains no bar |
| Morphology.MorphFilter | src/main/java/searchengine/utils/Lemmatizer.java:39-46 | an analysis is kept exactly when it contains none of the seven stop tags |
| Morphology.TallyCounts | src/main/java/searchengine/utils/Lemmatizer.java:27-35 | each counted lemma adds exactly its number of occurrences to its own count and nothing elsewhere; the keys grow by the lemmas |
| Morphology.TallyPositive | src/main/java/searchengine/utils/Lemmatizer.java:32 | counting from counts of at least one yields counts of at least one |
| Morphology.TallyTotal | src/main/java/searchengine/utils/Lemmatizer.java:27-35 | the sum of the counts grows by exactly the number of kept analyses |
| Morphology.KeptLemmasHas | src/main/java/searchengine/utils/Lemmatizer.java:29-34 | every kept analysis of every word contributes its lemma, so a word with several kept analyses counts for each |
| Morphology.CountsOfText | src/main/java/searchengine/utils/LemmaFinder.java:25-38 | from an empty map each count is the number of kept analyses with that lemma, every count is at least one, the counts add up to the number of kept analyses, and every kept analysis' lemma is counted |
| Lemmatizer.Lemmatizer.constructor | src/main/java/searchengine/utils/Lemmatizer.java:16-23 | a new lemmatizer starts with no counts |
| Lemmatizer.Lemmatizer.Lemmatize | src/main/java/searchengine/utils/Lemmatizer.java:25-37 | the field becomes the old counts plus one per kept analysis of the normalised text, and the field itself is returned |
| Lemmatizer.Lemmatizer.CountWord | src/main/java/searchengine/utils/Lemmatizer.java:28-34 | the field gains one count per kept analysis of the word, under that analysis' lemma, and nothing else |
| Lemmatizer.TwoCallsAccumulate | src/main/java/searchengine/utils/Lemmatizer.java:12-37 | after two calls on one instance each count is the old count plus both texts' occurrences |
| LemmaFinder.FindLemma | src/main/java/searchengine/utils/LemmaFinder.java:25-38 | the result starts from an empty map and counts the kept analyses of the text, so it depends on the text alone |
| LemmaFinder.CountWord | src/main/java/searchengine/utils/LemmaFinder.java:29-35 | the given counts gain one per kept analysis of the word, under that analysis' lemma |
| PageRepository.ClaimEffect | src/main/java/searchengine/repositories/PageRepository.java:33-39 | after a claim the site has a set and the claimed pairs are the old ones plus this one |
| PageRepository.ClaimIdempotent | src/main/java/searchengine/repositories/PageRepository.java:39 | claiming a claimed path leaves the map as it was |
| PageRepository.ClearEffect | src/main/java/searchengine/repositories/PageRepository.java:135-141 | after clearing a site none of its paths is claimed and other sites keep theirs |
| PageRepository.UnclaimEffect | src/main/java/searchengine/repositories/PageRepository.java:143-148 | removing a page releases exactly its (site, path) pair |
| PageRepository.PageRepository.constructor | src/main/java/searchengine/repositories/PageRepository.java:26-29 | a new repository has no claims |
| PageRepository.PageRepository.SavePage | src/main/java/searchengine/repositories/PageRepository.java:31-62 | the path is claimed whatever the write does; a page comes back only when the path was unclaimed and the write succeeded |
| PageRepository.PageRepository.ClearMap | src/main/java/searchengine/repositories/PageRepository.java:135-141 | the claim map loses the site's entry |
| PageRepository.PageRepository.RemoveFromMap | src/main/java/searchengine/repositories/PageRepository.java:143-148 | the claim map loses the page's path and nothing else |
| PageRepository.SaveTwice | src/main/java/searchengine/repositories/PageRepository.java:31-62 | a second save of the same page returns nothing and leaves the path claimed |
| SiteParser.Children | src/main/java/searchengine/utils/SiteParser.java:58-68 | the link loop yields at most one child per link |
| SiteParser.ChildrenExact | src/main/java/searchengine/utils/SiteParser.java:58-68 | a path is a child exactly when an accepted link yields it and it is not claimed for the site |
| SiteParser.AbsoluteLinkBecomesRelative | src/main/java/searchengine/utils/SiteParser.java:60-63 | an absolute link into the site is accepted and becomes the rest of the url |
| SiteParser.StoredPath | src/main/java/searchengine/utils/SiteParser.java:116 | the stored path is never empty and a non-empty path is kept |
| SiteParser.Fail | src/main/java/searchengine/utils/SiteParser.java:92-100 | a failed site keeps its key, has status FAILED and carries the message |
| SiteParser.SaveStep | src/main/java/searchengine/utils/SiteParser.java:113-125 | the path is claimed; a page with the stored path, the code and the content comes back exactly when it was unclaimed and the write succeeded; only then does the site status change (to INDEXING while indexing runs) |
| SiteParser.ConnectStep | src/main/java/searchengine/utils/SiteParser.java:72-107 | accepted exactly for a fetched document that has a content type containing "text" (a document without one is kept, and the call throws); an HTTP error saves the status page, and a 403 fails the site with the authorisation error only for a unit whose path is empty (its uri is the site url itself); an unknown host fails the site and ends the unit abnormally, a timeout fails the site with the front-page message for an empty path and the page message otherwise |
| SiteParser.IndexStep | src/main/java/searchengine/utils/SiteParser.java:127-130 | throws exactly when the fetched document has no content type; otherwise skipped exactly when the fetch is rejected and indexing is off; a saved page has the site and the stored path, which was unclaimed before and is claimed after |
| SiteParser.BuildRecords | src/main/java/searchengine/utils/SiteParser.java:134-145 | one lemma record of frequency 1 per counted lemma, with rank equal to the lemma's count |
| SiteParser.SiteParser.constructor | src/main/java/searchengine/utils/SiteParser.java:39-48 | a new unit has its path and site, no document and is not failed |
| SiteParser.SiteParser.SavePage | src/main/java/searchengine/utils/SiteParser.java:113-125 | the unit's new state and the page it returns are those of the save step |
| SiteParser.SiteParser.Connect | src/main/java/searchengine/utils/SiteParser.java:72-107 | the unit's new state and the answer are those of the connect step |
| SiteParser.SiteParser.IndexPage | src/main/java/searchengine/utils/SiteParser.java:127-147 | the index step's state; not indexed when skipped or unsaved, an exception without a document or content type, and otherwise the records of the page's lemma counts, each upserted into the lemma table with one posting on the page; the tables change only in that case |
| SiteParser.SiteParser.SaveRecords | src/main/java/searchengine/utils/SiteParser.java:134-145 | per record in order, the lemma upsert and then one posting on the page pointing at the row that holds the lemma |
| SiteParser.SiteParser.Record | src/main/java/searchengine/utils/SiteParser.java:131-145 | the records are those of the lemma counts of the text, and they are written to the tables |
| SiteParser.SiteParser.Links | src/main/java/searchengine/utils/SiteParser.java:57-68 | the child paths are those of the links against the current claims |
| SiteParser.SiteParser.Compute | src/main/java/searchengine/utils/SiteParser.java:52-70 | nothing happens and no child comes back unless indexing runs, the path is unclaimed and the first fetch is accepted; a fetch without a content type ends the unit abnormally with no children; otherwise the page is indexed (its lemma rows and postings written exactly when it was saved) and the children of the last document's links come back |
| SiteParser.RootForbiddenFailsSite | src/main/java/searchengine/utils/SiteParser.java:86-89 | a 403 for a unit whose path is empty (uri equal to the site url: a reindex of the bare base url, or an absolute link to it) ends the unit abnormally with the authorisation error |
| SiteParser.InnerForbiddenKeepsSite | src/main/java/searchengine/utils/SiteParser.java:84-91 | a 403 on another page does not fail the site |
| SiteParser.CrawlRootIsInnerPage | src/main/java/searchengine/services/IndexingServiceImpl.java:55 | the unit a crawl starts from has path "/", so its uri never equals the site url: a 403 on the front page leaves the site and the unit's completion alone, and a timeout there records the inner-page message |
| Tables.FindPage | src/main/java/searchengine/repositories/PageRepositoryInterface.java:16 | a page is found exactly when one has that path and site, and it is such a page |
| Tables.InsertIgnorePageKeepsKey | src/main/java/searchengine/model/Page.java:13-14 | the insert keeps (path, site) unique, keeps every row, leaves the key present, and changes nothing when the key exists |
| Tables.RemovePagesBySite | src/main/java/searchengine/repositories/PageRepositoryInterface.java:18-21 | exactly the site's pages go |
| Tables.RemovePage | src/main/java/searchengine/repositories/PageRepositoryInterface.java:23-25 | only the page at that path and site goes, and none is left there |
| Tables.RemovePagesBySiteCounts | src/main/java/searchengine/repositories/PageRepositoryInterface.java:20-27 | the site counts no pages afterwards and other sites keep their counts |
| Tables.FindLemma | src/main/java/searchengine/model/Lemma.java:16 | the row with (form, site) is found exactly when one exists |
| Tables.BumpFrequency | src/main/java/searchengine/model/Lemma.java:17-18 | per key (form, site): the stored frequency goes up by one exactly when the row holding the key has the bumped id, and no key gains or loses a row |
| Tables.UpsertExisting | src/main/java/searchengine/model/Lemma.java:16-18 | inserting an existing key keeps keys unique and adds one to that key's frequency only |
| Tables.UpsertNew | src/main/java/searchengine/model/Lemma.java:16-18 | inserting a new key keeps keys unique and gives it its own frequency; other keys keep theirs |
| Tables.SortByFrequency | src/main/java/searchengine/repositories/LemmaRepositoryInterface.java:15 | the rows come in ascending frequency and are a permutation of the input |
| Tables.FindByFormsAndSite | src/main/java/searchengine/repositories/LemmaRepositoryInterface.java:15-16 | exactly the site's rows with a listed form, in ascending frequency |
| Tables.FindByForms | src/main/java/searchengine/repositories/LemmaRepositoryInterface.java:18-19 | exactly the rows with a listed form on any site, in ascending frequency |
| Tables.RemoveLemmasBySite | src/main/java/searchengine/repositories/LemmaRepositoryInterface.java:23-24 | exactly the site's lemmas go |
| Tables.DecrementFrequencyEffect | src/main/java/searchengine/repositories/LemmaRepositoryInterface.java:28-29 | per key (form, site): the stored frequency drops by exactly one when the row holding the key has a listed id and is unchanged otherwise; no key gains or loses a row; an id listed twice counts once |
| Tables.RemoveNonPositive | src/main/java/searchengine/repositories/LemmaRepositoryInterface.java:33-34 | exactly the rows of frequency at most 0 go, on every site |
| Tables.CountsPartition | src/main/java/searchengine/repositories/LemmaRepositoryInterface.java:36 | a site's count plus the other sites' rows is the table size |
| Tables.RemoveIndexesBySite | src/main/java/searchengine/repositories/IndexRepositoryInterface.java:18-19 | exactly the postings of the site's pages go |
| Tables.RemoveIndexesByPage | src/main/java/searchengine/repositories/IndexRepositoryInterface.java:21-23 | exactly the page's postings go |
| Tables.LemmasOfPage | src/main/java/searchengine/repositories/IndexRepositoryInterface.java:25-26 | every lemma of a posting of the page is returned, and only such lemmas |
| Tables.LemmasOfPagePerPosting | src/main/java/searchengine/repositories/IndexRepositoryInterface.java:25-26 | one entry per posting of the page whose lemma row exists, in posting order: the k-th entry is the lemma row of the k-th such posting |
| Tables.PagesByForm | src/main/java/searchengine/utils/DataSaver.java:56-59 | the stored pages (of the site, when one is given) having a posting of a lemma with the form |
| Tables.PostingsOfPage | src/main/java/searchengine/services/IndexingServiceImpl.java:122 | exactly the page's postings |
| Tables.PostingsOfPageAndLemmas | src/main/java/searchengine/utils/DataSaver.java:61-63 | exactly the page's postings whose lemma is listed |
| Tables.UpdateSite | src/main/java/searchengine/repositories/SiteRepositoryInterface.java:19-20 | the row with the id gets status, time and error; keys and other rows are unchanged |
| Tables.FindSiteByUrl | src/main/java/searchengine/repositories/SiteRepositoryInterface.java:22 | a row is found exactly when one has that url, and it has it |
| Tables.RemoveSite | src/main/java/searchengine/repositories/SiteRepositoryInterface.java:26-27 | only the row with the id goes |
| Store.Database.constructor | src/main/java/searchengine/model/Site.java:18-20 | an empty store whose generated ids start at 1 |
| Store.Database.UpdateSite | src/main/java/searchengine/repositories/SiteRepositoryInterface.java:17-20 | only the site table changes, by the row update |
| Store.Database.RemoveSite | src/main/java/searchengine/repositories/SiteRepositoryInterface.java:24-27 | only the site table changes, by the row removal |
| Store.Database.SaveSite | src/main/java/searchengine/model/Site.java:18-20 | the site is appended under the next generated id |
| Store.Database.SavePage | src/main/java/searchengine/model/Page.java:13-21 | the page gets the next id and goes through the insert-ignore |
| Store.Database.RemovePagesBySite | src/main/java/searchengine/repositories/PageRepositoryInterface.java:18-21 | only the page table changes, losing the site's pages |
| Store.Database.RemoveByPathAndSite | src/main/java/searchengine/repositories/PageRepositoryInterface.java:23-25 | only the page table changes, losing that page |
| Store.Database.SaveLemma | src/main/java/searchengine/model/Lemma.java:17-18 | the upsert and its cascaded postings |
| Store.Database.RemoveLemmasBySite | src/main/java/searchengine/repositories/LemmaRepositoryInterface.java:21-24 | only the lemma table changes, losing the site's rows |
| Store.Database.DecrementFrequencyById | src/main/java/searchengine/repositories/LemmaRepositoryInterface.java:26-29 | only the lemma table changes; the listed rows, compared by id, lose one |
| Store.Database.RemoveIfFrequencyIsZero | src/main/java/searchengine/repositories/LemmaRepositoryInterface.java:31-34 | only the lemma table changes, losing the rows at or below zero |
| Store.Database.RemoveIndexesBySite | src/main/java/searchengine/repositories/IndexRepositoryInterface.java:16-19 | only the posting table changes, judged against the pages from before |
| Store.Database.RemoveByPage | src/main/java/searchengine/repositories/IndexRepositoryInterface.java:21-23 | only the posting table changes, losing the page's postings |
| DataSaver.RemoveAllBySiteEffect | src/main/java/searchengine/utils/DataSaver.java:78-83 | the cascade removes exactly the site's row, pages, lemmas and postings, and leaves no posting pointing at a deleted page |
| DataSaver.FindLemmas | src/main/java/searchengine/utils/DataSaver.java:50-54 | every site's rows for a null site, else that site's, always in ascending frequency |
| DataSaver.DataSaver.SaveSite | src/main/java/searchengine/utils/DataSaver.java:38-40 | the site is stored under the next id and returned with it |
| DataSaver.DataSaver.UpdateSiteRow | src/main/java/searchengine/utils/DataSaver.java:42-44 | the row takes the object's status, time and error |
| DataSaver.DataSaver.UpdateSite | src/main/java/searchengine/utils/DataSaver.java:46-48 | only the site's status, time and error change |
| DataSaver.DataSaver.SaveIndexingData | src/main/java/searchengine/utils/DataSaver.java:70-76 | nothing when the (path, site) is stored, else the page then every lemma through the upsert |
| DataSaver.DataSaver.RemoveAllBySite | src/main/java/searchengine/utils/DataSaver.java:78-83 | postings, lemmas, pages, then the row |
| DataSaver.DataSaver.RemoveIndexByPage | src/main/java/searchengine/utils/DataSaver.java:85-89 | returns the lemmas of the page's postings, then only the postings change |
| DataSaver.DataSaver.RemoveAllByPage | src/main/java/searchengine/utils/DataSaver.java:91-96 | postings, frequency decrement, zero cleanup and page removal, in that order |
| Bookkeeping.SavedAll | src/main/java/searchengine/utils/DataSaver.java:74 | saving the candidates one by one leaves every key with a row (old ones bumped once, new ones at 1) and postings covering exactly those rows |
| Bookkeeping.DecrementUndoes | src/main/java/searchengine/repositories/LemmaRepositoryInterface.java:28-34 | decrementing the saved rows and dropping rows at zero gives back the rows from before |
| Bookkeeping.PostingsUndone | src/main/java/searchengine/repositories/IndexRepositoryInterface.java:21-23 | removing the page's postings gives back the postings from before |
| Bookkeeping.ReferencedRows | src/main/java/searchengine/repositories/IndexRepositoryInterface.java:25-26 | the page's postings reference exactly the rows of the saved keys |
| Bookkeeping.PageUndone | src/main/java/searchengine/repositories/PageRepositoryInterface.java:23-25 | removing a page just inserted under a new key gives back the page table |
| Bookkeeping.RemovalUndoesSave | src/main/java/searchengine/utils/DataSaver.java:91-96 | removing the page after its save gives back the lemma rows, the postings and the sites |
| Bookkeeping.CandidatesUndone | src/main/java/searchengine/utils/DataSaver.java:70-96 | saving candidates on a page without postings and then removing the page gives back lemmas, postings and sites |
| Bookkeeping.SaveThenRemoveRestores | src/main/java/searchengine/utils/DataSaver.java:70-96 | with every frequency at least 1, saving a new page and removing it gives back all four tables: old frequencies return and created lemmas are deleted |
| IndexingService.BaseFormKeepsPlainPrefix | src/main/java/searchengine/services/IndexingServiceImpl.java:244-246 | a prefix without the letter w passes through the "www." removal unchanged |
| IndexingService.WwwAfterSchemeDropped | src/main/java/searchengine/services/IndexingServiceImpl.java:244-246 | "https://www.x" and "https://x" have the same base form |
| IndexingService.ConfigIndex | src/main/java/searchengine/services/IndexingServiceImpl.java:227-233 | the position of the first configured site whose base url prefixes the url, or -1 when none does |
| IndexingService.ConfigContainsUrl | src/main/java/searchengine/services/IndexingServiceImpl.java:227-233 | null exactly when no configured site's base url prefixes the url; otherwise such a site |
| IndexingService.ConfigContainsUrlIsFirst | src/main/java/searchengine/services/IndexingServiceImpl.java:227-233 | the first matching site in configuration order wins |
| IndexingService.Resolve | src/main/java/searchengine/services/IndexingServiceImpl.java:95-99 | no target exactly when no site matches the base form of the uri; a target's url is its site's base url |
| IndexingService.SelectTitle | src/main/java/searchengine/services/IndexingServiceImpl.java:164-173 | "Default Title" exactly when no "<title>" is followed by a "</title>"; otherwise the text between the first "<title>" and the last "</title>" (the greedy match) |
| IndexingService.TitleOfTitleElement | src/main/java/searchengine/services/IndexingServiceImpl.java:164-173 | a content that is exactly a title element yields its text |
| IndexingService.Hits | src/main/java/searchengine/services/IndexingServiceImpl.java:122-123 | the count of a page's matching postings is positive exactly when one posting's lemma has the form |
| IndexingService.PassMembers | src/main/java/searchengine/services/IndexingServiceImpl.java:120-124 | a page survives one round exactly when it was there and has a posting of the form |
| IndexingService.NarrowMembers | src/main/java/searchengine/services/IndexingServiceImpl.java:118-127 | a page comes out exactly when it went in and has a posting for every listed form; an empty list returns the pages |
| IndexingService.SumRanksBound | src/main/java/searchengine/services/IndexingServiceImpl.java:218-225 | with ranks not negative the sum is at least each posting's rank |
| IndexingService.SumRanksNonNegative | src/main/java/searchengine/services/IndexingServiceImpl.java:218-225 | with ranks not negative the sum is not negative |
| IndexingService.ConsumedListGivesZero | src/main/java/searchengine/services/IndexingServiceImpl.java:157 | the relevance against the emptied list is 0 |
| IndexingService.ConsumedListLosesRank | src/main/java/searchengine/services/IndexingServiceImpl.java:157 | a page with one posting of rank r gets 0 against the emptied list and r against the list holding its lemma |
| IndexingService.RelevanceCountsPostings | src/main/java/searchengine/services/IndexingServiceImpl.java:218-225 | against the query's lemmas a page's relevance is at least the rank of each of its postings for them |
| IndexingService.InsertByRelevanceCount | src/main/java/searchengine/services/IndexingServiceImpl.java:160 | an insertion adds exactly the entry |
| IndexingService.InsertByRelevanceSorted | src/main/java/searchengine/services/IndexingServiceImpl.java:160 | an insertion into entries sorted most relevant first keeps them sorted |
| IndexingService.SortByRelevanceSorted | src/main/java/searchengine/services/IndexingServiceImpl.java:160 | the sort puts the most relevant first and is a permutation |
| IndexingService.SortKeepsEqualOrder | src/main/java/searchengine/services/IndexingServiceImpl.java:160 | the sort is stable: entries of one relevance keep their order |
| IndexingService.Entries | src/main/java/searchengine/services/IndexingServiceImpl.java:150-159 | one entry per result page |
| IndexingService.EntryAt | src/main/java/searchengine/services/IndexingServiceImpl.java:150-159 | the i-th entry is the i-th page's, with its path, site, title and relevance |
| IndexingService.EntriesOfConsumedList | src/main/java/searchengine/services/IndexingServiceImpl.java:150-159 | as written, every entry has relevance 0 |
| IndexingService.SearchAnswerShape | src/main/java/searchengine/services/IndexingServiceImpl.java:130-162 | result is false and an error is set exactly for a blank query; data holds one entry per narrowed page of the rarest lemma, the count equals their number, and every relevance is 0, so the order is the narrowing order |
| IndexingService.SelectedPagesMembers | src/main/java/searchengine/services/IndexingServiceImpl.java:144-146 | a page is selected exactly when it is stored, belongs to the searched site if one was found, has the rarest form and a posting for every other listed form |
| IndexingService.IntendedSearchRanksPostings | src/main/java/searchengine/services/IndexingServiceImpl.java:150-160 | in the corrected answer each result page's entry is present, its relevance is at least the rank of each of its postings for a query lemma, and entries come most relevant first |
| IndexingService.PreparedSiteFitsUri | src/main/java/searchengine/services/IndexingServiceImpl.java:95-103 | the site used has the base url that with the path gives the uri's base form, is stored, and has no page left at the path |
| IndexingService.Halted | src/main/java/searchengine/services/IndexingServiceImpl.java:76-86 | the row of every tracked site becomes FAILED with the stop message and the stop time; every other row is unchanged; no row changes its key or position |
| IndexingService.HaltedStep | src/main/java/searchengine/services/IndexingServiceImpl.java:83-85 | marking one more site FAILED by the stop is one row update |
| IndexingService.Settled | src/main/java/searchengine/services/IndexingServiceImpl.java:256-269 | the row of every tracked site whose crawl has ended becomes INDEXED exactly when the crawl ended normally and FAILED otherwise, with the poll's time and the parser's error; every other row is unchanged; no row changes its key or position |
| IndexingService.SettledStep | src/main/java/searchengine/services/IndexingServiceImpl.java:258-268 | settling one more finished crawl is one row update with INDEXED or FAILED and the parser's error |
| IndexingService.SettledUnfinished | src/main/java/searchengine/services/IndexingServiceImpl.java:256-269 | a crawl not seen to end leaves its row alone |
| IndexingService.SiteDataDeletedKeepsCounter | src/main/java/searchengine/services/IndexingServiceImpl.java:248-251 | the cascade delete keeps the id counter |
| IndexingService.LaunchCounter | src/main/java/searchengine/services/IndexingServiceImpl.java:52-58 | every configured site takes one fresh id |
| IndexingService.LaunchTracksEverySite | src/main/java/searchengine/services/IndexingServiceImpl.java:52-58 | the launch tracks one crawl per configured site under consecutive fresh ids, each of a new INDEXING row under the site's base url |
| IndexingService.LaunchKeepsOthers | src/main/java/searchengine/services/IndexingServiceImpl.java:52-58 | crawls outside the fresh ids stay as they were |
| IndexingService.LemmaList.constructor | src/main/java/searchengine/services/IndexingServiceImpl.java:139 | the list holds the found lemmas |
| IndexingService.IndexingService.constructor | src/main/java/searchengine/services/IndexingServiceImpl.java:43-50 | the service starts with indexing off and no crawls |
| IndexingService.IndexingService.SaveSite | src/main/java/searchengine/services/IndexingServiceImpl.java:235-242 | the row under the base url, with INDEXING while indexing runs and INDEXED otherwise, is stored under the next id |
| IndexingService.IndexingService.DeleteAllSiteData | src/main/java/searchengine/services/IndexingServiceImpl.java:248-251 | the first row with the url is cascade-deleted, if there is one |
| IndexingService.IndexingService.StartIndexing | src/main/java/searchengine/services/IndexingServiceImpl.java:43-63 | while running: false with the "already started" error and nothing changes; otherwise true, the flag is set, each site's old data is replaced by a fresh row and its crawl tracked |
| IndexingService.IndexingService.LaunchSite | src/main/java/searchengine/services/IndexingServiceImpl.java:51-53 | the site's stored data is cascade-deleted and a fresh INDEXING row is stored under the next id, which the returned row carries |
| IndexingService.IndexingService.StopIndexing | src/main/java/searchengine/services/IndexingServiceImpl.java:66-90 | while stopped: false with the "not started" error and nothing stored changes; otherwise true, the flag is cleared, every tracked site is FAILED with the stop message and the map is empty |
| IndexingService.IndexingService.Poll | src/main/java/searchengine/services/IndexingServiceImpl.java:255-273 | ended crawls set their site INDEXED or FAILED keeping the error and leave the map; unfinished ones stay; the flag is cleared when the map empties |
| IndexingService.IndexingService.SettleSite | src/main/java/searchengine/services/IndexingServiceImpl.java:257-268 | reports whether the crawl ended; if it did, only its row changes, to INDEXED after a normal end and FAILED otherwise, with the parser's error and the poll's time |
| IndexingService.IndexingService.CopiesOf | src/main/java/searchengine/services/IndexingServiceImpl.java:122-123 | the page once per posting of it whose lemma has the form |
| IndexingService.IndexingService.SelectRound | src/main/java/searchengine/services/IndexingServiceImpl.java:120-124 | one narrowing round over every page |
| IndexingService.IndexingService.SelectPageWithLemma | src/main/java/searchengine/services/IndexingServiceImpl.java:118-127 | the list is emptied and the result is the narrowing by every listed lemma |
| IndexingService.IndexingService.CalculateRelevance | src/main/java/searchengine/services/IndexingServiceImpl.java:218-225 | the summed ranks of the page's postings of the listed lemmas |
| IndexingService.IndexingService.Search | src/main/java/searchengine/services/IndexingServiceImpl.java:130-162 | the answer described by SearchAnswerShape |
| IndexingService.IndexingService.EntriesOf | src/main/java/searchengine/services/IndexingServiceImpl.java:150-159 | one entry per selected page, in order, each carrying the page's relevance over the list as it stands |
| IndexingService.IndexingService.PrepareSite | src/main/java/searchengine/services/IndexingServiceImpl.java:100-103 | the site is found by base url or saved anew, and a stored page at the path is removed |
| IndexingService.IndexingService.IndexPage | src/main/java/searchengine/services/IndexingServiceImpl.java:93-116 | outside every site: false with that error and nothing changes; otherwise the parser's claims, the prepared store plus, when the page was saved, the lemma upserts and postings of records for the page's lemma counts, true exactly when the page was saved, the "not indexed" error when skipped or unsaved, an exception without a document or content type |
| Statistics.ItemOfConfiguredSite | src/main/java/searchengine/services/StatisticsServiceImpl.java:35-39 | an item reports its site's base url, says "DON'T INDEXING" exactly when no row has that url, and then has no pages, no lemmas and an empty error |
| Statistics.ItemOfStoredSite | src/main/java/searchengine/services/StatisticsServiceImpl.java:53-60 | a stored site's item carries the row's name, status and error and counts within the table sizes |
| Statistics.TotalsCoverEveryItem | src/main/java/searchengine/services/StatisticsServiceImpl.java:40-41 | each total is at least every item's count |
| Statistics.SumsNonNegative | src/main/java/searchengine/services/StatisticsServiceImpl.java:40-41 | totals are not negative |
| Statistics.StatisticsService.constructor | src/main/java/searchengine/services/StatisticsServiceImpl.java:24-25 | the service holds the configuration and the data saver |
| Statistics.StatisticsService.GetStatistics | src/main/java/searchengine/services/StatisticsServiceImpl.java:28-51 | result and indexing are true, sites is the number of configured sites, one item per configured site in order, and totals are the sums of the items |
| Statistics.StatisticsService.ItemFor | src/main/java/searchengine/services/StatisticsServiceImpl.java:36-39 | the item read off the row stored under the base url when the lookup finds one, and made up from the configuration otherwise |

## Left out

- The morphology library is a function parameter. Every kept analysis it returns must contain a bar (`WellFormed`); one without a bar would throw in the source.
- HTTP fetching is replaced by a `FetchOutcome` value: document, HTTP error code, unknown host, timeout or another I/O error. The pauses before each fetch are left out.
- HTML handling is left out: `deleteHtmlTags`, link extraction (the links are a parameter) and `selectSnippet`. Snippets are not part of `SearchData` here.
- Whether a database write succeeds is a parameter (`Option<int>`: the generated id, or nothing on failure).
- Clocks are parameters (`now`). The statistics' conversion to epoch milliseconds in the system zone is left out, and one `now` serves every fallback item.
- Concurrency is left out:
  - fork-join pools, `invokeAll` and the scheduled executor;
  - `shutdown`/`shutdownNow`;
  - the `synchronized` block in `DataSaver`;
  - the race between `containsKey` and `put` in `PageRepository.savePage`.

  Thread bodies run to their end inside `StartIndexing` and `StopIndexing`, and one supervisor tick is one `Poll`. A crawl's completion, as the supervisor sees it, is the `progress` parameter; an id missing from it counts as running.
- `poolParserMap` is keyed by the crawled site's id instead of the pool object.
- Crawls started by `StartIndexing` are not run: their effect is `SiteParser.SiteParser.Compute` for one unit. The children it returns stand for `invokeAll`.
- SiteParser.SiteParser.Compute: an exception escaping a unit completes that unit abnormally; how `invokeAll` rethrows it in the parent units is seen only through the `progress` parameter of the supervisor.
- SiteParser.SiteParser.IndexPage and IndexingService.IndexingService.IndexPage: the page row that `pageRepository.savePage` writes is recorded in the claim map of `PageRepository`, with the id given by the write-outcome parameter; it is not added to the page table of the `Store.Database`, which receives the lemma rows and the postings. A failing lemma or posting write (the repositories swallow the exception) is not modelled.
- Hibernate session handling in the repository classes is left out; only the queries they run are modelled. Where `SiteParser` updates a site, only its fields on the shared site object are modelled.
- `DataSaver` (DataSaver.java:11-14) imports the Hibernate classes `SiteRepository`, `PageRepository`, `IndexRepository` and `LemmaRepository`, but calls methods that only the `*RepositoryInterface` types declare: `removeIfFrequencyIsZero`, `removeAllBySite`, `countBySite`, `decrementFrequencyById` on a list, `update(status, time, error, id)` and a `findByUrl` returning `Optional`. The source as written does not compile. The model binds each such call to the interface's query. So `Store.Database.RemoveIfFrequencyIsZero` removes the rows with frequency `<= 0`, as `LemmaRepositoryInterface` says, and not every row at or above zero, as the `>= 0` of `LemmaRepository.deleteIfFrequencyIsZero` (LemmaRepository.java:62) would.
- The queries `findByLemma`, `findByLemmaAndSite`, `existsByPathAndSite` and `findByPageAndLemmaList` are named by `DataSaver` but declared in no repository interface shown, and `page.getIndexes()` in `IndexingServiceImpl` reads a lazily loaded association. They are modelled by the meaning of their names (`Tables.PagesByForm`, `Tables.HasPage`, `Tables.PostingsOfPageAndLemmas`, `Tables.PostingsOfPage`).
- Column lengths and nullability (a path of at most 255 characters, non-null columns) are not modelled.
- IndexingService.SortByRelevance: rank and relevance are integers, and the comparator's float subtraction truncated to `int` is modelled as an exact comparison. The sort is a stable insertion sort on values, not `List.sort` in place.
- IndexingService.SelectedPagesMembers: the first lemma's pages come from the query "has a posting whose lemma row has this form", and later rounds look a posting's lemma up by id. The two agree when lemma ids are unique, as the id column guarantees.
- Statistics.ItemOfStoredSite: it assumes a single row per url. `findByUrl` on several rows with one url would fail in the source.
- Statistics.StatisticsService.GetStatistics: the status time is kept as a `Time` value, not converted to epoch milliseconds.
- Text.ToLower: lower-casing covers only ASCII and the basic Cyrillic block. Only those characters survive the filter before it.

## Findings

| source | as written | input that shows it | evidently intended | confidence | as-written member | corrected member |
|---|---|---|---|---|---|---|
| src/main/java/searchengine/services/IndexingServiceImpl.java:157 | `calculateRelevance(page, lemmaList)` receives the list that `remove(0)` (line 144) and `selectPageWithLemma` (line 125) have emptied, so it sums the ranks of no postings | a non-blank query with one matching lemma and a result page holding one posting of rank 3 for it: relevance 0, not 3; every result gets 0, and the sort keeps the narrowing order | relevance sums the page's postings for all the query's lemmas, and results come most relevant first | high, not executed | IndexingService.ConsumedListLosesRank | IndexingService.IntendedSearchRanksPostings |
