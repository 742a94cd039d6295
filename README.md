# searchengine core, modelled in Dafny

This project models the core of a small Java (Spring Boot) search engine.
The engine crawls the configured sites and stores each page it fetches.
It splits the Russian text of every page into lemmas (normal forms counted
by a morphology dictionary) and keeps an inverted index from lemmas to pages.
It answers a query by ranking the pages of one site, or of every configured
site, by the summed frequency of the query's lemmas.

The persistence layer is four in-memory tables of records:

| table | record |
|---|---|
| sites | `SiteEntity` |
| pages | `PageEntity` |
| lemmas | `LemmaEntity` |
| index | `SearchIndex` |

Each table is a `seq` in stored (`findAll`) order with integer ids.

The modules follow the services:

| module | file | models |
|---|---|---|
| `Entities`, `Repository` | `entities.dfy`, `repository.dfy` | the records, and a `Database` class whose `save`, `saveAll`, `delete` and `deleteAll` methods reassign the tables |
| `LinkedMaps` | `linked_maps.dfy` | Java's `LinkedHashMap` as a sequence of pairs with distinct keys, kept in insertion order, and the stable stream sort |
| `Lemmatisation` | `lemmatisation.dfy` | `Lemmatisation.java`: text splitting, the function-word test and the lemma counter |
| `SiteParsing` | `site_parser.dfy` | `SiteParser.java`: the link filter, the per-URL fetch task and a sequential crawl built from it |
| `PageParsing` | `page_parser.dfy` | `PageParser.java`: re-indexing of one page |
| `Parsing` | `parsing_service.dfy` | `ParsingServiceImpl.java`: the start/stop state machine |
| `Statistics` | `statistics.dfy` | `StatisticsServiceImpl.java` |
| `LemmaRanking`, `Candidates`, `Grouping`, `Searching` | `lemma_ranking.dfy`, `candidates.dfy`, `grouping.dfy`, `searching.dfy` | the ranking pipeline of `SearchingServiceImpl.java` |

Services that change state are classes with `modifies` clauses:

- `Database`, `SiteParser`, `PageParser` and `ParsingService` are classes.
- Every loop is a method whose `ensures` ties its result to a specification function.
- Lemmas state what the source promises about that function.

The read-only searching and statistics services work on a `Tables` snapshot.

Things the engine takes from outside are parameters:

- the network fetch, as a `FetchOutcome`: a parsed document with its status, text and hrefs, an HTTP error status, or another I/O failure;
- the morphology dictionary, as three function values, where `None` stands for an exception the dictionary throws;
- the page title and the snippet generator, as function values;
- the clock, as a `Time` value.

Thrown exceptions that reach a caller are `Failure` results carrying the exception's name.

## Model

| member | source | states |
|---|---|---|
| Searching.GetSearchResults | src/main/java/searchengine/services/searching/SearchingServiceImpl.java:37-71 | An empty query answers `result = false` with the empty-query message, count 0 and no data. Any other answer that succeeds is `result = true` with count equal to the number of items, at most `limit` items, and nonincreasing relevance. The only failure is `NoSuchElementException`. A site URL that matches no stored site gives no results, or `NoSuchElementException` when offset is not 0. For a non-empty query, the query lemmas are some repetition-free enumeration of the key set of the query's lemma counts. The answer is then exactly what `Answers` gives for the map of the given site, or of all configured sites folded with `putAll`, built with those lemmas ranked rarest first. |
| Searching.AllSitesEntitiesList | src/main/java/searchengine/services/searching/SearchingServiceImpl.java:60-64 | The loop over the configured sites builds `AllSitesEntities`, the `putAll` fold of the per-site lemma/page maps in configuration order. |
| Searching.AllSitesEntitiesIsMap | src/main/java/searchengine/services/searching/SearchingServiceImpl.java:60-64 | The folded map repeats no key. |
| Searching.AllSitesEntitiesFrom | src/main/java/searchengine/services/searching/SearchingServiceImpl.java:60-64 | Every entry of the folded map is an entry of some configured site's map. |
| Searching.AllSitesEntitiesCover | src/main/java/searchengine/services/searching/SearchingServiceImpl.java:60-64 | Every key of every configured site's map is a key of the folded map. |
| Searching.Answer | src/main/java/searchengine/services/searching/SearchingServiceImpl.java:55-58 | Sorting, cutting and wrapping the grouped entries gives at most `limit` items in nonincreasing relevance, with count equal to their number. The failures are the two exception names only. An empty map answers no results, or `NoSuchElementException` when offset is not 0. The response is exactly what `Answers` states. The grouped pages are summed by relevance (`Relevances`) and sorted most relevant first. An offset on no pages fails with `NoSuchElementException`; otherwise the response succeeds exactly when every shown page's site row is stored, and its items are the shown pages' items in order. |
| Searching.EntitiesLocated | src/main/java/searchengine/services/searching/SearchingServiceImpl.java:207-214 | Every page of a stored site's map has its site row stored, because a candidate must belong to the site. |
| Searching.SearchEntitiesLocated | src/main/java/searchengine/services/searching/SearchingServiceImpl.java:55-64 | Every page the search ranks, for the given site or for all configured sites, has its site row stored. |
| Searching.RelevanceMapLocated | src/main/java/searchengine/services/searching/SearchingServiceImpl.java:266-286 | A relevance map's pages are pages of its entries, so their site rows are stored when the entries' are, and the map is empty exactly when there are no entries. |
| Searching.ShownLocated | src/main/java/searchengine/services/searching/SearchingServiceImpl.java:111-138 | Sorting and cutting keeps the length and keeps only pages whose site row is stored. |
| Searching.SearchFailsOnlyOnOffset | src/main/java/searchengine/services/searching/SearchingServiceImpl.java:55-58 | A search answer fails exactly when an offset is given and the ranked map is empty, and then with `NoSuchElementException`. The `EntityNotFoundException` branch cannot be reached from a search. |
| Searching.GetEntitiesList | src/main/java/searchengine/services/searching/SearchingServiceImpl.java:73-85 | The result is the composition of the candidate, filter and grouping steps, and it is a map with distinct keys. |
| Searching.FilteredMeaning | src/main/java/searchengine/services/searching/SearchingServiceImpl.java:76-80 | A page survives the candidate and filter steps exactly when there is at least one query lemma, the page is stored, and every ranked lemma reaches it on the site through an index row. |
| Searching.EntitiesMeaning | src/main/java/searchengine/services/searching/SearchingServiceImpl.java:73-85 | Every entry pairs a lemma row matching a query lemma ignoring case with a surviving page that an index row joins it to. Every such lemma row is a key. |
| Searching.EntitiesOfNoSite | src/main/java/searchengine/services/searching/SearchingServiceImpl.java:146-154 | The blank `SiteEntity` for an unknown site URL matches no page, so the map is empty. |
| Searching.Response | src/main/java/searchengine/services/searching/SearchingServiceImpl.java:87-93 | `result` is true, there is no error, the data are the given items and the count is their number. |
| Searching.GenerateSearchDataList | src/main/java/searchengine/services/searching/SearchingServiceImpl.java:111-138 | A non-zero offset on an empty map fails with `NoSuchElementException`. Otherwise exactly one leading entry is dropped when offset is not 0, whatever its size, and the next `min(limit, remaining)` entries become items in order. It fails with `EntityNotFoundException` exactly when a shown page's site row is missing. |
| Searching.CollectItems | src/main/java/searchengine/services/searching/SearchingServiceImpl.java:121-137 | The first `min(limit, size)` entries become items in order. Each item carries its page's site url and name, its shortened path, its title, its snippet and its summed relevance. Items are produced exactly when every shown page's site row is stored. |
| Searching.Shown | src/main/java/searchengine/services/searching/SearchingServiceImpl.java:117-124 | The shown entries are the entries after the dropped one, and there are `min(max(limit, 0), size - dropped)` of them. |
| Searching.ShownKeepsOrder | src/main/java/searchengine/services/searching/SearchingServiceImpl.java:117-136 | The cut keeps nonincreasing relevance. |
| Searching.AnswerShape | src/main/java/searchengine/services/searching/SearchingServiceImpl.java:117-136 | Listed items from entries sorted by relevance are at most `limit` and in nonincreasing relevance. |
| Searching.ShortThePath | src/main/java/searchengine/services/searching/SearchingServiceImpl.java:140-144 | The result is no longer than the path, and the path is unchanged when it does not contain the site URL. |
| Searching.ShortThePathOfSitePage | src/main/java/searchengine/services/searching/SearchingServiceImpl.java:140-144 | A path made of the site URL followed by a rest that does not contain it is shortened to that rest. |
| Searching.GetSiteEntity | src/main/java/searchengine/services/searching/SearchingServiceImpl.java:146-154 | The scan returns the last stored site whose URL equals the argument, and `None` when there is none. |
| Searching.SiteWithUrlFacts | src/main/java/searchengine/services/searching/SearchingServiceImpl.java:146-154 | `None` exactly when no stored site has the URL. Otherwise it is a stored site with that URL after which no site has it. |
| Searching.GenerateLemmasFromQuery | src/main/java/searchengine/services/searching/SearchingServiceImpl.java:163-165 | The query lemmas are exactly the keys of the lemma map of the query, each listed once. |
| LemmaRanking.Frequency | src/main/java/searchengine/services/searching/SearchingServiceImpl.java:172-177 | The inner loop sums `frequency` over every stored lemma row equal to the lemma ignoring case, across all sites. |
| LemmaRanking.FrequencySumConcat | src/main/java/searchengine/services/searching/SearchingServiceImpl.java:170-178 | The score of a table split in two is the sum of the scores of the parts. |
| LemmaRanking.NoMatchScoresZero | src/main/java/searchengine/services/searching/SearchingServiceImpl.java:170-178 | A lemma that no row matches scores 0. |
| LemmaRanking.NonMatchingRowsIgnored | src/main/java/searchengine/services/searching/SearchingServiceImpl.java:170-178 | Adding rows that do not match a lemma leaves its score unchanged. |
| LemmaRanking.ScoreLemmas | src/main/java/searchengine/services/searching/SearchingServiceImpl.java:170-178 | The first loop builds the map from each query lemma to its score, in set order. |
| LemmaRanking.ScoredIsMap | src/main/java/searchengine/services/searching/SearchingServiceImpl.java:170-178 | That map has distinct keys, which are the query lemmas in order. |
| LemmaRanking.RankedScores | src/main/java/searchengine/services/searching/SearchingServiceImpl.java:179-190 | The sorted map has distinct keys and one entry per query lemma, and every value is that lemma's summed frequency. |
| LemmaRanking.RankedKeys | src/main/java/searchengine/services/searching/SearchingServiceImpl.java:179-190 | The keys of the sorted map are exactly the query lemmas. |
| LemmaRanking.SortLemmasByFrequency | src/main/java/searchengine/services/searching/SearchingServiceImpl.java:166-191 | The result has exactly the query lemmas as keys, each with its summed frequency, and the scores are nondecreasing. |
| Candidates.FindRowsNamed | src/main/java/searchengine/services/searching/SearchingServiceImpl.java:202-207 | The rows collected are exactly the lemma rows whose text equals the lemma, case-sensitively, in stored order. |
| Candidates.PagesOfLemmasMembers | src/main/java/searchengine/services/searching/SearchingServiceImpl.java:208-218 | A page is collected exactly when it is stored, it is on the site, and an index row joins it to one of the rows. |
| Candidates.CollectPages | src/main/java/searchengine/services/searching/SearchingServiceImpl.java:208-218 | The nested loops produce the pages of the site reached from the rows through index rows, in loop order with repeats. |
| Candidates.GetPageEntityListFromFirstLemma | src/main/java/searchengine/services/searching/SearchingServiceImpl.java:193-224 | A page is a candidate exactly when the lemma map is not empty, the page is stored, and an index row joins it to a row equal to the rarest lemma. An empty lemma map gives no candidates. |
| Candidates.FirstLemmaPagesMeaning | src/main/java/searchengine/services/searching/SearchingServiceImpl.java:193-224 | The same characterisation, stated for the specification function. |
| Candidates.ContainsLemma | src/main/java/searchengine/services/searching/SearchingServiceImpl.java:243-252 | The flag is true exactly when the page is on the site and some index row joins it to one of the rows. |
| Candidates.ContainsMeansHasLemma | src/main/java/searchengine/services/searching/SearchingServiceImpl.java:234-252 | With the rows named by a lemma, that flag is the page having the lemma. |
| Candidates.FilterByLemma | src/main/java/searchengine/services/searching/SearchingServiceImpl.java:233-257 | One pass of the outer loop removes, one copy per failing check, every page that lacks the next lemma. |
| Candidates.RemoveFailing | src/main/java/searchengine/services/searching/SearchingServiceImpl.java:253-256 | Removing the first occurrence once per failing copy removes all copies of the failing pages and keeps the rest in order. |
| Candidates.FilterPagesByOtherLemmas | src/main/java/searchengine/services/searching/SearchingServiceImpl.java:226-264 | The result is the candidates that have every non-first lemma, in order and with their copies. |
| Candidates.FilterMeaning | src/main/java/searchengine/services/searching/SearchingServiceImpl.java:226-264 | A page keeps all its copies when it has every lemma after the first, and loses all of them otherwise. With one lemma or none the list is unchanged. |
| Candidates.SurvivorsCount | src/main/java/searchengine/services/searching/SearchingServiceImpl.java:226-264 | The same multiplicity statement, for the first `k` lemmas. |
| Grouping.QueryRowsMembers | src/main/java/searchengine/services/searching/SearchingServiceImpl.java:294-300 | The rows collected are exactly the stored lemma rows equal to some query lemma ignoring case. |
| Grouping.FindQueryRows | src/main/java/searchengine/services/searching/SearchingServiceImpl.java:294-300 | The loop collects those rows, lemma by lemma in stored order. |
| Grouping.JoinPairsMembers | src/main/java/searchengine/services/searching/SearchingServiceImpl.java:302-311 | The pairs put are exactly the (row, page) pairs in which an index row joins a collected row to a filtered page. |
| Grouping.PutPairsOfIndex | src/main/java/searchengine/services/searching/SearchingServiceImpl.java:304-309 | The innermost loop puts the pairs of one index row and one page. |
| Grouping.PutPairsOfPage | src/main/java/searchengine/services/searching/SearchingServiceImpl.java:303-310 | The loop over the index puts the pairs of one page. |
| Grouping.CompareFinalPagesAndLemmas | src/main/java/searchengine/services/searching/SearchingServiceImpl.java:288-316 | The result is the linked map made by the puts of every joined pair, so a later page overwrites an earlier one. It has distinct keys. |
| Grouping.GroupingMeaning | src/main/java/searchengine/services/searching/SearchingServiceImpl.java:288-316 | Every key is a lemma row matching a query lemma ignoring case, and its value is a filtered page joined to it by an index row. Every such row is a key. |
| Grouping.SortPagesByRelevance | src/main/java/searchengine/services/searching/SearchingServiceImpl.java:266-286 | Each page's value is the summed frequency of the rows mapped to it. The pages present are exactly the values of the input. They are ordered by their last occurrence, because the code removes and re-puts. The values add up to the total frequency of the keys. The result is `Relevances`, one remove/re-put step per entry. |
| Grouping.RelevancesMeaning | src/main/java/searchengine/services/searching/SearchingServiceImpl.java:266-286 | The remove/re-put steps over all entries build a map with exactly the properties listed for `SortPagesByRelevance`. |
| Grouping.AccumulateStep | src/main/java/searchengine/services/searching/SearchingServiceImpl.java:271-281 | One remove/re-put step keeps that invariant. |
| Grouping.AddEntry | src/main/java/searchengine/services/searching/SearchingServiceImpl.java:271-281 | The loop body removes the page, if present, and re-puts it with the entry's frequency added to its old value. |
| Grouping.SortPages | src/main/java/searchengine/services/searching/SearchingServiceImpl.java:318-335 | The result is a permutation of the same (page, relevance) pairs with nonincreasing relevance, and it is still a map. |
| LinkedMaps.Get | src/main/java/searchengine/services/searching/SearchingServiceImpl.java:272-274 | `None` exactly when the key is absent, and otherwise the value stored under it. |
| LinkedMaps.PutFacts | src/main/java/searchengine/services/searching/SearchingServiceImpl.java:306 | A put keeps the keys distinct and stores the value. It replaces only the entry with that key and keeps the order of the keys when the key was present. |
| LinkedMaps.RemoveFacts | src/main/java/searchengine/services/searching/SearchingServiceImpl.java:275 | A remove drops exactly the entry with that key. |
| LinkedMaps.PutAllMembers | src/main/java/searchengine/services/searching/SearchingServiceImpl.java:63 | Every entry after `putAll` comes from the map or from the pairs. |
| LinkedMaps.PutAllCovers | src/main/java/searchengine/services/searching/SearchingServiceImpl.java:63 | Every key of the map and of the pairs is present after `putAll`. |
| LinkedMaps.SortBy | src/main/java/searchengine/services/searching/SearchingServiceImpl.java:179-188 | The stream sort returns a permutation ordered by the key. |
| LinkedMaps.SortedMap | src/main/java/searchengine/services/searching/SearchingServiceImpl.java:179-188 | Sorting a map gives a map with the same entries. |
| Lemmatisation.GetLemmas | src/main/java/searchengine/services/parsing/Lemmatisation.java:23-54 | Each token that is non-blank, not a function word, has a non-empty normal-form list and raises no exception is counted under its first normal form. The result is the multiplicity of those forms, and every count is at least 1. |
| Lemmatisation.CountLemmas | src/main/java/searchengine/services/parsing/Lemmatisation.java:27-52 | The counting loop builds the multiplicity map of the surviving normal forms. |
| Lemmatisation.NormalWordsMembers | src/main/java/searchengine/services/parsing/Lemmatisation.java:27-48 | A form is counted exactly when some token yields it. |
| Lemmatisation.LemmaCountsOrderFree | src/main/java/searchengine/services/parsing/Lemmatisation.java:27-52 | The counts do not depend on the order of the tokens. |
| Lemmatisation.LemmaCountsSum | src/main/java/searchengine/services/parsing/Lemmatisation.java:27-52 | The counts add up to the number of surviving tokens. |
| Lemmatisation.TallySum | src/main/java/searchengine/services/parsing/Lemmatisation.java:44-48 | The counts of any word list add up to its length. |
| Lemmatisation.TallyAppend | src/main/java/searchengine/services/parsing/Lemmatisation.java:44-48 | One more word adds 1 to its count, or enters it with count 1. |
| Lemmatisation.SplitTextTokens | src/main/java/searchengine/services/parsing/Lemmatisation.java:56-62 | There is at least one token. Every token consists of `А`-`я` letters only. Their concatenation is the filtered text without whitespace. The only possible empty token is the single `""` left when no letter survives. |
| Lemmatisation.NoLettersNoLemmas | src/main/java/searchengine/services/parsing/Lemmatisation.java:27-31 | A text without an `А`-`я` letter, blank text included, splits into `[""]` and yields an empty lemma map. |
| Lemmatisation.IsNotWordMeaning | src/main/java/searchengine/services/parsing/Lemmatisation.java:64-72 | It is true exactly when the upper-cased morph info contains `МЕЖД`, `ПРЕДЛ` or `СОЮЗ` and `checkString` holds. It is an exception when `getMorphInfo` throws. |
| Lemmatisation.ScanParticlesMeaning | src/main/java/searchengine/services/parsing/Lemmatisation.java:66-71 | The early-return loop over the class names is "some name occurs, and the check holds". |
| SiteParsing.CollectLinks | src/main/java/searchengine/services/parsing/SiteParser.java:87-116 | The loop builds the filtered, de-duplicated link list. |
| SiteParsing.CollectedLinksShape | src/main/java/searchengine/services/parsing/SiteParser.java:88-109 | The first element is the page URL. Every later element is an href that starts with the current page URL (not the root), contains no `#`, does not end with `.shtml`, `.pdf`, `.xml` or `?main_click`, and contains neither `?page=` nor `?ref`. |
| SiteParsing.CollectedLinksDistinct | src/main/java/searchengine/services/parsing/SiteParser.java:110-113 | The list has no duplicates. |
| SiteParsing.CollectedLinksComplete | src/main/java/searchengine/services/parsing/SiteParser.java:93-114 | Every qualifying href is in the list. |
| SiteParsing.CollectedLinksOrder | src/main/java/searchengine/services/parsing/SiteParser.java:93-114 | The later elements are in order of first occurrence among the hrefs. |
| SiteParsing.SiteParser.HandOut | src/main/java/searchengine/services/parsing/SiteParser.java:63-73 | The spawned children are the links not yet handed out, in link order, and `hrefList` becomes the old set united with the links. |
| SiteParsing.SpawnedMembers | src/main/java/searchengine/services/parsing/SiteParser.java:63-73 | A link is spawned exactly when it is in the list and was not handed out before. |
| SiteParsing.SpawnedDistinct | src/main/java/searchengine/services/parsing/SiteParser.java:63-73 | No link is spawned twice by one task. |
| SiteParsing.SpawnedOrder | src/main/java/searchengine/services/parsing/SiteParser.java:63-73 | The spawned links keep link order. |
| SiteParsing.SiteParser.Compute | src/main/java/searchengine/services/parsing/SiteParser.java:45-84 | After a fetch, exactly one page is saved, with the site, path = URL, content = document text and code = HTTP status, and the new links are spawned. On an HTTP error status nothing is saved and nothing is spawned. Another I/O failure is an `IOException` with nothing saved. The other tables never change. |
| SiteParsing.SiteParser.Crawl | src/main/java/searchengine/services/parsing/SiteParser.java:45-84 | Run sequentially from the root, every handed-out URL is fetched exactly once. `hrefList` grows by exactly the fetched URLs, and every link collected from a fetched page is handed out. The saved pages are, in fetch order, one per successfully fetched URL with its status and text, and earlier pages are kept. Every URL fetched after the root was collected from a page fetched before it. |
| SiteParsing.CrawlAdvance | src/main/java/searchengine/services/parsing/SiteParser.java:61-73 | One fetch keeps the crawl invariant, and either hands out a new URL from the finite set of URLs reachable from the site or ends that branch. |
| SiteParsing.SavedPagesPaths | src/main/java/searchengine/services/parsing/SiteParser.java:53-59 | A saved page belongs to the site and is a fetched URL with its status and text. Every successfully fetched URL has a saved page. |
| SiteParsing.SavedPagesUniquePaths | src/main/java/searchengine/services/parsing/SiteParser.java:53-59 | No two pages saved by the crawl have the same path. |
| PageParsing.FindPage | src/main/java/searchengine/services/parsing/PageParser.java:45-51 | The scan finds the first stored page whose path equals the URL ignoring case, and `None` when there is none. |
| PageParsing.IndexRowsOf | src/main/java/searchengine/services/parsing/PageParser.java:53-58 | The index rows collected are exactly those that reference the page. |
| PageParsing.PageParser.RemoveOld | src/main/java/searchengine/services/parsing/PageParser.java:45-61 | The page found (or, when none is found, the page of an earlier call) is deleted together with its index rows. The site and lemma tables are unchanged. |
| PageParsing.DeletionFacts | src/main/java/searchengine/services/parsing/PageParser.java:52-61 | The deletion removes exactly that page and the index rows referencing it, and leaves every other page and index row. |
| PageParsing.DeletionCount | src/main/java/searchengine/services/parsing/PageParser.java:45-61 | The deletion never adds a page with the URL, and it removes exactly one when one is stored. |
| PageParsing.PageParser.ParsePage | src/main/java/searchengine/services/parsing/PageParser.java:43-103 | The deletion comes first. After a fetch, when the site is a stored row, one page is saved with the site, path = URL, content = serialised HTML and the status code. The site keeps its id, becomes INDEXED at the given time and is saved in place, with the stored row keeping its name. One lemma row with that site id and one index row are added per lemma of the page text. Lemma rows are never deleted. When the site is not stored, the page save is refused: the answer is a `DataAccessException`, only the deletion has happened, and the `document` and `page` fields hold the fetched document and the unsaved page. On a failed fetch only the deletion has happened: pages and index rows lose the deleted page, and the `page` field holds it. The document, site, lemma rows and id counters are unchanged. When at most one stored page matches the URL ignoring case, exactly one matches after a successful re-index. A failed fetch or a refused save never adds a match, and removes one when one is stored. |
| PageParsing.PageParser.Store | src/main/java/searchengine/services/parsing/PageParser.java:69-99 | The save part on its own, for a stored site: the page, the site saved in place as INDEXED with its id kept and the stored name left as it was, one lemma row per lemma with that site id, and one index row per lemma row. |
| PageParsing.LemmaRows | src/main/java/searchengine/services/parsing/PageParser.java:85-97 | The loop builds one lemma row (site, lemma, frequency = count) per map entry and one index row (page, that row, rank = count) beside it. |
| PageParsing.SaveLemmas | src/main/java/searchengine/services/parsing/PageParser.java:98-99 | The two `saveAll` calls append exactly those rows, with fresh ids, and the index rows point at the lemma rows as stored. |
| PageParsing.MatchCountFirst | src/main/java/searchengine/services/parsing/PageParser.java:45-51 | Some stored page matches the URL ignoring case exactly when the scan finds one. |
| Parsing.ParsingService.StartIndexing | src/main/java/searchengine/services/parsing/ParsingServiceImpl.java:36-71 | While started, it answers `(false, "Already started")` and changes nothing. Otherwise it empties the page and site tables and leaves the lemma and index tables alone. It then stores one row per configured site, in config order, with name and URL copied and status INDEXED. It hands each site's crawl, seeded with the site URL, to a new pool without waiting. It answers `true` and leaves `started` false. |
| Parsing.ParsingService.BeginIndexing | src/main/java/searchengine/services/parsing/ParsingServiceImpl.java:37-44 | The opening of start refuses a second start, and otherwise raises `started` and empties the page and site tables only. |
| Parsing.ParsingService.IndexSite | src/main/java/searchengine/services/parsing/ParsingServiceImpl.java:47-68 | One site's row is appended as INDEXED with a fresh id, and its crawl task goes to a fresh pool. |
| Parsing.ParsingService.FinishIndexing | src/main/java/searchengine/services/parsing/ParsingServiceImpl.java:69-70 | `started` becomes false and the answer is `true`. |
| Parsing.ParsingService.StopIndexing | src/main/java/searchengine/services/parsing/ParsingServiceImpl.java:74-91 | When not started, it answers `(false, "Indexing is not started")` and changes nothing. Otherwise `started` is cleared. With no pool yet it is a `NullPointerException`. Otherwise the last pool's tasks are dropped, every INDEXING site becomes FAILED with "Indexing stopped" at the given time, every other row is unchanged, and the answer is `true`. |
| Parsing.MarkStopped | src/main/java/searchengine/services/parsing/ParsingServiceImpl.java:81-89 | The loop rewrites exactly the INDEXING sites. |
| Parsing.StoppedFacts | src/main/java/searchengine/services/parsing/ParsingServiceImpl.java:81-89 | After the stop, no site is INDEXING, ids and order are kept, and sites that were not INDEXING are unchanged. |
| Statistics.GetStatistics | src/main/java/searchengine/services/StatisticsServiceImpl.java:45-82 | `result` is true. `total.sites` is the number of configured sites and `indexing` is true. There is one detailed item per configured site, in config order. `total.pages` and `total.lemmas` are the sums over the filled items. |
| Statistics.ItemFilled | src/main/java/searchengine/services/StatisticsServiceImpl.java:54-72 | An item carries its site's name and URL. It is filled exactly when the last stored site of that name exists and is INDEXED, and it keeps zero counts when it is not filled. |
| Statistics.TotalsOverAllItems | src/main/java/searchengine/services/StatisticsServiceImpl.java:69-70 | The totals equal the plain sums of the item counts, since unfilled items count 0. |
| Statistics.CountPages | src/main/java/searchengine/services/StatisticsServiceImpl.java:84-93 | The count is the number of pages whose site id is the site's. |
| Statistics.CountLemmas | src/main/java/searchengine/services/StatisticsServiceImpl.java:95-104 | The count is the number of lemma rows whose site id is the site's. |
| Statistics.GetSiteFromRepository | src/main/java/searchengine/services/StatisticsServiceImpl.java:106-115 | The scan returns the last stored site whose name equals the configured name, and `None` (null) when there is none. |
| Statistics.LastNamed | src/main/java/searchengine/services/StatisticsServiceImpl.java:106-115 | `None` exactly when no stored site has the name. Otherwise it is a stored site with that name after which none has it. |
| Repository.Database.SaveSite | src/main/java/searchengine/services/parsing/ParsingServiceImpl.java:54 | `save` updates the row in place when the id is stored, keeping the stored name because the name column is not updatable. Otherwise it inserts with the next id. No other table changes. |
| Repository.Database.DeleteAllIndices | src/main/java/searchengine/services/parsing/PageParser.java:59 | `deleteAll(rows)` removes every stored row whose id is among the rows, and nothing else. |
| Repository.PagesWithoutOrdered | src/main/java/searchengine/services/parsing/PageParser.java:60 | Deleting a page keeps the ids ordered, and every row left was stored before. |

## Left out

- The network fetch, the user agent, the referrer and `Thread.sleep` are I/O. A fetch is an input `FetchOutcome`, and in a crawl it is a lookup in a finite `web` map in which an unknown URL answers HTTP 404.
- Jsoup's HTML parsing (`select("a[href]")`, `abs:href`, `text()`, `title()`, `String.valueOf(document)`) is library code. The fetched document carries its hrefs, text and HTML, and the title is a function parameter.
- The morphology dictionary is a foreign resource. Its three calls are function parameters.
- `SnippetGenerator` is not part of this model. The snippet is a function parameter.
- Concurrency is sequentialised.
  - `ForkJoinPool`, `fork`/`join`, `shutdown`/`shutdownNow` and the `synchronized` methods are not modelled as threads.
  - The crawl is a sequential worklist that visits breadth-first, so the order of saved pages differs from a parallel run. The check-then-add race on `hrefList` cannot occur in it.
  - Crawl tasks handed to a pool are recorded as data and not run. `shutdownNow` drops the tasks of the pool created last, which is the only one that `forkJoinPool` still refers to.
  - A stop that interleaves with a running start is modelled only at the step boundaries (`BeginIndexing`, `IndexSite`, `FinishIndexing`). The moment at which a site row is still INDEXING inside one site's step is not visible to a stop.
- Parsing.ParsingService.IndexSite: the INDEXING save and the INDEXED re-save of the same row are merged into their final state, with one `now` for both timestamps.
- Clocks (`LocalDateTime.now()`) are `Time` parameters. The epoch-millisecond conversion in statistics is a function parameter.
- `shortThePath` reads `replaceAll(siteURL, "")` as removal of literal occurrences. Java treats the site URL as a regular expression there.
- `toLowerCase`, `toUpperCase` and `equalsIgnoreCase` are modelled for ASCII and Cyrillic letters only. There is no other Unicode case mapping.
- The float fields (`searchRank`, `relevance`) are `int`, because they only ever receive integer values.
- Java's 32-bit `int` overflow of frequency sums, counts and statistics totals is not modelled. The model's integers are unbounded.
- The iteration order of `HashMap` and `HashSet` (the query lemmas and the lemma map of a page) is arbitrary. It is fixed once, as any enumeration of the set, and every later step uses that order.
- Site equality in the search (`page.getSiteID().equals(site)`) is id equality. The blank `new SiteEntity()` for an unknown site URL is `None` and matches no page.
- Database foreign keys, cascades and lazy loading are not modelled, except that a page save whose site is not stored fails in `PageParsing.PageParser.ParsePage`. The foreign key from a page to its site (PageEntity.java) keeps every page's site stored; in the model a page whose site is not stored is never a candidate, so a search never reaches the `EntityNotFoundException` branch of `generateSearchDataList` (`SearchFailsOnlyOnOffset`).
- Parsing.ParsingService.StartIndexing: the index rows refer to pages with no cascade, so once any index row is stored `pageRepository.deleteAll()` (ParsingServiceImpl.java:43) is refused by the database; the exception escapes with `started` still true and every later start answers "Already started". The model empties the page table and leaves the index rows pointing at deleted pages.
- Saves of pages, lemma rows and index rows always insert; sites get the update-or-insert of JPA `save`, where an update leaves the non-updatable name as stored (`parsePage` discards what `save` returns, so its `site` keeps the stored id and the name it was given).
- Repository.Database.SavePage: the unique constraint on `page_path` (PageEntity.java, the `path_index` index and the column) is not modelled. A Java save of a path already stored throws `DataIntegrityViolationException`; the model appends the page anyway. How paths compare there depends on the database collation.
- SiteParsing.SiteParser.Compute: a page save that breaks the unique path (for instance when configured sites overlap) would let `DataIntegrityViolationException` escape `compute`, with no link handed out; the model saves and hands out.
- PageParsing.PageParser.Store: a page save that breaks the unique path (for instance when two stored paths differ only in case and the one deleted is not the exact match) would let `DataIntegrityViolationException` escape `parsePage` before the site, lemma and index rows are saved; the model saves them all.
- LinkedMaps.SortBy: the stability of the stream sort is not stated. Equal keys are kept in input order by the insertion sort, but no lemma says so.
- The `Integer` parameters `offset` and `limit` of `getSearchResults` are never null in the model. Unboxing null is not modelled.
- `System.out.println` logging is left out. So are the Spring configuration, the controllers, the DTO builders and the repository interfaces beyond `findAll`, `save`, `saveAll`, `delete` and `deleteAll`.
- The constructors of `Lemmatisation` (loading the dictionary) and of the services (dependency injection) are not modelled beyond storing their arguments.
