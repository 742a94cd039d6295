/**
 * SearchingServiceImpl.getSearchResults and the steps it composes: the query
 * is lemmatised, the lemmas are ranked rarest first, the candidate pages of
 * one site (or of every configured site) are narrowed to those every lemma
 * reaches, grouped with their lemma rows, scored, sorted and turned into
 * result items, one page of results.
 */
module Searching {
  import opened Wrappers
  import opened Strings
  import opened Entities
  import opened Repository
  import opened Lemmatisation
  import opened LinkedMaps
  import opened LemmaRanking
  import opened Candidates
  import opened Grouping

  /** dto.searching.SearchData; the float relevance only ever holds an integer sum. */
  datatype SearchData = SearchData(
    site: string,
    siteName: string,
    uri: string,
    title: string,
    snippet: string,
    relevance: int)

  /** dto.searching.SearchResponse */
  datatype SearchResponse = SearchResponse(result: bool, error: Option<string>, count: int, data: seq<SearchData>)

  /** The answer to an empty query. */
  const EmptyQueryError := "Задан пустой поисковый запрос"

  function Min(a: int, b: int): int {
    if a <= b then a else b
  }

  function Max(a: int, b: int): int {
    if a >= b then a else b
  }

  // ---------------------------------------------------------------------------
  // getSiteEntity, shortThePath, response

  /** The last stored site whose url equals `url` exactly, or `None` (the blank `new SiteEntity()`). */
  function SiteWithUrl(sites: seq<SiteEntity>, url: string): Option<SiteEntity>
    decreases |sites|
  {
    if |sites| == 0 then None
    else if sites[|sites| - 1].url == url then Some(sites[|sites| - 1])
    else SiteWithUrl(sites[..|sites| - 1], url)
  }

  /** `None` exactly when no site has the url; otherwise the last site that has it. */
  lemma {:induction false} SiteWithUrlFacts(sites: seq<SiteEntity>, url: string)
    ensures SiteWithUrl(sites, url).None? <==> forall i :: 0 <= i < |sites| ==> sites[i].url != url
    ensures SiteWithUrl(sites, url).Some? ==>
      exists i :: 0 <= i < |sites| && sites[i] == SiteWithUrl(sites, url).value && sites[i].url == url &&
        (forall j :: i < j < |sites| ==> sites[j].url != url)
    decreases |sites|
  {
    if |sites| > 0 && sites[|sites| - 1].url != url {
      var init := sites[..|sites| - 1];
      SiteWithUrlFacts(init, url);
      assert forall i :: 0 <= i < |init| ==> init[i] == sites[i];
      if SiteWithUrl(init, url).Some? {
        var i :| 0 <= i < |init| && init[i] == SiteWithUrl(init, url).value && init[i].url == url &&
          (forall j :: i < j < |init| ==> init[j].url != url);
        assert sites[i] == SiteWithUrl(sites, url).value;
      }
    } else if |sites| > 0 {
      assert sites[|sites| - 1] == SiteWithUrl(sites, url).value;
    }
  }

  /** getSiteEntity: the scan over the site table keeps the last match. */
  method GetSiteEntity(siteURL: string, siteRows: seq<SiteEntity>) returns (siteEntity: Option<SiteEntity>)
    ensures siteEntity == SiteWithUrl(siteRows, siteURL)
  {
    siteEntity := None;
    var i := 0;
    while i < |siteRows|
      invariant 0 <= i <= |siteRows|
      invariant siteEntity == SiteWithUrl(siteRows[..i], siteURL)
    {
      assert siteRows[..i + 1][..i] == siteRows[..i];
      if siteRows[i].url == siteURL {
        siteEntity := Some(siteRows[i]);
      }
      i := i + 1;
    }
    assert siteRows[..i] == siteRows;
  }

  /** shortThePath: the page url with every occurrence of the site url removed. */
  function ShortThePath(page: PageEntity, site: SiteEntity): (r: string)
    ensures |r| <= |page.path|
    ensures !Contains(page.path, site.url) ==> r == page.path
  {
    RemoveAll(page.path, site.url)
  }

  /** A page url made of the site url and a rest that does not repeat it shortens to that rest. */
  lemma ShortThePathOfSitePage(page: PageEntity, site: SiteEntity, rest: string)
    requires site.url != [] && page.path == site.url + rest && !Contains(rest, site.url)
    ensures ShortThePath(page, site) == rest
  {
    RemoveAllPrefix(site.url, rest);
  }

  /** response: a successful answer carrying the items and their number. */
  function Response(searchData: seq<SearchData>): (r: SearchResponse)
    ensures r.result && r.error.None? && r.count == |r.data| && r.data == searchData
  {
    SearchResponse(true, None, |searchData|, searchData)
  }

  // ---------------------------------------------------------------------------
  // generateSearchDataList

  /**
   * The entries that become items: without the first entry when the offset
   * is not 0, then at most `limit` of them.
   */
  function Shown(sortedPages: seq<(PageEntity, int)>, offset: int, limit: int): (r: seq<(PageEntity, int)>)
    requires offset == 0 || |sortedPages| > 0
    ensures var drop := if offset != 0 then 1 else 0;
      && |r| == Min(Max(limit, 0), |sortedPages| - drop)
      && forall i :: 0 <= i < |r| ==> r[i] == sortedPages[i + drop]
  {
    var kept := if offset != 0 then sortedPages[1..] else sortedPages;
    kept[..Min(Max(limit, 0), |kept|)]
  }

  /** The site row of every entry exists. */
  predicate Located(entries: seq<(PageEntity, int)>, sites: seq<SiteEntity>) {
    forall i :: 0 <= i < |entries| ==> FindSite(sites, entries[i].0.siteId) >= 0
  }

  /**
   * generateSearchData for one entry: the site's url and name, the shortened
   * path, the title and snippet of the page content, and the relevance.
   */
  function Item(entry: (PageEntity, int), site: SiteEntity, query: seq<string>,
                title: string -> string, snippet: (string, seq<string>) -> string): SearchData
  {
    SearchData(site.url, site.name, ShortThePath(entry.0, site), title(entry.0.content), snippet(entry.0.content, query), entry.1)
  }

  /**
   * The loop of generateSearchDataList: the first `limit` entries become
   * items; an entry whose site row is missing stops it.
   */
  method CollectItems(pages: seq<(PageEntity, int)>, lemmasFromQuery: seq<string>, limit: int,
                      sites: seq<SiteEntity>, title: string -> string, snippet: (string, seq<string>) -> string)
    returns (r: Result<seq<SearchData>>)
    ensures var shown := pages[..Min(Max(limit, 0), |pages|)];
      && (r.Success? <==> Located(shown, sites))
      && (r.Failure? ==> r.error == "EntityNotFoundException")
      && (r.Success? ==> |r.value| == |shown|)
      && (r.Success? ==> forall i :: 0 <= i < |shown| ==>
            r.value[i] == Item(shown[i], sites[FindSite(sites, shown[i].0.siteId)], lemmasFromQuery, title, snippet))
  {
    ghost var shown := pages[..Min(Max(limit, 0), |pages|)];
    var dataList: seq<SearchData> := [];
    var count := 0;
    var i := 0;
    while i < |pages|
      invariant 0 <= i <= |pages|
      invariant count == Min(i, Max(limit, 0)) && count <= |shown|
      invariant |dataList| == count
      invariant forall j :: 0 <= j < count ==> FindSite(sites, shown[j].0.siteId) >= 0
      invariant forall j :: 0 <= j < count ==>
        dataList[j] == Item(shown[j], sites[FindSite(sites, shown[j].0.siteId)], lemmasFromQuery, title, snippet)
    {
      var entry := pages[i];
      if count < limit {
        assert entry == shown[count];
        var k := FindSite(sites, entry.0.siteId);
        if k < 0 {
          return Failure("EntityNotFoundException");
        }
        var site := sites[k];
        dataList := dataList + [SearchData(site.url, site.name, ShortThePath(entry.0, site), title(entry.0.content),
          snippet(entry.0.content, lemmasFromQuery), entry.1)];
        count := count + 1;
      }
      i := i + 1;
    }
    return Success(dataList);
  }

  /**
   * What generateSearchDataList answers for the sorted entries: a non-zero
   * offset on no entries fails with NoSuchElementException; otherwise the
   * shown entries become items in order, and it fails with
   * EntityNotFoundException exactly when a shown page's site row is missing.
   */
  predicate ListsItems(sortedPages: seq<(PageEntity, int)>, lemmasFromQuery: seq<string>, limit: int, offset: int,
                       sites: seq<SiteEntity>, title: string -> string, snippet: (string, seq<string>) -> string,
                       r: Result<seq<SearchData>>)
  {
    if offset != 0 && |sortedPages| == 0 then r == Failure("NoSuchElementException")
    else
      var shown := Shown(sortedPages, offset, limit);
      && (r.Success? <==> Located(shown, sites))
      && (r.Failure? ==> r.error == "EntityNotFoundException")
      && (r.Success? ==> |r.value| == |shown|)
      && (r.Success? ==> forall i :: 0 <= i < |shown| ==>
            r.value[i] == Item(shown[i], sites[FindSite(sites, shown[i].0.siteId)], lemmasFromQuery, title, snippet))
  }

  /**
   * generateSearchDataList. `title` is Jsoup's title of a page's content and
   * `snippet` the snippet generator over a content and the query lemmas.
   */
  method GenerateSearchDataList(sortedPages: seq<(PageEntity, int)>, lemmasFromQuery: seq<string>, limit: int, offset: int,
                                sites: seq<SiteEntity>, title: string -> string, snippet: (string, seq<string>) -> string)
    returns (r: Result<seq<SearchData>>)
    ensures ListsItems(sortedPages, lemmasFromQuery, limit, offset, sites, title, snippet, r)
  {
    var pages := sortedPages;
    if offset != 0 {
      if |pages| == 0 {
        return Failure("NoSuchElementException");
      }
      assert IndexOf(pages, Keys(pages)[0]) == 0;
      pages := Remove(pages, Keys(pages)[0]);
      assert pages == sortedPages[1..];
    }
    assert Shown(sortedPages, offset, limit) == pages[..Min(Max(limit, 0), |pages|)];
    r := CollectItems(pages, lemmasFromQuery, limit, sites, title, snippet);
  }

  /** The items keep the order of the entries: sorted entries give items of nonincreasing relevance. */
  lemma ShownKeepsOrder(sortedPages: seq<(PageEntity, int)>, offset: int, limit: int)
    requires offset == 0 || |sortedPages| > 0
    requires forall i, j :: 0 <= i < j < |sortedPages| ==> sortedPages[i].1 >= sortedPages[j].1
    ensures var shown := Shown(sortedPages, offset, limit);
      forall i, j :: 0 <= i < j < |shown| ==> shown[i].1 >= shown[j].1
  {
    var shown := Shown(sortedPages, offset, limit);
    var drop := if offset != 0 then 1 else 0;
    forall i, j | 0 <= i < j < |shown| ensures shown[i].1 >= shown[j].1 {
      assert shown[i] == sortedPages[i + drop] && shown[j] == sortedPages[j + drop];
    }
  }

  // ---------------------------------------------------------------------------
  // generateLemmasFromQuery, getEntitiesList

  /** generateLemmasFromQuery: the key set of getLemmas(query), enumerated in its iteration order. */
  method GenerateLemmasFromQuery(morph: Morphology, query: string) returns (lemmasFromQuery: seq<string>)
    ensures Elems(lemmasFromQuery) == Tally(NormalWords(morph, SplitText(query))).Keys
    ensures Distinct(lemmasFromQuery)
  {
    var lemmas := GetLemmas(morph, query);
    var keys := lemmas.Keys;
    lemmasFromQuery := [];
    while keys != {}
      invariant keys !! Elems(lemmasFromQuery) && keys + Elems(lemmasFromQuery) == lemmas.Keys
      invariant Distinct(lemmasFromQuery)
      decreases keys
    {
      var w :| w in keys;
      assert Elems(lemmasFromQuery + [w]) == Elems(lemmasFromQuery) + {w};
      lemmasFromQuery := lemmasFromQuery + [w];
      keys := keys - {w};
    }
  }

  /** The map getEntitiesList builds for one site. */
  ghost function EntitiesFor(query: seq<string>, site: Option<SiteEntity>, sortedLemmas: seq<(string, int)>, t: Tables)
    : seq<(LemmaEntity, PageEntity)>
  {
    var candidates := FirstLemmaPages(t, sortedLemmas, site);
    var filtered := Survivors(candidates, t, Keys(sortedLemmas), |sortedLemmas|, site);
    PutAll([], JoinPairs(filtered, t.indices, QueryRows(t.lemmas, query)))
  }

  /** getEntitiesList: candidates from the first lemma, filtered by the others, grouped with their lemma rows. */
  method GetEntitiesList(lemmasFromQuery: seq<string>, site: Option<SiteEntity>, lemmasSortedByFrequency: seq<(string, int)>, t: Tables)
    returns (finalPagesAndLemma: seq<(LemmaEntity, PageEntity)>)
    ensures finalPagesAndLemma == EntitiesFor(lemmasFromQuery, site, lemmasSortedByFrequency, t)
    ensures IsMap(finalPagesAndLemma)
  {
    var pagesListFromFirstLemma := GetPageEntityListFromFirstLemma(lemmasSortedByFrequency, t, site);
    var pagesFilteredByNextLemmas := FilterPagesByOtherLemmas(lemmasSortedByFrequency, pagesListFromFirstLemma, t, site);
    finalPagesAndLemma := CompareFinalPagesAndLemmas(pagesFilteredByNextLemmas, lemmasFromQuery, t);
  }

  /** Every ranked lemma reaches page `p` of `site`. */
  ghost predicate AllLemmasReach(t: Tables, sortedLemmas: seq<(string, int)>, site: Option<SiteEntity>, p: PageEntity) {
    forall m :: 0 <= m < |sortedLemmas| ==> HasLemma(t, sortedLemmas[m].0, site, p)
  }

  /** A page survives the filtering exactly when it is a stored page of the site that every ranked lemma reaches. */
  lemma FilteredMeaning(t: Tables, sortedLemmas: seq<(string, int)>, site: Option<SiteEntity>, p: PageEntity)
    ensures p in Survivors(FirstLemmaPages(t, sortedLemmas, site), t, Keys(sortedLemmas), |sortedLemmas|, site) <==>
      (|sortedLemmas| > 0 && p in t.pages && AllLemmasReach(t, sortedLemmas, site, p))
  {
    var candidates := FirstLemmaPages(t, sortedLemmas, site);
    FirstLemmaPagesMeaning(t, sortedLemmas, site, p);
    FilterMeaning(candidates, t, sortedLemmas, site, p);
  }

  /**
   * The result map of getEntitiesList pairs lemma rows matching a query
   * lemma ignoring case with pages of the site that every ranked lemma
   * reaches and that the index joins to the row; every such row is a key.
   */
  lemma EntitiesMeaning(query: seq<string>, site: Option<SiteEntity>, sortedLemmas: seq<(string, int)>, t: Tables)
    ensures forall e :: e in EntitiesFor(query, site, sortedLemmas, t) ==>
      && |sortedLemmas| > 0 && e.1 in t.pages && AllLemmasReach(t, sortedLemmas, site, e.1)
      && e.0 in t.lemmas && (exists w :: w in query && EqualsIgnoreCase(e.0.text, w)) && Joined(t.indices, e.0, e.1)
    ensures forall l, p :: (|sortedLemmas| > 0 && p in t.pages && AllLemmasReach(t, sortedLemmas, site, p) &&
      l in t.lemmas && (exists w :: w in query && EqualsIgnoreCase(l.text, w)) && Joined(t.indices, l, p)) ==>
      Get(EntitiesFor(query, site, sortedLemmas, t), l).Some?
  {
    var filtered := Survivors(FirstLemmaPages(t, sortedLemmas, site), t, Keys(sortedLemmas), |sortedLemmas|, site);
    GroupingMeaning(filtered, query, t);
    forall p ensures p in filtered <==> (|sortedLemmas| > 0 && p in t.pages && AllLemmasReach(t, sortedLemmas, site, p)) {
      FilteredMeaning(t, sortedLemmas, site, p);
    }
  }

  /** The blank site of an unknown url owns no page: the map is empty. */
  lemma EntitiesOfNoSite(query: seq<string>, sortedLemmas: seq<(string, int)>, t: Tables)
    ensures EntitiesFor(query, None, sortedLemmas, t) == []
  {
    var candidates := FirstLemmaPages(t, sortedLemmas, None);
    if |candidates| > 0 {
      FirstLemmaPagesMeaning(t, sortedLemmas, None, candidates[0]);
    }
    assert candidates == [];
  }

  /** One configured site's map, as the loop over the configured sites asks for it. */
  ghost function ConfigEntities(query: seq<string>, c: ConfigSite, sortedLemmas: seq<(string, int)>, t: Tables)
    : seq<(LemmaEntity, PageEntity)>
  {
    EntitiesFor(query, SiteWithUrl(t.sites, c.url), sortedLemmas, t)
  }

  /** The map the loop over the configured sites builds with putAll. */
  ghost function AllSitesEntities(query: seq<string>, config: seq<ConfigSite>, sortedLemmas: seq<(string, int)>, t: Tables)
    : seq<(LemmaEntity, PageEntity)>
    decreases |config|
  {
    if |config| == 0 then []
    else
      PutAll(AllSitesEntities(query, config[..|config| - 1], sortedLemmas, t),
             ConfigEntities(query, config[|config| - 1], sortedLemmas, t))
  }

  /** The map built over the configured sites has no repeated key. */
  lemma {:induction false} AllSitesEntitiesIsMap(query: seq<string>, config: seq<ConfigSite>, sortedLemmas: seq<(string, int)>,
                                                 t: Tables)
    ensures IsMap(AllSitesEntities(query, config, sortedLemmas, t))
    decreases |config|
  {
    if |config| > 0 {
      AllSitesEntitiesIsMap(query, config[..|config| - 1], sortedLemmas, t);
      PutAllIsMap(AllSitesEntities(query, config[..|config| - 1], sortedLemmas, t),
                  ConfigEntities(query, config[|config| - 1], sortedLemmas, t));
    }
  }

  /** Every entry of the map built over the configured sites is an entry of some configured site's map. */
  lemma {:induction false} AllSitesEntitiesFrom(query: seq<string>, config: seq<ConfigSite>, sortedLemmas: seq<(string, int)>,
                                                t: Tables)
    ensures forall e :: e in AllSitesEntities(query, config, sortedLemmas, t) ==>
      exists k :: 0 <= k < |config| && e in ConfigEntities(query, config[k], sortedLemmas, t)
    decreases |config|
  {
    if |config| > 0 {
      var n := |config| - 1;
      var init := config[..n];
      var m := AllSitesEntities(query, init, sortedLemmas, t);
      var part := ConfigEntities(query, config[n], sortedLemmas, t);
      assert AllSitesEntities(query, config, sortedLemmas, t) == PutAll(m, part);
      AllSitesEntitiesFrom(query, init, sortedLemmas, t);
      PutAllMembers(m, part);
      forall e | e in PutAll(m, part)
        ensures exists k :: 0 <= k < |config| && e in ConfigEntities(query, config[k], sortedLemmas, t)
      {
        var k := n;
        if e in m {
          k :| 0 <= k < |init| && e in ConfigEntities(query, init[k], sortedLemmas, t);
          assert init[k] == config[k];
        }
        assert e in ConfigEntities(query, config[k], sortedLemmas, t);
      }
    }
  }

  /** Every key of a configured site's map is a key of the map built over the configured sites. */
  lemma {:induction false} AllSitesEntitiesCover(query: seq<string>, config: seq<ConfigSite>, sortedLemmas: seq<(string, int)>,
                                                 t: Tables)
    ensures forall k, e :: 0 <= k < |config| && e in ConfigEntities(query, config[k], sortedLemmas, t) ==>
      Get(AllSitesEntities(query, config, sortedLemmas, t), e.0).Some?
    decreases |config|
  {
    if |config| > 0 {
      var n := |config| - 1;
      var init := config[..n];
      var m := AllSitesEntities(query, init, sortedLemmas, t);
      var part := ConfigEntities(query, config[n], sortedLemmas, t);
      assert AllSitesEntities(query, config, sortedLemmas, t) == PutAll(m, part);
      AllSitesEntitiesCover(query, init, sortedLemmas, t);
      PutAllCovers(m, part);
      forall k, e | 0 <= k < |config| && e in ConfigEntities(query, config[k], sortedLemmas, t)
        ensures Get(PutAll(m, part), e.0).Some?
      {
        if k < n {
          assert init[k] == config[k];
          assert Get(m, e.0).Some?;
          var j := IndexOf(m, e.0);
          assert m[j] in m;
        } else {
          assert e in part;
        }
      }
    }
  }

  /** The map the search ranks: that of the given site, or that built over all configured sites. */
  ghost function SearchEntities(ws: seq<string>, t: Tables, config: seq<ConfigSite>, siteUrl: Option<string>)
    : seq<(LemmaEntity, PageEntity)>
  {
    var sortedLemmas := SortBy(Scored(ws, t.lemmas), Score);
    if siteUrl.Some? then EntitiesFor(ws, SiteWithUrl(t.sites, siteUrl.value), sortedLemmas, t)
    else AllSitesEntities(ws, config, sortedLemmas, t)
  }

  /** The items of a response, or its error. */
  function ItemsOf(response: Result<SearchResponse>): Result<seq<SearchData>> {
    if response.Success? then Success(response.value.data) else Failure(response.error)
  }

  /**
   * The answer for a lemma-to-page map: its pages ranked by summed
   * frequency, most relevant first, listed as generateSearchDataList does,
   * in a successful response otherwise.
   */
  ghost predicate Answers(entitiesList: seq<(LemmaEntity, PageEntity)>, lemmasFromQuery: seq<string>, offset: int, limit: int,
                          sites: seq<SiteEntity>, title: string -> string, snippet: (string, seq<string>) -> string,
                          response: Result<SearchResponse>)
  {
    && ListsItems(SortPages(Relevances(entitiesList)), lemmasFromQuery, limit, offset, sites, title, snippet, ItemsOf(response))
    && (response.Success? ==> response.value == Response(response.value.data))
  }

  /** The pages of a stored site's map all have their site row stored. */
  lemma EntitiesLocated(query: seq<string>, site: Option<SiteEntity>, sortedLemmas: seq<(string, int)>, t: Tables)
    requires site.None? || site.value in t.sites
    ensures forall e :: e in EntitiesFor(query, site, sortedLemmas, t) ==> FindSite(t.sites, e.1.siteId) >= 0
  {
    EntitiesMeaning(query, site, sortedLemmas, t);
    forall e | e in EntitiesFor(query, site, sortedLemmas, t) ensures FindSite(t.sites, e.1.siteId) >= 0 {
      assert HasLemma(t, sortedLemmas[0].0, site, e.1);
      var i :| 0 <= i < |t.sites| && t.sites[i] == site.value;
    }
  }

  /** Every page the search ranks belongs to a stored site: candidates are pages of a stored site only. */
  lemma SearchEntitiesLocated(ws: seq<string>, t: Tables, config: seq<ConfigSite>, siteUrl: Option<string>)
    ensures forall e :: e in SearchEntities(ws, t, config, siteUrl) ==> FindSite(t.sites, e.1.siteId) >= 0
  {
    var sortedLemmas := SortBy(Scored(ws, t.lemmas), Score);
    if siteUrl.Some? {
      SiteWithUrlFacts(t.sites, siteUrl.value);
      EntitiesLocated(ws, SiteWithUrl(t.sites, siteUrl.value), sortedLemmas, t);
    } else {
      AllSitesEntitiesFrom(ws, config, sortedLemmas, t);
      forall k | 0 <= k < |config|
        ensures forall e :: e in ConfigEntities(ws, config[k], sortedLemmas, t) ==> FindSite(t.sites, e.1.siteId) >= 0
      {
        SiteWithUrlFacts(t.sites, config[k].url);
        EntitiesLocated(ws, SiteWithUrl(t.sites, config[k].url), sortedLemmas, t);
      }
    }
  }

  /** A relevance map has the pages of the entries as keys: their site rows too, and it is empty only for no entries. */
  lemma RelevanceMapLocated(m: seq<(PageEntity, int)>, entries: seq<(LemmaEntity, PageEntity)>, sites: seq<SiteEntity>)
    requires RelevanceMap(m, entries)
    requires forall e :: e in entries ==> FindSite(sites, e.1.siteId) >= 0
    ensures |m| == 0 <==> entries == []
    ensures forall x :: x in m ==> FindSite(sites, x.0.siteId) >= 0
  {
    if entries != [] {
      assert Get(m, entries[0].1).Some?;
    }
    forall x | x in m ensures FindSite(sites, x.0.siteId) >= 0 {
      var i :| 0 <= i < |m| && m[i] == x;
      var n := LastPos(entries, m[i].0);
      assert entries[n] in entries;
    }
  }

  /** Sorting keeps the entries. */
  lemma SortPagesMembers(m: seq<(PageEntity, int)>)
    ensures |SortPages(m)| == |m|
    ensures forall x :: x in SortPages(m) ==> x in m
  {
    var ranked := SortPages(m);
    assert |multiset(ranked)| == |multiset(m)|;
    forall x | x in ranked ensures x in m {
      assert x in multiset(ranked);
    }
  }

  /** Sorting and cutting keeps only entries whose site row is stored. */
  lemma ShownLocated(m: seq<(PageEntity, int)>, sites: seq<SiteEntity>, offset: int, limit: int)
    requires forall x :: x in m ==> FindSite(sites, x.0.siteId) >= 0
    ensures |SortPages(m)| == |m|
    ensures offset == 0 || |m| > 0 ==> Located(Shown(SortPages(m), offset, limit), sites)
  {
    var ranked := SortPages(m);
    SortPagesMembers(m);
    if offset == 0 || |ranked| > 0 {
      var shown := Shown(ranked, offset, limit);
      var drop := if offset != 0 then 1 else 0;
      forall i | 0 <= i < |shown| ensures FindSite(sites, shown[i].0.siteId) >= 0 {
        assert shown[i] == ranked[i + drop];
        assert shown[i] in m;
      }
    }
  }

  /**
   * A search answer fails only when an offset is given and no page is
   * found; a missing site row cannot fail it.
   */
  lemma SearchFailsOnlyOnOffset(ws: seq<string>, t: Tables, config: seq<ConfigSite>, siteUrl: Option<string>,
                                offset: int, limit: int, title: string -> string, snippet: (string, seq<string>) -> string,
                                response: Result<SearchResponse>)
    requires Answers(SearchEntities(ws, t, config, siteUrl), ws, offset, limit, t.sites, title, snippet, response)
    ensures response.Failure? <==> offset != 0 && SearchEntities(ws, t, config, siteUrl) == []
    ensures response.Failure? ==> response.error == "NoSuchElementException"
  {
    var entries := SearchEntities(ws, t, config, siteUrl);
    SearchEntitiesLocated(ws, t, config, siteUrl);
    RelevancesMeaning(entries);
    RelevanceMapLocated(Relevances(entries), entries, t.sites);
    ShownLocated(Relevances(entries), t.sites, offset, limit);
  }

  // ---------------------------------------------------------------------------
  // getSearchResults

  /** The loop of getSearchResults over the configured sites when no site is given. */
  method AllSitesEntitiesList(lemmasFromQuery: seq<string>, config: seq<ConfigSite>, lemmasSortedByFrequency: seq<(string, int)>,
                              t: Tables)
    returns (entitiesList: seq<(LemmaEntity, PageEntity)>)
    ensures entitiesList == AllSitesEntities(lemmasFromQuery, config, lemmasSortedByFrequency, t)
  {
    entitiesList := [];
    var i := 0;
    while i < |config|
      invariant 0 <= i <= |config|
      invariant entitiesList == AllSitesEntities(lemmasFromQuery, config[..i], lemmasSortedByFrequency, t)
    {
      assert config[..i + 1][..i] == config[..i];
      var siteEntity := GetSiteEntity(config[i].url, t.sites);
      var part := GetEntitiesList(lemmasFromQuery, siteEntity, lemmasSortedByFrequency, t);
      entitiesList := PutAll(entitiesList, part);
      i := i + 1;
    }
    assert config[..i] == config;
  }

  /**
   * The end of getSearchResults: the pages ranked by summed frequency, most
   * relevant first, turned into the answer.
   */
  method Answer(entitiesList: seq<(LemmaEntity, PageEntity)>, lemmasFromQuery: seq<string>, offset: int, limit: int,
                sites: seq<SiteEntity>, title: string -> string, snippet: (string, seq<string>) -> string)
    returns (response: Result<SearchResponse>)
    ensures response.Success? ==>
      && response.value.result && response.value.error.None? && response.value.count == |response.value.data|
      && |response.value.data| <= Max(limit, 0)
      && forall i, j :: 0 <= i < j < |response.value.data| ==> response.value.data[i].relevance >= response.value.data[j].relevance
    ensures response.Failure? ==> response.error == "NoSuchElementException" || response.error == "EntityNotFoundException"
    ensures entitiesList == [] ==>
      response == if offset != 0 then Failure("NoSuchElementException") else Success(SearchResponse(true, None, 0, []))
    ensures Answers(entitiesList, lemmasFromQuery, offset, limit, sites, title, snippet, response)
  {
    var pagesByRelevance := SortPagesByRelevance(entitiesList);
    var sortedPages := SortPages(pagesByRelevance);
    assert |sortedPages| == |pagesByRelevance| by {
      assert |multiset(sortedPages)| == |multiset(pagesByRelevance)|;
    }
    var generated := GenerateSearchDataList(sortedPages, lemmasFromQuery, limit, offset, sites, title, snippet);
    if generated.Failure? {
      return Failure(generated.error);
    }
    response := Success(Response(generated.value));
    assert ItemsOf(response) == generated;
    AnswerShape(sortedPages, lemmasFromQuery, limit, offset, sites, title, snippet, generated.value);
  }

  /** Listed items are at most `limit`, in the order of the sorted entries. */
  lemma AnswerShape(sortedPages: seq<(PageEntity, int)>, lemmasFromQuery: seq<string>, limit: int, offset: int,
                    sites: seq<SiteEntity>, title: string -> string, snippet: (string, seq<string>) -> string,
                    items: seq<SearchData>)
    requires ListsItems(sortedPages, lemmasFromQuery, limit, offset, sites, title, snippet, Success(items))
    requires forall i, j :: 0 <= i < j < |sortedPages| ==> sortedPages[i].1 >= sortedPages[j].1
    ensures |items| <= Max(limit, 0)
    ensures forall i, j :: 0 <= i < j < |items| ==> items[i].relevance >= items[j].relevance
  {
  }

  /**
   * getSearchResults. `morph` is the morphology of the lemmatiser, `t` the
   * tables, `config` the configured sites, `siteUrl` the optional site
   * parameter; an exception the service lets escape is a `Failure`.
   */
  method GetSearchResults(morph: Morphology, t: Tables, config: seq<ConfigSite>, query: string, siteUrl: Option<string>,
                          offset: int, limit: int, title: string -> string, snippet: (string, seq<string>) -> string)
    returns (response: Result<SearchResponse>)
    ensures query == [] ==> response == Success(SearchResponse(false, Some(EmptyQueryError), 0, []))
    ensures query != [] && response.Success? ==>
      && response.value.result && response.value.error.None? && response.value.count == |response.value.data|
      && |response.value.data| <= Max(limit, 0)
      && forall i, j :: 0 <= i < j < |response.value.data| ==> response.value.data[i].relevance >= response.value.data[j].relevance
    ensures response.Failure? ==> response.error == "NoSuchElementException"
    ensures query != [] && siteUrl.Some? && SiteWithUrl(t.sites, siteUrl.value).None? ==>
      response == if offset != 0 then Failure("NoSuchElementException") else Success(SearchResponse(true, None, 0, []))
    // the query lemmas are enumerated in some order of the key set of getLemmas(query)
    ensures query != [] ==> exists ws ::
      && Distinct(ws) && Elems(ws) == Tally(NormalWords(morph, SplitText(query))).Keys
      && Answers(SearchEntities(ws, t, config, siteUrl), ws, offset, limit, t.sites, title, snippet, response)
  {
    if query == [] {
      return Success(SearchResponse(false, Some(EmptyQueryError), 0, []));
    }
    var lemmasFromQuery := GenerateLemmasFromQuery(morph, query);
    var lemmasSortedByFrequency := SortLemmasByFrequency(lemmasFromQuery, t.lemmas);
    var entitiesList: seq<(LemmaEntity, PageEntity)>;
    if siteUrl.Some? {
      var siteEntity := GetSiteEntity(siteUrl.value, t.sites);
      entitiesList := GetEntitiesList(lemmasFromQuery, siteEntity, lemmasSortedByFrequency, t);
      if siteEntity.None? {
        EntitiesOfNoSite(lemmasFromQuery, lemmasSortedByFrequency, t);
      }
    } else {
      entitiesList := AllSitesEntitiesList(lemmasFromQuery, config, lemmasSortedByFrequency, t);
    }
    response := Answer(entitiesList, lemmasFromQuery, offset, limit, t.sites, title, snippet);
    assert entitiesList == SearchEntities(lemmasFromQuery, t, config, siteUrl);
    SearchFailsOnlyOnOffset(lemmasFromQuery, t, config, siteUrl, offset, limit, title, snippet, response);
  }
}
