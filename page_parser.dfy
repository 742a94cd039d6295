/**
 * PageParser.parsePage: re-index one page. The stored page with the same
 * path (ignoring case) and its index rows are deleted, the page is fetched
 * again, and the new page row, one lemma row per lemma and one index row
 * per lemma are inserted. The fetch is an input (`FetchOutcome`).
 */
module PageParsing {
  import opened Wrappers
  import opened Strings
  import opened Entities
  import opened Repository
  import opened Lemmatisation

  /** Position of the first page whose path equals `url` ignoring case, or -1. */
  function FirstPathMatch(pages: seq<PageEntity>, url: string): (k: int)
    ensures -1 <= k < |pages|
    ensures k >= 0 ==> EqualsIgnoreCase(pages[k].path, url)
    ensures forall j :: 0 <= j < |pages| && (k < 0 || j < k) ==> !EqualsIgnoreCase(pages[j].path, url)
    decreases |pages|
  {
    if |pages| == 0 then -1
    else if EqualsIgnoreCase(pages[0].path, url) then 0
    else
      var k := FirstPathMatch(pages[1..], url);
      if k < 0 then -1 else k + 1
  }

  /** The number of pages whose path equals `url` ignoring case. */
  function MatchCount(pages: seq<PageEntity>, url: string): nat
    decreases |pages|
  {
    if |pages| == 0 then 0
    else MatchCount(pages[..|pages| - 1], url) + (if EqualsIgnoreCase(pages[|pages| - 1].path, url) then 1 else 0)
  }

  /** The index rows pointing at page `pageId`, in stored order. */
  function RowsOfPage(indices: seq<SearchIndex>, pageId: int): (r: seq<SearchIndex>)
    decreases |indices|
  {
    if |indices| == 0 then []
    else
      var rest := RowsOfPage(indices[..|indices| - 1], pageId);
      if indices[|indices| - 1].pageId == pageId then rest + [indices[|indices| - 1]] else rest
  }

  lemma {:induction false} RowsOfPageMembers(indices: seq<SearchIndex>, pageId: int)
    ensures forall x :: x in RowsOfPage(indices, pageId) <==> x in indices && x.pageId == pageId
    decreases |indices|
  {
    if |indices| > 0 {
      RowsOfPageMembers(indices[..|indices| - 1], pageId);
      assert indices == indices[..|indices| - 1] + [indices[|indices| - 1]];
    }
  }

  /** The first loop of parsePage: the first stored page whose path equals `url` ignoring case. */
  method FindPage(pages: seq<PageEntity>, url: string) returns (found: Option<PageEntity>)
    ensures FirstPathMatch(pages, url) < 0 ==> found == None
    ensures FirstPathMatch(pages, url) >= 0 ==> found == Some(pages[FirstPathMatch(pages, url)])
  {
    found := None;
    var i := 0;
    while i < |pages| && found == None
      invariant 0 <= i <= |pages|
      invariant forall j :: 0 <= j < i ==> !EqualsIgnoreCase(pages[j].path, url)
      invariant found != None ==> i < |pages| && found == Some(pages[i]) && EqualsIgnoreCase(pages[i].path, url)
      decreases |pages| - i, if found == None then 1 else 0
    {
      if EqualsIgnoreCase(pages[i].path, url) {
        found := Some(pages[i]);
      } else {
        i := i + 1;
      }
    }
  }

  /** The second loop of parsePage: every index row of page `pageId`. */
  method IndexRowsOf(indices: seq<SearchIndex>, pageId: int) returns (indexList: seq<SearchIndex>)
    ensures indexList == RowsOfPage(indices, pageId)
    ensures forall x :: x in indexList <==> x in indices && x.pageId == pageId
  {
    indexList := [];
    var i := 0;
    while i < |indices|
      invariant 0 <= i <= |indices|
      invariant indexList == RowsOfPage(indices[..i], pageId)
    {
      assert indices[..i + 1][..i] == indices[..i];
      if indices[i].pageId == pageId {
        indexList := indexList + [indices[i]];
      }
      i := i + 1;
    }
    assert indices[..i] == indices;
    RowsOfPageMembers(indices, pageId);
  }

  /**
   * One lemma row per entry of `lemmas`, for site `siteId`, with the count
   * as frequency: the rows cover the keys, each key once, ids not yet assigned.
   */
  ghost predicate LemmaRowsFor(rows: seq<LemmaEntity>, siteId: int, lemmas: map<string, nat>) {
    && |rows| == |lemmas|
    && (forall i :: 0 <= i < |rows| ==>
         rows[i].siteId == siteId && rows[i].text in lemmas && rows[i].frequency == lemmas[rows[i].text])
    && (forall i, j :: 0 <= i < j < |rows| ==> rows[i].text != rows[j].text)
    && (forall w :: w in lemmas ==> exists i :: 0 <= i < |rows| && rows[i].text == w)
  }

  /**
   * The loop of parsePage over the lemma map, in the map's (arbitrary)
   * iteration order: a lemma row and an index row per entry. An index row
   * refers to its lemma row by position until saveAll gives the lemma rows
   * their ids.
   */
  method LemmaRows(lemmas: map<string, nat>, siteId: int, pageId: int)
    returns (lemmaEntityList: seq<LemmaEntity>, searchIndexList: seq<SearchIndex>)
    ensures LemmaRowsFor(lemmaEntityList, siteId, lemmas)
    ensures forall i :: 0 <= i < |lemmaEntityList| ==> lemmaEntityList[i].id == 0
    ensures |searchIndexList| == |lemmaEntityList|
    ensures forall i :: 0 <= i < |searchIndexList| ==>
      searchIndexList[i] == SearchIndex(0, pageId, 0, lemmaEntityList[i].frequency)
  {
    lemmaEntityList, searchIndexList := [], [];
    var remaining := lemmas.Keys;
    while remaining != {}
      invariant remaining <= lemmas.Keys
      invariant |lemmaEntityList| + |remaining| == |lemmas.Keys|
      invariant forall i :: 0 <= i < |lemmaEntityList| ==>
        && lemmaEntityList[i].id == 0 && lemmaEntityList[i].siteId == siteId
        && lemmaEntityList[i].text in lemmas && lemmaEntityList[i].text !in remaining
        && lemmaEntityList[i].frequency == lemmas[lemmaEntityList[i].text]
      invariant forall i, j :: 0 <= i < j < |lemmaEntityList| ==> lemmaEntityList[i].text != lemmaEntityList[j].text
      invariant forall w :: w in lemmas && w !in remaining ==>
        exists i :: 0 <= i < |lemmaEntityList| && lemmaEntityList[i].text == w
      invariant |searchIndexList| == |lemmaEntityList|
      invariant forall i :: 0 <= i < |searchIndexList| ==>
        searchIndexList[i] == SearchIndex(0, pageId, 0, lemmaEntityList[i].frequency)
      decreases |remaining|
    {
      var w :| w in remaining;
      ghost var prev := lemmaEntityList;
      var lemmaEntity := LemmaEntity(0, siteId, w, lemmas[w]);
      lemmaEntityList := lemmaEntityList + [lemmaEntity];
      searchIndexList := searchIndexList + [SearchIndex(0, pageId, 0, lemmas[w])];
      remaining := remaining - {w};
      forall v | v in lemmas && v !in remaining
        ensures exists i :: 0 <= i < |lemmaEntityList| && lemmaEntityList[i].text == v
      {
        if v == w {
          assert lemmaEntityList[|prev|].text == v;
        } else {
          var i :| 0 <= i < |prev| && prev[i].text == v;
          assert lemmaEntityList[i] == prev[i];
        }
      }
    }
    assert |lemmas.Keys| == |lemmas|;
  }

  /** Index rows of a page for saved lemma rows, ids not yet assigned: the page, the lemma row and its count as rank. */
  ghost predicate IndexRowsFor(rows: seq<SearchIndex>, pageId: int, lemmaRows: seq<LemmaEntity>) {
    && |rows| == |lemmaRows|
    && forall i :: 0 <= i < |rows| ==>
         rows[i].pageId == pageId && rows[i].lemmaId == lemmaRows[i].id && rows[i].rank == lemmaRows[i].frequency
  }

  /** With unique ids, deleting page `id` removes that one page and keeps every other page. */
  lemma DeletedPageOnly(pages: seq<PageEntity>, next: int, k: int)
    requires IdsOrdered(PageIds(pages), next)
    requires 0 <= k < |pages|
    ensures forall p :: p in PagesWithout(pages, pages[k].id) <==> p in pages && p != pages[k]
  {
    forall p | p in pages && p != pages[k] ensures p.id != pages[k].id {
      var i :| 0 <= i < |pages| && pages[i] == p;
      var ids := PageIds(pages);
      assert ids[i] == p.id && ids[k] == pages[k].id;
      if i < k { assert ids[i] < ids[k]; } else { assert ids[k] < ids[i]; }
    }
  }

  /** With unique ids, deleting the index rows of a page removes exactly the rows pointing at it. */
  lemma DeletedRowsOnly(indices: seq<SearchIndex>, next: int, pageId: int)
    requires IdsOrdered(IndexIds(indices), next)
    ensures forall x :: x in IndicesWithout(indices, set y | y in RowsOfPage(indices, pageId) :: y.id) <==>
      x in indices && x.pageId != pageId
  {
    RowsOfPageMembers(indices, pageId);
    var gone := set y | y in RowsOfPage(indices, pageId) :: y.id;
    forall x | x in indices && x.pageId != pageId ensures x.id !in gone {
      forall y | y in RowsOfPage(indices, pageId) ensures y.id != x.id {
        var i :| 0 <= i < |indices| && indices[i] == x;
        var j :| 0 <= j < |indices| && indices[j] == y;
        assert i != j;
        assert IndexIds(indices)[i] == x.id && IndexIds(indices)[j] == y.id;
      }
    }
  }

  /** Deleting the page found first removes one matching page. */
  lemma {:induction false} MatchCountWithout(pages: seq<PageEntity>, next: int, url: string, k: int)
    requires IdsOrdered(PageIds(pages), next)
    requires 0 <= k < |pages|
    ensures MatchCount(PagesWithout(pages, pages[k].id), url) ==
      MatchCount(pages, url) - (if EqualsIgnoreCase(pages[k].path, url) then 1 else 0)
    decreases |pages|
  {
    var n := |pages| - 1;
    var init := pages[..n];
    var last := pages[n];
    assert pages == init + [last];
    if k == n {
      forall i | 0 <= i < |init| ensures init[i].id < last.id {
        assert PageIds(pages)[i] < PageIds(pages)[n];
      }
      PagesWithoutOther(init, next, last.id);
      assert PagesWithout(pages, last.id) == PagesWithout(init, last.id);
    } else {
      assert PageIds(init) == PageIds(pages)[..n];
      assert init[k] == pages[k];
      assert PageIds(pages)[k] < PageIds(pages)[n];
      MatchCountWithout(init, next, url, k);
      assert PagesWithout(pages, pages[k].id) == PagesWithout(init, pages[k].id) + [last];
      var r := PagesWithout(init, pages[k].id);
      assert (r + [last])[..|r|] == r;
    }
  }

  /** Deleting an id greater than every stored id changes nothing. */
  lemma {:induction false} PagesWithoutOther(pages: seq<PageEntity>, next: int, id: int)
    requires forall i :: 0 <= i < |pages| ==> pages[i].id < id
    ensures PagesWithout(pages, id) == pages
    decreases |pages|
  {
    if |pages| > 0 {
      PagesWithoutOther(pages[..|pages| - 1], next, id);
    }
  }

  lemma {:induction false} MatchCountWithoutAny(pages: seq<PageEntity>, url: string, id: int)
    ensures MatchCount(PagesWithout(pages, id), url) <= MatchCount(pages, url)
    decreases |pages|
  {
    if |pages| > 0 {
      var init := pages[..|pages| - 1];
      MatchCountWithoutAny(init, url, id);
      var r := PagesWithout(init, id);
      assert (r + [pages[|pages| - 1]])[..|r|] == r;
    }
  }

  lemma MatchCountAppend(pages: seq<PageEntity>, p: PageEntity, url: string)
    requires p.path == url
    ensures MatchCount(pages + [p], url) == MatchCount(pages, url) + 1
  {
    assert (pages + [p])[..|pages|] == pages;
    EqualsIgnoreCaseReflexive(url);
  }

  lemma {:induction false} MatchCountFirst(pages: seq<PageEntity>, url: string)
    ensures MatchCount(pages, url) > 0 <==> FirstPathMatch(pages, url) >= 0
    decreases |pages|
  {
    if |pages| > 0 {
      var init := pages[..|pages| - 1];
      MatchCountFirst(init, url);
      if FirstPathMatch(init, url) >= 0 {
        var j := FirstPathMatch(init, url);
        assert init[j] == pages[j];
      }
      if FirstPathMatch(pages, url) >= 0 && FirstPathMatch(pages, url) < |pages| - 1 {
        assert pages[FirstPathMatch(pages, url)] == init[FirstPathMatch(pages, url)];
      }
    }
  }

  class PageParser {
    var site: SiteEntity
    var page: Option<PageEntity>
    const url: string
    const db: Database
    var document: Option<string>
    var contains: bool

    ghost predicate Valid()
      reads this, db
    {
      db.Valid() && (contains ==> page.Some?)
    }

    constructor (url: string, site: SiteEntity, db: Database)
      requires db.Valid()
      ensures Valid()
      ensures this.url == url && this.site == site && this.db == db
      ensures page == None && document == None && !contains
    {
      this.url := url;
      this.site := site;
      this.db := db;
      page := None;
      document := None;
      contains := false;
    }

    /**
     * PageParser.parsePage. `outcome` is the result of fetching `url`;
     * `now` is the clock. Any fetch failure is an IOException, caught after
     * the deletion. A page save whose site is not a stored row is refused
     * by the database layer: that exception is not caught, so `parsePage`
     * ends after the deletion and `error` names Spring's common supertype
     * of the exceptions it can raise.
     */
    method ParsePage(morph: Morphology, outcome: FetchOutcome, now: Time) returns (error: Option<string>)
      requires Valid()
      modifies this, db
      ensures Valid()
      ensures error.Some? <==> outcome.Fetched? && !SiteStored(old(db.sites), old(site))
      ensures error.Some? ==> error.value == "DataAccessException"
      // the deletion: the page found first, or (when none is found) the page of an earlier call
      ensures contains == (old(contains) || FirstPathMatch(old(db.pages), url) >= 0)
      ensures var gone := Deleted(old(db.pages), url, old(contains), old(page));
        && (gone.None? ==> DeletedPages(old(db.pages), gone) == old(db.pages))
        && (gone.Some? ==> forall p :: p in DeletedPages(old(db.pages), gone) <==> p in old(db.pages) && p.id != gone.value.id)
        && (forall x :: x in DeletedIndices(old(db.indices), gone) <==>
             x in old(db.indices) && (gone.None? || x.pageId != gone.value.id))
      // lemma rows are never deleted
      ensures |old(db.lemmas)| <= |db.lemmas| && db.lemmas[..|old(db.lemmas)|] == old(db.lemmas)
      ensures outcome.Fetched? && error.None? ==>
        var gone := Deleted(old(db.pages), url, old(contains), old(page));
        var lemmas := Tally(NormalWords(morph, SplitText(outcome.text)));
        var pages1 := DeletedPages(old(db.pages), gone);
        var indices1 := DeletedIndices(old(db.indices), gone);
        var newPage := PageEntity(old(db.nextPageId), old(site).id, url, outcome.status, outcome.html);
        && document == Some(outcome.html)
        && db.pages == pages1 + [newPage]
        && page == Some(newPage)
        && site == old(site).(status := Indexed, statusTime := now)
        && (var k := FindSite(old(db.sites), old(site).id);
            db.sites == old(db.sites)[k := site.(name := old(db.sites)[k].name)])
        && |db.lemmas| == |old(db.lemmas)| + |lemmas|
        && LemmaRowsFor(db.lemmas[|old(db.lemmas)|..], old(site).id, lemmas)
        && |indices1| <= |db.indices| && db.indices[..|indices1|] == indices1
        && IndexRowsFor(db.indices[|indices1|..], newPage.id, db.lemmas[|old(db.lemmas)|..])
      ensures !outcome.Fetched? || error.Some? ==>
        var gone := Deleted(old(db.pages), url, old(contains), old(page));
        && db.pages == DeletedPages(old(db.pages), gone)
        && db.indices == DeletedIndices(old(db.indices), gone)
        && db.sites == old(db.sites) && db.lemmas == old(db.lemmas) && site == old(site)
        && db.nextSiteId == old(db.nextSiteId) && db.nextPageId == old(db.nextPageId)
        && db.nextLemmaId == old(db.nextLemmaId) && db.nextIndexId == old(db.nextIndexId)
      ensures !outcome.Fetched? ==>
        var gone := Deleted(old(db.pages), url, old(contains), old(page));
        page == (if contains then gone else old(page)) && document == old(document)
      // the refused save leaves the fields set at PageParser.java:69-74, the page without an id
      ensures error.Some? ==>
        && document == Some(outcome.html)
        && page == Some(PageEntity(0, old(site).id, url, outcome.status, outcome.html))
      // re-indexing keeps at most one stored page per path
      ensures outcome.Fetched? && error.None? && MatchCount(old(db.pages), url) <= 1 ==> MatchCount(db.pages, url) == 1
      ensures !outcome.Fetched? || error.Some? ==> MatchCount(db.pages, url) <= MatchCount(old(db.pages), url)
      ensures (!outcome.Fetched? || error.Some?) && MatchCount(old(db.pages), url) > 0 ==>
        MatchCount(db.pages, url) == MatchCount(old(db.pages), url) - 1
    {
      ghost var gone := Deleted(db.pages, url, contains, page);
      DeletionFacts(db.pages, db.indices, db.nextPageId, db.nextIndexId, url, gone);
      DeletionCount(db.pages, db.nextPageId, url, contains, page);
      ghost var pages1 := DeletedPages(db.pages, gone);
      error := None;
      RemoveOld();
      match outcome {
        case Fetched(status, text, html, _) =>
          if SiteStored(db.sites, site) {
            Store(morph, status, text, html, now);
            MatchCountAppend(pages1, db.pages[|db.pages| - 1], url);
          } else {
            document := Some(html);
            page := Some(PageEntity(0, site.id, url, status, html));
            error := Some("DataAccessException");
          }
        case HttpStatusError(_) =>
        case IoError =>
      }
    }

    /** The first part of parsePage: find the stored page and delete it with its index rows. */
    method RemoveOld()
      requires Valid()
      modifies this, db
      ensures Valid()
      ensures contains == (old(contains) || FirstPathMatch(old(db.pages), url) >= 0)
      ensures contains ==> page == Deleted(old(db.pages), url, old(contains), old(page))
      ensures !contains ==> page == old(page)
      ensures db.pages == DeletedPages(old(db.pages), Deleted(old(db.pages), url, old(contains), old(page)))
      ensures db.indices == DeletedIndices(old(db.indices), Deleted(old(db.pages), url, old(contains), old(page)))
      ensures db.sites == old(db.sites) && db.lemmas == old(db.lemmas)
      ensures db.nextSiteId == old(db.nextSiteId) && db.nextPageId == old(db.nextPageId)
      ensures db.nextLemmaId == old(db.nextLemmaId) && db.nextIndexId == old(db.nextIndexId)
      ensures site == old(site) && document == old(document)
    {
      var found := FindPage(db.pages, url);
      if found.Some? {
        page := found;
        contains := true;
      }
      if contains {
        var indexList := IndexRowsOf(db.indices, page.value.id);
        db.DeleteAllIndices(indexList);
        db.DeletePage(page.value);
      }
    }

    /**
     * The second part of parsePage, once the document is fetched: save the
     * page, the site, the lemmas and the index rows. The site must be a
     * stored row; `ParsePage` handles the refused save otherwise.
     */
    method Store(morph: Morphology, status: int, text: string, html: string, now: Time)
      requires Valid()
      requires SiteStored(db.sites, site)
      modifies this, db
      ensures Valid()
      ensures contains == old(contains)
      ensures var lemmas := Tally(NormalWords(morph, SplitText(text)));
        var newPage := PageEntity(old(db.nextPageId), old(site).id, url, status, html);
        && document == Some(html)
        && db.pages == old(db.pages) + [newPage]
        && page == Some(newPage)
        && site == old(site).(status := Indexed, statusTime := now)
        && (var k := FindSite(old(db.sites), old(site).id);
            db.sites == old(db.sites)[k := site.(name := old(db.sites)[k].name)])
        && db.nextSiteId == old(db.nextSiteId)
        && |db.lemmas| == |old(db.lemmas)| + |lemmas|
        && db.lemmas[..|old(db.lemmas)|] == old(db.lemmas)
        && LemmaRowsFor(db.lemmas[|old(db.lemmas)|..], old(site).id, lemmas)
        && |old(db.indices)| <= |db.indices| && db.indices[..|old(db.indices)|] == old(db.indices)
        && IndexRowsFor(db.indices[|old(db.indices)|..], newPage.id, db.lemmas[|old(db.lemmas)|..])
    {
      document := Some(html);
      var newPage := db.SavePage(PageEntity(0, site.id, url, status, html));
      page := Some(newPage);
      site := site.(status := Indexed, statusTime := now);
      // the merged entity that save returns is discarded, as at PageParser.java:78
      var _ := db.SaveSite(site);
      var lemmas := GetLemmas(morph, text);
      SaveLemmas(db, lemmas, site.id, newPage.id);
    }
  }

  /** The end of parsePage: one lemma row and one index row per lemma, saved with saveAll. */
  method SaveLemmas(db: Database, lemmas: map<string, nat>, siteId: int, pageId: int)
    requires db.Valid()
    modifies db
    ensures db.Valid()
    ensures db.pages == old(db.pages) && db.sites == old(db.sites)
    ensures db.nextPageId == old(db.nextPageId) && db.nextSiteId == old(db.nextSiteId)
    ensures |db.lemmas| == |old(db.lemmas)| + |lemmas|
    ensures db.lemmas[..|old(db.lemmas)|] == old(db.lemmas)
    ensures LemmaRowsFor(db.lemmas[|old(db.lemmas)|..], siteId, lemmas)
    ensures |old(db.indices)| <= |db.indices| && db.indices[..|old(db.indices)|] == old(db.indices)
    ensures IndexRowsFor(db.indices[|old(db.indices)|..], pageId, db.lemmas[|old(db.lemmas)|..])
  {
    var lemmaEntityList, searchIndexList := LemmaRows(lemmas, siteId, pageId);
    var savedLemmas := SaveLemmaRows(db, lemmaEntityList, siteId, lemmas);
    SaveIndexRows(db, ResolveLemmaIds(searchIndexList, savedLemmas, pageId), savedLemmas, pageId);
  }

  /** lemmaRepository.saveAll of the new lemma rows. */
  method SaveLemmaRows(db: Database, rows: seq<LemmaEntity>, siteId: int, lemmas: map<string, nat>)
    returns (saved: seq<LemmaEntity>)
    requires db.Valid()
    requires LemmaRowsFor(rows, siteId, lemmas)
    modifies db
    ensures db.Valid()
    ensures db.pages == old(db.pages) && db.sites == old(db.sites) && db.indices == old(db.indices)
    ensures db.nextPageId == old(db.nextPageId) && db.nextSiteId == old(db.nextSiteId)
    ensures |saved| == |rows| && forall i :: 0 <= i < |rows| ==> saved[i].frequency == rows[i].frequency
    ensures db.lemmas == old(db.lemmas) + saved
    ensures LemmaRowsFor(saved, siteId, lemmas)
  {
    saved := db.SaveAllLemmas(rows);
    NumberedLemmaRows(rows, db.nextLemmaId - |rows|, siteId, lemmas);
  }

  /** searchIndexRepository.saveAll of the new index rows. */
  method SaveIndexRows(db: Database, rows: seq<SearchIndex>, saved: seq<LemmaEntity>, pageId: int)
    requires db.Valid()
    requires |rows| == |saved|
    requires forall i :: 0 <= i < |rows| ==> rows[i].pageId == pageId && rows[i].lemmaId == saved[i].id && rows[i].rank == saved[i].frequency
    modifies db
    ensures db.Valid()
    ensures db.pages == old(db.pages) && db.sites == old(db.sites) && db.lemmas == old(db.lemmas)
    ensures db.nextPageId == old(db.nextPageId) && db.nextSiteId == old(db.nextSiteId)
    ensures |old(db.indices)| <= |db.indices| && db.indices[..|old(db.indices)|] == old(db.indices)
    ensures IndexRowsFor(db.indices[|old(db.indices)|..], pageId, saved)
  {
    var savedIndices := db.SaveAllIndices(rows);
    IndexRowsNumbered(rows, saved, pageId, db.nextIndexId - |rows|);
    assert db.indices[..|old(db.indices)|] == old(db.indices) && db.indices[|old(db.indices)|..] == savedIndices;
  }

  /** The index rows of the lemma rows once saveAll has given them their ids. */
  function ResolveLemmaIds(rows: seq<SearchIndex>, saved: seq<LemmaEntity>, pageId: int): (r: seq<SearchIndex>)
    requires |rows| == |saved|
    requires forall i :: 0 <= i < |rows| ==> rows[i].pageId == pageId && rows[i].rank == saved[i].frequency
    ensures |r| == |saved|
    ensures forall i :: 0 <= i < |r| ==> r[i].pageId == pageId && r[i].lemmaId == saved[i].id && r[i].rank == saved[i].frequency
  {
    seq(|rows|, i requires 0 <= i < |rows| => rows[i].(lemmaId := saved[i].id))
  }

  lemma IndexRowsNumbered(rows: seq<SearchIndex>, saved: seq<LemmaEntity>, pageId: int, next: int)
    requires |rows| == |saved|
    requires forall i :: 0 <= i < |rows| ==> rows[i].pageId == pageId && rows[i].lemmaId == saved[i].id && rows[i].rank == saved[i].frequency
    ensures IndexRowsFor(NumberedIndices(rows, next), pageId, saved)
  {
  }

  /** Numbering the rows keeps what LemmaRowsFor says of them. */
  lemma NumberedLemmaRows(rows: seq<LemmaEntity>, next: int, siteId: int, lemmas: map<string, nat>)
    requires LemmaRowsFor(rows, siteId, lemmas)
    ensures LemmaRowsFor(NumberedLemmas(rows, next), siteId, lemmas)
  {
    var r := NumberedLemmas(rows, next);
    forall w | w in lemmas ensures exists i :: 0 <= i < |r| && r[i].text == w {
      var i :| 0 <= i < |rows| && rows[i].text == w;
      assert r[i].text == w;
    }
  }

  /** The page parsePage deletes, if any: the first match, or the page field left by an earlier call. */
  function Deleted(pages: seq<PageEntity>, url: string, contains: bool, page: Option<PageEntity>): Option<PageEntity> {
    var k := FirstPathMatch(pages, url);
    if k >= 0 then Some(pages[k]) else if contains then page else None
  }

  function DeletedPages(pages: seq<PageEntity>, gone: Option<PageEntity>): seq<PageEntity> {
    if gone.None? then pages else PagesWithout(pages, gone.value.id)
  }

  function DeletedIndices(indices: seq<SearchIndex>, gone: Option<PageEntity>): seq<SearchIndex> {
    if gone.None? then indices
    else IndicesWithout(indices, set y | y in RowsOfPage(indices, gone.value.id) :: y.id)
  }

  /** The deletion never adds a matching page, and it removes one when there is one. */
  lemma DeletionCount(pages: seq<PageEntity>, next: int, url: string, contains: bool, page: Option<PageEntity>)
    requires IdsOrdered(PageIds(pages), next)
    ensures MatchCount(DeletedPages(pages, Deleted(pages, url, contains, page)), url) <= MatchCount(pages, url)
    ensures MatchCount(pages, url) > 0 ==>
      MatchCount(DeletedPages(pages, Deleted(pages, url, contains, page)), url) == MatchCount(pages, url) - 1
  {
    var gone := Deleted(pages, url, contains, page);
    MatchCountFirst(pages, url);
    if gone.Some? {
      MatchCountWithoutAny(pages, url, gone.value.id);
    }
    var k := FirstPathMatch(pages, url);
    if k >= 0 {
      MatchCountWithout(pages, next, url, k);
    }
  }

  /** What the deletion step removes. */
  lemma DeletionFacts(pages: seq<PageEntity>, indices: seq<SearchIndex>, nextPage: int, nextIndex: int,
                      url: string, gone: Option<PageEntity>)
    requires IdsOrdered(PageIds(pages), nextPage) && IdsOrdered(IndexIds(indices), nextIndex)
    ensures gone.Some? ==> forall p :: p in DeletedPages(pages, gone) <==> p in pages && p.id != gone.value.id
    ensures forall x :: x in DeletedIndices(indices, gone) <==> x in indices && (gone.None? || x.pageId != gone.value.id)
  {
    if gone.Some? {
      DeletedRowsOnly(indices, nextIndex, gone.value.id);
    }
  }

}
