/**
 * The persistence layer as in-memory tables: one `seq` per repository in
 * stored order (what findAll returns), and one identity counter per table
 * (GenerationType.IDENTITY). Saving a new entity appends it with the next id;
 * deleting removes the rows with the entity's id.
 */
module Repository {
  import opened Entities

  /** Ids strictly increase along a table and lie in [1, next). */
  ghost predicate IdsOrdered(ids: seq<int>, next: int) {
    && next >= 1
    && (forall i, j :: 0 <= i < j < |ids| ==> ids[i] < ids[j])
    && (forall i :: 0 <= i < |ids| ==> 1 <= ids[i] < next)
  }

  function SiteIds(s: seq<SiteEntity>): seq<int> {
    seq(|s|, i requires 0 <= i < |s| => s[i].id)
  }

  function PageIds(s: seq<PageEntity>): seq<int> {
    seq(|s|, i requires 0 <= i < |s| => s[i].id)
  }

  function LemmaIds(s: seq<LemmaEntity>): seq<int> {
    seq(|s|, i requires 0 <= i < |s| => s[i].id)
  }

  function IndexIds(s: seq<SearchIndex>): seq<int> {
    seq(|s|, i requires 0 <= i < |s| => s[i].id)
  }

  /** Position of the row with id `id`, or -1. */
  function FindSite(sites: seq<SiteEntity>, id: int): (k: int)
    ensures -1 <= k < |sites|
    ensures k >= 0 ==> sites[k].id == id
    ensures k < 0 ==> forall i :: 0 <= i < |sites| ==> sites[i].id != id
    decreases |sites|
  {
    if |sites| == 0 then -1
    else if sites[|sites| - 1].id == id then |sites| - 1
    else FindSite(sites[..|sites| - 1], id)
  }

  /** `site` has a non-zero id that some stored site row carries, so rows may refer to it. */
  predicate SiteStored(sites: seq<SiteEntity>, site: SiteEntity) {
    site.id != 0 && FindSite(sites, site.id) >= 0
  }

  /**
   * The table after a JPA `save` of `site`: an update in place when the id
   * is stored, an insert otherwise. The name column is not updatable
   * (SiteEntity.java:33), so an update keeps the stored name.
   */
  function SavedSites(sites: seq<SiteEntity>, next: int, site: SiteEntity): seq<SiteEntity> {
    var k := FindSite(sites, site.id);
    if site.id != 0 && k >= 0 then sites[k := site.(name := sites[k].name)] else sites + [site.(id := next)]
  }

  /** Rows of `pages` other than the one with id `id` (PageRepository.delete). */
  function PagesWithout(pages: seq<PageEntity>, id: int): (r: seq<PageEntity>)
    ensures forall p :: p in r <==> p in pages && p.id != id
    ensures |r| <= |pages|
    decreases |pages|
  {
    if |pages| == 0 then []
    else
      var rest := PagesWithout(pages[..|pages| - 1], id);
      var p := pages[|pages| - 1];
      assert pages == pages[..|pages| - 1] + [p];
      if p.id == id then rest else rest + [p]
  }

  /** Rows of `indices` whose id does not belong to `gone`. */
  function IndicesWithout(indices: seq<SearchIndex>, gone: set<int>): (r: seq<SearchIndex>)
    ensures forall x :: x in r <==> x in indices && x.id !in gone
    ensures |r| <= |indices|
    decreases |indices|
  {
    if |indices| == 0 then []
    else
      var rest := IndicesWithout(indices[..|indices| - 1], gone);
      var x := indices[|indices| - 1];
      assert indices == indices[..|indices| - 1] + [x];
      if x.id in gone then rest else rest + [x]
  }

  /** `s` with ids next, next + 1, ... assigned in order. */
  function NumberedLemmas(s: seq<LemmaEntity>, next: int): (r: seq<LemmaEntity>)
    ensures |r| == |s|
    ensures forall i :: 0 <= i < |s| ==> r[i] == s[i].(id := next + i)
  {
    seq(|s|, i requires 0 <= i < |s| => s[i].(id := next + i))
  }

  function NumberedIndices(s: seq<SearchIndex>, next: int): (r: seq<SearchIndex>)
    ensures |r| == |s|
    ensures forall i :: 0 <= i < |s| ==> r[i] == s[i].(id := next + i)
  {
    seq(|s|, i requires 0 <= i < |s| => s[i].(id := next + i))
  }

  class Database {
    var sites: seq<SiteEntity>
    var pages: seq<PageEntity>
    var lemmas: seq<LemmaEntity>
    var indices: seq<SearchIndex>
    var nextSiteId: int
    var nextPageId: int
    var nextLemmaId: int
    var nextIndexId: int

    ghost predicate Valid()
      reads this
    {
      && IdsOrdered(SiteIds(sites), nextSiteId)
      && IdsOrdered(PageIds(pages), nextPageId)
      && IdsOrdered(LemmaIds(lemmas), nextLemmaId)
      && IdsOrdered(IndexIds(indices), nextIndexId)
    }

    /** findAll on every repository at once. */
    function Snapshot(): Tables
      reads this
    {
      Tables(sites, pages, lemmas, indices)
    }

    constructor ()
      ensures Valid()
      ensures sites == [] && pages == [] && lemmas == [] && indices == []
      ensures nextSiteId == 1 && nextPageId == 1 && nextLemmaId == 1 && nextIndexId == 1
    {
      sites, pages, lemmas, indices := [], [], [], [];
      nextSiteId, nextPageId, nextLemmaId, nextIndexId := 1, 1, 1, 1;
    }

    /** SiteRepository.save: `saved` is the entity save returns, which holds the given name even where the stored row keeps its own. */
    method SaveSite(site: SiteEntity) returns (saved: SiteEntity)
      requires Valid()
      modifies this
      ensures Valid()
      ensures sites == SavedSites(old(sites), old(nextSiteId), site)
      ensures saved == if site.id != 0 && FindSite(old(sites), site.id) >= 0 then site else site.(id := old(nextSiteId))
      ensures nextSiteId == if site.id != 0 && FindSite(old(sites), site.id) >= 0 then old(nextSiteId) else old(nextSiteId) + 1
      ensures pages == old(pages) && lemmas == old(lemmas) && indices == old(indices)
      ensures nextPageId == old(nextPageId) && nextLemmaId == old(nextLemmaId) && nextIndexId == old(nextIndexId)
    {
      var k := FindSite(sites, site.id);
      if site.id != 0 && k >= 0 {
        sites := sites[k := site.(name := sites[k].name)];
        saved := site;
        assert SiteIds(sites) == SiteIds(old(sites));
      } else {
        saved := site.(id := nextSiteId);
        sites := sites + [saved];
        nextSiteId := nextSiteId + 1;
        assert SiteIds(sites) == SiteIds(old(sites)) + [saved.id];
      }
    }

    /** SiteRepository.deleteAll */
    method DeleteAllSites()
      requires Valid()
      modifies this
      ensures Valid()
      ensures sites == [] && nextSiteId == old(nextSiteId)
      ensures pages == old(pages) && lemmas == old(lemmas) && indices == old(indices)
      ensures nextPageId == old(nextPageId) && nextLemmaId == old(nextLemmaId) && nextIndexId == old(nextIndexId)
    {
      sites := [];
    }

    /** PageRepository.save of a new page: appended with the next id. */
    method SavePage(page: PageEntity) returns (saved: PageEntity)
      requires Valid()
      modifies this
      ensures Valid()
      ensures saved == page.(id := old(nextPageId))
      ensures pages == old(pages) + [saved] && nextPageId == old(nextPageId) + 1
      ensures sites == old(sites) && lemmas == old(lemmas) && indices == old(indices)
      ensures nextSiteId == old(nextSiteId) && nextLemmaId == old(nextLemmaId) && nextIndexId == old(nextIndexId)
    {
      saved := page.(id := nextPageId);
      pages := pages + [saved];
      nextPageId := nextPageId + 1;
      assert PageIds(pages) == PageIds(old(pages)) + [saved.id];
    }

    /** PageRepository.delete */
    method DeletePage(page: PageEntity)
      requires Valid()
      modifies this
      ensures Valid()
      ensures pages == PagesWithout(old(pages), page.id) && nextPageId == old(nextPageId)
      ensures sites == old(sites) && lemmas == old(lemmas) && indices == old(indices)
      ensures nextSiteId == old(nextSiteId) && nextLemmaId == old(nextLemmaId) && nextIndexId == old(nextIndexId)
    {
      PagesWithoutOrdered(pages, page.id, nextPageId);
      pages := PagesWithout(pages, page.id);
    }

    /** PageRepository.deleteAll */
    method DeleteAllPages()
      requires Valid()
      modifies this
      ensures Valid()
      ensures pages == [] && nextPageId == old(nextPageId)
      ensures sites == old(sites) && lemmas == old(lemmas) && indices == old(indices)
      ensures nextSiteId == old(nextSiteId) && nextLemmaId == old(nextLemmaId) && nextIndexId == old(nextIndexId)
    {
      pages := [];
    }

    /** LemmaRepository.saveAll of new lemmas: appended with consecutive ids. */
    method SaveAllLemmas(rows: seq<LemmaEntity>) returns (saved: seq<LemmaEntity>)
      requires Valid()
      modifies this
      ensures Valid()
      ensures saved == NumberedLemmas(rows, old(nextLemmaId))
      ensures lemmas == old(lemmas) + saved && nextLemmaId == old(nextLemmaId) + |rows|
      ensures sites == old(sites) && pages == old(pages) && indices == old(indices)
      ensures nextSiteId == old(nextSiteId) && nextPageId == old(nextPageId) && nextIndexId == old(nextIndexId)
    {
      saved := NumberedLemmas(rows, nextLemmaId);
      lemmas := lemmas + saved;
      nextLemmaId := nextLemmaId + |rows|;
      assert forall i :: 0 <= i < |lemmas| ==>
        LemmaIds(lemmas)[i] == if i < |old(lemmas)| then LemmaIds(old(lemmas))[i] else old(nextLemmaId) + (i - |old(lemmas)|);
    }

    /** SearchIndexRepository.saveAll of new rows: appended with consecutive ids. */
    method SaveAllIndices(rows: seq<SearchIndex>) returns (saved: seq<SearchIndex>)
      requires Valid()
      modifies this
      ensures Valid()
      ensures saved == NumberedIndices(rows, old(nextIndexId))
      ensures indices == old(indices) + saved && nextIndexId == old(nextIndexId) + |rows|
      ensures sites == old(sites) && pages == old(pages) && lemmas == old(lemmas)
      ensures nextSiteId == old(nextSiteId) && nextPageId == old(nextPageId) && nextLemmaId == old(nextLemmaId)
    {
      saved := NumberedIndices(rows, nextIndexId);
      indices := indices + saved;
      nextIndexId := nextIndexId + |rows|;
      assert forall i :: 0 <= i < |indices| ==>
        IndexIds(indices)[i] == if i < |old(indices)| then IndexIds(old(indices))[i] else old(nextIndexId) + (i - |old(indices)|);
    }

    /** SearchIndexRepository.deleteAll(rows): every stored row sharing an id with `rows` goes. */
    method DeleteAllIndices(rows: seq<SearchIndex>)
      requires Valid()
      modifies this
      ensures Valid()
      ensures indices == IndicesWithout(old(indices), set x | x in rows :: x.id)
      ensures nextIndexId == old(nextIndexId)
      ensures sites == old(sites) && pages == old(pages) && lemmas == old(lemmas)
      ensures nextSiteId == old(nextSiteId) && nextPageId == old(nextPageId) && nextLemmaId == old(nextLemmaId)
    {
      IndicesWithoutOrdered(indices, set x | x in rows :: x.id, nextIndexId);
      indices := IndicesWithout(indices, set x | x in rows :: x.id);
    }
  }

  /** Deleting rows keeps the ids ordered. */
  lemma {:induction false} PagesWithoutOrdered(pages: seq<PageEntity>, id: int, next: int)
    requires IdsOrdered(PageIds(pages), next)
    ensures IdsOrdered(PageIds(PagesWithout(pages, id)), next)
    ensures forall p :: p in PagesWithout(pages, id) ==> exists i :: 0 <= i < |pages| && pages[i] == p
    decreases |pages|
  {
    if |pages| > 0 {
      var init := pages[..|pages| - 1];
      assert PageIds(init) == PageIds(pages)[..|pages| - 1];
      PagesWithoutOrdered(init, id, next);
      var rest := PagesWithout(init, id);
      var last := pages[|pages| - 1];
      if last.id != id {
        forall q | q in rest ensures q.id < last.id {
          var i :| 0 <= i < |init| && init[i] == q;
          assert PageIds(pages)[i] < PageIds(pages)[|pages| - 1];
        }
        assert PagesWithout(pages, id) == rest + [last];
        assert forall i :: 0 <= i < |rest| ==> PageIds(rest + [last])[i] == PageIds(rest)[i];
        assert PageIds(pages)[|pages| - 1] == last.id;
      }
    }
  }

  lemma {:induction false} IndicesWithoutOrdered(indices: seq<SearchIndex>, gone: set<int>, next: int)
    requires IdsOrdered(IndexIds(indices), next)
    ensures IdsOrdered(IndexIds(IndicesWithout(indices, gone)), next)
    ensures forall x :: x in IndicesWithout(indices, gone) ==> exists i :: 0 <= i < |indices| && indices[i] == x
    decreases |indices|
  {
    if |indices| > 0 {
      var init := indices[..|indices| - 1];
      assert IndexIds(init) == IndexIds(indices)[..|indices| - 1];
      IndicesWithoutOrdered(init, gone, next);
      var rest := IndicesWithout(init, gone);
      var last := indices[|indices| - 1];
      if last.id !in gone {
        forall q | q in rest ensures q.id < last.id {
          var i :| 0 <= i < |init| && init[i] == q;
          assert IndexIds(indices)[i] < IndexIds(indices)[|indices| - 1];
        }
        assert IndicesWithout(indices, gone) == rest + [last];
        assert forall i :: 0 <= i < |rest| ==> IndexIds(rest + [last])[i] == IndexIds(rest)[i];
        assert IndexIds(indices)[|indices| - 1] == last.id;
      }
    }
  }
}
