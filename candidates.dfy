/**
 * SearchingServiceImpl.getPageEntityListFromFirstLemma and
 * filterPagesByOtherLemmas: the pages of one site reached from the rarest
 * query lemma through the index, and the ones among them that every other
 * query lemma reaches too. Both steps compare lemma texts exactly.
 */
module Candidates {
  import opened Wrappers
  import opened Entities
  import opened LinkedMaps

  /**
   * page.getSiteID().equals(site): the page belongs to the stored site; a
   * site that was never stored (`None`, the blank `new SiteEntity()`) owns no page.
   */
  predicate OnSite(p: PageEntity, site: Option<SiteEntity>) {
    site.Some? && p.siteId == site.value.id
  }

  /** The lemma rows whose text equals `w` exactly, in stored order. */
  function RowsNamed(rows: seq<LemmaEntity>, w: string): (r: seq<LemmaEntity>)
    ensures forall l :: l in r <==> l in rows && l.text == w
    decreases |rows|
  {
    if |rows| == 0 then []
    else
      var init := RowsNamed(rows[..|rows| - 1], w);
      var last := rows[|rows| - 1];
      assert rows == rows[..|rows| - 1] + [last];
      if last.text == w then init + [last] else init
  }

  /** The loops at lines 202-207 and 235-239: the rows of the lemma table named `w`. */
  method FindRowsNamed(lemmaRows: seq<LemmaEntity>, w: string) returns (lemmaEntityList: seq<LemmaEntity>)
    ensures lemmaEntityList == RowsNamed(lemmaRows, w)
  {
    lemmaEntityList := [];
    var i := 0;
    while i < |lemmaRows|
      invariant 0 <= i <= |lemmaRows|
      invariant lemmaEntityList == RowsNamed(lemmaRows[..i], w)
    {
      assert lemmaRows[..i + 1][..i] == lemmaRows[..i];
      if lemmaRows[i].text == w {
        lemmaEntityList := lemmaEntityList + [lemmaRows[i]];
      }
      i := i + 1;
    }
    assert lemmaRows[..i] == lemmaRows;
  }

  // ---------------------------------------------------------------------------
  // getPageEntityListFromFirstLemma

  /** The pages of `site` that the index row `idx` points at, in stored order. */
  function PagesOfIndex(pages: seq<PageEntity>, idx: SearchIndex, site: Option<SiteEntity>): seq<PageEntity>
    decreases |pages|
  {
    if |pages| == 0 then []
    else
      var init := PagesOfIndex(pages[..|pages| - 1], idx, site);
      var p := pages[|pages| - 1];
      if p.id == idx.pageId && OnSite(p, site) then init + [p] else init
  }

  lemma {:induction false} PagesOfIndexMembers(pages: seq<PageEntity>, idx: SearchIndex, site: Option<SiteEntity>)
    ensures forall p :: p in PagesOfIndex(pages, idx, site) <==> (p in pages && p.id == idx.pageId && OnSite(p, site))
    decreases |pages|
  {
    if |pages| > 0 {
      PagesOfIndexMembers(pages[..|pages| - 1], idx, site);
      assert pages == pages[..|pages| - 1] + [pages[|pages| - 1]];
    }
  }

  /** The pages of `site` reached from lemma row `l` through the index, index row by index row. */
  function PagesOfLemma(indices: seq<SearchIndex>, pages: seq<PageEntity>, l: LemmaEntity, site: Option<SiteEntity>): seq<PageEntity>
    decreases |indices|
  {
    if |indices| == 0 then []
    else
      var init := PagesOfLemma(indices[..|indices| - 1], pages, l, site);
      var idx := indices[|indices| - 1];
      if idx.lemmaId == l.id then init + PagesOfIndex(pages, idx, site) else init
  }

  lemma {:induction false} PagesOfLemmaMembers(indices: seq<SearchIndex>, pages: seq<PageEntity>, l: LemmaEntity, site: Option<SiteEntity>)
    ensures forall p :: p in PagesOfLemma(indices, pages, l, site) <==>
      (p in pages && OnSite(p, site) && exists idx :: idx in indices && idx.lemmaId == l.id && idx.pageId == p.id)
    decreases |indices|
  {
    if |indices| > 0 {
      var init := indices[..|indices| - 1];
      var last := indices[|indices| - 1];
      PagesOfLemmaMembers(init, pages, l, site);
      PagesOfIndexMembers(pages, last, site);
      assert indices == init + [last];
      forall p ensures p in PagesOfLemma(indices, pages, l, site) <==>
        (p in pages && OnSite(p, site) && exists idx :: idx in indices && idx.lemmaId == l.id && idx.pageId == p.id)
      {
        if p in pages && OnSite(p, site) && exists idx :: idx in indices && idx.lemmaId == l.id && idx.pageId == p.id {
          var idx :| idx in indices && idx.lemmaId == l.id && idx.pageId == p.id;
          if idx != last {
            assert idx in init;
          }
        }
      }
    }
  }

  /** The pages of `site` reached from any of the rows `ls`, row by row. */
  function PagesOfLemmas(ls: seq<LemmaEntity>, indices: seq<SearchIndex>, pages: seq<PageEntity>, site: Option<SiteEntity>): seq<PageEntity>
    decreases |ls|
  {
    if |ls| == 0 then []
    else PagesOfLemmas(ls[..|ls| - 1], indices, pages, site) + PagesOfLemma(indices, pages, ls[|ls| - 1], site)
  }

  lemma {:induction false} PagesOfLemmasMembers(ls: seq<LemmaEntity>, indices: seq<SearchIndex>, pages: seq<PageEntity>, site: Option<SiteEntity>)
    ensures forall p :: p in PagesOfLemmas(ls, indices, pages, site) <==>
      (p in pages && OnSite(p, site) && exists l, idx :: l in ls && idx in indices && idx.lemmaId == l.id && idx.pageId == p.id)
    decreases |ls|
  {
    if |ls| > 0 {
      var init := ls[..|ls| - 1];
      var last := ls[|ls| - 1];
      PagesOfLemmasMembers(init, indices, pages, site);
      PagesOfLemmaMembers(indices, pages, last, site);
      assert ls == init + [last];
      forall p ensures p in PagesOfLemmas(ls, indices, pages, site) <==>
        (p in pages && OnSite(p, site) && exists l, idx :: l in ls && idx in indices && idx.lemmaId == l.id && idx.pageId == p.id)
      {
        if p in pages && OnSite(p, site) && exists l, idx :: l in ls && idx in indices && idx.lemmaId == l.id && idx.pageId == p.id {
          var l, idx :| l in ls && idx in indices && idx.lemmaId == l.id && idx.pageId == p.id;
          if l != last {
            assert l in init;
          }
        }
      }
    }
  }

  /** Some index row joins page `p` of `site` to a lemma row whose text is exactly `w`. */
  ghost predicate HasLemma(t: Tables, w: string, site: Option<SiteEntity>, p: PageEntity) {
    && OnSite(p, site)
    && exists l, idx :: l in t.lemmas && idx in t.indices && l.text == w && idx.lemmaId == l.id && idx.pageId == p.id
  }

  /** The candidate list: the pages reached from the first (rarest) lemma; none without lemmas. */
  function FirstLemmaPages(t: Tables, sortedLemmas: seq<(string, int)>, site: Option<SiteEntity>): seq<PageEntity> {
    if |sortedLemmas| == 0 then [] else PagesOfLemmas(RowsNamed(t.lemmas, sortedLemmas[0].0), t.indices, t.pages, site)
  }

  /** A candidate is a stored page of the site that the first lemma reaches, and every such page is one. */
  lemma FirstLemmaPagesMeaning(t: Tables, sortedLemmas: seq<(string, int)>, site: Option<SiteEntity>, p: PageEntity)
    ensures p in FirstLemmaPages(t, sortedLemmas, site) <==>
      |sortedLemmas| > 0 && p in t.pages && HasLemma(t, sortedLemmas[0].0, site, p)
  {
    if |sortedLemmas| > 0 {
      var w := sortedLemmas[0].0;
      var ls := RowsNamed(t.lemmas, w);
      PagesOfLemmasMembers(ls, t.indices, t.pages, site);
      if p in FirstLemmaPages(t, sortedLemmas, site) {
        var l, idx :| l in ls && idx in t.indices && idx.lemmaId == l.id && idx.pageId == p.id;
        assert l in t.lemmas && l.text == w;
      }
      if p in t.pages && HasLemma(t, w, site, p) {
        var l, idx :| l in t.lemmas && idx in t.indices && l.text == w && idx.lemmaId == l.id && idx.pageId == p.id;
        assert l in ls;
      }
    }
  }

  /** The nested loops at lines 208-218: for each row, each index row pointing at it, each page of the site it points at. */
  method CollectPages(lemmaEntityList: seq<LemmaEntity>, t: Tables, site: Option<SiteEntity>) returns (listFromFirstLemma: seq<PageEntity>)
    ensures listFromFirstLemma == PagesOfLemmas(lemmaEntityList, t.indices, t.pages, site)
  {
    listFromFirstLemma := [];
    var a := 0;
    while a < |lemmaEntityList|
      invariant 0 <= a <= |lemmaEntityList|
      invariant listFromFirstLemma == PagesOfLemmas(lemmaEntityList[..a], t.indices, t.pages, site)
    {
      var row := lemmaEntityList[a];
      ghost var before := listFromFirstLemma;
      var b := 0;
      while b < |t.indices|
        invariant 0 <= b <= |t.indices|
        invariant listFromFirstLemma == before + PagesOfLemma(t.indices[..b], t.pages, row, site)
      {
        var index := t.indices[b];
        assert t.indices[..b + 1][..b] == t.indices[..b];
        if index.lemmaId == row.id {
          ghost var mid := listFromFirstLemma;
          var c := 0;
          while c < |t.pages|
            invariant 0 <= c <= |t.pages|
            invariant listFromFirstLemma == mid + PagesOfIndex(t.pages[..c], index, site)
          {
            var page := t.pages[c];
            assert t.pages[..c + 1][..c] == t.pages[..c];
            if page.id == index.pageId && OnSite(page, site) {
              listFromFirstLemma := listFromFirstLemma + [page];
            }
            c := c + 1;
          }
          assert t.pages[..c] == t.pages;
        }
        b := b + 1;
      }
      assert t.indices[..b] == t.indices;
      assert lemmaEntityList[..a + 1][..a] == lemmaEntityList[..a];
      a := a + 1;
    }
    assert lemmaEntityList[..a] == lemmaEntityList;
  }

  /**
   * getPageEntityListFromFirstLemma: the loop over the sorted lemma map does
   * its work for the first entry only.
   */
  method GetPageEntityListFromFirstLemma(sortedLemmas: seq<(string, int)>, t: Tables, site: Option<SiteEntity>)
    returns (listFromFirstLemma: seq<PageEntity>)
    ensures listFromFirstLemma == FirstLemmaPages(t, sortedLemmas, site)
    ensures forall p :: p in listFromFirstLemma <==> |sortedLemmas| > 0 && p in t.pages && HasLemma(t, sortedLemmas[0].0, site, p)
  {
    var count := 0;
    listFromFirstLemma := [];
    while count < |sortedLemmas|
      invariant 0 <= count <= |sortedLemmas|
      invariant listFromFirstLemma == if count == 0 then [] else FirstLemmaPages(t, sortedLemmas, site)
    {
      if count == 0 {
        var lemmaEntityList := FindRowsNamed(t.lemmas, sortedLemmas[count].0);
        listFromFirstLemma := CollectPages(lemmaEntityList, t, site);
      }
      count := count + 1;
    }
    forall p ensures p in listFromFirstLemma <==> |sortedLemmas| > 0 && p in t.pages && HasLemma(t, sortedLemmas[0].0, site, p) {
      FirstLemmaPagesMeaning(t, sortedLemmas, site, p);
    }
  }

  // ---------------------------------------------------------------------------
  // filterPagesByOtherLemmas

  /** `p` passes the checks of the lemmas at positions 1 to k-1. */
  ghost predicate PassesBefore(t: Tables, keys: seq<string>, k: int, site: Option<SiteEntity>, p: PageEntity) {
    forall m :: 1 <= m < k && m < |keys| ==> HasLemma(t, keys[m], site, p)
  }

  /** The pages of `s` that pass the checks of the lemmas before position k, every copy in its place. */
  ghost function Survivors(s: seq<PageEntity>, t: Tables, keys: seq<string>, k: int, site: Option<SiteEntity>): seq<PageEntity>
    decreases |s|
  {
    if |s| == 0 then []
    else (if PassesBefore(t, keys, k, site, s[0]) then [s[0]] else []) + Survivors(s[1..], t, keys, k, site)
  }

  /** The pages of `s` that lemma `w` does not reach, every copy in its place. */
  ghost function Failing(s: seq<PageEntity>, t: Tables, w: string, site: Option<SiteEntity>): seq<PageEntity>
    decreases |s|
  {
    if |s| == 0 then []
    else (if !HasLemma(t, w, site, s[0]) then [s[0]] else []) + Failing(s[1..], t, w, site)
  }

  /** List.remove(Object): the first element equal to `x`, if any, leaves. */
  function RemoveFirst(s: seq<PageEntity>, x: PageEntity): seq<PageEntity>
    decreases |s|
  {
    if |s| == 0 then []
    else if s[0] == x then s[1..]
    else [s[0]] + RemoveFirst(s[1..], x)
  }

  /** The removals one after another. */
  function RemoveEach(s: seq<PageEntity>, xs: seq<PageEntity>): seq<PageEntity>
    decreases |xs|
  {
    if |xs| == 0 then s else RemoveFirst(RemoveEach(s, xs[..|xs| - 1]), xs[|xs| - 1])
  }

  lemma {:induction false} RemoveFirstAbsent(s: seq<PageEntity>, x: PageEntity)
    requires x !in s
    ensures RemoveFirst(s, x) == s
    decreases |s|
  {
    if |s| > 0 {
      assert s[1..] == s[1..] && x !in s[1..];
      RemoveFirstAbsent(s[1..], x);
    }
  }

  lemma {:induction false} RemoveEachCons(r: seq<PageEntity>, x: PageEntity, ys: seq<PageEntity>)
    ensures RemoveEach(r, [x] + ys) == RemoveEach(RemoveFirst(r, x), ys)
    decreases |ys|
  {
    if |ys| == 0 {
      assert [x] + ys == [x];
      assert [x][..0] == [];
    } else {
      var init := ys[..|ys| - 1];
      assert ([x] + ys)[..|[x] + ys| - 1] == [x] + init;
      RemoveEachCons(r, x, init);
    }
  }

  lemma {:induction false} RemoveFirstOther(a: PageEntity, s: seq<PageEntity>, y: PageEntity)
    requires a != y
    ensures RemoveFirst([a] + s, y) == [a] + RemoveFirst(s, y)
  {
    assert ([a] + s)[1..] == s;
  }

  lemma {:induction false} RemoveEachSkip(a: PageEntity, s: seq<PageEntity>, ys: seq<PageEntity>)
    requires a !in ys
    ensures RemoveEach([a] + s, ys) == [a] + RemoveEach(s, ys)
    decreases |ys|
  {
    if |ys| > 0 {
      var init := ys[..|ys| - 1];
      assert forall x :: x in init ==> x in ys by {
        assert ys == init + [ys[|ys| - 1]];
      }
      RemoveEachSkip(a, s, init);
      RemoveFirstOther(a, RemoveEach(s, init), ys[|ys| - 1]);
    }
  }

  lemma {:induction false} SurvivorsExclude(s: seq<PageEntity>, t: Tables, keys: seq<string>, k: int, site: Option<SiteEntity>, x: PageEntity)
    requires !PassesBefore(t, keys, k, site, x)
    ensures x !in Survivors(s, t, keys, k, site)
    decreases |s|
  {
    if |s| > 0 {
      SurvivorsExclude(s[1..], t, keys, k, site, x);
    }
  }

  lemma {:induction false} FailingExclude(s: seq<PageEntity>, t: Tables, w: string, site: Option<SiteEntity>, x: PageEntity)
    requires HasLemma(t, w, site, x)
    ensures x !in Failing(s, t, w, site)
    decreases |s|
  {
    if |s| > 0 {
      FailingExclude(s[1..], t, w, site, x);
    }
  }

  lemma {:induction false} FailingSnoc(s: seq<PageEntity>, t: Tables, w: string, site: Option<SiteEntity>, x: PageEntity)
    ensures Failing(s + [x], t, w, site) == Failing(s, t, w, site) + (if !HasLemma(t, w, site, x) then [x] else [])
    decreases |s|
  {
    if |s| == 0 {
      assert s + [x] == [x];
      assert [x][1..] == [];
    } else {
      assert (s + [x])[1..] == s[1..] + [x];
      FailingSnoc(s[1..], t, w, site, x);
    }
  }

  /** Lemma k removes, among the pages surviving before it, exactly the copies of those it does not reach. */
  lemma {:induction false} RemoveFailing(s: seq<PageEntity>, t: Tables, keys: seq<string>, k: int, site: Option<SiteEntity>)
    requires 1 <= k < |keys|
    ensures RemoveEach(Survivors(s, t, keys, k, site), Failing(s, t, keys[k], site)) == Survivors(s, t, keys, k + 1, site)
    decreases |s|
  {
    if |s| > 0 {
      var a, rest := s[0], s[1..];
      var sv, fl := Survivors(rest, t, keys, k, site), Failing(rest, t, keys[k], site);
      RemoveFailing(rest, t, keys, k, site);
      var p, q := PassesBefore(t, keys, k, site, a), !HasLemma(t, keys[k], site, a);
      assert PassesBefore(t, keys, k + 1, site, a) <==> p && !q;
      assert Survivors(s, t, keys, k, site) == (if p then [a] else []) + sv;
      assert Failing(s, t, keys[k], site) == (if q then [a] else []) + fl;
      assert Survivors(s, t, keys, k + 1, site) ==
        (if p && !q then [a] else []) + Survivors(rest, t, keys, k + 1, site);
      if p && q {
        RemoveEachCons([a] + sv, a, fl);
        assert RemoveFirst([a] + sv, a) == sv;
      } else if q {
        assert [] + sv == sv;
        RemoveEachCons(sv, a, fl);
        SurvivorsExclude(rest, t, keys, k, site, a);
        RemoveFirstAbsent(sv, a);
      } else if p {
        assert [] + fl == fl;
        FailingExclude(rest, t, keys[k], site, a);
        RemoveEachSkip(a, sv, fl);
      } else {
        assert [] + sv == sv && [] + fl == fl;
      }
    }
  }

  /** Before the second lemma nothing has been checked: every page survives. */
  lemma {:induction false} SurvivorsUnchecked(s: seq<PageEntity>, t: Tables, keys: seq<string>, k: int, site: Option<SiteEntity>)
    requires k <= 1
    ensures Survivors(s, t, keys, k, site) == s
    decreases |s|
  {
    if |s| > 0 {
      SurvivorsUnchecked(s[1..], t, keys, k, site);
    }
  }

  /** A surviving page keeps every copy; a failing page keeps none. */
  lemma {:induction false} SurvivorsCount(s: seq<PageEntity>, t: Tables, keys: seq<string>, k: int, site: Option<SiteEntity>, x: PageEntity)
    ensures multiset(Survivors(s, t, keys, k, site))[x] == if PassesBefore(t, keys, k, site, x) then multiset(s)[x] else 0
    decreases |s|
  {
    if |s| > 0 {
      SurvivorsCount(s[1..], t, keys, k, site, x);
      assert s == [s[0]] + s[1..];
    }
  }

  /** The loops at lines 244-252: some index row joins `page` of `site` to one of the rows. */
  method ContainsLemma(page: PageEntity, nextLemmaEntityList: seq<LemmaEntity>, indices: seq<SearchIndex>, site: Option<SiteEntity>)
    returns (contains: bool)
    ensures contains <==> (OnSite(page, site) &&
      exists idx, l :: idx in indices && l in nextLemmaEntityList && idx.lemmaId == l.id && idx.pageId == page.id)
  {
    contains := false;
    var i := 0;
    while i < |indices|
      invariant 0 <= i <= |indices|
      invariant contains <==> (OnSite(page, site) &&
        exists idx, l :: idx in indices[..i] && l in nextLemmaEntityList && idx.lemmaId == l.id && idx.pageId == page.id)
    {
      var index := indices[i];
      var j := 0;
      while j < |nextLemmaEntityList|
        invariant 0 <= j <= |nextLemmaEntityList|
        invariant contains <==> (OnSite(page, site) && (
          (exists idx, l :: idx in indices[..i] && l in nextLemmaEntityList && idx.lemmaId == l.id && idx.pageId == page.id) ||
          (exists l :: l in nextLemmaEntityList[..j] && index.lemmaId == l.id && index.pageId == page.id)))
      {
        var row := nextLemmaEntityList[j];
        assert nextLemmaEntityList[..j + 1] == nextLemmaEntityList[..j] + [row];
        if index.lemmaId == row.id {
          if index.pageId == page.id && OnSite(page, site) {
            contains := true;
          }
        }
        j := j + 1;
      }
      assert nextLemmaEntityList[..j] == nextLemmaEntityList;
      assert indices[..i + 1] == indices[..i] + [index];
      i := i + 1;
    }
    assert indices[..i] == indices;
  }

  /** The check of one page against the lemma named `w`. */
  lemma ContainsMeansHasLemma(t: Tables, w: string, site: Option<SiteEntity>, page: PageEntity, contains: bool)
    requires contains <==> (OnSite(page, site) &&
      exists idx, l :: idx in t.indices && l in RowsNamed(t.lemmas, w) && idx.lemmaId == l.id && idx.pageId == page.id)
    ensures contains <==> HasLemma(t, w, site, page)
  {
    if HasLemma(t, w, site, page) {
      var l, idx :| l in t.lemmas && idx in t.indices && l.text == w && idx.lemmaId == l.id && idx.pageId == page.id;
      assert l in RowsNamed(t.lemmas, w);
    }
  }

  /** One pass of the outer loop for the lemma at position k >= 1. */
  method FilterByLemma(sortedLemmas: seq<(string, int)>, k: int, pagesListFromFirstLemma: seq<PageEntity>, t: Tables,
                       site: Option<SiteEntity>, refactored: seq<PageEntity>)
    returns (refactoredList: seq<PageEntity>)
    requires 1 <= k < |sortedLemmas|
    requires refactored == Survivors(pagesListFromFirstLemma, t, Keys(sortedLemmas), k, site)
    ensures refactoredList == Survivors(pagesListFromFirstLemma, t, Keys(sortedLemmas), k + 1, site)
  {
    ghost var keys := Keys(sortedLemmas);
    var w := sortedLemmas[k].0;
    var nextLemmaEntityList := FindRowsNamed(t.lemmas, w);
    refactoredList := refactored;
    var j := 0;
    while j < |pagesListFromFirstLemma|
      invariant 0 <= j <= |pagesListFromFirstLemma|
      invariant refactoredList == RemoveEach(refactored, Failing(pagesListFromFirstLemma[..j], t, w, site))
    {
      var page := pagesListFromFirstLemma[j];
      var contains := ContainsLemma(page, nextLemmaEntityList, t.indices, site);
      ContainsMeansHasLemma(t, w, site, page, contains);
      assert pagesListFromFirstLemma[..j + 1] == pagesListFromFirstLemma[..j] + [page];
      FailingSnoc(pagesListFromFirstLemma[..j], t, w, site, page);
      ghost var failed := Failing(pagesListFromFirstLemma[..j], t, w, site);
      if !contains {
        assert (failed + [page])[..|failed|] == failed;
        refactoredList := RemoveFirst(refactoredList, page);
      } else {
        assert failed + [] == failed;
      }
      j := j + 1;
    }
    assert pagesListFromFirstLemma[..j] == pagesListFromFirstLemma;
    RemoveFailing(pagesListFromFirstLemma, t, keys, k, site);
  }

  /**
   * filterPagesByOtherLemmas: every page of the candidate list that some
   * lemma after the first does not reach loses all its copies; the rest
   * keep their copies and their order.
   */
  method FilterPagesByOtherLemmas(sortedLemmas: seq<(string, int)>, pagesListFromFirstLemma: seq<PageEntity>, t: Tables,
                                  site: Option<SiteEntity>)
    returns (refactoredList: seq<PageEntity>)
    ensures refactoredList == Survivors(pagesListFromFirstLemma, t, Keys(sortedLemmas), |sortedLemmas|, site)
  {
    refactoredList := pagesListFromFirstLemma;
    SurvivorsUnchecked(pagesListFromFirstLemma, t, Keys(sortedLemmas), 0, site);
    var count := 0;
    while count < |sortedLemmas|
      invariant 0 <= count <= |sortedLemmas|
      invariant refactoredList == Survivors(pagesListFromFirstLemma, t, Keys(sortedLemmas), count, site)
    {
      if count > 0 {
        refactoredList := FilterByLemma(sortedLemmas, count, pagesListFromFirstLemma, t, site, refactoredList);
      } else {
        SurvivorsUnchecked(pagesListFromFirstLemma, t, Keys(sortedLemmas), 1, site);
      }
      count := count + 1;
    }
  }

  /**
   * The filtered list keeps a candidate, with all its copies, exactly when
   * every lemma after the first reaches it; with one lemma it is the
   * candidate list itself.
   */
  lemma FilterMeaning(s: seq<PageEntity>, t: Tables, sortedLemmas: seq<(string, int)>, site: Option<SiteEntity>, x: PageEntity)
    ensures multiset(Survivors(s, t, Keys(sortedLemmas), |sortedLemmas|, site))[x] ==
      if forall m :: 1 <= m < |sortedLemmas| ==> HasLemma(t, sortedLemmas[m].0, site, x) then multiset(s)[x] else 0
    ensures |sortedLemmas| <= 1 ==> Survivors(s, t, Keys(sortedLemmas), |sortedLemmas|, site) == s
  {
    SurvivorsCount(s, t, Keys(sortedLemmas), |sortedLemmas|, site, x);
    if |sortedLemmas| <= 1 {
      SurvivorsUnchecked(s, t, Keys(sortedLemmas), |sortedLemmas|, site);
    }
    assert PassesBefore(t, Keys(sortedLemmas), |sortedLemmas|, site, x) <==>
      forall m :: 1 <= m < |sortedLemmas| ==> HasLemma(t, sortedLemmas[m].0, site, x) by {
      assert forall m :: 0 <= m < |sortedLemmas| ==> Keys(sortedLemmas)[m] == sortedLemmas[m].0;
    }
  }
}
