/**
 * SearchingServiceImpl.compareFinalPagesAndLemmas, sortPagesByRelevance and
 * sortPages: the filtered pages are joined through the index to the lemma
 * rows that match a query lemma ignoring case, the frequencies of the rows
 * are summed per page, and the pages are ordered by that sum, highest first.
 */
module Grouping {
  import opened Strings
  import opened Entities
  import opened LinkedMaps

  // ---------------------------------------------------------------------------
  // compareFinalPagesAndLemmas

  /** The rows whose text equals `w` ignoring case, in stored order. */
  function RowsLike(rows: seq<LemmaEntity>, w: string): seq<LemmaEntity>
    decreases |rows|
  {
    if |rows| == 0 then []
    else
      var init := RowsLike(rows[..|rows| - 1], w);
      if EqualsIgnoreCase(rows[|rows| - 1].text, w) then init + [rows[|rows| - 1]] else init
  }

  /** lemmaEntityList: for each query lemma in turn, the rows like it. */
  function QueryRows(rows: seq<LemmaEntity>, ws: seq<string>): seq<LemmaEntity>
    decreases |ws|
  {
    if |ws| == 0 then [] else QueryRows(rows, ws[..|ws| - 1]) + RowsLike(rows, ws[|ws| - 1])
  }

  lemma {:induction false} RowsLikeMembers(rows: seq<LemmaEntity>, w: string)
    ensures forall l :: l in RowsLike(rows, w) <==> l in rows && EqualsIgnoreCase(l.text, w)
    decreases |rows|
  {
    if |rows| > 0 {
      RowsLikeMembers(rows[..|rows| - 1], w);
      assert rows == rows[..|rows| - 1] + [rows[|rows| - 1]];
    }
  }

  lemma {:induction false} QueryRowsMembers(rows: seq<LemmaEntity>, ws: seq<string>)
    ensures forall l :: l in QueryRows(rows, ws) <==> (l in rows && exists w :: w in ws && EqualsIgnoreCase(l.text, w))
    decreases |ws|
  {
    if |ws| > 0 {
      var init, last := ws[..|ws| - 1], ws[|ws| - 1];
      QueryRowsMembers(rows, init);
      RowsLikeMembers(rows, last);
      assert ws == init + [last];
      forall l ensures l in QueryRows(rows, ws) <==> (l in rows && exists w :: w in ws && EqualsIgnoreCase(l.text, w)) {
        if l in rows && exists w :: w in ws && EqualsIgnoreCase(l.text, w) {
          var w :| w in ws && EqualsIgnoreCase(l.text, w);
          if w != last {
            assert w in init;
          }
        }
      }
    }
  }

  /** The puts of the innermost loop for one page and one index row. */
  function PairsOfIndex(list: seq<LemmaEntity>, idx: SearchIndex, p: PageEntity): seq<(LemmaEntity, PageEntity)>
    decreases |list|
  {
    if |list| == 0 then []
    else
      var l := list[|list| - 1];
      PairsOfIndex(list[..|list| - 1], idx, p) + (if idx.pageId == p.id && idx.lemmaId == l.id then [(l, p)] else [])
  }

  /** The puts for one page, index row by index row. */
  function PairsOfPage(indices: seq<SearchIndex>, list: seq<LemmaEntity>, p: PageEntity): seq<(LemmaEntity, PageEntity)>
    decreases |indices|
  {
    if |indices| == 0 then [] else PairsOfPage(indices[..|indices| - 1], list, p) + PairsOfIndex(list, indices[|indices| - 1], p)
  }

  /** All the puts, page by page. */
  function JoinPairs(pages: seq<PageEntity>, indices: seq<SearchIndex>, list: seq<LemmaEntity>): seq<(LemmaEntity, PageEntity)>
    decreases |pages|
  {
    if |pages| == 0 then [] else JoinPairs(pages[..|pages| - 1], indices, list) + PairsOfPage(indices, list, pages[|pages| - 1])
  }

  /** Some index row joins page `p` to lemma row `l`. */
  ghost predicate Joined(indices: seq<SearchIndex>, l: LemmaEntity, p: PageEntity) {
    exists idx :: idx in indices && idx.pageId == p.id && idx.lemmaId == l.id
  }

  lemma {:induction false} PairsOfIndexMembers(list: seq<LemmaEntity>, idx: SearchIndex, p: PageEntity)
    ensures forall e :: e in PairsOfIndex(list, idx, p) <==> (e.1 == p && e.0 in list && idx.pageId == p.id && idx.lemmaId == e.0.id)
    decreases |list|
  {
    if |list| > 0 {
      PairsOfIndexMembers(list[..|list| - 1], idx, p);
      assert list == list[..|list| - 1] + [list[|list| - 1]];
    }
  }

  lemma {:induction false} PairsOfPageMembers(indices: seq<SearchIndex>, list: seq<LemmaEntity>, p: PageEntity)
    ensures forall e :: e in PairsOfPage(indices, list, p) <==> (e.1 == p && e.0 in list && Joined(indices, e.0, p))
    decreases |indices|
  {
    if |indices| > 0 {
      var init, last := indices[..|indices| - 1], indices[|indices| - 1];
      PairsOfPageMembers(init, list, p);
      PairsOfIndexMembers(list, last, p);
      assert indices == init + [last];
      forall e ensures e in PairsOfPage(indices, list, p) <==> (e.1 == p && e.0 in list && Joined(indices, e.0, p)) {
        if e.1 == p && e.0 in list && Joined(indices, e.0, p) {
          var idx :| idx in indices && idx.pageId == p.id && idx.lemmaId == e.0.id;
          if idx != last {
            assert idx in init;
          }
        }
        if e in PairsOfPage(init, list, p) {
          var idx :| idx in init && idx.pageId == p.id && idx.lemmaId == e.0.id;
          assert idx in indices;
        }
      }
    }
  }

  lemma {:induction false} JoinPairsMembers(pages: seq<PageEntity>, indices: seq<SearchIndex>, list: seq<LemmaEntity>)
    ensures forall e :: e in JoinPairs(pages, indices, list) <==> (e.1 in pages && e.0 in list && Joined(indices, e.0, e.1))
    decreases |pages|
  {
    if |pages| > 0 {
      var init, last := pages[..|pages| - 1], pages[|pages| - 1];
      JoinPairsMembers(init, indices, list);
      PairsOfPageMembers(indices, list, last);
      assert pages == init + [last];
    }
  }

  /** The puts of the innermost loop (lines 304-309) for one page and one index row. */
  method PutPairsOfIndex(m: seq<(LemmaEntity, PageEntity)>, lemmaEntityList: seq<LemmaEntity>, searchIndex: SearchIndex, page: PageEntity,
                         ghost done: seq<(LemmaEntity, PageEntity)>)
    returns (r: seq<(LemmaEntity, PageEntity)>)
    requires m == PutAll([], done)
    ensures r == PutAll([], done + PairsOfIndex(lemmaEntityList, searchIndex, page))
  {
    r := m;
    var c := 0;
    assert done + PairsOfIndex(lemmaEntityList[..0], searchIndex, page) == done;
    while c < |lemmaEntityList|
      invariant 0 <= c <= |lemmaEntityList|
      invariant r == PutAll([], done + PairsOfIndex(lemmaEntityList[..c], searchIndex, page))
    {
      var row := lemmaEntityList[c];
      assert lemmaEntityList[..c + 1][..c] == lemmaEntityList[..c];
      ghost var before := done + PairsOfIndex(lemmaEntityList[..c], searchIndex, page);
      if searchIndex.pageId == page.id && searchIndex.lemmaId == row.id {
        assert (before + [(row, page)])[..|before|] == before;
        assert done + PairsOfIndex(lemmaEntityList[..c + 1], searchIndex, page) == before + [(row, page)];
        r := Put(r, row, page);
      } else {
        assert done + PairsOfIndex(lemmaEntityList[..c + 1], searchIndex, page) == before;
      }
      c := c + 1;
    }
    assert lemmaEntityList[..c] == lemmaEntityList;
  }

  /** The rows matching some query lemma ignoring case (lines 294-300). */
  method FindQueryRows(lemmaRows: seq<LemmaEntity>, lemmasFromQuery: seq<string>) returns (lemmaEntityList: seq<LemmaEntity>)
    ensures lemmaEntityList == QueryRows(lemmaRows, lemmasFromQuery)
  {
    lemmaEntityList := [];
    var a := 0;
    while a < |lemmasFromQuery|
      invariant 0 <= a <= |lemmasFromQuery|
      invariant lemmaEntityList == QueryRows(lemmaRows, lemmasFromQuery[..a])
    {
      var lemma_ := lemmasFromQuery[a];
      ghost var before := lemmaEntityList;
      var b := 0;
      while b < |lemmaRows|
        invariant 0 <= b <= |lemmaRows|
        invariant lemmaEntityList == before + RowsLike(lemmaRows[..b], lemma_)
      {
        assert lemmaRows[..b + 1][..b] == lemmaRows[..b];
        if EqualsIgnoreCase(lemmaRows[b].text, lemma_) {
          lemmaEntityList := lemmaEntityList + [lemmaRows[b]];
        }
        b := b + 1;
      }
      assert lemmaRows[..b] == lemmaRows;
      assert lemmasFromQuery[..a + 1][..a] == lemmasFromQuery[..a];
      a := a + 1;
    }
    assert lemmasFromQuery[..a] == lemmasFromQuery;
  }

  lemma PairsOfPageSnoc(done: seq<(LemmaEntity, PageEntity)>, indices: seq<SearchIndex>, b: int, list: seq<LemmaEntity>, page: PageEntity)
    requires 0 <= b < |indices|
    ensures done + PairsOfPage(indices[..b], list, page) + PairsOfIndex(list, indices[b], page) == done + PairsOfPage(indices[..b + 1], list, page)
  {
    assert indices[..b + 1][..b] == indices[..b];
  }

  /** The puts of the loop over the index (lines 303-310) for one page. */
  method PutPairsOfPage(m: seq<(LemmaEntity, PageEntity)>, lemmaEntityList: seq<LemmaEntity>, indices: seq<SearchIndex>, page: PageEntity,
                        ghost done: seq<(LemmaEntity, PageEntity)>)
    returns (r: seq<(LemmaEntity, PageEntity)>)
    requires m == PutAll([], done)
    ensures r == PutAll([], done + PairsOfPage(indices, lemmaEntityList, page))
  {
    r := m;
    var b := 0;
    assert done + PairsOfPage(indices[..0], lemmaEntityList, page) == done;
    while b < |indices|
      invariant 0 <= b <= |indices|
      invariant r == PutAll([], done + PairsOfPage(indices[..b], lemmaEntityList, page))
    {
      ghost var before := done + PairsOfPage(indices[..b], lemmaEntityList, page);
      r := PutPairsOfIndex(r, lemmaEntityList, indices[b], page, before);
      PairsOfPageSnoc(done, indices, b, lemmaEntityList, page);
      b := b + 1;
    }
    assert indices[..b] == indices;
  }

  /**
   * compareFinalPagesAndLemmas: a LinkedHashMap from lemma row to page, fed
   * by one put per (page, index row, matching row) that the index joins.
   */
  method CompareFinalPagesAndLemmas(pagesFilteredByNextLemmas: seq<PageEntity>, lemmasFromQuery: seq<string>, t: Tables)
    returns (finalPagesAndLemmasList: seq<(LemmaEntity, PageEntity)>)
    ensures finalPagesAndLemmasList == PutAll([], JoinPairs(pagesFilteredByNextLemmas, t.indices, QueryRows(t.lemmas, lemmasFromQuery)))
    ensures IsMap(finalPagesAndLemmasList)
  {
    var lemmaEntityList := FindQueryRows(t.lemmas, lemmasFromQuery);
    finalPagesAndLemmasList := [];
    var a := 0;
    assert JoinPairs(pagesFilteredByNextLemmas[..0], t.indices, lemmaEntityList) == [];
    while a < |pagesFilteredByNextLemmas|
      invariant 0 <= a <= |pagesFilteredByNextLemmas|
      invariant finalPagesAndLemmasList == PutAll([], JoinPairs(pagesFilteredByNextLemmas[..a], t.indices, lemmaEntityList))
    {
      assert pagesFilteredByNextLemmas[..a + 1][..a] == pagesFilteredByNextLemmas[..a];
      ghost var before := JoinPairs(pagesFilteredByNextLemmas[..a], t.indices, lemmaEntityList);
      finalPagesAndLemmasList := PutPairsOfPage(finalPagesAndLemmasList, lemmaEntityList, t.indices, pagesFilteredByNextLemmas[a], before);
      a := a + 1;
    }
    assert pagesFilteredByNextLemmas[..a] == pagesFilteredByNextLemmas;
    assert IsMap<LemmaEntity, PageEntity>([]);
    PutAllIsMap([], JoinPairs(pagesFilteredByNextLemmas, t.indices, lemmaEntityList));
  }

  /**
   * Every entry of the grouping map pairs a stored lemma row matching some
   * query lemma ignoring case with a filtered page the index joins it to,
   * and every such row is a key.
   */
  lemma GroupingMeaning(pages: seq<PageEntity>, query: seq<string>, t: Tables)
    ensures forall e :: e in PutAll([], JoinPairs(pages, t.indices, QueryRows(t.lemmas, query))) ==>
      && e.0 in t.lemmas && (exists w :: w in query && EqualsIgnoreCase(e.0.text, w))
      && e.1 in pages && Joined(t.indices, e.0, e.1)
    ensures forall l, p :: (l in t.lemmas && (exists w :: w in query && EqualsIgnoreCase(l.text, w)) &&
      p in pages && Joined(t.indices, l, p)) ==>
      Get(PutAll([], JoinPairs(pages, t.indices, QueryRows(t.lemmas, query))), l).Some?
  {
    var list := QueryRows(t.lemmas, query);
    var pairs := JoinPairs(pages, t.indices, list);
    QueryRowsMembers(t.lemmas, query);
    JoinPairsMembers(pages, t.indices, list);
    PutAllMembers([], pairs);
    PutAllCovers([], pairs);
    forall l, p | l in t.lemmas && (exists w :: w in query && EqualsIgnoreCase(l.text, w)) && p in pages && Joined(t.indices, l, p)
      ensures Get(PutAll([], pairs), l).Some?
    {
      assert (l, p) in pairs;
    }
  }

  // ---------------------------------------------------------------------------
  // sortPagesByRelevance

  /** The summed frequency of the lemma rows mapped to page `p`. */
  function Relevance(entries: seq<(LemmaEntity, PageEntity)>, p: PageEntity): int
    decreases |entries|
  {
    if |entries| == 0 then 0
    else
      var e := entries[|entries| - 1];
      Relevance(entries[..|entries| - 1], p) + (if e.1 == p then e.0.frequency else 0)
  }

  /** The summed frequency of all the keys. */
  function TotalFrequency(entries: seq<(LemmaEntity, PageEntity)>): int
    decreases |entries|
  {
    if |entries| == 0 then 0 else TotalFrequency(entries[..|entries| - 1]) + entries[|entries| - 1].0.frequency
  }

  /** The position of the last entry mapped to `p`, or -1. */
  function LastPos(entries: seq<(LemmaEntity, PageEntity)>, p: PageEntity): (n: int)
    ensures -1 <= n < |entries|
    ensures n >= 0 ==> entries[n].1 == p
    decreases |entries|
  {
    if |entries| == 0 then -1
    else if entries[|entries| - 1].1 == p then |entries| - 1
    else LastPos(entries[..|entries| - 1], p)
  }

  /**
   * What sortPagesByRelevance builds from `entries`: a map with one entry
   * per page of the entries, holding the summed frequency of that page, the
   * pages in the order of their last occurrence, the values adding up to all
   * the frequencies.
   */
  ghost predicate RelevanceMap(sortedList: seq<(PageEntity, int)>, entries: seq<(LemmaEntity, PageEntity)>) {
    && IsMap(sortedList) && |sortedList| <= |entries|
    && (forall i :: 0 <= i < |sortedList| ==>
          sortedList[i].1 == Relevance(entries, sortedList[i].0) && LastPos(entries, sortedList[i].0) >= 0)
    && (forall j :: 0 <= j < |entries| ==> Get(sortedList, entries[j].1).Some?)
    && (forall i, j :: 0 <= i < j < |sortedList| ==> LastPos(entries, sortedList[i].0) < LastPos(entries, sortedList[j].0))
    && SumValues(sortedList) == TotalFrequency(entries)
  }

  /** The value of `p`, 0 when absent. */
  function ValueOr0(m: seq<(PageEntity, int)>, p: PageEntity): int {
    if Get(m, p).Some? then Get(m, p).value else 0
  }

  /** One turn of the loop: the entry of `p`, if any, leaves, and `p` is appended with the new sum. */
  ghost function Step(m: seq<(PageEntity, int)>, p: PageEntity, f: int): seq<(PageEntity, int)> {
    Remove(m, p) + [(p, f + ValueOr0(m, p))]
  }

  lemma Snoc(pre: seq<(LemmaEntity, PageEntity)>, e: (LemmaEntity, PageEntity), q: PageEntity)
    ensures Relevance(pre + [e], q) == Relevance(pre, q) + (if e.1 == q then e.0.frequency else 0)
    ensures LastPos(pre + [e], q) == if e.1 == q then |pre| else LastPos(pre, q)
    ensures TotalFrequency(pre + [e]) == TotalFrequency(pre) + e.0.frequency
  {
    assert (pre + [e])[..|pre|] == pre;
  }

  lemma {:induction false} RelevanceAbsent(entries: seq<(LemmaEntity, PageEntity)>, p: PageEntity)
    requires forall j :: 0 <= j < |entries| ==> entries[j].1 != p
    ensures Relevance(entries, p) == 0
    decreases |entries|
  {
    if |entries| > 0 {
      RelevanceAbsent(entries[..|entries| - 1], p);
    }
  }

  lemma StepShape(m: seq<(PageEntity, int)>, p: PageEntity, f: int)
    requires IsMap(m)
    ensures var r := Step(m, p, f);
      && 0 < |r| <= |m| + 1 && r[|r| - 1].0 == p && IsMap(r)
      && r[|r| - 1].1 == f + ValueOr0(m, p)
      && (forall i :: 0 <= i < |r| - 1 ==> r[i] in m && r[i].0 != p)
      && (forall e :: e in m && e.0 != p ==> e in r)
      && SumValues(r) == SumValues(m) + f
  {
    var r := Step(m, p, f);
    var rest := Remove(m, p);
    var v := f + ValueOr0(m, p);
    RemoveFacts(m, p);
    assert forall i :: 0 <= i < |r| - 1 ==> r[i] == rest[i];
    assert forall e :: e in rest ==> e in r;
    if Get(m, p).Some? {
      var x := IndexOf(m, p);
      IndexOfMap(m, x);
      SumValuesRemove(m, x);
    }
    SumValuesConcat(rest, [(p, v)]);
    assert SumValues([(p, v)]) == v by {
      assert [(p, v)][..0] == [];
    }
  }

  /** An entry's key is present. */
  lemma EntryKey(r: seq<(PageEntity, int)>, e: (PageEntity, int))
    requires e in r
    ensures Get(r, e.0).Some?
  {
    var i :| 0 <= i < |r| && r[i] == e;
  }

  /** Dropping one entry keeps the others in their order. */
  lemma DropOrder(m: seq<(PageEntity, int)>, x: int, pre: seq<(LemmaEntity, PageEntity)>)
    requires 0 <= x < |m|
    requires forall i, j :: 0 <= i < j < |m| ==> LastPos(pre, m[i].0) < LastPos(pre, m[j].0)
    ensures var rest := m[..x] + m[x + 1..];
      forall i, j :: 0 <= i < j < |rest| ==> LastPos(pre, rest[i].0) < LastPos(pre, rest[j].0)
  {
    var rest := m[..x] + m[x + 1..];
    forall i, j | 0 <= i < j < |rest| ensures LastPos(pre, rest[i].0) < LastPos(pre, rest[j].0) {
      var i', j' := if i < x then i else i + 1, if j < x then j else j + 1;
      assert rest[i] == m[i'] && rest[j] == m[j'];
    }
  }

  /** The entries the step keeps stay in their order. */
  lemma StepOrder(m: seq<(PageEntity, int)>, p: PageEntity, f: int, pre: seq<(LemmaEntity, PageEntity)>)
    requires forall i, j :: 0 <= i < j < |m| ==> LastPos(pre, m[i].0) < LastPos(pre, m[j].0)
    ensures var r := Step(m, p, f);
      forall i, j :: 0 <= i < j < |r| - 1 ==> LastPos(pre, r[i].0) < LastPos(pre, r[j].0)
  {
    var r := Step(m, p, f);
    var rest := Remove(m, p);
    if Get(m, p).Some? {
      var x := IndexOf(m, p);
      DropOrder(m, x, pre);
    }
    assert forall i :: 0 <= i < |r| - 1 ==> r[i] == rest[i];
  }

  /** The values and positions of the entries the step keeps. */
  lemma StepKept(m: seq<(PageEntity, int)>, pre: seq<(LemmaEntity, PageEntity)>, e: (LemmaEntity, PageEntity))
    requires RelevanceMap(m, pre)
    ensures var r := Step(m, e.1, e.0.frequency);
      forall i :: 0 <= i < |r| - 1 ==>
        r[i].1 == Relevance(pre + [e], r[i].0) && LastPos(pre + [e], r[i].0) == LastPos(pre, r[i].0) < |pre| && r[i].0 != e.1
  {
    var r := Step(m, e.1, e.0.frequency);
    StepShape(m, e.1, e.0.frequency);
    forall i | 0 <= i < |r| - 1
      ensures r[i].1 == Relevance(pre + [e], r[i].0) && LastPos(pre + [e], r[i].0) == LastPos(pre, r[i].0) < |pre| && r[i].0 != e.1
    {
      var x :| 0 <= x < |m| && m[x] == r[i];
      Snoc(pre, e, r[i].0);
    }
  }

  /** The page of the step ends up last with its sum over `pre + [e]`. */
  lemma StepLast(m: seq<(PageEntity, int)>, pre: seq<(LemmaEntity, PageEntity)>, e: (LemmaEntity, PageEntity))
    requires RelevanceMap(m, pre)
    ensures var r := Step(m, e.1, e.0.frequency);
      && r[|r| - 1].0 == e.1 && r[|r| - 1].1 == Relevance(pre + [e], e.1) && LastPos(pre + [e], e.1) == |pre|
  {
    var p := e.1;
    Snoc(pre, e, p);
    if Get(m, p).None? {
      forall j | 0 <= j < |pre| ensures pre[j].1 != p {
        assert Get(m, pre[j].1).Some?;
      }
      RelevanceAbsent(pre, p);
    } else {
      var x := IndexOf(m, p);
      assert m[x].1 == Get(m, p).value;
    }
  }

  /** Every page of `pre + [e]` is a key after the step. */
  lemma StepCovers(m: seq<(PageEntity, int)>, pre: seq<(LemmaEntity, PageEntity)>, e: (LemmaEntity, PageEntity))
    requires RelevanceMap(m, pre)
    ensures var r := Step(m, e.1, e.0.frequency);
      forall j :: 0 <= j < |pre + [e]| ==> Get(r, (pre + [e])[j].1).Some?
  {
    var p := e.1;
    var r := Step(m, p, e.0.frequency);
    StepShape(m, p, e.0.frequency);
    forall j | 0 <= j < |pre + [e]| ensures Get(r, (pre + [e])[j].1).Some? {
      if j < |pre| && pre[j].1 != p {
        var x := IndexOf(m, pre[j].1);
        assert m[x] in m;
        EntryKey(r, m[x]);
      } else {
        EntryKey(r, r[|r| - 1]);
      }
    }
  }

  /** The kept entries keep their order, and the page of the step, at the last position, comes after them. */
  lemma AssembleOrder(r: seq<(PageEntity, int)>, pre: seq<(LemmaEntity, PageEntity)>, post: seq<(LemmaEntity, PageEntity)>, n: int)
    requires |r| > 0 && LastPos(post, r[|r| - 1].0) == n
    requires forall i :: 0 <= i < |r| - 1 ==> LastPos(post, r[i].0) == LastPos(pre, r[i].0) < n
    requires forall i, j :: 0 <= i < j < |r| - 1 ==> LastPos(pre, r[i].0) < LastPos(pre, r[j].0)
    ensures forall i, j :: 0 <= i < j < |r| ==> LastPos(post, r[i].0) < LastPos(post, r[j].0)
  {
  }

  /** One turn of the loop keeps `RelevanceMap`, one entry further. */
  lemma AccumulateStep(m: seq<(PageEntity, int)>, pre: seq<(LemmaEntity, PageEntity)>, e: (LemmaEntity, PageEntity),
                       r: seq<(PageEntity, int)>)
    requires RelevanceMap(m, pre) && r == Step(m, e.1, e.0.frequency)
    ensures RelevanceMap(r, pre + [e])
  {
    StepShape(m, e.1, e.0.frequency);
    StepOrder(m, e.1, e.0.frequency, pre);
    StepKept(m, pre, e);
    StepLast(m, pre, e);
    StepCovers(m, pre, e);
    Snoc(pre, e, e.1);
    AssembleOrder(r, pre, pre + [e], |pre|);
  }

  /** The map sortPagesByRelevance builds: one `Step` per entry, in order. */
  ghost function Relevances(entries: seq<(LemmaEntity, PageEntity)>): seq<(PageEntity, int)>
    decreases |entries|
  {
    if |entries| == 0 then []
    else
      var e := entries[|entries| - 1];
      Step(Relevances(entries[..|entries| - 1]), e.1, e.0.frequency)
  }

  /** The steps build the map `RelevanceMap` describes. */
  lemma {:induction false} RelevancesMeaning(entries: seq<(LemmaEntity, PageEntity)>)
    ensures RelevanceMap(Relevances(entries), entries)
    decreases |entries|
  {
    if |entries| > 0 {
      var pre, e := entries[..|entries| - 1], entries[|entries| - 1];
      assert entries == pre + [e];
      var m, r := Relevances(pre), Relevances(entries);
      RelevancesMeaning(pre);
      assert r == Step(m, e.1, e.0.frequency);
      AccumulateStep(m, pre, e, r);
    }
  }

  /** The body of the loop of sortPagesByRelevance (lines 271-281) for one entry. */
  method AddEntry(sortedList: seq<(PageEntity, int)>, entry: (LemmaEntity, PageEntity)) returns (r: seq<(PageEntity, int)>)
    requires IsMap(sortedList)
    ensures r == Step(sortedList, entry.1, entry.0.frequency)
  {
    var present := Get(sortedList, entry.1);
    if present.Some? {
      var rank := present.value;
      RemoveFacts(sortedList, entry.1);
      r := Remove(sortedList, entry.1);
      r := Put(r, entry.1, entry.0.frequency + rank);
    } else {
      r := Put(sortedList, entry.1, entry.0.frequency);
    }
  }

  /**
   * sortPagesByRelevance: a page seen again is removed and put back with its
   * summed frequency, so it moves to the end.
   */
  method SortPagesByRelevance(lemmaAndPageList: seq<(LemmaEntity, PageEntity)>) returns (sortedList: seq<(PageEntity, int)>)
    ensures RelevanceMap(sortedList, lemmaAndPageList)
    ensures sortedList == Relevances(lemmaAndPageList)
  {
    sortedList := [];
    var k := 0;
    assert lemmaAndPageList[..0] == [];
    while k < |lemmaAndPageList|
      invariant 0 <= k <= |lemmaAndPageList|
      invariant sortedList == Relevances(lemmaAndPageList[..k])
    {
      RelevancesMeaning(lemmaAndPageList[..k]);
      sortedList := AddEntry(sortedList, lemmaAndPageList[k]);
      assert lemmaAndPageList[..k + 1][..k] == lemmaAndPageList[..k];
      k := k + 1;
    }
    assert lemmaAndPageList[..k] == lemmaAndPageList;
    RelevancesMeaning(lemmaAndPageList);
  }

  // ---------------------------------------------------------------------------
  // sortPages

  /** The key of `Comparator.comparingInt(e -> -e.getValue())`. */
  function NegatedRelevance(e: (PageEntity, int)): int {
    -e.1
  }

  lemma SortedPagesAreMap(finalPages: seq<(PageEntity, int)>)
    ensures IsMap(finalPages) ==> IsMap(SortBy(finalPages, NegatedRelevance))
  {
    if IsMap(finalPages) {
      SortedMap(finalPages, NegatedRelevance);
    }
  }

  /** sortPages: the same entries, stably ordered by relevance from highest to lowest. */
  function SortPages(finalPages: seq<(PageEntity, int)>): (r: seq<(PageEntity, int)>)
    ensures multiset(r) == multiset(finalPages)
    ensures forall i, j :: 0 <= i < j < |r| ==> r[i].1 >= r[j].1
    ensures IsMap(finalPages) ==> IsMap(r)
  {
    var r := SortBy(finalPages, NegatedRelevance);
    assert forall i, j :: 0 <= i < j < |r| ==> NegatedRelevance(r[i]) <= NegatedRelevance(r[j]);
    SortedPagesAreMap(finalPages);
    r
  }
}
