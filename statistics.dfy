/**
 * StatisticsServiceImpl: per configured site, the stored row of the same
 * name and, when that row is INDEXED, its page and lemma counts; the totals
 * add up the counts of those sites. The service only reads the tables.
 */
module Statistics {
  import opened Wrappers
  import opened Entities

  datatype TotalStatistics = TotalStatistics(sites: int, pages: int, lemmas: int, indexing: bool)

  /** One detailed item; `None` and 0 are the values of the fields never set. */
  datatype DetailedStatisticsItem = DetailedStatisticsItem(
    url: string,
    name: string,
    status: Option<string>,
    statusTime: int,
    error: Option<string>,
    pages: int,
    lemmas: int)

  datatype StatisticsData = StatisticsData(total: TotalStatistics, detailed: seq<DetailedStatisticsItem>)

  datatype StatisticsResponse = StatisticsResponse(statistics: StatisticsData, result: bool)

  /** String.valueOf of a Status. */
  function StatusName(s: Status): string {
    match s
    case Indexing => "INDEXING"
    case Indexed => "INDEXED"
    case Failed => "FAILED"
  }

  /** Positions of the pages of site `siteId`. */
  ghost function PagePositions(pages: seq<PageEntity>, siteId: int, n: int): set<int>
    requires 0 <= n <= |pages|
  {
    set i | 0 <= i < n && pages[i].siteId == siteId
  }

  ghost function LemmaPositions(lemmas: seq<LemmaEntity>, siteId: int, n: int): set<int>
    requires 0 <= n <= |lemmas|
  {
    set i | 0 <= i < n && lemmas[i].siteId == siteId
  }

  /** StatisticsServiceImpl.countPages: the number of pages of the site. */
  method CountPages(site: SiteEntity, pageEntityList: seq<PageEntity>) returns (count: int)
    ensures count == |PagePositions(pageEntityList, site.id, |pageEntityList|)|
  {
    count := 0;
    var i := 0;
    while i < |pageEntityList|
      invariant 0 <= i <= |pageEntityList|
      invariant count == |PagePositions(pageEntityList, site.id, i)|
    {
      if pageEntityList[i].siteId == site.id {
        assert PagePositions(pageEntityList, site.id, i + 1) == PagePositions(pageEntityList, site.id, i) + {i};
        count := count + 1;
      } else {
        assert PagePositions(pageEntityList, site.id, i + 1) == PagePositions(pageEntityList, site.id, i);
      }
      i := i + 1;
    }
  }

  /** StatisticsServiceImpl.countLemmas: the number of lemma rows of the site. */
  method CountLemmas(site: SiteEntity, lemmaEntityList: seq<LemmaEntity>) returns (count: int)
    ensures count == |LemmaPositions(lemmaEntityList, site.id, |lemmaEntityList|)|
  {
    count := 0;
    var i := 0;
    while i < |lemmaEntityList|
      invariant 0 <= i <= |lemmaEntityList|
      invariant count == |LemmaPositions(lemmaEntityList, site.id, i)|
    {
      if lemmaEntityList[i].siteId == site.id {
        assert LemmaPositions(lemmaEntityList, site.id, i + 1) == LemmaPositions(lemmaEntityList, site.id, i) + {i};
        count := count + 1;
      } else {
        assert LemmaPositions(lemmaEntityList, site.id, i + 1) == LemmaPositions(lemmaEntityList, site.id, i);
      }
      i := i + 1;
    }
  }

  /** The last stored site whose name equals `name`, or `None`. */
  function LastNamed(sites: seq<SiteEntity>, name: string): (r: Option<SiteEntity>)
    ensures r.None? <==> forall i :: 0 <= i < |sites| ==> sites[i].name != name
    ensures r.Some? ==>
      exists i :: 0 <= i < |sites| && sites[i] == r.value && sites[i].name == name &&
        (forall j :: i < j < |sites| ==> sites[j].name != name)
    decreases |sites|
  {
    if |sites| == 0 then None
    else if sites[|sites| - 1].name == name then Some(sites[|sites| - 1])
    else
      var r := LastNamed(sites[..|sites| - 1], name);
      assert forall i :: 0 <= i < |sites| - 1 ==> sites[..|sites| - 1][i] == sites[i];
      r
  }

  /** StatisticsServiceImpl.getSiteFromRepository: the scan keeps the last site with an equal name. */
  method GetSiteFromRepository(site: ConfigSite, siteEntityList: seq<SiteEntity>) returns (resultEntity: Option<SiteEntity>)
    ensures resultEntity == LastNamed(siteEntityList, site.name)
  {
    resultEntity := None;
    var i := 0;
    while i < |siteEntityList|
      invariant 0 <= i <= |siteEntityList|
      invariant resultEntity == LastNamed(siteEntityList[..i], site.name)
    {
      assert siteEntityList[..i + 1][..i] == siteEntityList[..i];
      if siteEntityList[i].name == site.name {
        resultEntity := Some(siteEntityList[i]);
      }
      i := i + 1;
    }
    assert siteEntityList[..i] == siteEntityList;
  }

  /** The stored site a configured site reports, when that site is INDEXED. */
  function IndexedSite(site: ConfigSite, t: Tables): Option<SiteEntity> {
    var s := LastNamed(t.sites, site.name);
    if s.Some? && s.value.status == Indexed then s else None
  }

  /** The detailed item of a configured site. */
  ghost function ItemFor(site: ConfigSite, t: Tables, epochMillis: Time -> int): DetailedStatisticsItem {
    match IndexedSite(site, t)
    case None => DetailedStatisticsItem(site.url, site.name, None, 0, None, 0, 0)
    case Some(s) => DetailedStatisticsItem(site.url, site.name, Some(StatusName(s.status)), epochMillis(s.statusTime),
      s.lastError, |PagePositions(t.pages, s.id, |t.pages|)|, |LemmaPositions(t.lemmas, s.id, |t.lemmas|)|)
  }

  /** The sum of the page counts of the filled items. */
  function IndexedPages(items: seq<DetailedStatisticsItem>): int
    decreases |items|
  {
    if |items| == 0 then 0
    else IndexedPages(items[..|items| - 1]) + (if items[|items| - 1].status.Some? then items[|items| - 1].pages else 0)
  }

  function IndexedLemmas(items: seq<DetailedStatisticsItem>): int
    decreases |items|
  {
    if |items| == 0 then 0
    else IndexedLemmas(items[..|items| - 1]) + (if items[|items| - 1].status.Some? then items[|items| - 1].lemmas else 0)
  }

  /**
   * StatisticsServiceImpl.getStatistics over the tables `t`; `epochMillis`
   * is the conversion of a timestamp to epoch milliseconds.
   */
  method GetStatistics(sites: seq<ConfigSite>, t: Tables, epochMillis: Time -> int) returns (response: StatisticsResponse)
    ensures response.result
    ensures response.statistics.total.sites == |sites| && response.statistics.total.indexing
    ensures |response.statistics.detailed| == |sites|
    ensures forall i :: 0 <= i < |sites| ==> response.statistics.detailed[i] == ItemFor(sites[i], t, epochMillis)
    ensures response.statistics.total.pages == IndexedPages(response.statistics.detailed)
    ensures response.statistics.total.lemmas == IndexedLemmas(response.statistics.detailed)
  {
    var total := TotalStatistics(|sites|, 0, 0, true);
    var detailed: seq<DetailedStatisticsItem> := [];
    var i := 0;
    while i < |sites|
      invariant 0 <= i <= |sites|
      invariant total.sites == |sites| && total.indexing
      invariant |detailed| == i
      invariant forall j :: 0 <= j < i ==> detailed[j] == ItemFor(sites[j], t, epochMillis)
      invariant total.pages == IndexedPages(detailed) && total.lemmas == IndexedLemmas(detailed)
    {
      var site := sites[i];
      var item := DetailedStatisticsItem(site.url, site.name, None, 0, None, 0, 0);
      var siteEntity := GetSiteFromRepository(site, t.sites);
      if siteEntity.Some? && siteEntity.value.status == Indexed {
        var pages := CountPages(siteEntity.value, t.pages);
        var lemmas := CountLemmas(siteEntity.value, t.lemmas);
        item := item.(pages := pages, lemmas := lemmas, status := Some(StatusName(siteEntity.value.status)),
          error := siteEntity.value.lastError, statusTime := epochMillis(siteEntity.value.statusTime));
        total := total.(pages := total.pages + pages, lemmas := total.lemmas + lemmas);
      }
      assert (detailed + [item])[..i] == detailed;
      detailed := detailed + [item];
      i := i + 1;
    }
    response := StatisticsResponse(StatisticsData(total, detailed), true);
  }

  /** An item is filled exactly when the last stored site of its name exists and is INDEXED. */
  lemma ItemFilled(site: ConfigSite, t: Tables, epochMillis: Time -> int)
    ensures ItemFor(site, t, epochMillis).status.Some? <==>
      exists i :: 0 <= i < |t.sites| && t.sites[i].name == site.name && t.sites[i].status == Indexed &&
        (forall j :: i < j < |t.sites| ==> t.sites[j].name != site.name)
    ensures ItemFor(site, t, epochMillis).name == site.name && ItemFor(site, t, epochMillis).url == site.url
    ensures ItemFor(site, t, epochMillis).status.None? ==>
      ItemFor(site, t, epochMillis).pages == 0 && ItemFor(site, t, epochMillis).lemmas == 0
  {
    if exists i :: 0 <= i < |t.sites| && t.sites[i].name == site.name && t.sites[i].status == Indexed &&
        (forall j :: i < j < |t.sites| ==> t.sites[j].name != site.name) {
      var i :| 0 <= i < |t.sites| && t.sites[i].name == site.name && t.sites[i].status == Indexed &&
        (forall j :: i < j < |t.sites| ==> t.sites[j].name != site.name);
      var r := LastNamed(t.sites, site.name);
      var k :| 0 <= k < |t.sites| && t.sites[k] == r.value && t.sites[k].name == site.name &&
        (forall j :: k < j < |t.sites| ==> t.sites[j].name != site.name);
      assert k == i;
    }
  }

  /** The totals count only sites that are INDEXED: unfilled items contribute nothing either way. */
  lemma {:induction false} TotalsOverAllItems(items: seq<DetailedStatisticsItem>)
    requires forall i :: 0 <= i < |items| && items[i].status.None? ==> items[i].pages == 0 && items[i].lemmas == 0
    ensures IndexedPages(items) == SumPages(items) && IndexedLemmas(items) == SumLemmas(items)
    decreases |items|
  {
    if |items| > 0 {
      TotalsOverAllItems(items[..|items| - 1]);
    }
  }

  function SumPages(items: seq<DetailedStatisticsItem>): int
    decreases |items|
  {
    if |items| == 0 then 0 else SumPages(items[..|items| - 1]) + items[|items| - 1].pages
  }

  function SumLemmas(items: seq<DetailedStatisticsItem>): int
    decreases |items|
  {
    if |items| == 0 then 0 else SumLemmas(items[..|items| - 1]) + items[|items| - 1].lemmas
  }
}
