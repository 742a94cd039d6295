/**
 * ParsingServiceImpl: the start/stop state machine of indexing. Crawls are
 * handed to a thread pool and not awaited; the model records each crawl
 * handed over as a `CrawlTask` and each pool by a number. `startIndexing`
 * is also given as its three steps, so that a `stopIndexing` arriving while
 * a start is running can be placed between two sites.
 */
module Parsing {
  import opened Wrappers
  import opened Entities
  import opened Repository

  /** A crawl handed to pool `pool` with forkJoinPool.execute: its root URL, its visited set and its site row. */
  datatype CrawlTask = CrawlTask(pool: nat, root: string, hrefList: set<string>, site: SiteEntity)

  /** A site row as stopIndexing leaves it: an INDEXING site becomes FAILED, stamped `now`, with the error "Indexing stopped". */
  function StopMark(site: SiteEntity, now: Time): SiteEntity {
    if site.status == Indexing then site.(status := Failed, statusTime := now, lastError := Some("Indexing stopped"))
    else site
  }

  function Stopped(sites: seq<SiteEntity>, now: Time): seq<SiteEntity> {
    seq(|sites|, i requires 0 <= i < |sites| => StopMark(sites[i], now))
  }

  /** After a stop no site is INDEXING; the stopped sites are FAILED with the error set; every other row and every id is kept. */
  lemma StoppedFacts(sites: seq<SiteEntity>, now: Time)
    ensures |Stopped(sites, now)| == |sites|
    ensures SiteIds(Stopped(sites, now)) == SiteIds(sites)
    ensures forall i :: 0 <= i < |sites| ==> Stopped(sites, now)[i].status != Indexing
    ensures forall i :: 0 <= i < |sites| && sites[i].status != Indexing ==> Stopped(sites, now)[i] == sites[i]
    ensures forall i :: 0 <= i < |sites| && sites[i].status == Indexing ==>
      var s := Stopped(sites, now)[i];
      && s.status == Failed && s.lastError == Some("Indexing stopped") && s.statusTime == now
      && s.id == sites[i].id && s.url == sites[i].url && s.name == sites[i].name
  {
  }

  /** The tasks that survive shutdownNow of pool `pool`. */
  function TasksOutside(tasks: seq<CrawlTask>, pool: nat): (r: seq<CrawlTask>)
    decreases |tasks|
  {
    if |tasks| == 0 then []
    else
      var rest := TasksOutside(tasks[..|tasks| - 1], pool);
      if tasks[|tasks| - 1].pool == pool then rest else rest + [tasks[|tasks| - 1]]
  }

  /** shutdownNow cancels exactly the tasks of the pool it is called on. */
  lemma {:induction false} TasksOutsideMembers(tasks: seq<CrawlTask>, pool: nat)
    ensures forall t :: t in TasksOutside(tasks, pool) <==> t in tasks && t.pool != pool
    decreases |tasks|
  {
    if |tasks| > 0 {
      TasksOutsideMembers(tasks[..|tasks| - 1], pool);
      assert tasks == tasks[..|tasks| - 1] + [tasks[|tasks| - 1]];
    }
  }

  /** With unique ids, the row with the id of row `i` is row `i`. */
  lemma FindSiteUnique(sites: seq<SiteEntity>, next: int, i: int)
    requires IdsOrdered(SiteIds(sites), next)
    requires 0 <= i < |sites|
    ensures FindSite(sites, sites[i].id) == i
    decreases |sites|
  {
    var n := |sites| - 1;
    if i < n {
      assert SiteIds(sites)[i] < SiteIds(sites)[n];
      assert SiteIds(sites[..n]) == SiteIds(sites)[..n];
      FindSiteUnique(sites[..n], next, i);
    }
  }

  /** The row startIndexing creates for configured site `site` before its crawl is handed over. */
  function NewSiteRow(site: ConfigSite, now: Time): SiteEntity {
    SiteEntity(0, Indexing, now, None, site.url, site.name)
  }

  class ParsingService {
    const sites: seq<ConfigSite>
    const db: Database
    var started: bool
    var pool: Option<nat>
    var poolCount: nat
    var tasks: seq<CrawlTask>

    ghost predicate Valid()
      reads this, db
    {
      && db.Valid()
      && (pool.Some? ==> pool.value < poolCount)
      && (forall i :: 0 <= i < |tasks| ==> tasks[i].pool < poolCount)
    }

    constructor (sites: seq<ConfigSite>, db: Database)
      requires db.Valid()
      ensures Valid()
      ensures this.sites == sites && this.db == db
      ensures !started && pool == None && poolCount == 0 && tasks == []
    {
      this.sites := sites;
      this.db := db;
      started := false;
      pool := None;
      poolCount := 0;
      tasks := [];
    }

    /** ParsingServiceImpl.startIndexing, run to the end without interruption. */
    method StartIndexing(now: Time) returns (answer: RequestAnswer)
      requires Valid()
      modifies this, db
      ensures Valid()
      ensures old(started) ==>
        && answer == RequestAnswer(false, Some("Already started"))
        && started && pool == old(pool) && poolCount == old(poolCount) && tasks == old(tasks)
        && db.Snapshot() == old(db.Snapshot())
      ensures !old(started) ==>
        && answer == RequestAnswer(true, None)
        && !started
        && db.pages == [] && db.lemmas == old(db.lemmas) && db.indices == old(db.indices)
        && |db.sites| == |sites|
        && (forall i :: 0 <= i < |sites| ==>
             db.sites[i] == SiteEntity(old(db.nextSiteId) + i, Indexed, now, None, sites[i].url, sites[i].name))
        && poolCount == old(poolCount) + |sites|
        && pool == (if |sites| == 0 then old(pool) else Some(poolCount - 1))
        && |tasks| == |old(tasks)| + |sites| && tasks[..|old(tasks)|] == old(tasks)
        && (forall i :: 0 <= i < |sites| ==>
             tasks[|old(tasks)| + i] == CrawlTask(old(poolCount) + i, sites[i].url, {sites[i].url},
               NewSiteRow(sites[i], now).(id := old(db.nextSiteId) + i)))
    {
      var rejected := BeginIndexing();
      if rejected.Some? {
        return rejected.value;
      }
      var i := 0;
      while i < |sites|
        invariant 0 <= i <= |sites|
        invariant Valid() && started
        invariant db.pages == [] && db.lemmas == old(db.lemmas) && db.indices == old(db.indices)
        invariant db.nextSiteId == old(db.nextSiteId) + i
        invariant |db.sites| == i
        invariant forall j :: 0 <= j < i ==>
          db.sites[j] == SiteEntity(old(db.nextSiteId) + j, Indexed, now, None, sites[j].url, sites[j].name)
        invariant poolCount == old(poolCount) + i
        invariant pool == (if i == 0 then old(pool) else Some(poolCount - 1))
        invariant |tasks| == |old(tasks)| + i && tasks[..|old(tasks)|] == old(tasks)
        invariant forall j :: 0 <= j < i ==>
          tasks[|old(tasks)| + j] == CrawlTask(old(poolCount) + j, sites[j].url, {sites[j].url},
            NewSiteRow(sites[j], now).(id := old(db.nextSiteId) + j))
      {
        IndexSite(i, now);
        i := i + 1;
      }
      answer := FinishIndexing();
    }

    /** The opening of startIndexing: refuse a second start, otherwise raise `started` and empty the page and site tables. */
    method BeginIndexing() returns (rejected: Option<RequestAnswer>)
      requires Valid()
      modifies this, db
      ensures Valid()
      ensures started
      ensures pool == old(pool) && poolCount == old(poolCount) && tasks == old(tasks)
      ensures old(started) ==> rejected == Some(RequestAnswer(false, Some("Already started"))) && db.Snapshot() == old(db.Snapshot())
      ensures !old(started) ==> rejected == None && db.pages == [] && db.sites == []
      ensures db.lemmas == old(db.lemmas) && db.indices == old(db.indices)
      ensures db.nextSiteId == old(db.nextSiteId)
    {
      if started {
        return Some(RequestAnswer(false, Some("Already started")));
      } else {
        started := true;
      }
      db.DeleteAllPages();
      db.DeleteAllSites();
      rejected := None;
    }

    /** The loop body of startIndexing for configured site `k`: a new INDEXING row, a crawl handed to a new pool, then the row saved as INDEXED. */
    method IndexSite(k: nat, now: Time)
      requires Valid()
      requires k < |sites|
      modifies this, db
      ensures Valid()
      ensures started == old(started)
      ensures db.sites == old(db.sites) + [SiteEntity(old(db.nextSiteId), Indexed, now, None, sites[k].url, sites[k].name)]
      ensures db.nextSiteId == old(db.nextSiteId) + 1
      ensures db.pages == old(db.pages) && db.lemmas == old(db.lemmas) && db.indices == old(db.indices)
      ensures poolCount == old(poolCount) + 1 && pool == Some(old(poolCount))
      ensures tasks == old(tasks) + [CrawlTask(old(poolCount), sites[k].url, {sites[k].url},
        NewSiteRow(sites[k], now).(id := old(db.nextSiteId)))]
    {
      var siteEntity := NewSiteRow(sites[k], now);
      siteEntity := db.SaveSite(siteEntity);
      var hrefList := {sites[k].url};
      pool := Some(poolCount);
      poolCount := poolCount + 1;
      tasks := tasks + [CrawlTask(pool.value, sites[k].url, hrefList, siteEntity)];
      // forkJoinPool.shutdown() lets the task run on; nothing to model
      siteEntity := siteEntity.(status := Indexed, statusTime := now);
      FindSiteLast(db.sites, siteEntity.id);
      siteEntity := db.SaveSite(siteEntity);
    }

    /** The close of startIndexing. */
    method FinishIndexing() returns (answer: RequestAnswer)
      modifies this
      ensures !started && answer == RequestAnswer(true, None)
      ensures pool == old(pool) && poolCount == old(poolCount) && tasks == old(tasks)
    {
      started := false;
      answer := RequestAnswer(true, None);
    }

    /**
     * ParsingServiceImpl.stopIndexing. shutdownNow reaches only the pool
     * created last; a null pool (no start yet has created one) is a
     * NullPointerException, raised after `started` is cleared.
     */
    method StopIndexing(now: Time) returns (answer: Result<RequestAnswer>)
      requires Valid()
      modifies this, db
      ensures Valid()
      ensures !old(started) ==>
        && answer == Success(RequestAnswer(false, Some("Indexing is not started")))
        && !started && tasks == old(tasks) && db.Snapshot() == old(db.Snapshot())
      ensures old(started) ==> !started
      ensures old(started) && old(pool).None? ==>
        answer == Failure("NullPointerException") && tasks == old(tasks) && db.Snapshot() == old(db.Snapshot())
      ensures old(started) && old(pool).Some? ==>
        && answer == Success(RequestAnswer(true, None))
        && tasks == TasksOutside(old(tasks), old(pool).value)
        && db.sites == Stopped(old(db.sites), now)
        && db.pages == old(db.pages) && db.lemmas == old(db.lemmas) && db.indices == old(db.indices)
      ensures pool == old(pool) && poolCount == old(poolCount)
    {
      if !started {
        return Success(RequestAnswer(false, Some("Indexing is not started")));
      } else {
        started := false;
      }
      if pool.None? {
        return Failure("NullPointerException");
      }
      TasksOutsideMembers(tasks, pool.value);
      tasks := TasksOutside(tasks, pool.value);
      MarkStopped(db, now);
      answer := Success(RequestAnswer(true, None));
    }
  }

  /** The loop of stopIndexing over siteRepository.findAll(): every INDEXING row saved back as FAILED. */
  method MarkStopped(db: Database, now: Time)
    requires db.Valid()
    modifies db
    ensures db.Valid()
    ensures db.sites == Stopped(old(db.sites), now)
    ensures db.pages == old(db.pages) && db.lemmas == old(db.lemmas) && db.indices == old(db.indices)
  {
    var siteList := db.sites;
    var i := 0;
    while i < |siteList|
      invariant 0 <= i <= |siteList|
      invariant db.Valid()
      invariant db.sites == Stopped(siteList[..i], now) + siteList[i..]
      invariant db.pages == old(db.pages) && db.lemmas == old(db.lemmas) && db.indices == old(db.indices)
    {
      StopOne(db, siteList, i, now);
      i := i + 1;
    }
    assert siteList[..i] == siteList;
  }

  /** The body of the loop of stopIndexing for row `i`: an INDEXING row is saved back as FAILED. */
  method StopOne(db: Database, siteList: seq<SiteEntity>, i: int, now: Time)
    requires db.Valid() && 0 <= i < |siteList|
    requires db.sites == Stopped(siteList[..i], now) + siteList[i..]
    modifies db
    ensures db.Valid()
    ensures db.sites == Stopped(siteList[..i + 1], now) + siteList[i + 1..]
    ensures db.pages == old(db.pages) && db.lemmas == old(db.lemmas) && db.indices == old(db.indices)
  {
    var site := siteList[i];
    StopStep(siteList, i, now);
    if site.status == Indexing {
      var failed := site.(status := Failed, statusTime := now, lastError := Some("Indexing stopped"));
      FindSiteUnique(db.sites, db.nextSiteId, i);
      assert SiteIds(db.sites)[i] == site.id;
      var _ := db.SaveSite(failed);
    }
  }

  /** One step of the loop of stopIndexing: row `i` gets its stop mark in place. */
  lemma StopStep(sites: seq<SiteEntity>, i: int, now: Time)
    requires 0 <= i < |sites|
    ensures var current := Stopped(sites[..i], now) + sites[i..];
      && |current| == |sites| && current[i] == sites[i]
      && SiteIds(current) == SiteIds(sites)
      && Stopped(sites[..i + 1], now) + sites[i + 1..] == current[i := StopMark(sites[i], now)]
      && (sites[i].status != Indexing ==> Stopped(sites[..i + 1], now) + sites[i + 1..] == current)
  {
    var current := Stopped(sites[..i], now) + sites[i..];
    assert forall j :: 0 <= j < |sites| ==> current[j] == if j < i then StopMark(sites[j], now) else sites[j];
    assert forall j :: 0 <= j < |sites| ==> SiteIds(current)[j] == SiteIds(sites)[j];
  }

  /** The row appended last is found last. */
  lemma FindSiteLast(sites: seq<SiteEntity>, id: int)
    requires |sites| > 0 && sites[|sites| - 1].id == id
    ensures FindSite(sites, id) == |sites| - 1
  {
  }
}
