/**
 * SiteParser: one crawl task per URL. The tasks of one site share the set
 * of URLs already handed out (`hrefList`), the site row and the page
 * repository; `SiteParser` below holds that shared state, and `Compute`
 * is the work of the task for one URL. The fetch is an input
 * (`FetchOutcome`), and the hrefs of the fetched document are part of it.
 */
module SiteParsing {
  import opened Wrappers
  import opened Strings
  import opened Entities
  import opened Repository

  /** The filters of collectLinks that look at the link alone: a page below `url`, not a fragment, not a file or a paging link. */
  predicate Qualifies(url: string, link: string) {
    && StartsWith(link, url)
    && !Contains(link, "#")
    && !EndsWith(link, ".shtml")
    && !EndsWith(link, ".pdf")
    && !EndsWith(link, ".xml")
    && !EndsWith(link, "?main_click")
    && !Contains(link, "?page=")
    && !Contains(link, "?ref")
  }

  /** Position of the first occurrence of `x` in `s`. */
  function FirstIndex(s: seq<string>, x: string): (n: nat)
    requires x in s
    ensures n < |s| && s[n] == x && x !in s[..n]
    decreases |s|
  {
    if s[0] == x then 0 else 1 + FirstIndex(s[1..], x)
  }

  // ---------------------------------------------------------------------------
  // collectLinks

  /** linkList once the loop of collectLinks has gone through `hrefs`. */
  function CollectedLinks(url: string, hrefs: seq<string>): seq<string>
    decreases |hrefs|
  {
    if |hrefs| == 0 then [url]
    else
      var acc := CollectedLinks(url, hrefs[..|hrefs| - 1]);
      var link := hrefs[|hrefs| - 1];
      if Qualifies(url, link) && link !in acc then acc + [link] else acc
  }

  /** SiteParser.collectLinks, with the `abs:href` values of the document's anchors as `hrefs`. */
  method CollectLinks(url: string, hrefs: seq<string>) returns (linkList: seq<string>)
    ensures linkList == CollectedLinks(url, hrefs)
  {
    linkList := [url];
    var i := 0;
    while i < |hrefs|
      invariant 0 <= i <= |hrefs|
      invariant linkList == CollectedLinks(url, hrefs[..i])
    {
      var link := hrefs[i];
      assert hrefs[..i + 1][..i] == hrefs[..i];
      if !StartsWith(link, url) {
      } else if Contains(link, "#") {
      } else if EndsWith(link, ".shtml") || EndsWith(link, ".pdf") || EndsWith(link, ".xml")
        || EndsWith(link, "?main_click") || Contains(link, "?page=") || Contains(link, "?ref") {
      } else if link in linkList {
      } else {
        linkList := linkList + [link];
      }
      i := i + 1;
    }
    assert hrefs[..i] == hrefs;
  }

  /** The first link is the page's own URL; every later one is a qualifying href. */
  lemma {:induction false} CollectedLinksShape(url: string, hrefs: seq<string>)
    ensures |CollectedLinks(url, hrefs)| >= 1 && CollectedLinks(url, hrefs)[0] == url
    ensures forall i :: 1 <= i < |CollectedLinks(url, hrefs)| ==>
      Qualifies(url, CollectedLinks(url, hrefs)[i]) && CollectedLinks(url, hrefs)[i] in hrefs
    decreases |hrefs|
  {
    if |hrefs| > 0 {
      var init := hrefs[..|hrefs| - 1];
      CollectedLinksShape(url, init);
      forall i | 1 <= i < |CollectedLinks(url, hrefs)|
        ensures Qualifies(url, CollectedLinks(url, hrefs)[i]) && CollectedLinks(url, hrefs)[i] in hrefs
      {
        if i < |CollectedLinks(url, init)| {
          assert CollectedLinks(url, hrefs)[i] == CollectedLinks(url, init)[i];
          assert CollectedLinks(url, init)[i] in init;
        }
      }
    }
  }

  /** No link appears twice. */
  lemma {:induction false} CollectedLinksDistinct(url: string, hrefs: seq<string>)
    ensures Distinct(CollectedLinks(url, hrefs))
    decreases |hrefs|
  {
    if |hrefs| > 0 {
      CollectedLinksDistinct(url, hrefs[..|hrefs| - 1]);
    }
  }

  /** Every qualifying href is collected. */
  lemma {:induction false} CollectedLinksComplete(url: string, hrefs: seq<string>)
    ensures forall link :: link in hrefs && Qualifies(url, link) ==> link in CollectedLinks(url, hrefs)
    decreases |hrefs|
  {
    if |hrefs| > 0 {
      var init := hrefs[..|hrefs| - 1];
      CollectedLinksComplete(url, init);
      assert hrefs == init + [hrefs[|hrefs| - 1]];
    }
  }

  lemma FirstIndexAppend(s: seq<string>, x: string, y: string)
    requires y in s
    ensures FirstIndex(s + [x], y) == FirstIndex(s, y)
    decreases |s|
  {
    if s[0] != y {
      assert (s + [x])[1..] == s[1..] + [x];
      FirstIndexAppend(s[1..], x, y);
    }
  }

  /** The later links come in the order of their first occurrence among the hrefs. */
  lemma {:induction false} CollectedLinksOrder(url: string, hrefs: seq<string>)
    ensures forall i, j :: 1 <= i < j < |CollectedLinks(url, hrefs)| ==>
      && CollectedLinks(url, hrefs)[i] in hrefs
      && CollectedLinks(url, hrefs)[j] in hrefs
      && FirstIndex(hrefs, CollectedLinks(url, hrefs)[i]) < FirstIndex(hrefs, CollectedLinks(url, hrefs)[j])
    decreases |hrefs|
  {
    CollectedLinksShape(url, hrefs);
    if |hrefs| > 0 {
      var init, x := hrefs[..|hrefs| - 1], hrefs[|hrefs| - 1];
      assert hrefs == init + [x];
      var acc := CollectedLinks(url, init);
      var r := CollectedLinks(url, hrefs);
      CollectedLinksOrder(url, init);
      CollectedLinksShape(url, init);
      CollectedLinksComplete(url, init);
      forall i, j | 1 <= i < j < |r|
        ensures r[i] in hrefs && r[j] in hrefs && FirstIndex(hrefs, r[i]) < FirstIndex(hrefs, r[j])
      {
        assert r[i] == acc[i];
        assert acc[i] in init;
        FirstIndexAppend(init, x, acc[i]);
        if j < |acc| {
          assert r[j] == acc[j];
          FirstIndexAppend(init, x, acc[j]);
        } else {
          assert r[j] == x && x !in acc;
          assert x !in init;
          assert FirstIndex(hrefs, x) == |init|;
        }
      }
    }
  }

  // ---------------------------------------------------------------------------
  // The fan-out loop of compute

  /** The links handed to new tasks: each link not among the visited URLs nor earlier in `links`. */
  function Spawned(visited: set<string>, links: seq<string>): seq<string>
    decreases |links|
  {
    if |links| == 0 then []
    else
      var init, link := links[..|links| - 1], links[|links| - 1];
      var rest := Spawned(visited, init);
      if link !in visited && link !in init then rest + [link] else rest
  }

  /** A link is spawned exactly when it was not visited yet. */
  lemma {:induction false} SpawnedMembers(visited: set<string>, links: seq<string>)
    ensures forall x :: x in Spawned(visited, links) <==> x in links && x !in visited
    decreases |links|
  {
    if |links| > 0 {
      var init := links[..|links| - 1];
      SpawnedMembers(visited, init);
      assert links == init + [links[|links| - 1]];
    }
  }

  /** No link is spawned twice. */
  lemma {:induction false} SpawnedDistinct(visited: set<string>, links: seq<string>)
    ensures Distinct(Spawned(visited, links))
    decreases |links|
  {
    if |links| > 0 {
      var init := links[..|links| - 1];
      SpawnedDistinct(visited, init);
      SpawnedMembers(visited, init);
    }
  }

  /** The spawned links keep the order of `links`. */
  lemma {:induction false} SpawnedOrder(visited: set<string>, links: seq<string>)
    ensures forall i, j :: 0 <= i < j < |Spawned(visited, links)| ==>
      && Spawned(visited, links)[i] in links
      && Spawned(visited, links)[j] in links
      && FirstIndex(links, Spawned(visited, links)[i]) < FirstIndex(links, Spawned(visited, links)[j])
    decreases |links|
  {
    SpawnedMembers(visited, links);
    if |links| > 0 {
      var init, x := links[..|links| - 1], links[|links| - 1];
      assert links == init + [x];
      var rest := Spawned(visited, init);
      var r := Spawned(visited, links);
      SpawnedOrder(visited, init);
      SpawnedMembers(visited, init);
      forall i, j | 0 <= i < j < |r|
        ensures r[i] in links && r[j] in links && FirstIndex(links, r[i]) < FirstIndex(links, r[j])
      {
        assert r[i] == rest[i] && rest[i] in init;
        FirstIndexAppend(init, x, rest[i]);
        if j < |rest| {
          assert r[j] == rest[j];
          FirstIndexAppend(init, x, rest[j]);
        } else {
          assert r[j] == x && x !in init;
          assert FirstIndex(links, x) == |init|;
        }
      }
    }
  }

  /** A fetch of a URL outside `web` answers 404. */
  function Fetch(web: map<string, FetchOutcome>, url: string): FetchOutcome {
    if url in web then web[url] else HttpStatusError(404)
  }

  /** The pages a sequential crawl saves for the URLs in `visited`, in visiting order, ids not yet assigned. */
  function SavedPages(siteId: int, web: map<string, FetchOutcome>, visited: seq<string>): seq<PageEntity>
    decreases |visited|
  {
    if |visited| == 0 then []
    else
      var rest := SavedPages(siteId, web, visited[..|visited| - 1]);
      var url := visited[|visited| - 1];
      match Fetch(web, url)
      case Fetched(status, text, _, _) => rest + [PageEntity(0, siteId, url, status, text)]
      case _ => rest
  }

  /** A page is saved for exactly the visited URLs that were fetched, each page with its URL as path. */
  lemma {:induction false} SavedPagesPaths(siteId: int, web: map<string, FetchOutcome>, visited: seq<string>)
    ensures forall p :: p in SavedPages(siteId, web, visited) ==>
      p.siteId == siteId && p.path in visited && Fetch(web, p.path).Fetched?
      && p.code == Fetch(web, p.path).status && p.content == Fetch(web, p.path).text
    ensures forall u :: u in visited && Fetch(web, u).Fetched? ==>
      exists p :: p in SavedPages(siteId, web, visited) && p.path == u
    decreases |visited|
  {
    if |visited| > 0 {
      var init := visited[..|visited| - 1];
      SavedPagesPaths(siteId, web, init);
      assert visited == init + [visited[|visited| - 1]];
    }
  }

  /** URLs visited at most once give pages with pairwise different paths. */
  lemma {:induction false} SavedPagesUniquePaths(siteId: int, web: map<string, FetchOutcome>, visited: seq<string>)
    requires Distinct(visited)
    ensures forall i, j :: 0 <= i < j < |SavedPages(siteId, web, visited)| ==>
      SavedPages(siteId, web, visited)[i].path != SavedPages(siteId, web, visited)[j].path
    decreases |visited|
  {
    if |visited| > 0 {
      var init := visited[..|visited| - 1];
      SavedPagesUniquePaths(siteId, web, init);
      SavedPagesPaths(siteId, web, init);
      var u := visited[|visited| - 1];
      assert u !in init;
    }
  }

  function WithoutIds(pages: seq<PageEntity>): seq<PageEntity> {
    seq(|pages|, i requires 0 <= i < |pages| => pages[i].(id := 0))
  }

  /** The state shared by the crawl tasks of one site. */
  class SiteParser {
    var hrefList: set<string>
    const site: SiteEntity
    const db: Database

    constructor (hrefList: set<string>, site: SiteEntity, db: Database)
      ensures this.hrefList == hrefList && this.site == site && this.db == db
    {
      this.hrefList := hrefList;
      this.site := site;
      this.db := db;
    }

    /**
     * SiteParser.compute for the task of `url`: save the page, then hand each
     * collected link not yet in hrefList to a new task. An IOException
     * escapes the task (`Failure`); an HTTP error status is swallowed.
     */
    method Compute(url: string, outcome: FetchOutcome) returns (result: Result<seq<string>>)
      requires db.Valid()
      modifies this, db
      ensures db.Valid()
      ensures outcome.Fetched? ==>
        && result == Success(Spawned(old(hrefList), CollectedLinks(url, outcome.hrefs)))
        && hrefList == old(hrefList) + Elems(CollectedLinks(url, outcome.hrefs))
        && db.pages == old(db.pages) + [PageEntity(old(db.nextPageId), site.id, url, outcome.status, outcome.text)]
        && db.nextPageId == old(db.nextPageId) + 1
      ensures outcome.HttpStatusError? ==> result == Success([])
      ensures outcome.IoError? ==> result == Failure("IOException")
      ensures !outcome.Fetched? ==>
        hrefList == old(hrefList) && db.pages == old(db.pages) && db.nextPageId == old(db.nextPageId)
      ensures db.sites == old(db.sites) && db.lemmas == old(db.lemmas) && db.indices == old(db.indices)
      ensures db.nextSiteId == old(db.nextSiteId) && db.nextLemmaId == old(db.nextLemmaId)
      ensures db.nextIndexId == old(db.nextIndexId)
    {
      match outcome {
        case IoError =>
          result := Failure("IOException");
        case HttpStatusError(_) =>
          result := Success([]);
        case Fetched(status, text, _, hrefs) =>
          var page := PageEntity(0, site.id, url, status, text);
          var _ := db.SavePage(page);
          var links := CollectLinks(url, hrefs);
          var tasks := HandOut(links);
          result := Success(tasks);
      }
    }

    /** The fan-out of compute: each collected link not yet in hrefList is added to it and handed to a new task. */
    method HandOut(links: seq<string>) returns (tasks: seq<string>)
      modifies this
      ensures hrefList == old(hrefList) + Elems(links)
      ensures tasks == Spawned(old(hrefList), links)
    {
      tasks := [];
      var i := 0;
      while i < |links|
        invariant 0 <= i <= |links|
        invariant hrefList == old(hrefList) + Elems(links[..i])
        invariant tasks == Spawned(old(hrefList), links[..i])
      {
        var link := links[i];
        assert links[..i + 1][..i] == links[..i];
        if link !in hrefList && |links| != 0 {
          tasks := tasks + [link];
          hrefList := hrefList + {link};
        }
        assert Elems(links[..i + 1]) == Elems(links[..i]) + {link};
        i := i + 1;
      }
      assert links[..i] == links;
    }

    /**
     * The crawl of one site run sequentially from `root`: every URL handed
     * out is fetched (from `web`) exactly once. `visited` is the order of the
     * fetches.
     */
    method Crawl(root: string, web: map<string, FetchOutcome>) returns (visited: seq<string>)
      requires db.Valid()
      requires root in hrefList
      modifies this, db
      ensures db.Valid()
      ensures Distinct(visited) && |visited| >= 1 && visited[0] == root
      ensures hrefList == old(hrefList) + Elems(visited)
      ensures forall u :: u in visited && Fetch(web, u).Fetched? ==>
        Elems(CollectedLinks(u, Fetch(web, u).hrefs)) <= hrefList
      // every URL fetched after the root was collected from a page fetched before it
      ensures forall i :: 1 <= i < |visited| ==> exists j ::
        0 <= j < i && Fetch(web, visited[j]).Fetched? && visited[i] in CollectedLinks(visited[j], Fetch(web, visited[j]).hrefs)
      ensures |old(db.pages)| <= |db.pages| && db.pages[..|old(db.pages)|] == old(db.pages)
      ensures WithoutIds(db.pages[|old(db.pages)|..]) == SavedPages(site.id, web, visited)
      ensures db.sites == old(db.sites) && db.lemmas == old(db.lemmas) && db.indices == old(db.indices)
    {
      ghost var universe := old(hrefList) + Linked(web);
      var worklist := [root];
      visited := [];
      CrawlStart(old(hrefList), root, web, universe, db.pages, site.id);
      while worklist != []
        invariant db.Valid()
        invariant CrawlState(old(hrefList), root, web, universe, visited, worklist, hrefList, old(db.pages), db.pages, site.id)
        invariant db.sites == old(db.sites) && db.lemmas == old(db.lemmas) && db.indices == old(db.indices)
        decreases |universe - hrefList|, |worklist|
      {
        var url := worklist[0];
        var outcome := Fetch(web, url);
        ghost var before := hrefList;
        ghost var pagesBefore := db.pages;
        ghost var nextId := db.nextPageId;
        var result := Compute(url, outcome);
        var spawned := if result.Success? then result.value else [];
        ghost var links := if outcome.Fetched? then CollectedLinks(url, outcome.hrefs) else [];
        if outcome.Fetched? {
          assert db.pages == pagesBefore + [PageEntity(nextId, site.id, url, outcome.status, outcome.text)];
        } else {
          assert spawned == [] && hrefList == before;
        }
        CrawlAdvance(old(hrefList), root, web, universe, visited, worklist, before, links, spawned,
                     old(db.pages), pagesBefore, db.pages, site.id);
        visited := visited + [url];
        worklist := worklist[1..] + spawned;
      }
      CrawlDone(old(hrefList), root, web, universe, visited, hrefList, old(db.pages), db.pages, site.id);
    }
  }

  /**
   * The crawl so far: the URLs fetched (`visited`) and still to fetch
   * (`worklist`) are all different, they are what was added to the initial
   * set, and every link collected from a fetched page has been handed out.
   */
  ghost predicate Frontier(init: set<string>, root: string, web: map<string, FetchOutcome>,
                           visited: seq<string>, worklist: seq<string>, hrefList: set<string>) {
    && Distinct(visited + worklist)
    && hrefList == init + Elems(visited) + Elems(worklist)
    && (visited == [] ==> worklist == [root])
    && (visited != [] ==> visited[0] == root)
    && (forall u :: u in visited && Fetch(web, u).Fetched? ==> Elems(CollectedLinks(u, Fetch(web, u).hrefs)) <= hrefList)
  }

  /** Fetching the head of the worklist and queueing the spawned links keeps the frontier. */
  lemma FrontierStep(init: set<string>, root: string, web: map<string, FetchOutcome>,
                     visited: seq<string>, worklist: seq<string>, before: set<string>,
                     links: seq<string>, spawned: seq<string>)
    requires Frontier(init, root, web, visited, worklist, before)
    requires worklist != []
    requires links == if Fetch(web, worklist[0]).Fetched? then CollectedLinks(worklist[0], Fetch(web, worklist[0]).hrefs) else []
    requires before + Elems(links) == before + Elems(spawned)
    requires Distinct(spawned) && forall x :: x in spawned ==> x !in before
    ensures Frontier(init, root, web, visited + [worklist[0]], worklist[1..] + spawned, before + Elems(links))
  {
    var url := worklist[0];
    var after := before + Elems(links);
    assert Elems(visited + worklist) == Elems(visited) + Elems(worklist);
    DistinctAppend(visited + worklist, spawned);
    assert worklist == [url] + worklist[1..];
    assert (visited + [url]) + (worklist[1..] + spawned) == (visited + worklist) + spawned;
    assert Elems(visited + [url]) + Elems(worklist[1..] + spawned) == Elems(visited) + Elems(worklist) + Elems(spawned);
    forall u | u in visited + [url] && Fetch(web, u).Fetched?
      ensures Elems(CollectedLinks(u, Fetch(web, u).hrefs)) <= after
    {
      if u != url {
        assert u in visited;
      }
    }
  }

  /** Every href of every fetched document of `web`. */
  ghost function Linked(web: map<string, FetchOutcome>): set<string> {
    set u, w | u in web && web[u].Fetched? && w in web[u].hrefs :: w
  }

  lemma DistinctAppend(a: seq<string>, b: seq<string>)
    requires Distinct(a) && Distinct(b)
    requires forall x :: x in b ==> x !in a
    ensures Distinct(a + b)
  {
    forall i, j | 0 <= i < j < |a + b| ensures (a + b)[i] != (a + b)[j] {
      if j < |a| {
        assert (a + b)[i] == a[i] && (a + b)[j] == a[j];
      } else if i < |a| {
        assert (a + b)[i] == a[i] && a[i] in a;
        assert (a + b)[j] == b[j - |a|] && b[j - |a|] in b;
      } else {
        assert (a + b)[i] == b[i - |a|] && (a + b)[j] == b[j - |a|];
      }
    }
  }

  /** The links of `url` lie in the universe of the crawl. */
  lemma LinksInUniverse(url: string, web: map<string, FetchOutcome>, universe: set<string>)
    requires url in universe && Linked(web) <= universe
    requires Fetch(web, url).Fetched?
    ensures Elems(CollectedLinks(url, Fetch(web, url).hrefs)) <= universe
  {
    var links := CollectedLinks(url, Fetch(web, url).hrefs);
    CollectedLinksShape(url, Fetch(web, url).hrefs);
    forall x | x in links ensures x in universe {
      var i :| 0 <= i < |links| && links[i] == x;
      if i > 0 {
        assert url in web && x in web[url].hrefs;
        assert x in Linked(web);
      }
    }
  }

  /** The spawned links are new and distinct, and they are what the collected links add. */
  lemma SpawnedNew(before: set<string>, links: seq<string>, spawned: seq<string>)
    requires spawned == Spawned(before, links)
    ensures before + Elems(links) == before + Elems(spawned)
    ensures Distinct(spawned)
    ensures forall x :: x in spawned ==> x !in before
  {
    SpawnedMembers(before, links);
    SpawnedDistinct(before, links);
  }

  /** One step of the crawl: the unvisited part of the universe shrinks unless nothing was spawned. */
  lemma CrawlStep(before: set<string>, url: string, links: seq<string>, spawned: seq<string>,
                  universe: set<string>, web: map<string, FetchOutcome>)
    requires url in before && before <= universe && Linked(web) <= universe
    requires links == if Fetch(web, url).Fetched? then CollectedLinks(url, Fetch(web, url).hrefs) else []
    requires before + Elems(links) == before + Elems(spawned)
    requires forall x :: x in spawned ==> x !in before
    ensures before + Elems(links) <= universe
    ensures spawned == [] ==> before + Elems(links) == before
    ensures spawned != [] ==> |universe - (before + Elems(links))| < |universe - before|
  {
    if Fetch(web, url).Fetched? {
      LinksInUniverse(url, web, universe);
    }
    var after := before + Elems(links);
    if spawned != [] {
      assert spawned[0] in Elems(spawned);
      assert spawned[0] in universe - before;
      assert spawned[0] !in universe - after;
      assert universe - after < universe - before;
    } else {
      assert Elems(spawned) == {};
    }
  }

  /** The invariant of the crawl loop: the frontier, the bound by the universe, and the pages saved so far. */
  ghost predicate CrawlState(init: set<string>, root: string, web: map<string, FetchOutcome>, universe: set<string>,
                             visited: seq<string>, worklist: seq<string>, hrefList: set<string>,
                             start: seq<PageEntity>, pages: seq<PageEntity>, siteId: int) {
    && Frontier(init, root, web, visited, worklist, hrefList)
    && Reached(web, visited, worklist)
    && hrefList <= universe && Linked(web) <= universe
    && |start| <= |pages| && pages[..|start|] == start
    && WithoutIds(pages[|start|..]) == SavedPages(siteId, web, visited)
  }

  /** `u` was collected from one of the first `i` fetched URLs whose fetch succeeded. */
  ghost predicate CollectedBefore(web: map<string, FetchOutcome>, visited: seq<string>, i: int, u: string) {
    exists j :: 0 <= j < |visited| && j < i && Fetch(web, visited[j]).Fetched? &&
      u in CollectedLinks(visited[j], Fetch(web, visited[j]).hrefs)
  }

  /** Every URL queued or fetched after the root was collected from a page fetched before it. */
  ghost predicate Reached(web: map<string, FetchOutcome>, visited: seq<string>, worklist: seq<string>) {
    forall i :: 1 <= i < |visited + worklist| ==> CollectedBefore(web, visited, i, (visited + worklist)[i])
  }

  /** Fetching the head of the worklist and queueing links collected from it keeps `Reached`. */
  lemma ReachedStep(web: map<string, FetchOutcome>, visited: seq<string>, worklist: seq<string>,
                    links: seq<string>, spawned: seq<string>)
    requires Reached(web, visited, worklist) && worklist != []
    requires links == if Fetch(web, worklist[0]).Fetched? then CollectedLinks(worklist[0], Fetch(web, worklist[0]).hrefs) else []
    requires forall x :: x in spawned ==> x in links
    ensures Reached(web, visited + [worklist[0]], worklist[1..] + spawned)
  {
    var url := worklist[0];
    var order := visited + worklist;
    var v2, w2 := visited + [url], worklist[1..] + spawned;
    assert worklist == [url] + worklist[1..];
    assert v2 + w2 == order + spawned;
    forall i | 1 <= i < |v2 + w2| ensures CollectedBefore(web, v2, i, (v2 + w2)[i]) {
      if i < |order| {
        assert CollectedBefore(web, visited, i, order[i]);
        var j :| 0 <= j < |visited| && j < i && Fetch(web, visited[j]).Fetched? &&
          order[i] in CollectedLinks(visited[j], Fetch(web, visited[j]).hrefs);
        assert v2[j] == visited[j] && (v2 + w2)[i] == order[i];
      } else {
        assert (v2 + w2)[i] == spawned[i - |order|];
        assert (v2 + w2)[i] in links;
        assert v2[|visited|] == url;
      }
    }
  }

  /** Before the first fetch only the root is queued. */
  lemma CrawlStart(init: set<string>, root: string, web: map<string, FetchOutcome>, universe: set<string>,
                   pages: seq<PageEntity>, siteId: int)
    requires root in init && universe == init + Linked(web)
    ensures CrawlState(init, root, web, universe, [], [root], init, pages, pages, siteId)
  {
    assert Elems([root]) == {root};
    assert pages[|pages|..] == [];
  }

  /** One turn of the crawl loop keeps its invariant and decreases its measure. */
  lemma CrawlAdvance(init: set<string>, root: string, web: map<string, FetchOutcome>, universe: set<string>,
                     visited: seq<string>, worklist: seq<string>, before: set<string>, links: seq<string>, spawned: seq<string>,
                     start: seq<PageEntity>, pagesBefore: seq<PageEntity>, pagesAfter: seq<PageEntity>, siteId: int)
    requires CrawlState(init, root, web, universe, visited, worklist, before, start, pagesBefore, siteId)
    requires worklist != []
    requires links == if Fetch(web, worklist[0]).Fetched? then CollectedLinks(worklist[0], Fetch(web, worklist[0]).hrefs) else []
    requires spawned == Spawned(before, links)
    requires Fetch(web, worklist[0]).Fetched? ==> exists id ::
      pagesAfter == pagesBefore + [PageEntity(id, siteId, worklist[0], Fetch(web, worklist[0]).status, Fetch(web, worklist[0]).text)]
    requires !Fetch(web, worklist[0]).Fetched? ==> pagesAfter == pagesBefore
    ensures CrawlState(init, root, web, universe, visited + [worklist[0]], worklist[1..] + spawned, before + Elems(links),
                       start, pagesAfter, siteId)
    ensures spawned == [] ==> before + Elems(links) == before
    ensures spawned != [] ==> |universe - (before + Elems(links))| < |universe - before|
  {
    var url := worklist[0];
    assert url in before by {
      assert url in Elems(worklist);
    }
    SpawnedNew(before, links, spawned);
    SpawnedMembers(before, links);
    ReachedStep(web, visited, worklist, links, spawned);
    CrawlStep(before, url, links, spawned, universe, web);
    FrontierStep(init, root, web, visited, worklist, before, links, spawned);
    CrawlPages(start, pagesBefore, pagesAfter, siteId, web, visited, url);
  }

  /** An empty worklist ends the crawl with everything handed out fetched once. */
  lemma CrawlDone(init: set<string>, root: string, web: map<string, FetchOutcome>, universe: set<string>,
                  visited: seq<string>, hrefList: set<string>, start: seq<PageEntity>, pages: seq<PageEntity>, siteId: int)
    requires CrawlState(init, root, web, universe, visited, [], hrefList, start, pages, siteId)
    ensures Distinct(visited) && |visited| >= 1 && visited[0] == root
    ensures hrefList == init + Elems(visited)
    ensures forall u :: u in visited && Fetch(web, u).Fetched? ==> Elems(CollectedLinks(u, Fetch(web, u).hrefs)) <= hrefList
    ensures forall i :: 1 <= i < |visited| ==> exists j ::
      0 <= j < i && Fetch(web, visited[j]).Fetched? && visited[i] in CollectedLinks(visited[j], Fetch(web, visited[j]).hrefs)
    ensures |start| <= |pages| && pages[..|start|] == start
    ensures WithoutIds(pages[|start|..]) == SavedPages(siteId, web, visited)
  {
    assert visited + [] == visited;
    forall i | 1 <= i < |visited| ensures exists j ::
      0 <= j < i && Fetch(web, visited[j]).Fetched? && visited[i] in CollectedLinks(visited[j], Fetch(web, visited[j]).hrefs)
    {
      assert CollectedBefore(web, visited, i, (visited + [])[i]);
    }
  }

  /** Saving the page of `url` extends the saved pages of the crawl by the page of `url`. */
  lemma CrawlPages(start: seq<PageEntity>, before: seq<PageEntity>, after: seq<PageEntity>, siteId: int,
                   web: map<string, FetchOutcome>, visited: seq<string>, url: string)
    requires |start| <= |before| && before[..|start|] == start
    requires WithoutIds(before[|start|..]) == SavedPages(siteId, web, visited)
    requires Fetch(web, url).Fetched? ==> exists id ::
      after == before + [PageEntity(id, siteId, url, Fetch(web, url).status, Fetch(web, url).text)]
    requires !Fetch(web, url).Fetched? ==> after == before
    ensures |start| <= |after| && after[..|start|] == start
    ensures WithoutIds(after[|start|..]) == SavedPages(siteId, web, visited + [url])
  {
    assert (visited + [url])[..|visited|] == visited;
    if Fetch(web, url).Fetched? {
      var id :| after == before + [PageEntity(id, siteId, url, Fetch(web, url).status, Fetch(web, url).text)];
      assert after[..|start|] == before[..|start|];
      assert after[|start|..] == before[|start|..] + [after[|after| - 1]];
    }
  }
}
