/**
 * The four persisted record shapes (site, page, lemma, search_index), the
 * configured site list and the small answer type of the indexing endpoints.
 * A reference from one row to another (`PageEntity.siteID`, ...) is kept as
 * the referenced row's id; an id of 0 marks an entity that was never saved.
 */
module Entities {
  import opened Wrappers

  /** Site status (Status.INDEXING, Status.INDEXED, Status.FAILED). */
  datatype Status = Indexing | Indexed | Failed

  /** A timestamp (LocalDateTime), kept opaque. */
  type Time = int

  datatype SiteEntity = SiteEntity(
    id: int,
    status: Status,
    statusTime: Time,
    lastError: Option<string>,
    url: string,
    name: string)

  datatype PageEntity = PageEntity(
    id: int,
    siteId: int,
    path: string,
    code: int,
    content: string)

  datatype LemmaEntity = LemmaEntity(
    id: int,
    siteId: int,
    text: string,  // the lemma itself (`lemma` is a Dafny keyword)
    frequency: int)

  /** One row of the inverted index; the float rank only ever holds an integer count. */
  datatype SearchIndex = SearchIndex(
    id: int,
    pageId: int,
    lemmaId: int,
    rank: int)

  /** One entry of the configured site list (config.Site). */
  datatype ConfigSite = ConfigSite(url: string, name: string)

  /** dto.RequestAnswer */
  datatype RequestAnswer = RequestAnswer(result: bool, error: Option<string>)

  /** What fetching one URL produced: the parsed document, an HTTP error status, or another I/O failure. */
  datatype FetchOutcome =
    | Fetched(status: int, text: string, html: string, hrefs: seq<string>)
    | HttpStatusError(code: int)
    | IoError

  /** A snapshot of the four tables, each in stored (findAll) order. */
  datatype Tables = Tables(
    sites: seq<SiteEntity>,
    pages: seq<PageEntity>,
    lemmas: seq<LemmaEntity>,
    indices: seq<SearchIndex>)
}
