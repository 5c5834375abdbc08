/**
 * The request and record shapes of app/models.py that the retrieval core
 * passes around: queries, paper records, their projections and scores.
 */
module Models {
  import opened Wrappers

  /** A structured research query: a domain and optional problem and solution. */
  datatype PaperQuery = PaperQuery(domain: string, problem: Option<string>, solution: Option<string>)

  /** The summary extracted for a paper: a query triple plus its keywords. */
  datatype PaperSummary = PaperSummary(
    domain: string,
    problem: Option<string>,
    solution: Option<string>,
    keywords: seq<string>)

  /** A stored paper record (the fields the core reads or writes). */
  datatype Paper = Paper(
    id: string,
    title: Option<string>,
    abstractText: Option<string>,
    impact: Option<int>,
    publishedYear: Option<string>,
    reference: Option<seq<string>>,
    authors: Option<seq<string>>,
    summary: Option<PaperSummary>)

  /** The public projection of a paper returned by the search routes. */
  datatype PaperCore = PaperCore(
    id: string,
    title: Option<string>,
    publishedYear: Option<string>,
    summary: Option<PaperSummary>,
    impact: Option<int>,
    authors: Option<seq<string>>)

  /** A paper projection together with its similarity score. */
  datatype PaperScore = PaperScore(core: PaperCore, score: real)

  /** The body of a graph search: how many nodes, around which root, for which query. */
  datatype PaperGraph = PaperGraph(numNodes: int, rootId: string, query: PaperQuery)

  /** The fields given to the graph store when a paper node is created. */
  datatype GraphNodeBase = GraphNodeBase(paperId: string, title: string)

  /** Why a route fails: the document lookup for an id returned nothing. */
  datatype LookupError = MissingDocument(id: string)

  /** `PaperCore(**paper.model_dump())`: keep the fields PaperCore declares, drop the rest. */
  function Core(p: Paper): PaperCore
  {
    PaperCore(p.id, p.title, p.publishedYear, p.summary, p.impact, p.authors)
  }

  /** The query text embedded for a paper's summary. */
  function QueryOf(s: PaperSummary): PaperQuery
  {
    PaperQuery(s.domain, s.problem, s.solution)
  }
}
