/**
 * The paper endpoints of app/api/routes/paper.py: reading one paper, and
 * `create_paper`, which fans one paper record out to the document store,
 * the vector store and the graph store. The stores are not modelled; a
 * store call is recorded as an `Effect`, in the order the route makes it.
 */
module PaperRoutes {
  import opened Wrappers
  import opened Models

  /** An HTTP error raised by a route: its status code and detail text. */
  datatype HttpError = HttpError(status: int, detail: string)

  const NotFound: int := 404

  /**
   * `get_paper`: the stored paper, or a 404 whose detail names the id when
   * the document store has nothing for it.
   */
  function GetPaper(lookup: string -> Option<Paper>, paperId: string): (r: Result<Paper, HttpError>)
    ensures r.Failure? <==> lookup(paperId).None?
    ensures r.Success? ==> Some(r.value) == lookup(paperId)
    ensures r.Failure? ==> r.error.status == 404 && r.error.detail == "Paper " + paperId + " does not exist"
  {
    match lookup(paperId)
    case None => Failure(HttpError(NotFound, "Paper " + paperId + " does not exist"))
    case Some(p) => Success(p)
  }

  /** One store call made by `create_paper`. */
  datatype Effect =
    | UpsertPaper(paper: Paper)                         // upsert_paper(collection, paper_data)
    | CreateVector(id: string, text: PaperQuery)        // create_vector(index, id, text)
    | CreateGraphNode(node: GraphNodeBase)              // create_graph_node(driver, node_data)
    | CreateGraphRelationship(title: string, refTitle: string)  // create_graph_relationship(driver, title, ref_title)
    | GetPaperById(id: string)                          // get_paper_by_id(collection, id)

  /** One relationship write per reference title, in list order. */
  function RelationshipWrites(title: string, refs: seq<string>): (es: seq<Effect>)
    ensures |es| == |refs|
    ensures forall i :: 0 <= i < |refs| ==> es[i] == CreateGraphRelationship(title, refs[i])
  {
    seq(|refs|, i requires 0 <= i < |refs| => CreateGraphRelationship(title, refs[i]))
  }

  /** `if paper_data.reference:`: a missing list and an empty one are both false. */
  predicate HasReferences(p: Paper)
  {
    p.reference.Some? && |p.reference.value| > 0
  }

  /** The graph writes: a node when the title is present, then its references. */
  function GraphWrites(p: Paper): seq<Effect>
  {
    if p.title.None? then []
    else
      [CreateGraphNode(GraphNodeBase(p.id, p.title.value))]
      + (if HasReferences(p) then RelationshipWrites(p.title.value, p.reference.value) else [])
  }

  /** The vector write: one when a summary is present, embedding its query triple. */
  function VectorWrites(p: Paper): seq<Effect>
  {
    if p.summary.Some? then [CreateVector(p.id, QueryOf(p.summary.value))] else []
  }

  /** The store calls of `create_paper`, in order. */
  function Fanout(p: Paper): seq<Effect>
  {
    [UpsertPaper(p)] + VectorWrites(p) + GraphWrites(p) + [GetPaperById(p.id)]
  }

  /**
   * `create_paper(paper_data)`: upsert the document; write a vector when
   * there is a summary; write a graph node when there is a title and, after
   * it, one relationship per reference title; re-read the document, whose
   * answer is the response.
   */
  method CreatePaper(p: Paper) returns (trace: seq<Effect>)
    ensures trace == Fanout(p)
  {
    trace := [UpsertPaper(p)];
    if p.summary.Some? {
      trace := trace + [CreateVector(p.id, QueryOf(p.summary.value))];
    }
    if p.title.Some? {
      var title := p.title.value;
      trace := trace + [CreateGraphNode(GraphNodeBase(p.id, title))];
      if HasReferences(p) {
        var refs := p.reference.value;
        ghost var before := trace;
        for i := 0 to |refs|
          invariant trace == before + RelationshipWrites(title, refs[..i])
        {
          assert RelationshipWrites(title, refs[..i + 1]) == RelationshipWrites(title, refs[..i]) + [CreateGraphRelationship(title, refs[i])];
          trace := trace + [CreateGraphRelationship(title, refs[i])];
        }
        assert refs[..|refs|] == refs;
      }
    }
    trace := trace + [GetPaperById(p.id)];
  }

  /** Between the upsert and the re-read there are only vector and graph writes. */
  lemma MiddleWritesAreStoreWrites(p: Paper)
    ensures forall e :: e in VectorWrites(p) + GraphWrites(p) ==>
      e.CreateVector? || e.CreateGraphNode? || e.CreateGraphRelationship?
  {
    if p.title.Some? && HasReferences(p) {
      var rels := RelationshipWrites(p.title.value, p.reference.value);
      assert forall e :: e in rels ==> e.CreateGraphRelationship?;
    }
  }

  /** The document is upserted first, exactly once, and re-read last, exactly once. */
  lemma UpsertFirstReadLast(p: Paper)
    ensures var t := Fanout(p);
      && |t| >= 2
      && t[0] == UpsertPaper(p)
      && t[|t| - 1] == GetPaperById(p.id)
      && (forall i :: 0 < i < |t| ==> !t[i].UpsertPaper?)
      && (forall i :: 0 <= i < |t| - 1 ==> !t[i].GetPaperById?)
  {
    var t := Fanout(p);
    var mid := VectorWrites(p) + GraphWrites(p);
    MiddleWritesAreStoreWrites(p);
    assert t == [UpsertPaper(p)] + mid + [GetPaperById(p.id)];
    forall i | 0 < i < |t| - 1 ensures t[i] == mid[i - 1] && mid[i - 1] in mid {}
  }

  /** A vector is written iff the paper has a summary, and it embeds that summary's query triple. */
  lemma VectorIffSummary(p: Paper)
    ensures (exists e :: e in Fanout(p) && e.CreateVector?) <==> p.summary.Some?
    ensures forall e :: e in Fanout(p) && e.CreateVector? ==>
      p.summary.Some? && e == CreateVector(p.id, QueryOf(p.summary.value))
  {
    assert forall e :: e in GraphWrites(p) ==> !e.CreateVector?;
    if p.summary.Some? {
      assert Fanout(p)[1] == CreateVector(p.id, QueryOf(p.summary.value));
    }
  }

  /** A graph node is written iff the paper has a title; it carries the id and the raw title. */
  lemma NodeIffTitle(p: Paper)
    ensures (exists e :: e in Fanout(p) && e.CreateGraphNode?) <==> p.title.Some?
    ensures forall e :: e in Fanout(p) && e.CreateGraphNode? ==>
      p.title.Some? && e == CreateGraphNode(GraphNodeBase(p.id, p.title.value))
  {
    if p.title.Some? {
      var refs := if HasReferences(p) then RelationshipWrites(p.title.value, p.reference.value) else [];
      assert forall e :: e in refs ==> e.CreateGraphRelationship?;
      assert Fanout(p)[1 + |VectorWrites(p)|] == CreateGraphNode(GraphNodeBase(p.id, p.title.value));
    }
  }

  /**
   * The relationship writes are exactly one per reference title, in list
   * order, all after the node write; there are none without a title.
   */
  lemma RelationshipsFollowNode(p: Paper)
    ensures p.title.None? ==> forall e :: e in Fanout(p) ==> !e.CreateGraphRelationship?
    ensures p.title.Some? ==>
      var refs := if p.reference.Some? then p.reference.value else [];
      var start := 2 + |VectorWrites(p)|;
      && start + |refs| + 1 == |Fanout(p)|
      && Fanout(p)[start - 1] == CreateGraphNode(GraphNodeBase(p.id, p.title.value))
      && Fanout(p)[start..start + |refs|] == RelationshipWrites(p.title.value, refs)
  {
    if p.title.Some? {
      var refs := if p.reference.Some? then p.reference.value else [];
      var rels := if HasReferences(p) then RelationshipWrites(p.title.value, p.reference.value) else [];
      assert rels == RelationshipWrites(p.title.value, refs);
      var pre := [UpsertPaper(p)] + VectorWrites(p) + [CreateGraphNode(GraphNodeBase(p.id, p.title.value))];
      assert Fanout(p) == pre + rels + [GetPaperById(p.id)];
      assert (pre + rels + [GetPaperById(p.id)])[|pre|..|pre| + |rels|] == rels;
    }
  }

  /** Without a title the reference list is never read: the writes do not depend on it. */
  lemma ReferencesIgnoredWithoutTitle(p: Paper, refs: Option<seq<string>>)
    requires p.title.None?
    ensures Fanout(p)[1..] == Fanout(p.(reference := refs))[1..]
  {
    var q := p.(reference := refs);
    assert Fanout(p)[1..] == VectorWrites(p) + GraphWrites(p) + [GetPaperById(p.id)];
    assert Fanout(q)[1..] == VectorWrites(q) + GraphWrites(q) + [GetPaperById(q.id)];
  }

  /** A missing reference list and an empty one cause the same writes. */
  lemma NoneReferencesSameAsEmpty(p: Paper)
    ensures Fanout(p.(reference := None))[1..] == Fanout(p.(reference := Some([])))[1..]
  {
    var a, b := p.(reference := None), p.(reference := Some([]));
    assert GraphWrites(a) == GraphWrites(b);
    assert Fanout(a)[1..] == VectorWrites(a) + GraphWrites(a) + [GetPaperById(a.id)];
    assert Fanout(b)[1..] == VectorWrites(b) + GraphWrites(b) + [GetPaperById(b.id)];
  }
}
