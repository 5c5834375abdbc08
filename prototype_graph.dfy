/**
 * prototype/graph.py: the first version of the graph functions. They take
 * the driver as an argument (here the database object), `create_node`
 * validates keyword arguments with pydantic, and `match_referenced_nodes`
 * has no null filter.
 */
module PrototypeGraph {
  import opened Wrappers
  import opened Cypher
  import opened TitleKey
  import ServerGraph

  /** pydantic's `ValidationError`, naming the required fields that were missing. */
  datatype ValidationError = ValidationError(missing: seq<string>)

  /** The fields of the `Paper` model without a default. */
  const RequiredFields: seq<string> := ["paper_id", "title"]

  /** The required fields absent from the keyword arguments, in declaration order. */
  function MissingFields(kwargs: map<string, string>): (missing: seq<string>)
    ensures forall f :: f in missing <==> f in RequiredFields && f !in kwargs
    ensures missing == [] <==> "paper_id" in kwargs && "title" in kwargs
  {
    (if "paper_id" in kwargs then [] else ["paper_id"]) + (if "title" in kwargs then [] else ["title"])
  }

  /**
   * `create_node(driver, **kwargs)`: `Paper(**kwargs)` fails when `paper_id`
   * or `title` is missing and nothing is written; otherwise the node is
   * created with the computed `s_title` (a given `s_title` is overwritten,
   * other keys are ignored) and its id is returned.
   */
  method CreateNode(db: Database, kwargs: map<string, string>) returns (r: Result<string, ValidationError>)
    requires db.Valid()
    modifies db
    ensures db.Valid()
    ensures MissingFields(kwargs) == [] ==>
      && r == Success(kwargs["paper_id"])
      && db.State() == Create(old(db.State()),
                              Node(Some(kwargs["paper_id"]), Some(kwargs["title"]), SanitizeTitle(kwargs["title"])))
    ensures MissingFields(kwargs) != [] ==>
      r == Failure(ValidationError(MissingFields(kwargs))) && db.State() == old(db.State())
  {
    var missing := MissingFields(kwargs);
    if missing != [] {
      return Failure(ValidationError(missing));
    }
    var id, title := kwargs["paper_id"], kwargs["title"];
    db.RunCreate(Node(Some(id), Some(title), SanitizeTitle(title)));
    r := Success(id);
  }

  /**
   * `create_relationship(driver, title, ref_title)`: `MERGE` both nodes by
   * key and the relationship between them; return the two keys.
   */
  method CreateRelationship(db: Database, title: string, refTitle: string) returns (r: (string, string))
    requires db.Valid()
    modifies db
    ensures db.Valid()
    ensures db.State() == MergeReference(old(db.State()), SanitizeTitle(title), SanitizeTitle(refTitle))
    ensures Linked(db.State(), SanitizeTitle(title), SanitizeTitle(refTitle))
    ensures r == (SanitizeTitle(title), SanitizeTitle(refTitle))
  {
    var s, rs := SanitizeTitle(title), SanitizeTitle(refTitle);
    db.RunMergeReference(s, rs);
    r := (s, rs);
  }

  /**
   * `match_referenced_nodes(driver, paper_id)`: `p.paper_id` of every
   * relationship into the paper, null (`None`) for citing nodes created by
   * `MERGE`.
   */
  function MatchReferencedNodes(db: Database, paperId: string): (ids: seq<Option<string>>)
    reads db
    ensures forall v :: v in ids <==>
      exists e :: e in db.edges && e.src < |db.nodes| && e.dst < |db.nodes|
        && db.nodes[e.dst].paperId == Some(paperId) && db.nodes[e.src].paperId == v
  {
    var g, m := db.State(), Query(true, paperId, false);
    var ids := Results(g, m, 0, 0);
    assert forall v :: v in ids <==>
      exists e :: e in g.edges && e.src < |g.nodes| && e.dst < |g.nodes|
        && g.nodes[e.dst].paperId == Some(paperId) && g.nodes[e.src].paperId == v
    by {
      ResultsMembers(g, m, 0, 0);
      forall v ensures v in ids <==>
        exists e :: e in g.edges && e.src < |g.nodes| && e.dst < |g.nodes|
          && g.nodes[e.dst].paperId == Some(paperId) && g.nodes[e.src].paperId == v
      {
        if exists e :: e in g.edges && e.src < |g.nodes| && e.dst < |g.nodes|
                       && g.nodes[e.dst].paperId == Some(paperId) && g.nodes[e.src].paperId == v
        {
          var e :| e in g.edges && e.src < |g.nodes| && e.dst < |g.nodes|
                   && g.nodes[e.dst].paperId == Some(paperId) && g.nodes[e.src].paperId == v;
          assert Returns(g, m, e, v) && After(e, 0, 0);
        }
      }
    }
    ids
  }

  /**
   * `match_referencing_nodes(driver, paper_id)`: `q.paper_id` of every
   * relationship out of the paper, with nulls removed by the list filter.
   */
  function MatchReferencingNodes(db: Database, paperId: string): (ids: seq<string>)
    reads db
    ensures forall x :: x in ids <==>
      exists e :: e in db.edges && e.src < |db.nodes| && e.dst < |db.nodes|
        && db.nodes[e.src].paperId == Some(paperId) && db.nodes[e.dst].paperId == Some(x)
  {
    var g, m := db.State(), Query(false, paperId, false);
    var ids := Present(Results(g, m, 0, 0));
    assert forall x :: x in ids <==>
      exists e :: e in g.edges && e.src < |g.nodes| && e.dst < |g.nodes|
        && g.nodes[e.src].paperId == Some(paperId) && g.nodes[e.dst].paperId == Some(x)
    by {
      ResultsMembers(g, m, 0, 0);
      PresentMembers(Results(g, m, 0, 0));
      forall x ensures x in ids <==>
        exists e :: e in g.edges && e.src < |g.nodes| && e.dst < |g.nodes|
          && g.nodes[e.src].paperId == Some(paperId) && g.nodes[e.dst].paperId == Some(x)
      {
        if exists e :: e in g.edges && e.src < |g.nodes| && e.dst < |g.nodes|
                       && g.nodes[e.src].paperId == Some(paperId) && g.nodes[e.dst].paperId == Some(x)
        {
          var e :| e in g.edges && e.src < |g.nodes| && e.dst < |g.nodes|
                   && g.nodes[e.src].paperId == Some(paperId) && g.nodes[e.dst].paperId == Some(x);
          assert Returns(g, m, e, Some(x)) && After(e, 0, 0);
        }
      }
    }
    ids
  }

  /**
   * The server's `WHERE p.paper_id IS NOT NULL` is the only difference in
   * `match_referenced_nodes`: its list is this one with the nulls removed,
   * in the same order.
   */
  lemma ServerReferencedDropsNulls(db: Database, paperId: string)
    ensures ServerGraph.MatchReferencedNodes(db, paperId) == Present(MatchReferencedNodes(db, paperId))
  {
    WhereNotNullIsListFilter(db.State(), Query(true, paperId, true), 0, 0);
  }

  /** The two versions of `match_referencing_nodes` return the same list. */
  lemma ServerReferencingAgrees(db: Database, paperId: string)
    ensures ServerGraph.MatchReferencingNodes(db, paperId) == MatchReferencingNodes(db, paperId)
  {
    WhereNotNullIsListFilter(db.State(), Query(false, paperId, true), 0, 0);
  }

  /**
   * A node made by `create_relationship` has no id: when the citing title
   * has no node yet and the cited title names a node created for paper
   * `paperId`, the prototype's `match_referenced_nodes(paperId)` afterwards
   * contains a null, which the server's `WHERE` clause would drop.
   */
  lemma MergedCiterIsNull(g: Graph, s: string, rs: string, paperId: string, q: nat)
    requires WellFormed(g)
    requires Titled(g.nodes, s) == []
    requires q < |g.nodes| && g.nodes[q].sTitle == rs && g.nodes[q].paperId == Some(paperId)
    ensures None in Results(MergeReference(g, s, rs), Query(true, paperId, false), 0, 0)
  {
    var g' := MergeReference(g, s, rs);
    var p := |g.nodes|;
    MergeNodeEffect(g, s);
    MergeReferenceNodes(g, s, rs);
    MergeReferenceEdges(g, s, rs);
    assert MergeNode(g, s).nodes == g.nodes + [Node(None, None, s)];
    assert g'.nodes[p] == Node(None, None, s) && g'.nodes[q] == g.nodes[q];
    assert p in Titled(g'.nodes, s) && q in Titled(g'.nodes, rs);
    assert Edge(p, q) in g'.edges;
    ResultsMembers(g', Query(true, paperId, false), 0, 0);
    assert Returns(g', Query(true, paperId, false), Edge(p, q), None);
  }
}
