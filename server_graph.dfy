/**
 * server/database/graph.py: the graph functions the server uses. Each
 * opens a driver on the database; here the database object is passed in.
 */
module ServerGraph {
  import opened Wrappers
  import opened Cypher
  import opened TitleKey

  /**
   * `create_node(id, title)`: `CREATE` a node with the id, the title and its
   * key, and return the id. Calling it twice creates two nodes.
   */
  method CreateNode(db: Database, id: string, title: string) returns (r: string)
    requires db.Valid()
    modifies db
    ensures db.Valid()
    ensures db.State() == Create(old(db.State()), Node(Some(id), Some(title), SanitizeTitle(title)))
    ensures r == id
  {
    db.RunCreate(Node(Some(id), Some(title), SanitizeTitle(title)));
    r := id;
  }

  /**
   * `create_relationship(title, ref_title)`: `MERGE` both nodes by key and
   * the relationship between them; return the two keys.
   */
  method CreateRelationship(db: Database, title: string, refTitle: string) returns (r: (string, string))
    requires db.Valid()
    modifies db
    ensures db.Valid()
    ensures db.State() == MergeReference(old(db.State()), SanitizeTitle(title), SanitizeTitle(refTitle))
    ensures Linked(db.State(), SanitizeTitle(title), SanitizeTitle(refTitle))
    ensures r == (SanitizeTitle(title), SanitizeTitle(refTitle))
  {
    var s, rs := SanitizeTitle(title), SanitizeTitle(refTitle);
    db.RunMergeReference(s, rs);
    r := (s, rs);
  }

  /**
   * `match_referenced_nodes(paper_id)`: the ids of the papers that reference
   * (cite) the paper; `WHERE p.paper_id IS NOT NULL` drops id-less nodes.
   */
  function MatchReferencedNodes(db: Database, paperId: string): (ids: seq<string>)
    reads db
    ensures forall x :: x in ids <==>
      exists e :: e in db.edges && e.src < |db.nodes| && e.dst < |db.nodes|
        && db.nodes[e.dst].paperId == Some(paperId) && db.nodes[e.src].paperId == Some(x)
  {
    var g, m := db.State(), Query(true, paperId, true);
    var ids := Present(Results(g, m, 0, 0));
    assert forall x :: x in ids <==>
      exists e :: e in g.edges && e.src < |g.nodes| && e.dst < |g.nodes|
        && g.nodes[e.dst].paperId == Some(paperId) && g.nodes[e.src].paperId == Some(x)
    by {
      ResultsMembers(g, m, 0, 0);
      PresentMembers(Results(g, m, 0, 0));
      forall x ensures x in ids <==>
        exists e :: e in g.edges && e.src < |g.nodes| && e.dst < |g.nodes|
          && g.nodes[e.dst].paperId == Some(paperId) && g.nodes[e.src].paperId == Some(x)
      {
        if exists e :: e in g.edges && e.src < |g.nodes| && e.dst < |g.nodes|
                       && g.nodes[e.dst].paperId == Some(paperId) && g.nodes[e.src].paperId == Some(x)
        {
          var e :| e in g.edges && e.src < |g.nodes| && e.dst < |g.nodes|
                   && g.nodes[e.dst].paperId == Some(paperId) && g.nodes[e.src].paperId == Some(x);
          assert Returns(g, m, e, Some(x)) && After(e, 0, 0);
        }
      }
    }
    ids
  }

  /**
   * `match_referencing_nodes(paper_id)`: the ids of the papers this paper
   * references; referenced nodes without an id are dropped by
   * `WHERE q.paper_id IS NOT NULL` and again by the list filter.
   */
  function MatchReferencingNodes(db: Database, paperId: string): (ids: seq<string>)
    reads db
    ensures forall x :: x in ids <==>
      exists e :: e in db.edges && e.src < |db.nodes| && e.dst < |db.nodes|
        && db.nodes[e.src].paperId == Some(paperId) && db.nodes[e.dst].paperId == Some(x)
  {
    var g, m := db.State(), Query(false, paperId, true);
    var ids := Present(Results(g, m, 0, 0));
    assert forall x :: x in ids <==>
      exists e :: e in g.edges && e.src < |g.nodes| && e.dst < |g.nodes|
        && g.nodes[e.src].paperId == Some(paperId) && g.nodes[e.dst].paperId == Some(x)
    by {
      ResultsMembers(g, m, 0, 0);
      PresentMembers(Results(g, m, 0, 0));
      forall x ensures x in ids <==>
        exists e :: e in g.edges && e.src < |g.nodes| && e.dst < |g.nodes|
          && g.nodes[e.src].paperId == Some(paperId) && g.nodes[e.dst].paperId == Some(x)
      {
        if exists e :: e in g.edges && e.src < |g.nodes| && e.dst < |g.nodes|
                       && g.nodes[e.src].paperId == Some(paperId) && g.nodes[e.dst].paperId == Some(x)
        {
          var e :| e in g.edges && e.src < |g.nodes| && e.dst < |g.nodes|
                   && g.nodes[e.src].paperId == Some(paperId) && g.nodes[e.dst].paperId == Some(x);
          assert Returns(g, m, e, Some(x)) && After(e, 0, 0);
        }
      }
    }
    ids
  }

  /**
   * Titles that normalise alike name one node: after `create_relationship`
   * for a pair of titles, the same call with titles that differ only in case
   * and in spaces, hyphens and newlines leaves the graph as it was.
   */
  lemma RelationshipIgnoresCaseAndSeparators(g: Graph, a: string, b: string, a': string, b': string)
    requires WellFormed(g)
    requires OnlySpaceOrNewline(a) && OnlySpaceOrNewline(a')
    requires OnlySpaceOrNewline(b) && OnlySpaceOrNewline(b')
    requires SameUpToCase(DropSeparators(a), DropSeparators(a'))
    requires SameUpToCase(DropSeparators(b), DropSeparators(b'))
    ensures var g' := MergeReference(g, SanitizeTitle(a), SanitizeTitle(b));
      MergeReference(g', SanitizeTitle(a'), SanitizeTitle(b')) == g'
  {
    SameKeyIffSameUpToCase(a, a');
    SameKeyIffSameUpToCase(b, b');
    MergeReferenceIdempotent(g, SanitizeTitle(a), SanitizeTitle(b));
  }
}
