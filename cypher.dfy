/**
 * The Neo4j graph that server/database/graph.py and prototype/graph.py
 * write and query, reduced to what their Cypher statements use: `:Paper`
 * nodes with `paper_id`, `title` and `s_title` properties and `:REFERENCES`
 * relationships. `CREATE` always adds a node; `MERGE` matches every node
 * with the given `s_title` and creates one only when none exists, and adds a
 * relationship only when absent.
 */
module Cypher {
  import opened Wrappers

  /** A `:Paper` node; nodes created by `MERGE` carry only `s_title`. */
  datatype Node = Node(paperId: Option<string>, title: Option<string>, sTitle: string)

  /** A `:REFERENCES` relationship between the nodes at two positions. */
  datatype Edge = Edge(src: nat, dst: nat)

  /** The database: nodes in creation order (position = identity) and relationships. */
  datatype Graph = Graph(nodes: seq<Node>, edges: set<Edge>)

  /** Every relationship joins two existing nodes. */
  predicate WellFormed(g: Graph)
  {
    forall e :: e in g.edges ==> e.src < |g.nodes| && e.dst < |g.nodes|
  }

  /** The positions of the nodes whose `s_title` is `s`, ascending. */
  function Titled(nodes: seq<Node>, s: string): (r: seq<nat>)
    ensures forall i :: i in r <==> 0 <= i < |nodes| && nodes[i].sTitle == s
  {
    if nodes == [] then []
    else Titled(nodes[..|nodes| - 1], s) + (if nodes[|nodes| - 1].sTitle == s then [|nodes| - 1] else [])
  }

  /** No two nodes share an `s_title`. */
  ghost predicate UniqueTitles(g: Graph)
  {
    forall s :: |Titled(g.nodes, s)| <= 1
  }

  /** Some relationship runs from a node titled `s` to a node titled `rs`. */
  predicate Linked(g: Graph, s: string, rs: string)
  {
    && Titled(g.nodes, s) != []
    && Titled(g.nodes, rs) != []
    && forall p, q :: p in Titled(g.nodes, s) && q in Titled(g.nodes, rs) ==> Edge(p, q) in g.edges
  }

  /** `CREATE (p: Paper {...})` */
  function Create(g: Graph, n: Node): Graph
  {
    Graph(g.nodes + [n], g.edges)
  }

  /** `MERGE (p: Paper {s_title: $s})` */
  function MergeNode(g: Graph, s: string): Graph
  {
    if Titled(g.nodes, s) == [] then Graph(g.nodes + [Node(None, None, s)], g.edges) else g
  }

  /**
   * `MERGE (p: Paper {s_title: $s}) MERGE (q: Paper {s_title: $rs})
   *  MERGE (p)-[:REFERENCES]->(q)`: one relationship for every matched pair.
   */
  function MergeReference(g: Graph, s: string, rs: string): Graph
  {
    var g2 := MergeNode(MergeNode(g, s), rs);
    Graph(g2.nodes, g2.edges + Pairs(Titled(g2.nodes, s), Titled(g2.nodes, rs)))
  }

  /** One relationship from every position in `ps` to every position in `qs`. */
  function Pairs(ps: seq<nat>, qs: seq<nat>): (r: set<Edge>)
    ensures forall e :: e in r <==> e.src in ps && e.dst in qs
  {
    set p, q | p in ps && q in qs :: Edge(p, q)
  }

  lemma TitledSnoc(nodes: seq<Node>, n: Node, s: string)
    ensures Titled(nodes + [n], s) == Titled(nodes, s) + (if n.sTitle == s then [|nodes|] else [])
  {
    assert (nodes + [n])[..|nodes|] == nodes;
  }

  lemma MergeNodeEffect(g: Graph, s: string)
    ensures g.nodes <= MergeNode(g, s).nodes
    ensures MergeNode(g, s).edges == g.edges
    ensures Titled(MergeNode(g, s).nodes, s) != []
    ensures forall t :: |Titled(MergeNode(g, s).nodes, t)|
                        == if t == s && Titled(g.nodes, t) == [] then 1 else |Titled(g.nodes, t)|
  {
    if Titled(g.nodes, s) == [] {
      forall t ensures |Titled(MergeNode(g, s).nodes, t)|
                       == if t == s && Titled(g.nodes, t) == [] then 1 else |Titled(g.nodes, t)| {
        TitledSnoc(g.nodes, Node(None, None, s), t);
      }
    }
  }

  /**
   * The nodes after `create_relationship`: existing nodes are untouched, and
   * a node is added for a title only when no node has it yet.
   */
  lemma MergeReferenceNodes(g: Graph, s: string, rs: string)
    ensures var g' := MergeReference(g, s, rs);
      && g.nodes <= g'.nodes
      && Titled(g'.nodes, s) != [] && Titled(g'.nodes, rs) != []
      && (forall t :: |Titled(g'.nodes, t)|
                      == if (t == s || t == rs) && Titled(g.nodes, t) == [] then 1 else |Titled(g.nodes, t)|)
  {
    var g1 := MergeNode(g, s);
    MergeNodeEffect(g, s);
    MergeNodeEffect(g1, rs);
    var g2 := MergeNode(g1, rs);
    assert MergeReference(g, s, rs).nodes == g2.nodes;
    forall t ensures |Titled(g2.nodes, t)|
                     == if (t == s || t == rs) && Titled(g.nodes, t) == [] then 1 else |Titled(g.nodes, t)| {
      if t == s && t != rs && Titled(g.nodes, t) == [] {
        assert |Titled(g1.nodes, t)| == 1;
      }
    }
    var p := Titled(g1.nodes, s)[0];
    assert p in Titled(g1.nodes, s);
    assert g2.nodes[p] == g1.nodes[p];
    assert p in Titled(g2.nodes, s);
  }

  /**
   * The relationships after `create_relationship`: the old ones plus one
   * from every node titled `s` to every node titled `rs`, and no other.
   */
  lemma MergeReferenceEdges(g: Graph, s: string, rs: string)
    requires WellFormed(g)
    ensures var g' := MergeReference(g, s, rs);
      && WellFormed(g')
      && (forall e :: e in g'.edges <==>
            e in g.edges
            || (e.src < |g'.nodes| && e.dst < |g'.nodes|
                && g'.nodes[e.src].sTitle == s && g'.nodes[e.dst].sTitle == rs))
      && Linked(g', s, rs)
  {
    var g' := MergeReference(g, s, rs);
    MergeReferenceEdgeSet(g, s, rs);
    MergeReferenceNodes(g, s, rs);
    assert |g.nodes| <= |g'.nodes|;
    forall p, q | p in Titled(g'.nodes, s) && q in Titled(g'.nodes, rs) ensures Edge(p, q) in g'.edges {
    }
  }

  lemma MergeReferenceEdgeSet(g: Graph, s: string, rs: string)
    ensures var g' := MergeReference(g, s, rs);
      forall e :: e in g'.edges <==>
        e in g.edges
        || (e.src < |g'.nodes| && e.dst < |g'.nodes|
            && g'.nodes[e.src].sTitle == s && g'.nodes[e.dst].sTitle == rs)
  {
    var g2 := MergeNode(MergeNode(g, s), rs);
    assert g2.edges == g.edges;
  }

  /** A title-uniqueness invariant: `create_relationship` never duplicates a title. */
  lemma MergeReferenceKeepsTitlesUnique(g: Graph, s: string, rs: string)
    requires UniqueTitles(g)
    ensures UniqueTitles(MergeReference(g, s, rs))
  {
    MergeReferenceNodes(g, s, rs);
  }

  /** `MERGE` is idempotent: a second identical `create_relationship` changes nothing. */
  lemma MergeReferenceIdempotent(g: Graph, s: string, rs: string)
    requires WellFormed(g)
    ensures MergeReference(MergeReference(g, s, rs), s, rs) == MergeReference(g, s, rs)
  {
    MergeReferenceNodes(g, s, rs);
  }

  /** `CREATE` is not idempotent: the same node created twice is two nodes. */
  lemma CreateTwiceDuplicates(g: Graph, n: Node)
    ensures |Titled(Create(Create(g, n), n).nodes, n.sTitle)| == |Titled(g.nodes, n.sTitle)| + 2
    ensures Create(Create(g, n), n) != Create(g, n)
  {
    TitledSnoc(g.nodes, n, n.sTitle);
    TitledSnoc(g.nodes + [n], n, n.sTitle);
    assert |Create(Create(g, n), n).nodes| == |g.nodes| + 2;
  }

  lemma CreateWellFormed(g: Graph, n: Node)
    requires WellFormed(g)
    ensures WellFormed(Create(g, n))
    ensures Create(g, n).nodes[|g.nodes|] == n
  {
  }

  /**
   * The two read queries: `MATCH (p)-[:REFERENCES]->(q)` with the cited end
   * `q` (when `citers`) or the citing end `p` fixed by `{paper_id: $paper_id}`,
   * returning the other end's `paper_id`; `notNull` adds
   * `WHERE <other end>.paper_id IS NOT NULL`.
   */
  datatype Query = Query(citers: bool, paperId: string, notNull: bool)

  /** The relationship `(p)-[:REFERENCES]->(q)` matches the query. */
  predicate Selects(m: Query, p: Node, q: Node)
  {
    var (anchor, other) := if m.citers then (q, p) else (p, q);
    anchor.paperId == Some(m.paperId) && (!m.notNull || other.paperId.Some?)
  }

  /**
   * The result list of the query over the rows from position (i, j) on:
   * one entry per matching relationship, in (p, q) order, holding the
   * returned end's `paper_id` (`None` is null). Neo4j does not fix the row
   * order; this model lists rows by node position.
   */
  function Results(g: Graph, m: Query, i: nat, j: nat): (ids: seq<Option<string>>)
    decreases |g.nodes| - i, |g.nodes| - j
  {
    if i >= |g.nodes| then []
    else if j >= |g.nodes| then Results(g, m, i + 1, 0)
    else Row(g, m, i, j) + Results(g, m, i, j + 1)
  }

  /** The entry of row (i, j), if the relationship from node i to node j exists and matches. */
  function Row(g: Graph, m: Query, i: nat, j: nat): (r: seq<Option<string>>)
    requires i < |g.nodes| && j < |g.nodes|
    ensures |r| <= 1
  {
    if Edge(i, j) in g.edges && Selects(m, g.nodes[i], g.nodes[j])
    then [g.nodes[if m.citers then i else j].paperId]
    else []
  }

  /** Relationship `e` exists, matches the query and returns `v`. */
  predicate Returns(g: Graph, m: Query, e: Edge, v: Option<string>)
  {
    && e in g.edges && e.src < |g.nodes| && e.dst < |g.nodes|
    && Selects(m, g.nodes[e.src], g.nodes[e.dst])
    && g.nodes[if m.citers then e.src else e.dst].paperId == v
  }

  /** Relationship `e` is at or after row (i, j). */
  predicate After(e: Edge, i: nat, j: nat)
  {
    e.src > i || (e.src == i && e.dst >= j)
  }

  /** A value is in the result iff a matching relationship at or after (i, j) returns it. */
  lemma {:induction false} ResultsMembers(g: Graph, m: Query, i: nat, j: nat)
    ensures forall v :: v in Results(g, m, i, j) <==> exists e :: Returns(g, m, e, v) && After(e, i, j)
    decreases |g.nodes| - i, |g.nodes| - j
  {
    if i >= |g.nodes| {
    } else if j >= |g.nodes| {
      ResultsMembers(g, m, i + 1, 0);
      ResultsMembersNextRow(g, m, i, j);
    } else {
      ResultsMembers(g, m, i, j + 1);
      ResultsMembersStep(g, m, i, j);
    }
  }

  ghost predicate MembersFrom(g: Graph, m: Query, i: nat, j: nat)
  {
    forall v :: v in Results(g, m, i, j) <==> exists e :: Returns(g, m, e, v) && After(e, i, j)
  }

  lemma ResultsMembersNextRow(g: Graph, m: Query, i: nat, j: nat)
    requires i < |g.nodes| <= j
    requires MembersFrom(g, m, i + 1, 0)
    ensures MembersFrom(g, m, i, j)
  {
    assert Results(g, m, i, j) == Results(g, m, i + 1, 0);
    forall e: Edge | e.dst < |g.nodes| ensures After(e, i, j) == After(e, i + 1, 0) {}
  }

  lemma ResultsMembersStep(g: Graph, m: Query, i: nat, j: nat)
    requires i < |g.nodes| && j < |g.nodes|
    requires MembersFrom(g, m, i, j + 1)
    ensures MembersFrom(g, m, i, j)
  {
    assert Results(g, m, i, j) == Row(g, m, i, j) + Results(g, m, i, j + 1);
    forall v ensures v in Row(g, m, i, j) <==> Returns(g, m, Edge(i, j), v) {}
    forall e: Edge ensures After(e, i, j) == (e == Edge(i, j) || After(e, i, j + 1)) {}
  }


  /** The non-null values of a list, in order: a filter `if x is not None`. */
  function Present(c: seq<Option<string>>): seq<string>
  {
    if c == [] then []
    else (if c[0].Some? then [c[0].value] else []) + Present(c[1..])
  }

  /** The filter keeps exactly the non-null values. */
  lemma {:induction false} PresentMembers(c: seq<Option<string>>)
    ensures forall x :: x in Present(c) <==> Some(x) in c
  {
    if c != [] {
      PresentMembers(c[1..]);
      assert c == [c[0]] + c[1..];
    }
  }

  lemma {:induction false} PresentAppend(a: seq<Option<string>>, b: seq<Option<string>>)
    ensures Present(a + b) == Present(a) + Present(b)
  {
    if a == [] {
      assert a + b == b;
    } else {
      assert (a + b)[1..] == a[1..] + b;
      PresentAppend(a[1..], b);
    }
  }

  /**
   * `WHERE <other end>.paper_id IS NOT NULL` in the query and a filter on
   * null after it give the same list.
   */
  lemma {:induction false} WhereNotNullIsListFilter(g: Graph, m: Query, i: nat, j: nat)
    ensures Present(Results(g, m.(notNull := false), i, j)) == Present(Results(g, m.(notNull := true), i, j))
    decreases |g.nodes| - i, |g.nodes| - j
  {
    if i >= |g.nodes| {
    } else if j >= |g.nodes| {
      WhereNotNullIsListFilter(g, m, i + 1, 0);
      assert Results(g, m.(notNull := false), i, j) == Results(g, m.(notNull := false), i + 1, 0);
      assert Results(g, m.(notNull := true), i, j) == Results(g, m.(notNull := true), i + 1, 0);
    } else {
      WhereNotNullIsListFilter(g, m, i, j + 1);
      WhereNotNullStep(g, m, i, j);
    }
  }

  lemma WhereNotNullStep(g: Graph, m: Query, i: nat, j: nat)
    requires i < |g.nodes| && j < |g.nodes|
    requires Present(Results(g, m.(notNull := false), i, j + 1)) == Present(Results(g, m.(notNull := true), i, j + 1))
    ensures Present(Results(g, m.(notNull := false), i, j)) == Present(Results(g, m.(notNull := true), i, j))
  {
    PresentResultsStep(g, m.(notNull := false), i, j);
    PresentResultsStep(g, m.(notNull := true), i, j);
    WhereNotNullRow(g, m, i, j);
  }

  lemma PresentResultsStep(g: Graph, m: Query, i: nat, j: nat)
    requires i < |g.nodes| && j < |g.nodes|
    ensures Present(Results(g, m, i, j)) == Present(Row(g, m, i, j)) + Present(Results(g, m, i, j + 1))
  {
    assert Results(g, m, i, j) == Row(g, m, i, j) + Results(g, m, i, j + 1);
    PresentAppend(Row(g, m, i, j), Results(g, m, i, j + 1));
  }

  lemma WhereNotNullRow(g: Graph, m: Query, i: nat, j: nat)
    requires i < |g.nodes| && j < |g.nodes|
    ensures Present(Row(g, m.(notNull := false), i, j)) == Present(Row(g, m.(notNull := true), i, j))
  {
    var lh := Row(g, m.(notNull := false), i, j);
    if lh != Row(g, m.(notNull := true), i, j) {
      assert lh == [None];
      assert lh[1..] == [];
    }
  }


  /** The database object the graph functions receive (the driver's session). */
  class Database {
    var nodes: seq<Node>
    var edges: set<Edge>

    ghost predicate Valid()
      reads this
    {
      WellFormed(Graph(nodes, edges))
    }

    function State(): Graph
      reads this
    {
      Graph(nodes, edges)
    }

    constructor ()
      ensures Valid() && State() == Graph([], {})
    {
      nodes := [];
      edges := {};
    }

    /** Runs `CREATE (p: Paper {...})`. */
    method RunCreate(n: Node)
      requires Valid()
      modifies this
      ensures Valid()
      ensures State() == Create(old(State()), n)
      ensures nodes[|old(nodes)|] == n
    {
      CreateWellFormed(State(), n);
      nodes := nodes + [n];
    }

    /** Runs the `MERGE` statement of `create_relationship` for two keys. */
    method RunMergeReference(s: string, rs: string)
      requires Valid()
      modifies this
      ensures Valid()
      ensures State() == MergeReference(old(State()), s, rs)
      ensures Linked(State(), s, rs)
    {
      MergeReferenceEdges(State(), s, rs);
      var g := MergeReference(State(), s, rs);
      nodes, edges := g.nodes, g.edges;
    }
  }
}
