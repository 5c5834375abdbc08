/**
 * The search endpoints of app/api/routes/search.py. The vector index, the
 * document collection, the graph driver and the embedding model are reached
 * only through the functions of `Stores`.
 */
module SearchRoutes {
  import opened Wrappers
  import opened Models
  import opened StableSort
  import opened Similarity

  /** The stores and the model, as the functions the routes call. */
  datatype Stores = Stores(
    vectorIdsBySentence: (PaperQuery, int) -> seq<string>,  // get_vector_ids_by_sentence(index, text, k)
    paperById: string -> Option<Paper>,                      // get_paper_by_id(collection, id)
    referenceNodes: string -> seq<string>,                   // get_reference_nodes(driver, root_id)
    citationNodes: string -> seq<string>,                    // get_citation_nodes(driver, root_id)
    vectorsByIds: seq<string> -> seq<Vector>,                // get_vectors_by_ids(index, ids)
    embed: PaperQuery -> Embedding,                          // create_embedding(**query)
    cosine: (Embedding, Embedding) -> real)                  // cosine_similarity(a, b)

  /** How many ids the query search asks the vector index for. */
  const QueryTopK: int := 5

  /**
   * `[PaperCore(**p.model_dump()) for p in [lookup(id) for id in ids] if p is not None]`:
   * the projections of the ids that have a document, in id order.
   */
  function JoinFound(ids: seq<string>, lookup: string -> Option<Paper>): (r: seq<PaperCore>)
    ensures |r| <= |ids|
    ensures |r| == |ids| <==> forall i :: 0 <= i < |ids| ==> lookup(ids[i]).Some?
    ensures forall c :: c in r <==>
      exists i :: 0 <= i < |ids| && lookup(ids[i]).Some? && c == Core(lookup(ids[i]).value)
  {
    if ids == [] then []
    else
      var rest := JoinFound(ids[1..], lookup);
      assert forall i :: 1 <= i < |ids| ==> ids[i] == ids[1..][i - 1];
      assert forall i :: 0 <= i < |ids| - 1 ==> ids[1..][i] == ids[i + 1];
      match lookup(ids[0])
      case Some(p) => [Core(p)] + rest
      case None => rest
  }

  /**
   * Joining keeps the vector index's order: the result for a concatenation
   * of id lists is the result for the first followed by the result for the
   * second.
   */
  lemma {:induction false} JoinFoundAppend(a: seq<string>, b: seq<string>, lookup: string -> Option<Paper>)
    ensures JoinFound(a + b, lookup) == JoinFound(a, lookup) + JoinFound(b, lookup)
  {
    if a == [] {
      assert a + b == b;
    } else {
      assert (a + b)[1..] == a[1..] + b;
      JoinFoundAppend(a[1..], b, lookup);
    }
  }

  /**
   * `search_papers_by_query`: ask the index for the 5 nearest ids, look each
   * up, and return the projections of those found, in index order.
   */
  function SearchPapersByQuery(st: Stores, body: PaperQuery): (r: seq<PaperCore>)
    ensures var ids := st.vectorIdsBySentence(body, 5);
      && |r| <= |ids|
      && (forall c :: c in r <==>
            exists i :: 0 <= i < |ids| && st.paperById(ids[i]).Some? && c == Core(st.paperById(ids[i]).value))
  {
    JoinFound(st.vectorIdsBySentence(body, QueryTopK), st.paperById)
  }

  /** `[elem["id"] for elem in scores]` */
  function ScoredIds(scores: seq<Scored>): (ids: seq<string>)
    ensures |ids| == |scores|
    ensures forall i :: 0 <= i < |scores| ==> ids[i] == scores[i].id
  {
    seq(|scores|, i requires 0 <= i < |scores| => scores[i].id)
  }

  /** The distinct ids in order of first occurrence: the key order of a Python dict built from them. */
  function Dedup(ids: seq<string>): (r: seq<string>)
    ensures |r| <= |ids|
    ensures forall x :: x in r <==> x in ids
    ensures forall i, j :: 0 <= i < j < |r| ==> r[i] != r[j]
  {
    if ids == [] then []
    else
      var d := Dedup(ids[..|ids| - 1]);
      assert forall x :: x in ids <==> x in ids[..|ids| - 1] || x == ids[|ids| - 1] by {
        assert ids == ids[..|ids| - 1] + [ids[|ids| - 1]];
      }
      if ids[|ids| - 1] in d then d else d + [ids[|ids| - 1]]
  }

  /** The position of the first occurrence of `x` in `ids`. */
  function FirstIndex(ids: seq<string>, x: string): (i: nat)
    requires x in ids
    ensures i < |ids| && ids[i] == x
    ensures forall j :: 0 <= j < i ==> ids[j] != x
  {
    if ids[0] == x then 0 else 1 + FirstIndex(ids[1..], x)
  }

  /** Dedup lists the ids in the order of their first occurrences. */
  lemma {:induction false} DedupFirstOccurrenceOrder(ids: seq<string>)
    ensures forall i, j :: 0 <= i < j < |Dedup(ids)| ==>
      FirstIndex(ids, Dedup(ids)[i]) < FirstIndex(ids, Dedup(ids)[j])
  {
    if ids != [] {
      var init, x := ids[..|ids| - 1], ids[|ids| - 1];
      DedupFirstOccurrenceOrder(init);
      var d := Dedup(init);
      assert ids == init + [x];
      forall y | y in init ensures FirstIndex(ids, y) == FirstIndex(init, y) {
        FirstIndexPrefix(init, [x], y);
      }
      if x !in d {
        assert x !in init;
        assert FirstIndex(ids, x) == |init|;
      }
    }
  }

  lemma {:induction false} FirstIndexPrefix(a: seq<string>, b: seq<string>, x: string)
    requires x in a
    ensures FirstIndex(a + b, x) == FirstIndex(a, x)
  {
    if a[0] != x {
      assert (a + b)[1..] == a[1..] + b;
      FirstIndexPrefix(a[1..], b, x);
    }
  }

  /** The score of the last entry with id `id`, if any: what `scores_dict[id]` ends up holding. */
  function LastScore(scores: seq<Scored>, id: string): (r: Option<real>)
    ensures r.None? <==> forall i :: 0 <= i < |scores| ==> scores[i].id != id
    ensures r.Some? ==> exists i :: 0 <= i < |scores| && scores[i] == Scored(id, r.value)
                                    && forall j :: i < j < |scores| ==> scores[j].id != id
  {
    if scores == [] then None
    else if scores[|scores| - 1].id == id then Some(scores[|scores| - 1].score)
    else
      var init := scores[..|scores| - 1];
      var r := LastScore(init, id);
      assert forall i :: 0 <= i < |init| ==> init[i] == scores[i];
      assert r.Some? ==> exists k :: 0 <= k < |scores| && scores[k] == Scored(id, r.value)
                                     && forall j :: k < j < |scores| ==> scores[j].id != id by {
        if r.Some? {
          var k :| 0 <= k < |init| && init[k] == Scored(id, r.value) && forall j :: k < j < |init| ==> init[j].id != id;
          forall j | k < j < |scores| ensures scores[j].id != id {
            if j < |init| {
              assert init[j] == scores[j];
            }
          }
        }
      }
      r
  }

  lemma LastScoreSnoc(scores: seq<Scored>, e: Scored, id: string)
    ensures LastScore(scores + [e], id) == if e.id == id then Some(e.score) else LastScore(scores, id)
  {
    assert (scores + [e])[..|scores|] == scores;
  }

  lemma DedupSnoc(ids: seq<string>, x: string)
    ensures Dedup(ids + [x]) == if x in Dedup(ids) then Dedup(ids) else Dedup(ids) + [x]
  {
    assert (ids + [x])[..|ids|] == ids;
  }

  /**
   * On a list sorted by descending score, the score kept for an id is the
   * lowest score that id has in the list.
   */
  lemma LastScoreIsLowest(scores: seq<Scored>, id: string)
    requires SortedDesc(scores, ScoreOf)
    requires LastScore(scores, id).Some?
    ensures forall i :: 0 <= i < |scores| && scores[i].id == id ==> LastScore(scores, id).value <= scores[i].score
  {
    var v := LastScore(scores, id).value;
    var k :| 0 <= k < |scores| && scores[k] == Scored(id, v) && forall j :: k < j < |scores| ==> scores[j].id != id;
    forall i | 0 <= i < |scores| && scores[i].id == id ensures v <= scores[i].score {
      if i < k {
        assert ScoreOf(scores[k]) <= ScoreOf(scores[i]);
      }
    }
  }

  /** `keys` and `values` are the dict built from `scores`. */
  ghost predicate Collapsed(scores: seq<Scored>, keys: seq<string>, values: map<string, real>)
  {
    && keys == Dedup(ScoredIds(scores))
    && (forall id :: id in values <==> id in keys)
    && (forall id :: id in values ==> LastScore(scores, id) == Some(values[id]))
  }

  lemma CollapsedKeysStep(prev: seq<Scored>, e: Scored, next: seq<Scored>, keys: seq<string>)
    requires next == prev + [e]
    requires keys == Dedup(ScoredIds(prev))
    ensures (if e.id in keys then keys else keys + [e.id]) == Dedup(ScoredIds(next))
  {
    assert ScoredIds(next) == ScoredIds(prev) + [e.id];
    DedupSnoc(ScoredIds(prev), e.id);
  }

  lemma CollapsedValuesStep(prev: seq<Scored>, e: Scored, next: seq<Scored>, values: map<string, real>)
    requires next == prev + [e]
    requires forall id :: id in values ==> LastScore(prev, id) == Some(values[id])
    ensures forall id :: id in values[e.id := e.score] ==> LastScore(next, id) == Some(values[e.id := e.score][id])
  {
    forall id | id in values[e.id := e.score]
      ensures LastScore(next, id) == Some(values[e.id := e.score][id])
    {
      LastScoreSnoc(prev, e, id);
    }
  }

  /** One insertion into the dict keeps it the dict of the entries read so far. */
  lemma CollapsedStep(prev: seq<Scored>, e: Scored, next: seq<Scored>, keys: seq<string>, values: map<string, real>)
    requires next == prev + [e]
    requires Collapsed(prev, keys, values)
    ensures Collapsed(next, if e.id in values then keys else keys + [e.id], values[e.id := e.score])
  {
    CollapsedKeysStep(prev, e, next, keys);
    CollapsedValuesStep(prev, e, next, values);
  }

  /**
   * `{elem["id"]: elem["score"] for elem in scores}`: successive insertion
   * with overwrite. The keys come out in first-occurrence order and each
   * key holds the score of its last occurrence.
   */
  method CollapseScores(scores: seq<Scored>) returns (keys: seq<string>, values: map<string, real>)
    ensures keys == Dedup(ScoredIds(scores))
    ensures forall id :: id in values <==> id in keys
    ensures forall id :: id in values ==> LastScore(scores, id) == Some(values[id])
  {
    keys, values := [], map[];
    var i := 0;
    while i < |scores|
      invariant 0 <= i <= |scores|
      invariant Collapsed(scores[..i], keys, values)
    {
      var e := scores[i];
      assert scores[..i + 1] == scores[..i] + [e];
      CollapsedStep(scores[..i], e, scores[..i + 1], keys, values);
      keys := if e.id in values then keys else keys + [e.id];
      values := values[e.id := e.score];
      i := i + 1;
    }
    assert scores[..i] == scores;
  }

  /**
   * `[PaperScore(**(get_paper_by_id(id).model_dump() | {"score": scores_dict[id]}))
   *   for id in scores_dict.keys()]`: fails at the first key without a
   * document, since `None.model_dump()` raises.
   */
  function JoinScores(keys: seq<string>, values: map<string, real>, lookup: string -> Option<Paper>)
    : (r: Result<seq<PaperScore>, LookupError>)
    requires forall id :: id in keys ==> id in values
    ensures r.Success? <==> forall i :: 0 <= i < |keys| ==> lookup(keys[i]).Some?
    ensures r.Success? ==> |r.value| == |keys|
    ensures r.Success? ==> forall i :: 0 <= i < |keys| ==>
      r.value[i] == PaperScore(Core(lookup(keys[i]).value), values[keys[i]])
    ensures r.Failure? ==> exists i :: 0 <= i < |keys| && r.error == MissingDocument(keys[i])
                                       && lookup(keys[i]).None?
                                       && forall j :: 0 <= j < i ==> lookup(keys[j]).Some?
  {
    if keys == [] then Success([])
    else
      assert forall i :: 1 <= i < |keys| ==> keys[i] == keys[1..][i - 1];
      match lookup(keys[0])
      case None => Failure(MissingDocument(keys[0]))
      case Some(p) =>
        match JoinScores(keys[1..], values, lookup)
        case Failure(e) =>
          assert exists i :: 0 <= i < |keys| && e == MissingDocument(keys[i]) && lookup(keys[i]).None?
                             && forall j :: 0 <= j < i ==> lookup(keys[j]).Some? by {
            var i :| 0 <= i < |keys| - 1 && e == MissingDocument(keys[1..][i]) && lookup(keys[1..][i]).None?
                     && forall j :: 0 <= j < i ==> lookup(keys[1..][j]).Some?;
            assert forall j :: 1 <= j < i + 1 ==> lookup(keys[j]).Some? by {
              forall j | 1 <= j < i + 1 ensures lookup(keys[j]).Some? {
                assert keys[j] == keys[1..][j - 1];
              }
            }
          }
          Failure(e)
        case Success(rest) => Success([PaperScore(Core(p), values[keys[0]])] + rest)
  }

  /**
   * The candidates of a graph search: the vectors of the root's references
   * followed by those of its citations, duplicates kept.
   */
  function Candidates(st: Stores, rootId: string): (vs: seq<Vector>)
    ensures var refs, cits := st.vectorsByIds(st.referenceNodes(rootId)), st.vectorsByIds(st.citationNodes(rootId));
      && |vs| == |refs| + |cits|
      && multiset(vs) == multiset(refs) + multiset(cits)
      && vs[..|refs|] == refs
  {
    st.vectorsByIds(st.referenceNodes(rootId)) + st.vectorsByIds(st.citationNodes(rootId))
  }

  /**
   * `search_subgraph`: rank the candidates by similarity to the embedded
   * query, keep the top `num_nodes` (duplicates still in), collapse them
   * into the score dict, and join every key with its document.
   */
  method SearchSubgraph(st: Stores, body: PaperGraph) returns (r: Result<seq<PaperScore>, LookupError>)
    ensures var ranked := TopK(st.embed(body.query), Candidates(st, body.rootId), body.numNodes, st.cosine);
      var keys := Dedup(ScoredIds(ranked));
      && (r.Success? <==> forall i :: 0 <= i < |keys| ==> st.paperById(keys[i]).Some?)
      && (r.Success? ==> |r.value| == |keys|)
      && (r.Success? ==> forall i :: 0 <= i < |keys| ==>
            (LastScore(ranked, keys[i]).Some? &&
             r.value[i] == PaperScore(Core(st.paperById(keys[i]).value), LastScore(ranked, keys[i]).value)))
      && (r.Failure? ==> exists i :: 0 <= i < |keys| && r.error == MissingDocument(keys[i])
                                     && st.paperById(keys[i]).None?)
  {
    var vectors := Candidates(st, body.rootId);
    var queryVector := st.embed(body.query);
    var similarityScores := FilterBySimilarity(queryVector, vectors, body.numNodes, st.cosine);
    var keys, values := CollapseScores(similarityScores);
    r := JoinScores(keys, values, st.paperById);
  }

  /**
   * The size of a graph search's answer: one entry per distinct ranked id,
   * so never more than `num_nodes` (and never more than the candidates);
   * every answer id occurs once.
   */
  lemma SubgraphSize(st: Stores, body: PaperGraph)
    ensures var ranked := TopK(st.embed(body.query), Candidates(st, body.rootId), body.numNodes, st.cosine);
      var keys := Dedup(ScoredIds(ranked));
      && |keys| <= |ranked| <= |Candidates(st, body.rootId)|
      && (body.numNodes >= 0 ==> |keys| <= body.numNodes)
      && (forall i, j :: 0 <= i < j < |keys| ==> keys[i] != keys[j])
  {
    TopKLength(st.embed(body.query), Candidates(st, body.rootId), body.numNodes, st.cosine);
  }

  /**
   * A candidate ranked twice appears once in the answer, with the score
   * of its lower-ranked copy, which is its lowest score among the ranked.
   */
  lemma DuplicateKeepsLowestScore(st: Stores, body: PaperGraph, id: string)
    requires id in ScoredIds(TopK(st.embed(body.query), Candidates(st, body.rootId), body.numNodes, st.cosine))
    ensures var ranked := TopK(st.embed(body.query), Candidates(st, body.rootId), body.numNodes, st.cosine);
      && LastScore(ranked, id).Some?
      && (forall i :: 0 <= i < |ranked| && ranked[i].id == id ==> LastScore(ranked, id).value <= ranked[i].score)
  {
    var ranked := TopK(st.embed(body.query), Candidates(st, body.rootId), body.numNodes, st.cosine);
    TopKOrder(st.embed(body.query), Candidates(st, body.rootId), body.numNodes, st.cosine);
    var i :| 0 <= i < |ranked| && ScoredIds(ranked)[i] == id;
    LastScoreIsLowest(ranked, id);
  }
}
