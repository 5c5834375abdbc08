/**
 * Top-k selection by similarity to a query vector: `filter_by_similarity`
 * (app/utils.py), which scores the candidates into a fresh list and sorts
 * that, and `rank_by_similarity` (server/database/vector.py and the
 * identical prototype/vector.py), which sorts the caller's list in place and
 * returns ids only. The cosine similarity itself is a parameter.
 */
module Similarity {
  import opened StableSort

  type Embedding = seq<real>

  /** A stored vector: `Vector` in app/models.py, `{"id", "vector"}` in vector.py. */
  datatype Vector = Vector(id: string, embedding: Embedding)

  /** One `{"id": ..., "score": ...}` entry built by `filter_by_similarity`. */
  datatype Scored = Scored(id: string, score: real)

  /** The stop index of the Python slice `xs[:k]` on a list of length `n`. */
  function SliceEnd(n: nat, k: int): (m: nat)
    ensures m <= n
  {
    if k >= 0 then (if k < n then k else n)
    else if n + k > 0 then n + k
    else 0
  }

  function ScoreOf(s: Scored): real
  {
    s.score
  }

  /** The similarity of a candidate to `src`: the sort key of `rank_by_similarity`. */
  function SimilarityTo(src: Embedding, cosine: (Embedding, Embedding) -> real): Vector -> real
  {
    (v: Vector) => cosine(src, v.embedding)
  }

  /** `[{"id": vec.id, "score": cosine(src, vec.embedding)} for vec in tgt]` */
  function Scores(src: Embedding, tgt: seq<Vector>, cosine: (Embedding, Embedding) -> real): seq<Scored>
  {
    seq(|tgt|, i requires 0 <= i < |tgt| => Scored(tgt[i].id, cosine(src, tgt[i].embedding)))
  }

  /** `[vec["id"] for vec in vs]` */
  function IdsOf(vs: seq<Vector>): seq<string>
  {
    seq(|vs|, i requires 0 <= i < |vs| => vs[i].id)
  }

  /** What `filter_by_similarity` returns: the stably sorted scores, cut at `[:k]`. */
  function TopK(src: Embedding, tgt: seq<Vector>, k: int, cosine: (Embedding, Embedding) -> real): (r: seq<Scored>)
    ensures |r| == SliceEnd(|tgt|, k)
  {
    var sorted := SortBy(Scores(src, tgt, cosine), ScoreOf);
    SortByLength(Scores(src, tgt, cosine), ScoreOf);
    sorted[..SliceEnd(|tgt|, k)]
  }

  lemma {:induction false} WithKeyPrefix<T>(s: seq<T>, key: T -> real, m: nat, v: real)
    requires m <= |s|
    ensures WithKey(s[..m], key, v) <= WithKey(s, key, v)
  {
    assert s == s[..m] + s[m..];
    WithKeyAppend(s[..m], s[m..], key, v);
  }

  /**
   * The length of `filter_by_similarity`'s result: `min(k, n)` entries for
   * `k >= 0`; a negative `k` drops the last `|k|` entries.
   */
  lemma TopKLength(src: Embedding, tgt: seq<Vector>, k: int, cosine: (Embedding, Embedding) -> real)
    ensures var r := TopK(src, tgt, k, cosine);
      && (k >= 0 ==> |r| == if k < |tgt| then k else |tgt|)
      && (k < 0 ==> |r| == if |tgt| + k > 0 then |tgt| + k else 0)
  {
    SortByLength(Scores(src, tgt, cosine), ScoreOf);
  }

  /**
   * The order of `filter_by_similarity`'s result: scores never increase,
   * and the entries with equal scores are an initial run of those entries
   * in input order.
   */
  lemma TopKOrder(src: Embedding, tgt: seq<Vector>, k: int, cosine: (Embedding, Embedding) -> real)
    ensures var r := TopK(src, tgt, k, cosine);
      && SortedDesc(r, ScoreOf)
      && (forall v :: WithKey(r, ScoreOf, v) <= WithKey(Scores(src, tgt, cosine), ScoreOf, v))
  {
    var scores := Scores(src, tgt, cosine);
    var sorted := SortBy(scores, ScoreOf);
    SortByCorrect(scores, ScoreOf);
    SortByLength(scores, ScoreOf);
    var m := SliceEnd(|tgt|, k);
    var r := sorted[..m];
    assert r == TopK(src, tgt, k, cosine);
    forall v ensures WithKey(r, ScoreOf, v) <= WithKey(scores, ScoreOf, v) {
      WithKeyPrefix(sorted, ScoreOf, m, v);
    }
  }

  /**
   * Every entry of `filter_by_similarity`'s result is the (id, score) of
   * some input vector, and nothing is merged or invented: the result is a
   * sub-multiset of the scored candidates.
   */
  lemma TopKProvenance(src: Embedding, tgt: seq<Vector>, k: int, cosine: (Embedding, Embedding) -> real)
    ensures var r := TopK(src, tgt, k, cosine);
      && multiset(r) <= multiset(Scores(src, tgt, cosine))
      && (forall i :: 0 <= i < |r| ==>
            exists j :: 0 <= j < |tgt| && r[i] == Scored(tgt[j].id, cosine(src, tgt[j].embedding)))
  {
    var scores := Scores(src, tgt, cosine);
    var sorted := SortBy(scores, ScoreOf);
    SortByCorrect(scores, ScoreOf);
    SortByLength(scores, ScoreOf);
    var m := SliceEnd(|tgt|, k);
    var r := sorted[..m];
    assert r == TopK(src, tgt, k, cosine);
    assert sorted == r + sorted[m..];
    assert multiset(r) <= multiset(scores);
    forall i | 0 <= i < |r|
      ensures exists j :: 0 <= j < |tgt| && r[i] == Scored(tgt[j].id, cosine(src, tgt[j].embedding))
    {
      assert r[i] in multiset(scores);
      var j :| 0 <= j < |scores| && scores[j] == r[i];
    }
  }

  /**
   * `filter_by_similarity(src, tgt_list, k)`: score every candidate into a
   * fresh list, sort that list stably by descending score, keep `[:k]`.
   * `tgtList` is a value, so the caller's list is never reordered.
   */
  method FilterBySimilarity(src: Embedding, tgtList: seq<Vector>, k: int, cosine: (Embedding, Embedding) -> real)
    returns (r: seq<Scored>)
    ensures r == TopK(src, tgtList, k, cosine)
    ensures |r| == SliceEnd(|tgtList|, k)
    ensures SortedDesc(r, ScoreOf)
  {
    var scores := Scores(src, tgtList, cosine);
    var buf := new Scored[|scores|](i requires 0 <= i < |scores| => scores[i]);
    assert buf[..] == scores;
    SortInPlace(buf, ScoreOf);
    r := buf[..SliceEnd(buf.Length, k)];
    TopKOrder(src, tgtList, k, cosine);
  }

  /**
   * `rank_by_similarity(src, tgt, k)`: sort the caller's list in place,
   * stably by descending similarity to `src`, and return the ids of its
   * first `[:k]` entries (no scores).
   */
  method RankBySimilarity(src: Embedding, tgt: array<Vector>, k: int, cosine: (Embedding, Embedding) -> real)
    returns (ids: seq<string>)
    modifies tgt
    ensures tgt[..] == SortBy(old(tgt[..]), SimilarityTo(src, cosine))
    ensures ids == IdsOf(tgt[..SliceEnd(tgt.Length, k)])
  {
    SortInPlace(tgt, SimilarityTo(src, cosine));
    ids := IdsOf(tgt[..SliceEnd(tgt.Length, k)]);
  }

  /**
   * The ids `rank_by_similarity` returns: `min(k, n)` of them for `k >= 0`,
   * in non-increasing score order, duplicates kept, ties in input order.
   */
  lemma RankedIdsProperties(src: Embedding, tgt: seq<Vector>, k: int, cosine: (Embedding, Embedding) -> real)
    ensures var key := SimilarityTo(src, cosine);
      var sorted := SortBy(tgt, key);
      var m := SliceEnd(|tgt|, k);
      && |sorted| == |tgt|
      && (k >= 0 ==> m == if k < |tgt| then k else |tgt|)
      && |IdsOf(sorted[..m])| == m
      && SortedDesc(sorted[..m], key)
      && multiset(sorted[..m]) <= multiset(tgt)
      && (forall v :: WithKey(sorted[..m], key, v) <= WithKey(tgt, key, v))
  {
    var key := SimilarityTo(src, cosine);
    var sorted := SortBy(tgt, key);
    SortByCorrect(tgt, key);
    SortByLength(tgt, key);
    var m := SliceEnd(|tgt|, k);
    assert sorted == sorted[..m] + sorted[m..];
    forall v ensures WithKey(sorted[..m], key, v) <= WithKey(tgt, key, v) {
      WithKeyPrefix(sorted, key, m, v);
    }
  }
}
