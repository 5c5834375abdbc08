# Paper retrieval and ingestion core, in Dafny

This project models the retrieval and ingestion logic of the paper-writing-assistance backend and proves properties of that model.

- **Title key.** `sanitize_title` / `sanitize_text` turn a paper title into the `s_title` property. That property is the identity key of a `:Paper` node in the Neo4j citation graph.
- **Top-k ranking.** `filter_by_similarity` and `rank_by_similarity` stably sort candidates by descending cosine similarity to a query embedding, then keep `[:k]`.
- **Citation graph.** This is the Cypher behind `create_node` (`CREATE`), `create_relationship` (`MERGE` on the title keys) and the two `match_*` neighbour queries. Both the server and the prototype versions are modelled.
- **Search routes.**
  - The query search joins the vector-store ids with their documents.
  - The graph search concatenates the reference and citation vectors, ranks them, collapses them into a score dict and joins each key with its document.
- **`create_paper`.** The route's fan-out of writes to the document, vector and graph stores, and the `get_paper` 404 rule.
- **Display rules.** The server's title cleanup (hyphenated line breaks, newlines) and the 55-character truncation in the prototype query table.

Modules:

| module | what it holds |
|---|---|
| `Wrappers` | `Option` and `Result` |
| `Models` | the request and record shapes (`PaperQuery`, `Paper`, `PaperCore`, `PaperScore`, `PaperGraph`, `GraphNodeBase`) |
| `TitleKey` | the title key and its characterisation |
| `StableSort` | the stable descending sort, as a reference function and as an in-place array sort |
| `Similarity` | `filter_by_similarity` and `rank_by_similarity` |
| `Cypher` | the graph value, the `CREATE` / `MERGE` / `MATCH` semantics, and the `Database` object the graph functions receive |
| `ServerGraph`, `PrototypeGraph` | the two versions of the graph functions |
| `SearchRoutes`, `PaperRoutes` | the routes of `app/api/routes` |
| `ServerSearch` | the server search router |
| `QueryDisplay` | the prototype result table |

The stores, the embedding model and the cosine similarity are passed in as functions. A store or driver object is passed in as a parameter (`Stores`, `Database`). Every proof is independent of what these functions compute.

Where the intended behaviour and the code differ, the model follows the code:

- **Duplicate ids in the graph search.** `{elem["id"]: elem["score"] ...}` in app/api/routes/search.py:75 keeps an id at the position of its first occurrence but with the score of its LAST occurrence. Because the list is sorted by descending score, that is its lowest score, not its highest.
- **Missing documents in the graph search.** A ranked id without a document makes the graph search fail (`None.model_dump()` raises) rather than being skipped.

`SearchRoutes.SearchSubgraph` and `SearchRoutes.DuplicateKeepsLowestScore` state both behaviours.

## Model

| member | source | states |
|---|---|---|
| TitleKey.IsWhitespace | server/database/graph.py:31 | the characters Python's `str.isspace` accepts, which `strip` trims (a definition, no contract) |
| TitleKey.TrimStart | server/database/graph.py:31 | `lstrip` leaves a suffix of the title, never longer |
| TitleKey.TrimStartRemovesLeadingWhitespace | server/database/graph.py:31 | what `lstrip` removes is all whitespace, and the result does not start with whitespace |
| TitleKey.TrimEnd | server/database/graph.py:31 | `rstrip` leaves a prefix of the title, never longer |
| TitleKey.TrimEndRemovesTrailingWhitespace | server/database/graph.py:31 | what `rstrip` removes is all whitespace, and the result does not end with whitespace |
| TitleKey.Strip | server/database/graph.py:31 | `strip` as `rstrip` after `lstrip` (a definition; its contract is in the two lemmas below) |
| TitleKey.StripTrimsBothEnds | server/database/graph.py:31 | the stripped title neither starts nor ends with whitespace |
| TitleKey.StripRemovesOnlyWhitespace | server/database/graph.py:31 | `strip` keeps every non-whitespace character of the title and adds none |
| TitleKey.Remove | server/database/graph.py:32-34 | `replace(c, '')` keeps exactly the characters other than `c` and never lengthens |
| TitleKey.Lower | server/database/graph.py:35 | lower-casing keeps the length and maps each character by ASCII `lower` |
| TitleKey.SanitizeTitle | server/database/graph.py:29-36 | the key contains no space, newline or hyphen; the copy at prototype/graph.py:29-36 is the same code; the copy at app/utils.py:34-40 is the same code |
| TitleKey.DropSeparators | app/utils.py:30-32 | reference definition of the documented behaviour: exactly the non-separator characters remain |
| TitleKey.RemoveSeparatorsIsDrop | server/database/graph.py:32-34 | the three chained `replace` calls equal one pass that deletes all three separators |
| TitleKey.StripDropsOnlySeparators | server/database/graph.py:31 | when the only whitespace is space and newline, `strip` removes nothing the key would keep |
| TitleKey.SanitizeCharacterisation | server/database/graph.py:29-36 | for such titles, the key is "delete spaces, newlines and hyphens, then lower-case"; the copy at app/utils.py:34-40 is the same code |
| TitleKey.LowerKeepsClasses | server/database/graph.py:35 | lower-casing creates no whitespace or separator and is idempotent |
| TitleKey.SanitizeIdempotent | server/database/graph.py:29-36 | for titles whose only whitespace is space and newline, sanitising a key again changes nothing; the copy at prototype/graph.py:29-36 is the same code; the copy at app/utils.py:34-40 is the same code |
| TitleKey.SameKeyIffSameUpToCase | server/database/graph.py:20-21 | two such titles get the same key iff they differ only in letter case and in where spaces, hyphens and newlines stand; the same holds for `sanitize_text` (app/utils.py:21-33) |
| TitleKey.TabBreaksIdempotence | app/utils.py:34-40 | without the restriction idempotence fails: `"-\tx"` gives `"\tx"`, whose key is `"x"` |
| StableSort.Insert | server/database/vector.py:107-109 | one step of the stable descending sort: the element goes before the first element with a smaller key (a definition; `InsertAt` and `InsertSorted` state its effect) |
| StableSort.SortBy | server/database/vector.py:107-109 | the reference stable descending sort, `list.sort(reverse=True)`, inserting the elements in input order (a definition; `SortByCorrect` and `StableSortIsUnique` state its meaning) |
| StableSort.SortByCorrect | server/database/vector.py:107-109 | a stable sort with `reverse=True`: scores never increase, the result is a permutation, and equal-score elements keep their input order |
| StableSort.StableSortIsUnique | server/database/vector.py:107-109 | any sequence that is sorted and keeps every equal-key group in input order equals the reference sort, so the model is exactly Python's sort |
| StableSort.SortByLength | server/database/vector.py:107-109 | sorting keeps the length |
| StableSort.SortInPlace | server/database/vector.py:107-109 | the in-place insertion sort leaves the array equal to the stable descending sort of its old contents; the copy at prototype/vector.py:71-73 is the same code |
| StableSort.InsertNext | app/utils.py:96 | one sort step moves `a[i]` into the sorted prefix as `Insert` does, and leaves the rest of the array unchanged |
| Similarity.Scores | app/utils.py:92-95 | the `{"id", "score"}` entry of every candidate, in input order (a definition) |
| Similarity.IdsOf | server/database/vector.py:111 | the ids of the vectors, in order (a definition) |
| Similarity.TopK | app/utils.py:92-97 | what `filter_by_similarity` returns: the sorted scores cut at `[:k]`, with exactly `SliceEnd` entries |
| Similarity.SliceEnd | app/utils.py:97 | the stop index of `[:k]` never exceeds the length |
| Similarity.TopKLength | app/utils.py:97 | `min(k, n)` entries for `k >= 0`; a negative `k` drops the last `abs(k)` entries |
| Similarity.TopKOrder | app/utils.py:96 | result scores never increase, and for each score the result's entries are an initial run of the input's entries with that score, in input order |
| Similarity.TopKProvenance | app/utils.py:92-95 | the result is a sub-multiset of the scored candidates: each entry is (id, score) of some input vector, and duplicate ids are not merged |
| Similarity.FilterBySimilarity | app/utils.py:92-97 | sorts a fresh array built from the scores; it returns the top-k as specified, `SliceEnd` entries long, sorted; the caller's list is a value and is never reordered |
| Similarity.RankBySimilarity | server/database/vector.py:107-111 | the caller's array becomes its stable descending sort by similarity; the ids of its first `[:k]` entries are returned, without scores; the copy at prototype/vector.py:71-75 is the same code |
| Similarity.RankedIdsProperties | server/database/vector.py:107-111 | `min(k, n)` ids for `k >= 0`; in non-increasing score order; a sub-multiset of the input with duplicates kept; ties in input order; the copy at prototype/vector.py:71-75 is the same code |
| Cypher.Create | server/database/graph.py:122-127 | the `CREATE` statement: appends the node and keeps the relationships (a definition; `CreateWellFormed` and `CreateTwiceDuplicates` state its effect) |
| Cypher.MergeNode | server/database/graph.py:154-155 | one `MERGE (p: Paper {s_title: $s})`: adds a key-only node only when no node has the key (a definition; `MergeNodeEffect` states its effect) |
| Cypher.MergeReference | server/database/graph.py:153-156 | the whole `MERGE` statement of `create_relationship` (a definition; `MergeReferenceNodes`, `MergeReferenceEdges` and `MergeReferenceIdempotent` state its effect) |
| Cypher.Results | server/database/graph.py:56-89 | the rows of the two `MATCH` queries, with or without the `WHERE ... IS NOT NULL` clause (a definition; `ResultsMembers` states its meaning) |
| Cypher.Present | server/database/graph.py:91-92 | the list filter `if ... is not None` (a definition; `PresentMembers` and `PresentAppend` state its meaning) |
| Cypher.Database.constructor | server/database/graph.py:55 | the database the graph functions receive starts empty and well-formed |
| Cypher.Titled | server/database/graph.py:154-155 | `MERGE` matches exactly the nodes whose `s_title` is the key |
| Cypher.Pairs | server/database/graph.py:156 | the relationship `MERGE` links every matched `p` to every matched `q` and nothing else |
| Cypher.MergeNodeEffect | server/database/graph.py:154 | `MERGE` on a node keeps the existing nodes and relationships; afterwards a node has the key; it adds a node only when none had the key |
| Cypher.MergeReferenceNodes | server/database/graph.py:153-156 | after `create_relationship` the existing nodes are untouched; a key-only node is added per title only when no node had it |
| Cypher.MergeReferenceEdges | server/database/graph.py:153-156 | the relationships afterwards are the old ones plus one from every node titled `s` to every node titled `rs`, and no others |
| Cypher.MergeReferenceEdgeSet | server/database/graph.py:156 | the relationship set grows by exactly the matched pairs |
| Cypher.MergeReferenceKeepsTitlesUnique | server/database/graph.py:20-21 | if no two nodes share a key before `create_relationship`, none do after |
| Cypher.MergeReferenceIdempotent | server/database/graph.py:153-156 | repeating `create_relationship` with the same keys leaves the graph unchanged; the copy at prototype/graph.py:145-149 is the same code |
| Cypher.CreateTwiceDuplicates | server/database/graph.py:122-127 | `CREATE` is not idempotent: the same node created twice is two more nodes with that key; the copy at prototype/graph.py:115-120 is the same code |
| Cypher.CreateWellFormed | server/database/graph.py:122-127 | `CREATE` keeps every relationship between existing nodes and puts the new node last |
| Cypher.ResultsMembers | server/database/graph.py:56-89 | for both read queries, a value is in the query result iff some matching relationship returns it |
| Cypher.PresentMembers | server/database/graph.py:91-92 | the `is not None` filter keeps exactly the non-null values |
| Cypher.PresentAppend | server/database/graph.py:91-92 | the filter distributes over concatenation, so it keeps the result order |
| Cypher.WhereNotNullIsListFilter | server/database/graph.py:84-92 | `WHERE ... IS NOT NULL` in the query and the null filter after it give the same list |
| Cypher.Database.RunCreate | server/database/graph.py:122-127 | running `CREATE` appends the node and keeps the store well-formed |
| Cypher.Database.RunMergeReference | server/database/graph.py:153-161 | running the `MERGE` statement gives the merged graph, which then links the two keys |
| ServerGraph.CreateNode | server/database/graph.py:118-129 | the store gains a node with the id, the title and `s_title = sanitize_title(title)`; the id is returned |
| ServerGraph.CreateRelationship | server/database/graph.py:153-163 | the graph becomes the `MERGE` of the two keys, they are linked, and the pair of keys is returned |
| ServerGraph.MatchReferencedNodes | server/database/graph.py:55-63 | an id is returned iff a node with that id references the paper; null ids never appear |
| ServerGraph.MatchReferencingNodes | server/database/graph.py:83-92 | an id is returned iff the paper references a node with that id; null ids never appear |
| ServerGraph.RelationshipIgnoresCaseAndSeparators | server/database/graph.py:153-159 | for titles that differ only in case and separators, the second `create_relationship` leaves the graph unchanged: no duplicate nodes |
| PrototypeGraph.MissingFields | prototype/graph.py:9-12 | the missing required fields are exactly `paper_id` and `title` when absent; none are missing iff both are given |
| PrototypeGraph.CreateNode | prototype/graph.py:109-124 | missing `paper_id` or `title` gives a validation error and no write; otherwise it creates the node with the computed key and returns the id |
| PrototypeGraph.CreateRelationship | prototype/graph.py:145-155 | the graph becomes the `MERGE` of the two keys, they are linked, and the pair of keys is returned |
| PrototypeGraph.MatchReferencedNodes | prototype/graph.py:55-61 | a value, null included, is returned iff a node with that `paper_id` references the paper |
| PrototypeGraph.MatchReferencingNodes | prototype/graph.py:81-88 | an id is returned iff the paper references a node with that id; nulls are filtered out |
| PrototypeGraph.ServerReferencedDropsNulls | prototype/graph.py:55-61 | the server's list is the prototype's list with the nulls removed, in the same order |
| PrototypeGraph.ServerReferencingAgrees | prototype/graph.py:81-88 | the two versions of `match_referencing_nodes` return the same list |
| PrototypeGraph.MergedCiterIsNull | prototype/graph.py:145-149 | a citing node created only by `create_relationship` comes back as a null in the prototype's `match_referenced_nodes` |
| SearchRoutes.JoinFound | app/api/routes/search.py:42-45 | never longer than the ids; as long as them iff every id has a document; holds exactly the projections of the found documents |
| SearchRoutes.JoinFoundAppend | app/api/routes/search.py:42-45 | the join keeps the vector index's order: joining a concatenation joins each part in turn |
| SearchRoutes.SearchPapersByQuery | app/api/routes/search.py:29-45 | asks the index for 5 ids; returns at most that many papers; they are exactly the projections of the ids that have a document; the copy at app/api/routes/paper.py:48-64 is the same code |
| SearchRoutes.ScoredIds | app/api/routes/search.py:75 | the ids of the ranked entries, position by position |
| SearchRoutes.Dedup | app/api/routes/search.py:75 | the dict's keys: distinct, the same members as the ranked ids, and never more of them |
| SearchRoutes.DedupFirstOccurrenceOrder | app/api/routes/search.py:75 | the keys come in the order of their first occurrences |
| SearchRoutes.DedupSnoc | app/api/routes/search.py:75 | inserting an id adds a new key at the end only when it is not already a key |
| SearchRoutes.LastScore | app/api/routes/search.py:75 | none iff the id is absent; otherwise the score of some entry with that id |
| SearchRoutes.LastScoreSnoc | app/api/routes/search.py:75 | a later entry for the same id overwrites the stored score |
| SearchRoutes.LastScoreIsLowest | app/api/routes/search.py:70-75 | on a list sorted by descending score, the kept score is the lowest the id has |
| SearchRoutes.CollapseScores | app/api/routes/search.py:75 | the dict has the keys in first-occurrence order, a key iff its id was ranked, and for each key the score of its last occurrence; the copy at app/api/routes/paper.py:94 is the same code |
| SearchRoutes.JoinScores | app/api/routes/search.py:78-81 | succeeds iff every key has a document, with one `PaperScore` per key in key order; otherwise fails at the first key without a document; the copy at app/api/routes/paper.py:97-100 is the same code |
| SearchRoutes.Candidates | app/api/routes/search.py:64-65 | as many candidates as reference and citation vectors together, the same multiset (duplicates kept), with the reference vectors first |
| SearchRoutes.SearchSubgraph | app/api/routes/search.py:53-81 | the answer is over the deduplicated ids of the top `num_nodes` ranked candidates, each with its last score; it fails iff some such id has no document; the copy at app/api/routes/paper.py:72-100 is the same code |
| SearchRoutes.SubgraphSize | app/api/routes/search.py:70-81 | at most one answer per distinct ranked id, so at most `num_nodes` (for `num_nodes >= 0`) and at most the number of candidates; no id twice |
| SearchRoutes.DuplicateKeepsLowestScore | app/api/routes/search.py:70-75 | a candidate ranked twice is reported with its lowest ranked score |
| Models.Core | app/api/routes/search.py:44 | `PaperCore(**paper.model_dump())`: the fields `PaperCore` declares (a definition) |
| PaperRoutes.GetPaper | app/api/routes/paper.py:30-40 | 404 with detail `Paper <id> does not exist` exactly when the store returns nothing; otherwise the stored paper |
| PaperRoutes.RelationshipWrites | app/api/routes/paper.py:133-134 | one relationship write per reference title, in list order |
| PaperRoutes.Fanout | app/api/routes/paper.py:114-136 | the order of the writes of `create_paper` (a definition; the lemmas below state its properties) |
| PaperRoutes.CreatePaper | app/api/routes/paper.py:108-136 | the store calls made are exactly the specified fan-out |
| PaperRoutes.MiddleWritesAreStoreWrites | app/api/routes/paper.py:117-134 | every store call between the upsert and the re-read writes a vector, a graph node or a graph relationship |
| PaperRoutes.UpsertFirstReadLast | app/api/routes/paper.py:115-136 | the document is upserted first and only once; it is re-read last and only once |
| PaperRoutes.VectorIffSummary | app/api/routes/paper.py:118-124 | a vector is written iff there is a summary; it embeds the summary's domain, problem and solution |
| PaperRoutes.NodeIffTitle | app/api/routes/paper.py:127-130 | a graph node is written iff there is a title; it carries the id and the title |
| PaperRoutes.RelationshipsFollowNode | app/api/routes/paper.py:127-134 | with a title, the relationship writes are one per reference, in order, right after the node; without a title there are none |
| PaperRoutes.ReferencesIgnoredWithoutTitle | app/api/routes/paper.py:127-134 | without a title the reference list has no effect on the writes |
| PaperRoutes.NoneReferencesSameAsEmpty | app/api/routes/paper.py:132-134 | a missing reference list and an empty one give the same writes |
| ServerSearch.DropHyphenBreaks | server/routers/search.py:34 | deleting `"-\n"` never lengthens the title |
| ServerSearch.NewlinesToSpaces | server/routers/search.py:34 | the length is kept, no newline remains, and only newlines change (to a space) |
| ServerSearch.CleanTitle | server/routers/search.py:34 | the cleaned title has no newline, is never longer, and a title without newlines is unchanged; line 67 applies the same cleanup in `construct_graph` |
| ServerSearch.DropHyphenBreaksKeeps | server/routers/search.py:34 | without a newline there is nothing to delete |
| ServerSearch.CleanTitleIdempotent | server/routers/search.py:34 | cleaning twice equals cleaning once |
| ServerSearch.DropHyphenBreaksAppend | server/routers/search.py:34 | the deletion works on the two parts separately when no `"-\n"` straddles the join |
| ServerSearch.NewlinesToSpacesAppend | server/routers/search.py:34 | newline replacement distributes over concatenation |
| ServerSearch.CleanTitleHyphenBreak | server/routers/search.py:34 | a hyphenated line break is deleted outright, joining the two sides |
| ServerSearch.CleanTitleLineBreak | server/routers/search.py:34 | a line break not preceded by a hyphen becomes a single space between the cleaned sides |
| ServerSearch.Entries | server/routers/search.py:30-37 | one `{id, title, published_year, keywords}` per id, in order, with the cleaned title; fails at the first id whose document is missing |
| ServerSearch.RetrieveCorePapers | server/routers/search.py:19-39 | uses k = 5; succeeds iff every returned id has a document; then one entry per id in order, with a newline-free cleaned title |
| ServerSearch.GraphCandidates | server/routers/search.py:49-53 | the reference vectors, each list fetched only when not empty, then the citation vectors (a definition; `NoNeighboursNoCandidates` states its meaning) |
| ServerSearch.NoNeighboursNoCandidates | server/routers/search.py:49-53 | a root referencing no identified paper gets an empty reference list, so that fetch is skipped (lines 52-53) and only the citation candidates remain; with no identified citers either, there are no candidates at all |
| QueryDisplay.DisplayTitle | prototype/query.py:64-65 | under 55 characters the title is unchanged; otherwise its first 51 characters plus `...`, exactly 54; always at most 54 |
| QueryDisplay.PadRight | prototype/query.py:71-73 | `{s:54}` pads with spaces to at least the width and keeps the text as a prefix |
| QueryDisplay.DisplayFitsColumn | prototype/query.py:64-73 | every displayed title fills the 54-wide column exactly and starts with the title's own text |
| QueryDisplay.DisplayTitleIdempotent | prototype/query.py:64 | displaying an already displayed title changes nothing |

## Left out

- Cosine similarity (app/utils.py:61-73, server/database/vector.py:84-89, prototype/vector.py:48-53) is a function parameter over `real`. The floating-point arithmetic, the square roots and the NaN of a zero vector are not modelled. Every property holds for any score function.
- Embedding generation (`create_embedding`, the sentence-transformer model) is the `embed` parameter of `Stores`.
- The Pinecone, MongoDB and Neo4j clients are reached only through parameters: `get_vector_ids_by_sentence`, `get_paper_by_id`, `get_reference_nodes`, `get_citation_nodes`, `get_vectors_by_ids`, `search_by_sentence`, `search_by_id`, `fetch_all_by_id`. What they return is not modelled.
- The order of Neo4j query rows is unspecified. The model lists rows by node creation order, and the statements about order (`ServerReferencedDropsNulls`) hold for that order.
- Opening and closing a driver (`with GraphDatabase.driver(...)`) is not modelled. The graph functions receive the `Database` object instead.
- Uniqueness constraints or indexes in the Neo4j schema are not part of this model.
- TitleKey.Lower: lower-casing is ASCII only. Python's `str.lower` also maps non-ASCII letters. `strip` trims Python's whitespace code points.
- In server/routers/search.py, `construct_graph` (lines 55-69) calls `vector.create_embedding`, which is not in the vector module. It also subscripts the id strings returned by `rank_by_similarity` as dicts, so the route cannot complete. Only the empty-list guard (lines 52-53) and the title cleanup (line 67) are modelled.
- ServerSearch.Entries: the MongoDB `KeyError` raised when a document lacks `title`, `published_year` or `keywords` is not modelled. Those fields are always present in `Doc`.
- PaperRoutes.CreatePaper: the response is the re-read document (app/api/routes/paper.py:136). The document store is not modelled, so the model states only that the re-read is the last store call, not what it returns.
- PaperRoutes.CreatePaper: the upsert, vector and graph writes are recorded as an ordered trace of effects. What the stores do with them, and the FastAPI validation of a `None` re-read against `response_model=Paper`, are not modelled.
- PaperRoutes.GetPaper: `if not paper` is modelled as "the lookup returned nothing". A returned `Paper` object is always truthy.
- Paper bodies, figures, tables and the other `Paper` fields the core never reads are left out of `Models.Paper`.
- PrototypeGraph.CreateNode: `**kwargs` is a map from field name to string. Type errors in the values and the extra `s_title` key are not modelled, because the method always overwrites `s_title`.
- The `while True` input loop, the Pinecone queries and the prints in prototype/query.py are I/O. Only the truncation (lines 64-65) and the column padding are modelled.
- The `print(vectors)` calls in the search routes are I/O.
