/**
 * The search router of the server (server/routers/search.py): the title
 * cleanup applied to every returned title, the core-paper search, and the
 * empty-list guard that the graph search puts before fetching vectors.
 */
module ServerSearch {
  import opened Wrappers
  import opened Models
  import opened Similarity
  import opened Cypher
  import opened ServerGraph

  /**
   * `t.replace("-\n", "")`: scan left to right and delete every
   * non-overlapping occurrence of a hyphen followed by a newline.
   */
  function DropHyphenBreaks(t: string): (r: string)
    ensures |r| <= |t|
  {
    if |t| >= 2 && t[0] == '-' && t[1] == '\n' then DropHyphenBreaks(t[2..])
    else if t == [] then []
    else [t[0]] + DropHyphenBreaks(t[1..])
  }

  /** `t.replace("\n", " ")`: every newline becomes one space, nothing else moves. */
  function NewlinesToSpaces(t: string): (r: string)
    ensures |r| == |t|
    ensures '\n' !in r
    ensures forall i :: 0 <= i < |t| && t[i] != '\n' ==> r[i] == t[i]
    ensures forall i :: 0 <= i < |t| && t[i] == '\n' ==> r[i] == ' '
  {
    seq(|t|, i requires 0 <= i < |t| => if t[i] == '\n' then ' ' else t[i])
  }

  /** The displayed title: hyphenated line breaks joined, other line breaks made spaces. */
  function CleanTitle(t: string): (r: string)
    ensures '\n' !in r
    ensures |r| <= |t|
    ensures '\n' !in t ==> r == t
  {
    var r := NewlinesToSpaces(DropHyphenBreaks(t));
    assert '\n' !in t ==> r == t by {
      if '\n' !in t {
        DropHyphenBreaksKeeps(t);
        assert forall i :: 0 <= i < |t| ==> r[i] == t[i];
      }
    }
    r
  }

  /** Without a newline there is no hyphenated line break to delete. */
  lemma {:induction false} DropHyphenBreaksKeeps(t: string)
    requires '\n' !in t
    ensures DropHyphenBreaks(t) == t
  {
    if t != [] {
      assert |t| >= 2 ==> t[1] in t;
      assert '\n' !in t[1..] by {
        assert forall i :: 0 <= i < |t| - 1 ==> t[1..][i] == t[i + 1];
      }
      DropHyphenBreaksKeeps(t[1..]);
    }
  }

  /** Cleaning a cleaned title changes nothing. */
  lemma CleanTitleIdempotent(t: string)
    ensures CleanTitle(CleanTitle(t)) == CleanTitle(t)
  {
  }

  /** No match of `"-\n"` straddles the join of `a` and `c`. */
  predicate NoBreakAcross(a: string, c: string)
  {
    !(|a| > 0 && a[|a| - 1] == '-' && |c| > 0 && c[0] == '\n')
  }

  lemma {:induction false} DropHyphenBreaksAppend(a: string, c: string)
    requires NoBreakAcross(a, c)
    ensures DropHyphenBreaks(a + c) == DropHyphenBreaks(a) + DropHyphenBreaks(c)
  {
    var ac := a + c;
    if a == [] {
      assert ac == c;
    } else if |a| >= 2 && a[0] == '-' && a[1] == '\n' {
      assert ac[0] == '-' && ac[1] == '\n' && ac[2..] == a[2..] + c;
      DropHyphenBreaksAppend(a[2..], c);
    } else {
      assert ac[0] == a[0] && ac[1..] == a[1..] + c;
      assert !(|ac| >= 2 && ac[0] == '-' && ac[1] == '\n') by {
        if |a| >= 2 {
          assert ac[1] == a[1];
        }
      }
      assert NoBreakAcross(a[1..], c) by {
        if |a| >= 2 {
          assert a[1..][|a| - 2] == a[|a| - 1];
        }
      }
      DropHyphenBreaksAppend(a[1..], c);
      assert DropHyphenBreaks(ac) == [a[0]] + DropHyphenBreaks(a[1..] + c);
      assert DropHyphenBreaks(a) == [a[0]] + DropHyphenBreaks(a[1..]);
    }
  }

  lemma NewlinesToSpacesAppend(a: string, c: string)
    ensures NewlinesToSpaces(a + c) == NewlinesToSpaces(a) + NewlinesToSpaces(c)
  {
  }

  /** A hyphenated line break is deleted outright; the two sides are cleaned apart. */
  lemma CleanTitleHyphenBreak(a: string, b: string)
    ensures CleanTitle(a + "-\n" + b) == CleanTitle(a) + CleanTitle(b)
  {
    var c := "-\n" + b;
    assert a + "-\n" + b == a + c;
    DropHyphenBreaksAppend(a, c);
    assert c[2..] == b;
    assert DropHyphenBreaks(c) == DropHyphenBreaks(b);
    NewlinesToSpacesAppend(DropHyphenBreaks(a), DropHyphenBreaks(b));
  }

  lemma DropHyphenBreaksLineBreak(a: string, b: string)
    requires a == [] || a[|a| - 1] != '-'
    ensures DropHyphenBreaks(a + "\n" + b) == DropHyphenBreaks(a) + "\n" + DropHyphenBreaks(b)
  {
    var c := "\n" + b;
    assert a + "\n" + b == a + c;
    DropHyphenBreaksAppend(a, c);
    assert c[0] == '\n' && c[1..] == b;
    assert DropHyphenBreaks(c) == "\n" + DropHyphenBreaks(b);
  }

  /** Any other line break becomes a single space between the two cleaned sides. */
  lemma CleanTitleLineBreak(a: string, b: string)
    requires a == [] || a[|a| - 1] != '-'
    ensures CleanTitle(a + "\n" + b) == CleanTitle(a) + " " + CleanTitle(b)
  {
    var da, db := DropHyphenBreaks(a), DropHyphenBreaks(b);
    DropHyphenBreaksLineBreak(a, b);
    NewlinesToSpacesAppend(da + "\n", db);
    NewlinesToSpacesAppend(da, "\n");
  }

  /** The body of a server search: three plain strings. */
  datatype SearchBody = SearchBody(domain: string, problem: string, solution: string)

  /** A stored document: the fields `_id`, `title`, `published_year` and `keywords`. */
  datatype Doc = Doc(id: string, title: string, publishedYear: string, keywords: seq<string>)

  /** One `{"id", "title", "published_year", "keywords"}` result of the core search. */
  datatype CoreEntry = CoreEntry(id: string, title: string, publishedYear: string, keywords: seq<string>)

  /**
   * The result comprehension over `docs`: one entry per document, with the
   * cleaned title; subscripting a missing document raises at the first one.
   */
  function Entries(ids: seq<string>, searchById: string -> Option<Doc>): (r: Result<seq<CoreEntry>, LookupError>)
    ensures r.Success? <==> forall i :: 0 <= i < |ids| ==> searchById(ids[i]).Some?
    ensures r.Success? ==> |r.value| == |ids|
    ensures r.Success? ==> forall i :: 0 <= i < |ids| ==>
      var d := searchById(ids[i]).value;
      r.value[i] == CoreEntry(d.id, CleanTitle(d.title), d.publishedYear, d.keywords)
    ensures r.Failure? ==> exists i :: 0 <= i < |ids| && r.error == MissingDocument(ids[i])
                                       && searchById(ids[i]).None?
                                       && forall j :: 0 <= j < i ==> searchById(ids[j]).Some?
  {
    if ids == [] then Success([])
    else
      var tail := ids[1..];
      assert forall i :: 0 <= i < |tail| ==> tail[i] == ids[i + 1];
      match searchById(ids[0])
      case None => Failure(MissingDocument(ids[0]))
      case Some(d) =>
        match Entries(tail, searchById)
        case Failure(e) =>
          assert exists i :: 0 <= i < |ids| && e == MissingDocument(ids[i]) && searchById(ids[i]).None?
                             && forall j :: 0 <= j < i ==> searchById(ids[j]).Some? by {
            var k :| 0 <= k < |tail| && e == MissingDocument(tail[k]) && searchById(tail[k]).None?
                     && forall j :: 0 <= j < k ==> searchById(tail[j]).Some?;
            forall j | 1 <= j < k + 1 ensures searchById(ids[j]).Some? {
              assert ids[j] == tail[j - 1];
            }
          }
          Failure(e)
        case Success(rest) => Success([CoreEntry(d.id, CleanTitle(d.title), d.publishedYear, d.keywords)] + rest)
  }

  /**
   * `retrieve_core_papers(body)`: the 5 nearest ids from the vector store,
   * each turned into an entry of its document, in the same order.
   */
  function RetrieveCorePapers(
    searchBySentence: (string, string, string, int) -> seq<string>,
    searchById: string -> Option<Doc>,
    body: SearchBody): (r: Result<seq<CoreEntry>, LookupError>)
    ensures var ids := searchBySentence(body.domain, body.problem, body.solution, 5);
      && (r.Success? <==> forall i :: 0 <= i < |ids| ==> searchById(ids[i]).Some?)
      && (r.Success? ==> |r.value| == |ids|)
      && (r.Success? ==> forall i :: 0 <= i < |ids| ==>
            (r.value[i].id == searchById(ids[i]).value.id && r.value[i].title == CleanTitle(searchById(ids[i]).value.title)
             && '\n' !in r.value[i].title))
  {
    Entries(searchBySentence(body.domain, body.problem, body.solution, 5), searchById)
  }

  /** `vector.fetch_all_by_id(ids) if ids else []` */
  function FetchUnlessEmpty(fetch: seq<string> -> seq<Vector>, ids: seq<string>): (vs: seq<Vector>)
    ensures ids == [] ==> vs == []
    ensures ids != [] ==> vs == fetch(ids)
  {
    if ids == [] then [] else fetch(ids)
  }

  /**
   * The candidates of the server's graph search: the vectors of the papers
   * the root references, then those of the papers citing it, each list
   * fetched only when it is not empty.
   */
  function GraphCandidates(db: Database, fetch: seq<string> -> seq<Vector>, rootId: string): (vs: seq<Vector>)
    reads db
  {
    FetchUnlessEmpty(fetch, MatchReferencingNodes(db, rootId)) + FetchUnlessEmpty(fetch, MatchReferencedNodes(db, rootId))
  }

  /** No edge leads from a node with id `rootId` to a node that has an id. */
  predicate ReferencesNoIdentified(db: Database, rootId: string)
    reads db
  {
    forall e :: e in db.edges && e.src < |db.nodes| && e.dst < |db.nodes| && db.nodes[e.src].paperId == Some(rootId)
      ==> db.nodes[e.dst].paperId.None?
  }

  /** No edge leads into a node with id `rootId` from a node that has an id. */
  predicate CitedByNoIdentified(db: Database, rootId: string)
    reads db
  {
    forall e :: e in db.edges && e.src < |db.nodes| && e.dst < |db.nodes| && db.nodes[e.dst].paperId == Some(rootId)
      ==> db.nodes[e.src].paperId.None?
  }

  /**
   * A root that references no paper with an id contributes no reference
   * candidates, and the vector store is not asked for them: the candidates
   * are the citing papers' vectors alone. With no neighbours either way
   * there are no candidates at all.
   */
  lemma NoNeighboursNoCandidates(db: Database, fetch: seq<string> -> seq<Vector>, rootId: string)
    requires ReferencesNoIdentified(db, rootId)
    ensures MatchReferencingNodes(db, rootId) == []
    ensures GraphCandidates(db, fetch, rootId) == FetchUnlessEmpty(fetch, MatchReferencedNodes(db, rootId))
    ensures CitedByNoIdentified(db, rootId) ==> GraphCandidates(db, fetch, rootId) == []
  {
    NoMembersEmpty(MatchReferencingNodes(db, rootId));
    if CitedByNoIdentified(db, rootId) {
      NoMembersEmpty(MatchReferencedNodes(db, rootId));
    }
  }

  lemma NoMembersEmpty(s: seq<string>)
    requires forall x :: x !in s
    ensures s == []
  {
    forall x ensures multiset(s)[x] == 0 {
      assert x !in s;
    }
    assert multiset(s) == multiset{};
  }
}
