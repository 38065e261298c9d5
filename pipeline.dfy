/** The retrieval pipeline: one candidate generator, one scorer and a score threshold; `retrieve(src_id)`
    keeps the cross-book candidates that score at least the threshold. */
module Retrieval {
  import opened Outcomes
  import opened ChapterIds
  import opened Corpus
  import opened TokenCandidates
  import opened Similarity

  const DefaultMinScore: real := 0.1

  /** `RetrievalPipeline(candidate_generator, similarity_scorer, min_score)`: fixed for the whole run. */
  datatype Pipeline = Pipeline(generator: CandidateGenerator, scorer: Scorer, minScore: real := DefaultMinScore)

  /** A candidate survives both filters: it belongs to another book and its score clears the threshold. */
  predicate Kept(p: Pipeline, src: string, tgt: string) {
    BookId(tgt) != BookId(src) && Score(p.scorer, src, tgt).Ok? && Score(p.scorer, src, tgt).value >= p.minScore
  }

  /** The edge emitted for a kept candidate. */
  function EdgeTo(p: Pipeline, src: string, tgt: string): Edge
    requires Score(p.scorer, src, tgt).Ok?
  {
    Edge(src, tgt, Score(p.scorer, src, tgt).value, Name(p.scorer))
  }

  /** The edges `retrieve(src)` emits, as a set. */
  function ExpectedEdges(p: Pipeline, src: string): set<Edge> {
    set t | t in Candidates(p.generator, src) && Kept(p, src, t) :: EdgeTo(p, src, t)
  }

  /** `retrieve(src)` returns (rather than raising) exactly when every cross-book candidate can be scored;
      same-book candidates are skipped before scoring. */
  predicate RetrieveSucceeds(p: Pipeline, src: string) {
    forall t | t in Candidates(p.generator, src) && BookId(t) != BookId(src) :: Score(p.scorer, src, t).Ok?
  }

  /** `retrieve(src)` may raise `e`: the scorer raises it on some cross-book candidate. */
  predicate RaisesWith(p: Pipeline, src: string, e: Exception) {
    exists t | t in Candidates(p.generator, src) && BookId(t) != BookId(src) :: Score(p.scorer, src, t) == Err(e)
  }

  /** `edges` is one possible result of `retrieve(src)`: the expected edges in some order, each once. */
  predicate IsRetrieval(p: Pipeline, src: string, edges: seq<Edge>) {
    DistinctTargets(edges) && (set e | e in edges) == ExpectedEdges(p, src)
  }

  /** The invariants every emitted edge keeps. */
  predicate EdgeInvariant(p: Pipeline, e: Edge) {
    && BookId(e.from) != BookId(e.to)
    && e.from != e.to
    && e.score >= p.minScore
    && e.kind == Name(p.scorer)
  }

  /** `RetrievalPipeline.retrieve(src_id)`: iterate over the candidate set (in no particular order),
      skip same-book targets, score the rest, skip scores below the threshold, append an edge. A scorer
      failure propagates to the caller. */
  method Retrieve(p: Pipeline, src: string) returns (r: Result<seq<Edge>>)
    ensures r.Ok? <==> RetrieveSucceeds(p, src)
    ensures r.Ok? ==> IsRetrieval(p, src, r.value)
    ensures r.Ok? ==> |r.value| <= |Candidates(p.generator, src)|
    ensures r.Ok? ==> forall e | e in r.value ::
      && e.from == src && e.to in Candidates(p.generator, src)
      && Score(p.scorer, src, e.to) == Ok(e.score)
      && EdgeInvariant(p, e)
    ensures r.Err? ==> RaisesWith(p, src, r.error)
  {
    var edges: seq<Edge> := [];
    var srcBook := BookId(src);
    var candidates := Generate(p.generator, src);
    var rest := candidates;
    while rest != {}
      invariant rest <= candidates
      invariant |edges| + |rest| <= |candidates|
      invariant RetrievedSoFar(p, src, candidates - rest, edges)
    {
      var tgt :| tgt in rest;
      ghost var seen := candidates - rest;
      rest := rest - {tgt};
      assert candidates - rest == seen + {tgt};
      var tgtBook := BookId(tgt);
      if srcBook == tgtBook {
        RetrievedSkip(p, src, seen, edges, tgt);
        continue;
      }
      var score := Score(p.scorer, src, tgt);
      if score.Err? {
        r := Err(score.error);
        return;
      }
      if score.value < p.minScore {
        RetrievedSkip(p, src, seen, edges, tgt);
        continue;
      }
      RetrievedAdd(p, src, seen, edges, tgt);
      edges := edges + [Edge(src, tgt, score.value, Name(p.scorer))];
    }
    assert candidates - rest == candidates;
    RetrievalDone(p, src, edges);
    r := Ok(edges);
  }

  /** The loop invariant of `retrieve`: the edges are those of the kept candidates among `seen`, each
      once, and every cross-book candidate seen could be scored. */
  ghost predicate RetrievedSoFar(p: Pipeline, src: string, seen: set<string>, edges: seq<Edge>) {
    && DistinctTargets(edges)
    && (forall e | e in edges :: e.to in seen && Kept(p, src, e.to) && e == EdgeTo(p, src, e.to))
    && (forall t | t in seen && Kept(p, src, t) :: EdgeTo(p, src, t) in edges)
    && (forall t | t in seen && BookId(t) != BookId(src) :: Score(p.scorer, src, t).Ok?)
  }

  /** Once every candidate is seen, the edges are a retrieval and each keeps the edge invariants. */
  lemma RetrievalDone(p: Pipeline, src: string, edges: seq<Edge>)
    requires RetrievedSoFar(p, src, Candidates(p.generator, src), edges)
    ensures RetrieveSucceeds(p, src) && IsRetrieval(p, src, edges)
    ensures forall e | e in edges ::
      && e.from == src && e.to in Candidates(p.generator, src)
      && Score(p.scorer, src, e.to) == Ok(e.score)
      && EdgeInvariant(p, e)
  {
    assert (set e | e in edges) == ExpectedEdges(p, src);
  }

  /** A candidate seen and not kept leaves the edges as they were. */
  lemma RetrievedSkip(p: Pipeline, src: string, seen: set<string>, edges: seq<Edge>, tgt: string)
    requires RetrievedSoFar(p, src, seen, edges) && !Kept(p, src, tgt)
    requires BookId(tgt) != BookId(src) ==> Score(p.scorer, src, tgt).Ok?
    ensures RetrievedSoFar(p, src, seen + {tgt}, edges)
  {
  }

  /** A new kept candidate appends its edge. */
  lemma RetrievedAdd(p: Pipeline, src: string, seen: set<string>, edges: seq<Edge>, tgt: string)
    requires RetrievedSoFar(p, src, seen, edges) && tgt !in seen && Kept(p, src, tgt)
    ensures RetrievedSoFar(p, src, seen + {tgt}, edges + [EdgeTo(p, src, tgt)])
  {
    var next := edges + [EdgeTo(p, src, tgt)];
    forall i, j | 0 <= i < j < |next| ensures next[i].to != next[j].to {
      if j == |edges| {
        assert next[i] in edges;
      }
    }
  }

  /** Each kept candidate yields exactly one edge, and the result has as many edges as `ExpectedEdges`. */
  lemma RetrievalComplete(p: Pipeline, src: string, edges: seq<Edge>, t: string)
    requires IsRetrieval(p, src, edges)
    requires t in Candidates(p.generator, src) && Kept(p, src, t)
    ensures exists k | 0 <= k < |edges| :: edges[k] == EdgeTo(p, src, t)
    ensures forall k, l | 0 <= k < |edges| && 0 <= l < |edges| && edges[k].to == t && edges[l].to == t :: k == l
    ensures |edges| == |ExpectedEdges(p, src)|
  {
    assert EdgeTo(p, src, t) in ExpectedEdges(p, src);
    DistinctTargetsLength(edges);
  }

  /** Same-book candidates never become edges, however well they score. */
  lemma SameBookExcluded(p: Pipeline, src: string, edges: seq<Edge>, t: string)
    requires IsRetrieval(p, src, edges)
    requires BookId(t) == BookId(src)
    ensures forall e | e in edges :: e.to != t
  {
    forall e | e in edges ensures e.to != t {
      assert e in ExpectedEdges(p, src);
    }
  }

  /** Retrieval is deterministic up to order: two results for the same source are permutations of each other. */
  lemma RetrievalUniqueUpToOrder(p: Pipeline, src: string, e1: seq<Edge>, e2: seq<Edge>)
    requires IsRetrieval(p, src, e1) && IsRetrieval(p, src, e2)
    ensures multiset(e1) == multiset(e2)
  {
    DistinctTargetsLength(e1);
    DistinctTargetsLength(e2);
  }

  /** A pipeline scoring with an embedding index that has one row per id never raises. */
  lemma EmbeddingPipelineSucceeds(g: CandidateGenerator, index: EmbeddingIndex, minScore: real, src: string)
    requires |index.embeddings| == |index.chapterIds|
    ensures RetrieveSucceeds(Pipeline(g, NewEmbeddingScorer(index), minScore), src)
  {
    forall t | t in Candidates(g, src) ensures Score(NewEmbeddingScorer(index), src, t).Ok? {
      EmbeddingNeverFails(index, src, t);
    }
  }

  /** Cross-book filter scenario: `A::1` never links to `A::2`, even when it is a candidate scoring above
      the threshold. */
  lemma CrossBookScenario(p: Pipeline, edges: seq<Edge>)
    requires IsRetrieval(p, "A::1", edges)
    ensures forall e | e in edges :: e.to != "A::2"
  {
    assert SeparatorAt("A::1", 1) && SeparatorAt("A::2", 1);
    BookIdUnique("A::1", "A");
    BookIdUnique("A::2", "A");
    SameBookExcluded(p, "A::1", edges, "A::2");
  }
}
