/** The edge-generation driver: `retrieve` on every chapter of every book, results concatenated. */
module RetrievalDriver {
  import opened Outcomes
  import opened Corpus
  import opened Sequences
  import opened Retrieval

  /** Each block is a retrieval for the chapter at its position. */
  ghost predicate RetrievalsFor(p: Pipeline, chapters: seq<Chapter>, blocks: seq<seq<Edge>>) {
    |blocks| == |chapters| && forall k | 0 <= k < |blocks| :: IsRetrieval(p, chapters[k].id, blocks[k])
  }

  lemma RetrievalsForAppend(p: Pipeline, ca: seq<Chapter>, a: seq<seq<Edge>>, cb: seq<Chapter>, b: seq<seq<Edge>>)
    requires RetrievalsFor(p, ca, a) && RetrievalsFor(p, cb, b)
    ensures RetrievalsFor(p, ca + cb, a + b)
  {
    forall k | 0 <= k < |a + b| ensures IsRetrieval(p, (ca + cb)[k].id, (a + b)[k]) {
      if k < |a| {
        assert (ca + cb)[k] == ca[k] && (a + b)[k] == a[k];
      } else {
        assert (ca + cb)[k] == cb[k - |a|] && (a + b)[k] == b[k - |a|];
      }
    }
  }

  /** The chapter loop over one book: `retrieve` on each chapter, stopping at the first failure. */
  method BookRetrievals(chapters: seq<Chapter>, p: Pipeline) returns (r: Result<seq<Edge>>, ghost blocks: seq<seq<Edge>>)
    ensures r.Ok? <==> forall c | c in chapters :: RetrieveSucceeds(p, c.id)
    ensures r.Ok? ==> RetrievalsFor(p, chapters, blocks) && r.value == Flatten(blocks)
    ensures r.Err? ==> exists c | c in chapters :: RaisesWith(p, c.id, r.error)
  {
    var edges: seq<Edge> := [];
    blocks := [];
    var c := 0;
    while c < |chapters|
      invariant 0 <= c <= |chapters|
      invariant RetrievalsFor(p, chapters[..c], blocks) && edges == Flatten(blocks)
      invariant forall ch | ch in chapters[..c] :: RetrieveSucceeds(p, ch.id)
    {
      var res := Retrieve(p, chapters[c].id);
      if res.Err? {
        assert chapters[c] in chapters;
        r := Err(res.error);
        return;
      }
      assert RetrievalsFor(p, [chapters[c]], [res.value]);
      RetrievalsForAppend(p, chapters[..c], blocks, [chapters[c]], [res.value]);
      assert chapters[..c + 1] == chapters[..c] + [chapters[c]];
      assert (blocks + [res.value])[..|blocks|] == blocks;
      blocks := blocks + [res.value];
      edges := edges + res.value;
      c := c + 1;
    }
    assert chapters[..c] == chapters;
    r := Ok(edges);
  }

  /** `generate_edges(enriched_books, retrieval_pipeline)`. The ghost `blocks` are the per-chapter
      `retrieve` results, one per chapter, in book order then chapter order. */
  method GenerateEdges(books: seq<Book>, p: Pipeline) returns (r: Result<seq<Edge>>, ghost blocks: seq<seq<Edge>>)
    ensures r.Ok? <==> forall c | c in AllChapters(books) :: RetrieveSucceeds(p, c.id)
    ensures r.Ok? ==> |blocks| == |AllChapters(books)| && r.value == Flatten(blocks)
    ensures r.Ok? ==> forall k | 0 <= k < |blocks| :: IsRetrieval(p, AllChapters(books)[k].id, blocks[k])
    ensures r.Ok? ==> |r.value| == SumOfLengths(blocks)
    ensures r.Ok? ==> forall e | e in r.value :: EdgeInvariant(p, e)
    ensures r.Err? ==> exists c | c in AllChapters(books) :: RaisesWith(p, c.id, r.error)
    ensures AllChapters(books) == [] ==> r == Ok([])
  {
    var edges: seq<Edge> := [];
    blocks := [];
    var b := 0;
    while b < |books|
      invariant 0 <= b <= |books|
      invariant RetrievalsFor(p, AllChapters(books[..b]), blocks) && edges == Flatten(blocks)
      invariant forall c | c in AllChapters(books[..b]) :: RetrieveSucceeds(p, c.id)
    {
      var res, bookBlocks := BookRetrievals(books[b].chapters, p);
      if res.Err? {
        BookChaptersListed(books, b);
        r := Err(res.error);
        return;
      }
      RetrievalsForAppend(p, AllChapters(books[..b]), blocks, books[b].chapters, bookBlocks);
      FlattenAppend(blocks, bookBlocks);
      AllChaptersStep(books, b);
      blocks := blocks + bookBlocks;
      edges := edges + res.value;
      b := b + 1;
    }
    assert books[..b] == books;
    FlattenLength(blocks);
    AllEdgesKeepInvariant(p, AllChapters(books), blocks);
    r := Ok(edges);
  }

  /** Every edge of the concatenated retrievals keeps the edge invariants. */
  lemma AllEdgesKeepInvariant(p: Pipeline, chapters: seq<Chapter>, blocks: seq<seq<Edge>>)
    requires RetrievalsFor(p, chapters, blocks)
    ensures forall e | e in Flatten(blocks) :: EdgeInvariant(p, e)
  {
    forall e | e in Flatten(blocks) ensures EdgeInvariant(p, e) {
      FlattenMember(blocks, e);
      var k :| 0 <= k < |blocks| && e in blocks[k];
      assert e in ExpectedEdges(p, chapters[k].id);
    }
  }
}
