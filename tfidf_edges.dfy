/** The TF-IDF prototype edge generator: top-token candidates, then a TF-IDF cosine threshold, with no
    same-book filter. The vectoriser and the top-token extraction are inputs. */
module TfidfPrototype {
  import opened Outcomes
  import opened Corpus
  import opened Sequences
  import opened Similarity
  import opened TokenCandidates
  import opened Vectors

  const DefaultMinTfidfScore: real := 0.1

  /** `chapter.get("chapter_text", "")` */
  function TextOf(c: Chapter): string {
    c.chapterText.GetOr("")
  }

  /** `collect_chapter_texts(enriched_books)`: chapter id to text, `""` when missing, later chapters
      with the same id overwriting earlier ones. */
  method CollectChapterTexts(books: seq<Book>) returns (texts: map<string, string>)
    ensures forall c | c in AllChapters(books) :: c.id in texts
    ensures forall id | id in texts :: exists c | c in AllChapters(books) :: c.id == id
    ensures var chs := AllChapters(books);
      forall k | 0 <= k < |chs| && (forall j | k < j < |chs| :: chs[j].id != chs[k].id) ::
        texts[chs[k].id] == TextOf(chs[k])
  {
    texts := FillById(books, TextOf);
    ghost var chs := AllChapters(books);
    forall c | c in chs ensures c.id in texts {
      ByIdHasId(chs, TextOf, c);
    }
    forall id | id in texts ensures exists c | c in chs :: c.id == id {
      ByIdSpec(chs, TextOf, id);
      var k :| 0 <= k < |chs| && chs[k].id == id;
      assert chs[k] in chs;
    }
    forall k | 0 <= k < |chs| && (forall j | k < j < |chs| :: chs[j].id != chs[k].id)
      ensures texts[chs[k].id] == TextOf(chs[k])
    {
      ByIdSpec(chs, TextOf, chs[k].id);
    }
  }

  /** `build_token_index(chapter_top_tokens)`, as a value: each token to the chapters listing it. */
  function TokenIndex(chapterTopTokens: map<string, seq<string>>): (index: map<string, set<string>>)
    ensures forall t, cid :: t in index && cid in index[t] <==> cid in chapterTopTokens && t in chapterTopTokens[cid]
    ensures forall t | t in index :: index[t] != {}
  {
    var tokens := set cid, t | cid in chapterTopTokens && t in chapterTopTokens[cid] :: t;
    map t | t in tokens :: set cid | cid in chapterTopTokens && t in chapterTopTokens[cid]
  }

  /** `index` lists the chapters of `done`, and `cid` for the tokens of `prefix`, under each token. */
  ghost predicate IndexesSome(index: map<string, set<string>>, chapterTopTokens: map<string, seq<string>>,
                        done: set<string>, cid: string, prefix: seq<string>)
  {
    && (forall t | t in index :: index[t] != {})
    && forall t, x :: t in index && x in index[t] <==>
         (x in done && x in chapterTopTokens && t in chapterTopTokens[x]) || (x == cid && t in prefix)
  }

  /** The token loop of `build_token_index` for chapter `cid`: `index[t].add(cid)` for each of its tokens. */
  method AddTokens(index0: map<string, set<string>>, ghost chapterTopTokens: map<string, seq<string>>,
                   ghost done: set<string>, cid: string, tokens: seq<string>)
    returns (index: map<string, set<string>>)
    requires cid in chapterTopTokens && tokens == chapterTopTokens[cid]
    requires IndexesSome(index0, chapterTopTokens, done, cid, [])
    ensures IndexesSome(index, chapterTopTokens, done + {cid}, "", [])
  {
    index := index0;
    var j := 0;
    while j < |tokens|
      invariant 0 <= j <= |tokens|
      invariant IndexesSome(index, chapterTopTokens, done, cid, tokens[..j])
    {
      var t := tokens[j];
      assert tokens[..j + 1] == tokens[..j] + [t];
      index := index[t := (if t in index then index[t] else {}) + {cid}];
      j := j + 1;
    }
    assert tokens[..j] == tokens;
  }

  /** An index listing every chapter under each of its tokens is the token index. */
  lemma IndexesAll(index: map<string, set<string>>, chapterTopTokens: map<string, seq<string>>)
    requires IndexesSome(index, chapterTopTokens, chapterTopTokens.Keys, "", [])
    ensures index == TokenIndex(chapterTopTokens)
  {
    var spec := TokenIndex(chapterTopTokens);
    forall t | t in index ensures t in spec {
      var x :| x in index[t];
      assert x in chapterTopTokens && t in chapterTopTokens[x];
    }
    forall t | t in spec ensures t in index {
      var x :| x in spec[t];
    }
    assert index.Keys == spec.Keys;
    forall t | t in index ensures index[t] == spec[t] {
      assert forall x :: x in index[t] <==> x in spec[t];
    }
  }

  /** `build_token_index(chapter_top_tokens)`: `index[t].add(cid)` for every listed token, in dict order. */
  method BuildTokenIndex(chapterTopTokens: map<string, seq<string>>) returns (index: map<string, set<string>>)
    ensures index == TokenIndex(chapterTopTokens)
  {
    index := map[];
    var rest := chapterTopTokens.Keys;
    while rest != {}
      invariant rest <= chapterTopTokens.Keys
      invariant IndexesSome(index, chapterTopTokens, chapterTopTokens.Keys - rest, "", [])
    {
      var cid :| cid in rest;
      ghost var done := chapterTopTokens.Keys - rest;
      index := AddTokens(index, chapterTopTokens, done, cid, chapterTopTokens[cid]);
      rest := rest - {cid};
      assert chapterTopTokens.Keys - rest == done + {cid};
    }
    assert chapterTopTokens.Keys - rest == chapterTopTokens.Keys;
    IndexesAll(index, chapterTopTokens);
  }

  /** Every score `tfidf_similarity` needs for `src`'s candidates can be computed. */
  predicate ScoresDefined(tfidf: TfidfIndex, src: string, candidates: set<string>) {
    forall t | t in candidates :: TfidfCosine(tfidf, src, t).Ok?
  }

  /** The edges the candidate loop emits for `src`: each candidate whose score reaches the threshold. */
  function TfidfEdges(tfidf: TfidfIndex, src: string, candidates: set<string>, minScore: real): set<Edge>
    requires ScoresDefined(tfidf, src, candidates)
  {
    set t | t in candidates && TfidfCosine(tfidf, src, t).value >= minScore ::
      Edge(src, t, TfidfCosine(tfidf, src, t).value, "tfidf_similarity")
  }

  /** What holds of every edge this generator emits. */
  predicate TfidfEdgeInvariant(tfidf: TfidfIndex, minScore: real, e: Edge) {
    && e.kind == "tfidf_similarity"
    && e.from != e.to
    && e.score >= minScore
    && TfidfCosine(tfidf, e.from, e.to) == Ok(e.score)
  }

  /** The candidate loop of `generate_edges` for one source chapter. */
  method ChapterEdges(src: string, chapterTopTokens: map<string, seq<string>>, tokenIndex: map<string, set<string>>,
                      tfidf: TfidfIndex, minShared: int, minScore: real)
    returns (r: Result<seq<Edge>>)
    ensures var cands := CandidateSet(src, chapterTopTokens, tokenIndex, minShared);
      r.Ok? <==> ScoresDefined(tfidf, src, cands)
    ensures var cands := CandidateSet(src, chapterTopTokens, tokenIndex, minShared);
      r.Err? ==> exists t | t in cands :: TfidfCosine(tfidf, src, t) == Err(r.error)
    ensures var cands := CandidateSet(src, chapterTopTokens, tokenIndex, minShared);
      r.Ok? ==> (ScoresDefined(tfidf, src, cands) && DistinctTargets(r.value) &&
                 (set e | e in r.value) == TfidfEdges(tfidf, src, cands, minScore))
  {
    var candidates := GenerateCandidates(src, chapterTopTokens, tokenIndex, minShared);
    var block: seq<Edge> := [];
    var rest := candidates;
    while rest != {}
      invariant rest <= candidates
      invariant ScoredSoFar(tfidf, src, minScore, candidates - rest, block)
    {
      var tgt :| tgt in rest;
      var score := TfidfCosine(tfidf, src, tgt);
      if score.Err? {
        return Err(score.error);
      }
      ghost var seen := candidates - rest;
      rest := rest - {tgt};
      assert candidates - rest == seen + {tgt};
      if score.value < minScore {
        continue;
      }
      ScoredAdd(tfidf, src, minScore, seen, block, tgt);
      block := block + [Edge(src, tgt, score.value, "tfidf_similarity")];
    }
    assert candidates - rest == candidates;
    assert (set e | e in block) == TfidfEdges(tfidf, src, candidates, minScore);
    r := Ok(block);
  }

  /** The loop invariant of the candidate loop: every candidate seen is scored, and `block` holds the
      edge of each one reaching the threshold, once. */
  ghost predicate ScoredSoFar(tfidf: TfidfIndex, src: string, minScore: real, seen: set<string>, block: seq<Edge>) {
    && ScoresDefined(tfidf, src, seen)
    && DistinctTargets(block)
    && (forall e | e in block ::
          e.to in seen && TfidfCosine(tfidf, src, e.to).value >= minScore &&
          e == Edge(src, e.to, TfidfCosine(tfidf, src, e.to).value, "tfidf_similarity"))
    && (forall t | t in seen && TfidfCosine(tfidf, src, t).value >= minScore ::
          Edge(src, t, TfidfCosine(tfidf, src, t).value, "tfidf_similarity") in block)
  }

  /** A new candidate reaching the threshold appends its edge. */
  lemma ScoredAdd(tfidf: TfidfIndex, src: string, minScore: real, seen: set<string>, block: seq<Edge>, tgt: string)
    requires ScoredSoFar(tfidf, src, minScore, seen, block) && tgt !in seen
    requires TfidfCosine(tfidf, src, tgt).Ok? && TfidfCosine(tfidf, src, tgt).value >= minScore
    ensures ScoredSoFar(tfidf, src, minScore, seen + {tgt},
      block + [Edge(src, tgt, TfidfCosine(tfidf, src, tgt).value, "tfidf_similarity")])
  {
    var next := block + [Edge(src, tgt, TfidfCosine(tfidf, src, tgt).value, "tfidf_similarity")];
    forall i, j | 0 <= i < j < |next| ensures next[i].to != next[j].to {
      if j == |block| {
        assert next[i] in block;
      }
    }
  }

  /** The edges of one chapter as the full generator sees them. */
  predicate BlockOf(c: Chapter, chapterTopTokens: map<string, seq<string>>, tfidf: TfidfIndex,
                    minShared: int, minScore: real, block: seq<Edge>)
  {
    var cands := CandidateSet(c.id, chapterTopTokens, TokenIndex(chapterTopTokens), minShared);
    ScoresDefined(tfidf, c.id, cands) && DistinctTargets(block) &&
    (set e | e in block) == TfidfEdges(tfidf, c.id, cands, minScore)
  }

  /** The candidate loop of chapter `c` may raise `e`: the score of one of its candidates raises it. */
  predicate ChapterRaises(c: Chapter, chapterTopTokens: map<string, seq<string>>, tfidf: TfidfIndex, minShared: int,
                          e: Exception) {
    exists t | t in CandidateSet(c.id, chapterTopTokens, TokenIndex(chapterTopTokens), minShared) ::
      TfidfCosine(tfidf, c.id, t) == Err(e)
  }

  /** The chapter `c` generates no error. */
  predicate ChapterSucceeds(c: Chapter, chapterTopTokens: map<string, seq<string>>, tfidf: TfidfIndex, minShared: int) {
    ScoresDefined(tfidf, c.id, CandidateSet(c.id, chapterTopTokens, TokenIndex(chapterTopTokens), minShared))
  }

  /** Each block is what the chapter at its position emits. */
  ghost predicate BlocksFor(chapters: seq<Chapter>, chapterTopTokens: map<string, seq<string>>, tfidf: TfidfIndex,
                            minShared: int, minScore: real, blocks: seq<seq<Edge>>) {
    |blocks| == |chapters| &&
    forall k | 0 <= k < |blocks| :: BlockOf(chapters[k], chapterTopTokens, tfidf, minShared, minScore, blocks[k])
  }

  lemma BlocksForAppend(ca: seq<Chapter>, a: seq<seq<Edge>>, cb: seq<Chapter>, b: seq<seq<Edge>>,
                        chapterTopTokens: map<string, seq<string>>, tfidf: TfidfIndex, minShared: int, minScore: real)
    requires BlocksFor(ca, chapterTopTokens, tfidf, minShared, minScore, a)
    requires BlocksFor(cb, chapterTopTokens, tfidf, minShared, minScore, b)
    ensures BlocksFor(ca + cb, chapterTopTokens, tfidf, minShared, minScore, a + b)
  {
    forall k | 0 <= k < |a + b| ensures BlockOf((ca + cb)[k], chapterTopTokens, tfidf, minShared, minScore, (a + b)[k]) {
      if k < |a| {
        assert (ca + cb)[k] == ca[k] && (a + b)[k] == a[k];
      } else {
        assert (ca + cb)[k] == cb[k - |a|] && (a + b)[k] == b[k - |a|];
      }
    }
  }

  /** Every chapter of block-matched chapters succeeds, and every edge of the blocks keeps the invariant. */
  lemma BlocksForHold(chapters: seq<Chapter>, chapterTopTokens: map<string, seq<string>>, tfidf: TfidfIndex,
                      minShared: int, minScore: real, blocks: seq<seq<Edge>>)
    requires BlocksFor(chapters, chapterTopTokens, tfidf, minShared, minScore, blocks)
    ensures forall c | c in chapters :: ChapterSucceeds(c, chapterTopTokens, tfidf, minShared)
    ensures forall e | e in Flatten(blocks) :: TfidfEdgeInvariant(tfidf, minScore, e)
  {
    forall ch | ch in chapters ensures ChapterSucceeds(ch, chapterTopTokens, tfidf, minShared) {
      var k :| 0 <= k < |chapters| && chapters[k] == ch;
      assert BlockOf(chapters[k], chapterTopTokens, tfidf, minShared, minScore, blocks[k]);
    }
    forall e | e in Flatten(blocks) ensures TfidfEdgeInvariant(tfidf, minScore, e) {
      FlattenMember(blocks, e);
      var k :| 0 <= k < |blocks| && e in blocks[k];
      assert BlockOf(chapters[k], chapterTopTokens, tfidf, minShared, minScore, blocks[k]);
      assert e in TfidfEdges(tfidf, chapters[k].id,
        CandidateSet(chapters[k].id, chapterTopTokens, TokenIndex(chapterTopTokens), minShared), minScore);
    }
  }

  method BookEdges(chapters: seq<Chapter>, chapterTopTokens: map<string, seq<string>>, tokenIndex: map<string, set<string>>,
                   tfidf: TfidfIndex, minShared: int, minScore: real)
    returns (r: Result<seq<Edge>>, ghost blocks: seq<seq<Edge>>)
    requires tokenIndex == TokenIndex(chapterTopTokens)
    ensures r.Ok? <==> forall c | c in chapters :: ChapterSucceeds(c, chapterTopTokens, tfidf, minShared)
    ensures r.Ok? ==> BlocksFor(chapters, chapterTopTokens, tfidf, minShared, minScore, blocks) && r.value == Flatten(blocks)
    ensures r.Err? ==> exists c | c in chapters :: ChapterRaises(c, chapterTopTokens, tfidf, minShared, r.error)
  {
    var edges: seq<Edge> := [];
    blocks := [];
    var c := 0;
    while c < |chapters|
      invariant 0 <= c <= |chapters|
      invariant BlocksFor(chapters[..c], chapterTopTokens, tfidf, minShared, minScore, blocks) && edges == Flatten(blocks)
    {
      var res := ChapterEdges(chapters[c].id, chapterTopTokens, tokenIndex, tfidf, minShared, minScore);
      if res.Err? {
        assert !ChapterSucceeds(chapters[c], chapterTopTokens, tfidf, minShared);
        assert chapters[c] in chapters && ChapterRaises(chapters[c], chapterTopTokens, tfidf, minShared, res.error);
        return Err(res.error), blocks;
      }
      assert BlocksFor([chapters[c]], chapterTopTokens, tfidf, minShared, minScore, [res.value]);
      BlocksForAppend(chapters[..c], blocks, [chapters[c]], [res.value], chapterTopTokens, tfidf, minShared, minScore);
      assert chapters[..c + 1] == chapters[..c] + [chapters[c]];
      assert (blocks + [res.value])[..|blocks|] == blocks;
      blocks := blocks + [res.value];
      edges := edges + res.value;
      c := c + 1;
    }
    assert chapters[..c] == chapters;
    BlocksForHold(chapters, chapterTopTokens, tfidf, minShared, minScore, blocks);
    r := Ok(edges);
  }

  /** `generate_edges(enriched_books, min_shared_tokens, min_tfidf_score)` with the TF-IDF index and the
      top tokens it would compute given as inputs. A score that cannot be computed raises, as `list.index`
      and row indexing do. */
  method GenerateEdges(books: seq<Book>, chapterTopTokens: map<string, seq<string>>, tfidf: TfidfIndex,
                       minShared: int := DefaultMinSharedTokens, minScore: real := DefaultMinTfidfScore)
    returns (r: Result<seq<Edge>>, ghost blocks: seq<seq<Edge>>)
    ensures r.Ok? <==> forall c | c in AllChapters(books) :: ChapterSucceeds(c, chapterTopTokens, tfidf, minShared)
    ensures r.Err? ==> exists c | c in AllChapters(books) :: ChapterRaises(c, chapterTopTokens, tfidf, minShared, r.error)
    ensures var chs := AllChapters(books);
      r.Ok? ==> (|blocks| == |chs| && r.value == Flatten(blocks) &&
                 forall k | 0 <= k < |blocks| :: BlockOf(chs[k], chapterTopTokens, tfidf, minShared, minScore, blocks[k]))
    ensures r.Ok? ==> forall e | e in r.value :: TfidfEdgeInvariant(tfidf, minScore, e)
  {
    var tokenIndex := BuildTokenIndex(chapterTopTokens);
    var edges: seq<Edge> := [];
    blocks := [];
    var b := 0;
    while b < |books|
      invariant 0 <= b <= |books|
      invariant BlocksFor(AllChapters(books[..b]), chapterTopTokens, tfidf, minShared, minScore, blocks)
      invariant edges == Flatten(blocks)
    {
      var chapters := books[b].chapters;
      var res, bookBlocks := BookEdges(chapters, chapterTopTokens, tokenIndex, tfidf, minShared, minScore);
      if res.Err? {
        BookChaptersListed(books, b);
        return Err(res.error), blocks;
      }
      BlocksForAppend(AllChapters(books[..b]), blocks, chapters, bookBlocks, chapterTopTokens, tfidf, minShared, minScore);
      FlattenAppend(blocks, bookBlocks);
      AllChaptersStep(books, b);
      blocks := blocks + bookBlocks;
      edges := edges + res.value;
      b := b + 1;
    }
    assert books[..b] == books;
    BlocksForHold(AllChapters(books), chapterTopTokens, tfidf, minShared, minScore, blocks);
    r := Ok(edges);
  }

  /** When the index rows cover the ids and every chapter with top tokens has an index row, no score fails:
      each candidate was listed under a token of some chapter, so it has a row. */
  lemma IndexedChaptersNeverFail(c: Chapter, chapterTopTokens: map<string, seq<string>>, tfidf: TfidfIndex, minShared: int)
    requires |tfidf.tfidfMatrix| == |tfidf.chapterIds|
    requires c.id in tfidf.chapterIds
    requires forall cid | cid in chapterTopTokens :: cid in tfidf.chapterIds
    ensures ChapterSucceeds(c, chapterTopTokens, tfidf, minShared)
  {
    var index := TokenIndex(chapterTopTokens);
    var tokens := TopTokens(chapterTopTokens, c.id);
    forall t | t in CandidateSet(c.id, chapterTopTokens, index, minShared)
      ensures TfidfCosine(tfidf, c.id, t).Ok?
    {
      RecalledIsUnion(tokens, index, t);
      var p :| 0 <= p < |tokens| && t in Holders(index, tokens[p]);
      assert t in chapterTopTokens;
      TfidfFailsOnMissingId(tfidf, c.id, t);
    }
  }

  /** The inputs `generate_edges` prepares itself never make it raise: the TF-IDF index has one row per
      key of `collect_chapter_texts`, which covers every chapter id, and the top-token map is keyed by
      ids of that index. */
  lemma PreparedInputsNeverFail(books: seq<Book>, texts: map<string, string>, chapterTopTokens: map<string, seq<string>>,
                                tfidf: TfidfIndex, minShared: int)
    requires forall c | c in AllChapters(books) :: c.id in texts
    requires forall id | id in texts :: id in tfidf.chapterIds
    requires |tfidf.tfidfMatrix| == |tfidf.chapterIds|
    requires forall cid | cid in chapterTopTokens :: cid in tfidf.chapterIds
    ensures forall c | c in AllChapters(books) :: ChapterSucceeds(c, chapterTopTokens, tfidf, minShared)
  {
    forall c | c in AllChapters(books) ensures ChapterSucceeds(c, chapterTopTokens, tfidf, minShared) {
      IndexedChaptersNeverFail(c, chapterTopTokens, tfidf, minShared);
    }
  }

  /** Two chapters listing the same two top tokens are each other's candidates. */
  lemma SameBookCandidate()
    ensures var ctt := map["A::1" := ["spring", "boot"], "A::2" := ["spring", "boot"]];
      "A::2" in CandidateSet("A::1", ctt, TokenIndex(ctt), DefaultMinSharedTokens)
  {
    var ctt := map["A::1" := ["spring", "boot"], "A::2" := ["spring", "boot"]];
    var index := TokenIndex(ctt);
    assert "spring" in ctt["A::2"] && "boot" in ctt["A::2"];
    assert "spring" in index && "A::2" in index["spring"];
    assert "boot" in index && "A::2" in index["boot"];
    var tokens := ["spring", "boot"];
    assert tokens[..1] == ["spring"] && ["spring"][..0] == [];
    assert Holders(index, "spring") == index["spring"] && Holders(index, "boot") == index["boot"];
    assert OverlapCount(["spring"], index, "A::2") == 1;
    assert OverlapCount(tokens, index, "A::2") == 2;
    RecalledIffCounted(tokens, index, "A::2");
  }

  /** No same-book filter: two chapters of book `A` sharing their two top tokens, with identical rows, are linked. */
  lemma SameBookLinked()
    ensures var ctt := map["A::1" := ["spring", "boot"], "A::2" := ["spring", "boot"]];
      var tfidf := TfidfIndex(["A::1", "A::2"], [[1.0], [1.0]]);
      ScoresDefined(tfidf, "A::1", CandidateSet("A::1", ctt, TokenIndex(ctt), DefaultMinSharedTokens)) &&
      Edge("A::1", "A::2", 1.0, "tfidf_similarity") in
        TfidfEdges(tfidf, "A::1", CandidateSet("A::1", ctt, TokenIndex(ctt), DefaultMinSharedTokens), DefaultMinTfidfScore)
  {
    var ctt := map["A::1" := ["spring", "boot"], "A::2" := ["spring", "boot"]];
    var tfidf := TfidfIndex(["A::1", "A::2"], [[1.0], [1.0]]);
    SameBookCandidate();
    IndexedChaptersNeverFail(Chapter("A::1", None, None, None, None), ctt, tfidf, DefaultMinSharedTokens);
    assert TfidfCosine(tfidf, "A::1", "A::2") == Ok(Dot([1.0], [1.0]));
  }
}
