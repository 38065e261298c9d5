/** The rule-based edge generator: keyword-index candidates, same-book pairs skipped, scored by the
    number of keywords two chapters share. */
module RuleBased {
  import opened Outcomes
  import opened Corpus
  import opened Sequences
  import opened ChapterIds
  import opened TokenCandidates
  import opened KeywordPrototype

  /** `set(signal.get("features", {}).get("keywords", []))` */
  function KeywordSet(s: Signals): set<string> {
    set k | k in KeywordsIn(s)
  }

  /** `rule_based_similarity(signal_A, signal_B)` */
  function RuleBasedSimilarity(a: Signals, b: Signals): real {
    var ka, kb := KeywordSet(a), KeywordSet(b);
    if ka == {} || kb == {} then 0.0 else |ka * kb| as real
  }

  /** The empty-set guard changes nothing: the score is always the number of shared distinct keywords,
      so it is symmetric, at most the smaller keyword count, and zero exactly for disjoint keyword sets. */
  lemma RuleBasedIsSharedCount(a: Signals, b: Signals)
    ensures RuleBasedSimilarity(a, b) == |KeywordSet(a) * KeywordSet(b)| as real
    ensures RuleBasedSimilarity(a, b) == RuleBasedSimilarity(b, a)
    ensures RuleBasedSimilarity(a, b) <= |KeywordSet(a)| as real && RuleBasedSimilarity(a, b) <= |KeywordSet(b)| as real
    ensures RuleBasedSimilarity(a, b) == 0.0 <==> KeywordSet(a) !! KeywordSet(b)
  {
    var ka, kb := KeywordSet(a), KeywordSet(b);
    assert ka * kb == kb * ka;
    assert |ka * kb| <= |ka| by { SubsetCard(ka * kb, ka); }
    assert |ka * kb| <= |kb| by { SubsetCard(ka * kb, kb); }
    if !(ka !! kb) {
      var x :| x in ka && x in kb;
      assert x in ka * kb;
    }
  }

  lemma SubsetCard(a: set<string>, b: set<string>)
    requires a <= b
    ensures |a| <= |b|
  {
    assert b == a + (b - a);
  }

  /** `build_chapter_signal_map`: chapter id to `chapter.get("signals", {})`, later chapters overwriting. */
  function SignalMap(chapters: seq<Chapter>): map<string, Signals> {
    ById(chapters, SignalsOf)
  }

  method BuildChapterSignalMap(books: seq<Book>) returns (m: map<string, Signals>)
    ensures m == SignalMap(AllChapters(books))
    ensures forall c | c in AllChapters(books) :: c.id in m
  {
    m := FillById(books, SignalsOf);
    forall c | c in AllChapters(books) ensures c.id in m {
      ByIdHasId(AllChapters(books), SignalsOf, c);
    }
  }

  /** The candidates of `c` that survive the same-book test. */
  function CrossBook(c: Chapter, index: map<string, set<string>>): set<string> {
    set t | t in Recalled(KeywordsOf(c), index) - {c.id} && BookId(t) != BookId(c.id)
  }

  /** `chapter_signals[src_id]` and every `chapter_signals[tgt_id]` reached are present. */
  predicate ChapterSucceeds(c: Chapter, index: map<string, set<string>>, signals: map<string, Signals>) {
    c.id in signals && CrossBook(c, index) <= signals.Keys
  }

  function ScoredEdges(c: Chapter, index: map<string, set<string>>, signals: map<string, Signals>): set<Edge>
    requires ChapterSucceeds(c, index, signals)
  {
    set t | t in CrossBook(c, index) :: ScoredEdge(c.id, t, signals)
  }

  /** `block` is what the chapter loop emits for `c`: each scored edge once. */
  predicate BlockOf(c: Chapter, index: map<string, set<string>>, signals: map<string, Signals>, block: seq<Edge>) {
    ChapterSucceeds(c, index, signals) && DistinctTargets(block) && (set e | e in block) == ScoredEdges(c, index, signals)
  }

  /** The edge from `src` to `t`, scored by the shared keywords. */
  function ScoredEdge(src: string, t: string, signals: map<string, Signals>): Edge
    requires src in signals && t in signals
  {
    Edge(src, t, RuleBasedSimilarity(signals[src], signals[t]), "keyword_overlap")
  }

  /** The loop invariant of the chapter loop: `block` scores each cross-book candidate seen, once. */
  ghost predicate ScoredSoFar(src: string, signals: map<string, Signals>, seen: set<string>, block: seq<Edge>)
    requires src in signals
  {
    && DistinctTargets(block)
    && (forall e | e in block ::
          e.to in seen && BookId(e.to) != BookId(src) && e.to in signals && e == ScoredEdge(src, e.to, signals))
    && (forall t | t in seen && BookId(t) != BookId(src) :: t in signals && ScoredEdge(src, t, signals) in block)
  }

  /** A same-book candidate is skipped. */
  lemma ScoredSkip(src: string, signals: map<string, Signals>, seen: set<string>, block: seq<Edge>, tgt: string)
    requires src in signals && ScoredSoFar(src, signals, seen, block) && BookId(tgt) == BookId(src)
    ensures ScoredSoFar(src, signals, seen + {tgt}, block)
  {
  }

  /** A new cross-book candidate appends its scored edge. */
  lemma ScoredAdd(src: string, signals: map<string, Signals>, seen: set<string>, block: seq<Edge>, tgt: string)
    requires src in signals && ScoredSoFar(src, signals, seen, block)
    requires tgt !in seen && BookId(tgt) != BookId(src) && tgt in signals
    ensures ScoredSoFar(src, signals, seen + {tgt}, block + [ScoredEdge(src, tgt, signals)])
  {
    var next := block + [ScoredEdge(src, tgt, signals)];
    forall i, j | 0 <= i < j < |next| ensures next[i].to != next[j].to {
      if j == |block| {
        assert next[i] in block;
      }
    }
  }

  /** Once every candidate is seen, the block holds exactly the scored edges. */
  lemma ScoredDone(chapter: Chapter, index: map<string, set<string>>, signals: map<string, Signals>, block: seq<Edge>)
    requires chapter.id in signals
    requires ScoredSoFar(chapter.id, signals, Recalled(KeywordsOf(chapter), index) - {chapter.id}, block)
    ensures BlockOf(chapter, index, signals, block)
  {
    assert CrossBook(chapter, index) <= signals.Keys;
    assert (set e | e in block) == ScoredEdges(chapter, index, signals);
  }

  /** The body of the chapter loop of `generate_edges`: the scored cross-book edges of one chapter. */
  method ChapterEdges(chapter: Chapter, index: map<string, set<string>>, signals: map<string, Signals>)
    returns (r: Result<seq<Edge>>)
    ensures r.Ok? <==> ChapterSucceeds(chapter, index, signals)
    ensures r.Err? ==> (r.error.KeyError? && r.error.key !in signals &&
                        (r.error.key == chapter.id || r.error.key in CrossBook(chapter, index)))
    ensures r.Ok? ==> BlockOf(chapter, index, signals, r.value)
  {
    var src := chapter.id;
    var candidates := CollectCandidates(KeywordsOf(chapter), index, src);
    if src !in signals {
      return Err(KeyError(src));
    }
    var signalA := signals[src];
    var srcBook := BookId(src);
    var block: seq<Edge> := [];
    var rest := candidates;
    while rest != {}
      invariant rest <= candidates
      invariant ScoredSoFar(src, signals, candidates - rest, block)
    {
      var tgt :| tgt in rest;
      ghost var seen := candidates - rest;
      rest := rest - {tgt};
      assert candidates - rest == seen + {tgt};
      if BookId(tgt) == srcBook {
        ScoredSkip(src, signals, seen, block, tgt);
        continue;
      }
      if tgt !in signals {
        assert tgt in CrossBook(chapter, index);
        return Err(KeyError(tgt));
      }
      ScoredAdd(src, signals, seen, block, tgt);
      block := block + [Edge(src, tgt, RuleBasedSimilarity(signalA, signals[tgt]), "keyword_overlap")];
    }
    assert candidates - rest == candidates;
    ScoredDone(chapter, index, signals, block);
    r := Ok(block);
  }

  /** Each block is what the chapter at its position emits. */
  ghost predicate BlocksFor(chapters: seq<Chapter>, index: map<string, set<string>>, signals: map<string, Signals>,
                            blocks: seq<seq<Edge>>) {
    |blocks| == |chapters| && forall k | 0 <= k < |blocks| :: BlockOf(chapters[k], index, signals, blocks[k])
  }

  lemma BlocksForAppend(ca: seq<Chapter>, a: seq<seq<Edge>>, cb: seq<Chapter>, b: seq<seq<Edge>>,
                        index: map<string, set<string>>, signals: map<string, Signals>)
    requires BlocksFor(ca, index, signals, a) && BlocksFor(cb, index, signals, b)
    ensures BlocksFor(ca + cb, index, signals, a + b)
  {
    forall k | 0 <= k < |a + b| ensures BlockOf((ca + cb)[k], index, signals, (a + b)[k]) {
      if k < |a| {
        assert (ca + cb)[k] == ca[k] && (a + b)[k] == a[k];
      } else {
        assert (ca + cb)[k] == cb[k - |a|] && (a + b)[k] == b[k - |a|];
      }
    }
  }

  /** Every chapter of block-matched chapters succeeds. */
  lemma BlocksForSucceed(chapters: seq<Chapter>, index: map<string, set<string>>, signals: map<string, Signals>,
                         blocks: seq<seq<Edge>>)
    requires BlocksFor(chapters, index, signals, blocks)
    ensures forall c | c in chapters :: ChapterSucceeds(c, index, signals)
  {
    forall ch | ch in chapters ensures ChapterSucceeds(ch, index, signals) {
      var k :| 0 <= k < |chapters| && chapters[k] == ch;
      assert BlockOf(chapters[k], index, signals, blocks[k]);
    }
  }

  /** The chapter loop of `generate_edges` over one book, every chapter id present in `signals`. */
  method BookEdges(chapters: seq<Chapter>, index: map<string, set<string>>, signals: map<string, Signals>)
    returns (r: Result<seq<Edge>>, ghost blocks: seq<seq<Edge>>)
    requires forall c | c in chapters :: c.id in signals
    ensures r.Ok? <==> forall c | c in chapters :: ChapterSucceeds(c, index, signals)
    ensures r.Err? ==> (r.error.KeyError? && r.error.key !in signals &&
                        exists c | c in chapters :: r.error.key in CrossBook(c, index))
    ensures r.Ok? ==> BlocksFor(chapters, index, signals, blocks) && r.value == Flatten(blocks)
  {
    var edges: seq<Edge> := [];
    blocks := [];
    var c := 0;
    while c < |chapters|
      invariant 0 <= c <= |chapters|
      invariant BlocksFor(chapters[..c], index, signals, blocks) && edges == Flatten(blocks)
    {
      var res := ChapterEdges(chapters[c], index, signals);
      if res.Err? {
        return Err(res.error), blocks;
      }
      assert BlocksFor([chapters[c]], index, signals, [res.value]);
      BlocksForAppend(chapters[..c], blocks, [chapters[c]], [res.value], index, signals);
      assert chapters[..c + 1] == chapters[..c] + [chapters[c]];
      assert (blocks + [res.value])[..|blocks|] == blocks;
      blocks := blocks + [res.value];
      edges := edges + res.value;
      c := c + 1;
    }
    assert chapters[..c] == chapters;
    BlocksForSucceed(chapters, index, signals, blocks);
    r := Ok(edges);
  }

  /** `generate_edges(enriched_books, keyword_index)`. A target missing from the signal map raises
      `KeyError`; the ghost `blocks` are the edges of each chapter. */
  method GenerateEdges(books: seq<Book>, index: map<string, set<string>>)
    returns (r: Result<seq<Edge>>, ghost blocks: seq<seq<Edge>>)
    ensures var chs := AllChapters(books);
      r.Ok? <==> forall c | c in chs :: ChapterSucceeds(c, index, SignalMap(chs))
    ensures var chs := AllChapters(books);
      r.Err? ==> (r.error.KeyError? && r.error.key !in SignalMap(chs) &&
                  exists c | c in chs :: r.error.key in CrossBook(c, index))
    ensures var chs := AllChapters(books);
      r.Ok? ==> (|blocks| == |chs| && r.value == Flatten(blocks) &&
                 forall k | 0 <= k < |blocks| :: BlockOf(chs[k], index, SignalMap(chs), blocks[k]))
  {
    ghost var all := AllChapters(books);
    var signals := BuildChapterSignalMap(books);
    var edges: seq<Edge> := [];
    blocks := [];
    var b := 0;
    while b < |books|
      invariant 0 <= b <= |books|
      invariant BlocksFor(AllChapters(books[..b]), index, signals, blocks) && edges == Flatten(blocks)
    {
      var chapters := books[b].chapters;
      BookChaptersListed(books, b);
      var res, bookBlocks := BookEdges(chapters, index, signals);
      if res.Err? {
        var ch :| ch in chapters && res.error.key in CrossBook(ch, index);
        assert ch in all && !ChapterSucceeds(ch, index, signals);
        return Err(res.error), blocks;
      }
      FlattenAppend(blocks, bookBlocks);
      AllChaptersStep(books, b);
      BlocksForAppend(AllChapters(books[..b]), blocks, chapters, bookBlocks, index, signals);
      blocks := blocks + bookBlocks;
      edges := edges + res.value;
      b := b + 1;
    }
    assert books[..b] == books;
    BlocksForSucceed(all, index, signals, blocks);
    r := Ok(edges);
  }

  /** With the index built from the same chapters every lookup succeeds: each listed id is a chapter id. */
  lemma OwnIndexNeverFails(chapters: seq<Chapter>, c: Chapter)
    requires c in chapters
    ensures ChapterSucceeds(c, KeywordIndex(chapters), SignalMap(chapters))
  {
    var index := KeywordIndex(chapters);
    var k :| 0 <= k < |chapters| && chapters[k] == c;
    ByIdSpec(chapters, SignalsOf, c.id);
    forall t | t in CrossBook(c, index) ensures t in SignalMap(chapters) {
      RecalledIsUnion(KeywordsOf(c), index, t);
      var p :| 0 <= p < |KeywordsOf(c)| && t in Holders(index, KeywordsOf(c)[p]);
      KeywordIndexSpec(chapters, KeywordsOf(c)[p], t);
      ByIdSpec(chapters, SignalsOf, t);
    }
  }

  predicate UniqueIds(chapters: seq<Chapter>) {
    forall i, j | 0 <= i < j < |chapters| :: chapters[i].id != chapters[j].id
  }

  /** With unique ids, the signal map holds each chapter's own signals. */
  lemma SignalMapOfUnique(chapters: seq<Chapter>, k: int)
    requires UniqueIds(chapters) && 0 <= k < |chapters|
    ensures chapters[k].id in SignalMap(chapters) && SignalMap(chapters)[chapters[k].id] == SignalsOf(chapters[k])
  {
    ByIdSpec(chapters, SignalsOf, chapters[k].id);
  }

  /** A candidate recalled through the chapters' own index shares a keyword with a chapter of that id. */
  lemma SharedKeyword(chapters: seq<Chapter>, c: Chapter, t: string) returns (kw: string, k: int)
    requires t in Recalled(KeywordsOf(c), KeywordIndex(chapters))
    ensures kw in KeywordsOf(c) && 0 <= k < |chapters| && chapters[k].id == t && kw in KeywordsOf(chapters[k])
  {
    var index := KeywordIndex(chapters);
    RecalledIsUnion(KeywordsOf(c), index, t);
    var p :| 0 <= p < |KeywordsOf(c)| && t in Holders(index, KeywordsOf(c)[p]);
    kw := KeywordsOf(c)[p];
    KeywordIndexSpec(chapters, kw, t);
    k :| 0 <= k < |chapters| && chapters[k].id == t && kw in KeywordsOf(chapters[k]);
  }

  /** With unique chapter ids and the index built from the same chapters, every emitted edge joins
      chapters of different books that share at least one keyword. */
  lemma OwnIndexEdgesShareKeyword(chapters: seq<Chapter>, c: Chapter, e: Edge)
    requires UniqueIds(chapters) && c in chapters
    requires ChapterSucceeds(c, KeywordIndex(chapters), SignalMap(chapters))
    requires e in ScoredEdges(c, KeywordIndex(chapters), SignalMap(chapters))
    ensures BookId(e.from) != BookId(e.to) && e.score >= 1.0
  {
    var sig := SignalMap(chapters);
    var t := e.to;
    assert t in CrossBook(c, KeywordIndex(chapters));
    var kw, k := SharedKeyword(chapters, c, t);
    var j :| 0 <= j < |chapters| && chapters[j] == c;
    SignalMapOfUnique(chapters, k);
    SignalMapOfUnique(chapters, j);
    assert kw in KeywordSet(sig[c.id]) * KeywordSet(sig[t]);
    RuleBasedIsSharedCount(sig[c.id], sig[t]);
  }
}
