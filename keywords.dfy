/** The keyword prototype: keyword extraction from bullets, a keyword inverted index, and unscored
    keyword-overlap links between every pair of chapters sharing a keyword. */
module KeywordPrototype {
  import opened Outcomes
  import opened Text
  import opened Corpus
  import opened Sequences
  import opened TokenCandidates

  const Stopwords: set<string> := {"the", "and", "of", "to", "a"}

  /** A word `extract_keywords` keeps: not a stopword and longer than four characters. */
  predicate IsKeyword(w: string) {
    w !in Stopwords && |w| > 4
  }

  /** Every stopword is at most three characters long, so the length test alone decides. */
  lemma StopwordTestRedundant(w: string)
    ensures IsKeyword(w) <==> |w| > 4
  {
  }

  /** The keywords of a word list, in order, duplicates kept. */
  function KeepKeywords(ws: seq<string>): (r: seq<string>)
    ensures forall k | 0 <= k < |r| :: IsKeyword(r[k])
  {
    if ws == [] then []
    else (if IsKeyword(ws[0]) then [ws[0]] else []) + KeepKeywords(ws[1..])
  }

  /** `extract_keywords(text)`: lower-case, split on whitespace, keep the keywords. */
  function ExtractKeywords(text: string): (r: seq<string>)
    ensures forall k | 0 <= k < |r| :: |r[k]| > 4 && r[k] !in Stopwords
  {
    KeepKeywords(Words(Lower(text)))
  }

  /** Every qualifying word is kept as often as it occurs, every other word never. */
  lemma {:induction false} KeepKeywordsCounts(ws: seq<string>, w: string)
    ensures multiset(KeepKeywords(ws))[w] == if IsKeyword(w) then multiset(ws)[w] else 0
  {
    if ws != [] {
      KeepKeywordsCounts(ws[1..], w);
      assert ws == [ws[0]] + ws[1..];
      assert multiset(ws) == multiset([ws[0]]) + multiset(ws[1..]);
    }
  }

  lemma {:induction false} KeepKeywordsAppend(a: seq<string>, b: seq<string>)
    ensures KeepKeywords(a + b) == KeepKeywords(a) + KeepKeywords(b)
  {
    if a != [] {
      assert (a + b)[1..] == a[1..] + b;
      KeepKeywordsAppend(a[1..], b);
    } else {
      assert a + b == b;
    }
  }

  /** A space separates the words on its two sides, so the keywords of `a + " " + b` are those of
      `a` followed by those of `b`. */
  lemma KeywordsAroundSpace(a: string, b: string)
    ensures ExtractKeywords(a + " " + b) == ExtractKeywords(a) + ExtractKeywords(b)
  {
    LowerAppend(a + " ", b);
    LowerAppend(a, " ");
    assert Lower(a + " " + b) == Lower(a) + [' '] + Lower(b);
    WordsAroundSpace(Lower(a), ' ', Lower(b));
    KeepKeywordsAppend(Words(Lower(a)), Words(Lower(b)));
  }

  /** The keywords of bullets joined with spaces are the keywords of each bullet, in bullet order. */
  lemma {:induction false} KeywordsOfJoinedBullets(bullets: seq<string>)
    ensures ExtractKeywords(Join(bullets)) == Flat(seq(|bullets|, k requires 0 <= k < |bullets| => ExtractKeywords(bullets[k])))
  {
    var ks := seq(|bullets|, k requires 0 <= k < |bullets| => ExtractKeywords(bullets[k]));
    if |bullets| == 1 {
      assert ks == [ExtractKeywords(bullets[0])];
      assert Flat(ks) == ExtractKeywords(bullets[0]) + Flat([]);
    } else if |bullets| > 1 {
      var rest := bullets[1..];
      assert Join(bullets) == bullets[0] + " " + Join(rest);
      KeywordsAroundSpace(bullets[0], Join(rest));
      KeywordsOfJoinedBullets(rest);
      assert ks[1..] == seq(|rest|, k requires 0 <= k < |rest| => ExtractKeywords(rest[k]));
      assert Flat(ks) == ks[0] + Flat(ks[1..]);
    }
  }

  /** `enrich_signals_with_keywords` on one chapter: with non-blank bullets, set
      `signals.features.keywords` to the keywords of the joined, stripped bullets. */
  function WithKeywords(c: Chapter): Chapter {
    var bullets := BulletsOf(c);
    if bullets == [] then c
    else
      var allText := Strip(Join(bullets));
      if allText == [] then c
      else
        var signals := SignalsOf(c);
        var features := signals.features.GetOr(NoFeatures);
        c.(signals := Some(signals.(features := Some(features.(keywords := Some(ExtractKeywords(allText)))))))
  }

  /** A chapter with missing or empty bullets, or bullets that are only whitespace, is left as it was. */
  lemma WithKeywordsSkipsBlankBullets(c: Chapter)
    requires BulletsOf(c) == [] || AllSpace(Join(BulletsOf(c)))
    ensures WithKeywords(c) == c
  {
    StripEmptyIffAllSpace(Join(BulletsOf(c)));
  }

  /** Otherwise the keywords are those of the bullets, bullet by bullet, and nothing else changes. */
  lemma WithKeywordsSetsKeywords(c: Chapter)
    requires BulletsOf(c) != [] && !AllSpace(Join(BulletsOf(c)))
    ensures var bullets := BulletsOf(c);
      KeywordsOf(WithKeywords(c)) == Flat(seq(|bullets|, k requires 0 <= k < |bullets| => ExtractKeywords(bullets[k])))
    ensures var c' := WithKeywords(c);
      && c'.id == c.id && c'.title == c.title && c'.sections == c.sections && c'.chapterText == c.chapterText
      && BulletsOf(c') == BulletsOf(c)
      && c'.signals.Some? && c'.signals.value.features.Some?
      && c'.signals.value.features.value.others == SignalsOf(c).features.GetOr(NoFeatures).others
  {
    var bullets := BulletsOf(c);
    StripEmptyIffAllSpace(Join(bullets));
    StripKeepsWords(Lower(Join(bullets)));
    assert ExtractKeywords(Strip(Join(bullets))) == ExtractKeywords(Join(bullets)) by {
      StripLowerCommute(Join(bullets));
    }
    KeywordsOfJoinedBullets(bullets);
  }

  lemma LowerKeepsSpaces(s: string)
    requires AllSpace(s)
    ensures AllSpace(Lower(s))
  {
  }

  /** Lower-casing keeps whitespace where it is, so stripping before lower-casing keeps the words. */
  lemma StripLowerCommute(s: string)
    ensures Words(Lower(Strip(s))) == Words(Lower(s))
  {
    var k := LeadingSpaces(s);
    var t := s[k..];
    var m := |t| - TrailingSpaces(t);
    var pre, mid, post := s[..k], t[..m], t[m..];
    assert s == pre + (mid + post);
    assert Strip(s) == mid;
    LowerAppend(pre, mid + post);
    LowerAppend(mid, post);
    LowerKeepsSpaces(pre);
    LowerKeepsSpaces(post);
    WordsOfSpacesPrefix(Lower(pre), Lower(mid) + Lower(post));
    WordsOfSpacesSuffix(Lower(mid), Lower(post));
  }

  /** The body of the chapter loop of `enrich_signals_with_keywords`: skip a chapter without
      bullets or with blank bullets, else set its keywords. */
  method EnrichChapter(chapter: Chapter) returns (updated: Chapter)
    ensures updated == WithKeywords(chapter)
  {
    updated := chapter;
    var bullets := BulletsOf(chapter);
    if bullets == [] {
      return;
    }
    var allText := Strip(Join(bullets));
    if allText == [] {
      return;
    }
    var keywords := ExtractKeywords(allText);
    var signals := SignalsOf(chapter);
    var features := signals.features.GetOr(NoFeatures);
    updated := chapter.(signals := Some(signals.(features := Some(features.(keywords := Some(keywords))))));
  }

  /** `enrich_signals_with_keywords(data)`: updates every chapter of `data` in place and returns `data`. */
  method EnrichSignalsWithKeywords(data: BookData) returns (r: BookData)
    modifies data
    ensures r == data
    ensures |data.chapters| == |old(data.chapters)|
    ensures forall k | 0 <= k < |data.chapters| :: data.chapters[k] == WithKeywords(old(data.chapters)[k])
  {
    var i := 0;
    while i < |data.chapters|
      invariant 0 <= i <= |data.chapters| == |old(data.chapters)|
      invariant forall k | 0 <= k < i :: data.chapters[k] == WithKeywords(old(data.chapters)[k])
      invariant forall k | i <= k < |data.chapters| :: data.chapters[k] == old(data.chapters)[k]
    {
      var updated := EnrichChapter(data.chapters[i]);
      data.chapters := data.chapters[i := updated];
      i := i + 1;
    }
    r := data;
  }

  /** Add `id` under each keyword of `kws`. */
  function AddKeywords(index: map<string, set<string>>, kws: seq<string>, id: string): map<string, set<string>> {
    if kws == [] then index
    else
      var m := AddKeywords(index, kws[..|kws| - 1], id);
      var kw := kws[|kws| - 1];
      m[kw := (if kw in m then m[kw] else {}) + {id}]
  }

  /** The keyword index of a chapter sequence. */
  function KeywordIndex(chapters: seq<Chapter>): map<string, set<string>> {
    if chapters == [] then map[]
    else
      var last := chapters[|chapters| - 1];
      AddKeywords(KeywordIndex(chapters[..|chapters| - 1]), KeywordsOf(last), last.id)
  }

  lemma {:induction false} AddKeywordsSpec(index: map<string, set<string>>, kws: seq<string>, id: string, kw: string, x: string)
    ensures kw in AddKeywords(index, kws, id) <==> kw in index || kw in kws
    ensures kw in AddKeywords(index, kws, id) ==>
      (x in AddKeywords(index, kws, id)[kw] <==> (kw in index && x in index[kw]) || (x == id && kw in kws))
  {
    if kws != [] {
      var init := kws[..|kws| - 1];
      AddKeywordsSpec(index, init, id, kw, x);
      assert kws == init + [kws[|kws| - 1]];
    }
  }

  /** `cid` is listed under `kw` exactly when some chapter with that id has the keyword. */
  lemma {:induction false} KeywordIndexSpec(chapters: seq<Chapter>, kw: string, cid: string)
    ensures kw in KeywordIndex(chapters) <==> exists k | 0 <= k < |chapters| :: kw in KeywordsOf(chapters[k])
    ensures kw in KeywordIndex(chapters) ==>
      (cid in KeywordIndex(chapters)[kw] <==> exists k | 0 <= k < |chapters| :: chapters[k].id == cid && kw in KeywordsOf(chapters[k]))
  {
    if chapters != [] {
      var init := chapters[..|chapters| - 1];
      var last := chapters[|chapters| - 1];
      KeywordIndexSpec(init, kw, cid);
      AddKeywordsSpec(KeywordIndex(init), KeywordsOf(last), last.id, kw, cid);
      assert forall k | 0 <= k < |init| :: init[k] == chapters[k];
    }
  }

  /** No keyword of the index maps to an empty set. */
  lemma KeywordIndexNoEmptyEntry(chapters: seq<Chapter>, kw: string)
    requires kw in KeywordIndex(chapters)
    ensures KeywordIndex(chapters)[kw] != {}
  {
    KeywordIndexSpec(chapters, kw, "");
    var k :| 0 <= k < |chapters| && kw in KeywordsOf(chapters[k]);
    KeywordIndexSpec(chapters, kw, chapters[k].id);
  }

  /** `index.setdefault(kw, set()).add(chapter_id)` for each keyword of one chapter. */
  method IndexChapter(index0: map<string, set<string>>, chapter: Chapter) returns (index: map<string, set<string>>)
    ensures index == AddKeywords(index0, KeywordsOf(chapter), chapter.id)
  {
    var keywords := KeywordsOf(chapter);
    var id := chapter.id;
    index := index0;
    var j := 0;
    while j < |keywords|
      invariant 0 <= j <= |keywords|
      invariant index == AddKeywords(index0, keywords[..j], id)
    {
      var kw := keywords[j];
      index := index[kw := (if kw in index then index[kw] else {}) + {id}];
      assert keywords[..j + 1][..j] == keywords[..j];
      j := j + 1;
    }
    assert keywords[..j] == keywords;
  }

  /** Index the chapters of one book after the chapters `before`. */
  method IndexChapters(index0: map<string, set<string>>, ghost before: seq<Chapter>, chapters: seq<Chapter>)
    returns (index: map<string, set<string>>)
    requires index0 == KeywordIndex(before)
    ensures index == KeywordIndex(before + chapters)
  {
    index := index0;
    var c := 0;
    assert before + chapters[..0] == before;
    while c < |chapters|
      invariant 0 <= c <= |chapters|
      invariant index == KeywordIndex(before + chapters[..c])
    {
      ghost var done := before + chapters[..c];
      index := IndexChapter(index, chapters[c]);
      assert (done + [chapters[c]])[..|done|] == done;
      assert before + chapters[..c + 1] == done + [chapters[c]];
      c := c + 1;
    }
    assert chapters[..c] == chapters;
  }

  /** `build_keyword_index(enriched_books)` */
  method BuildKeywordIndex(books: seq<Book>) returns (index: map<string, set<string>>)
    ensures index == KeywordIndex(AllChapters(books))
  {
    index := map[];
    var b := 0;
    while b < |books|
      invariant 0 <= b <= |books|
      invariant index == KeywordIndex(AllChapters(books[..b]))
    {
      index := IndexChapters(index, AllChapters(books[..b]), books[b].chapters);
      AllChaptersStep(books, b);
      b := b + 1;
    }
    assert books[..b] == books;
  }

  /** `candidates |= keyword_index.get(kw, set())` over the source's keywords, then `discard(src_id)`. */
  method CollectCandidates(keywords: seq<string>, index: map<string, set<string>>, src: string)
    returns (candidates: set<string>)
    ensures candidates == Recalled(keywords, index) - {src}
  {
    candidates := {};
    var i := 0;
    while i < |keywords|
      invariant 0 <= i <= |keywords|
      invariant candidates == Recalled(keywords[..i], index)
    {
      candidates := candidates + Holders(index, keywords[i]);
      assert keywords[..i + 1][..i] == keywords[..i];
      i := i + 1;
    }
    assert keywords[..i] == keywords;
    candidates := candidates - {src};
  }

  /** An unscored edge `{from, to, type}`. */
  datatype KeywordLink = KeywordLink(from: string, to: string, kind: string)

  /** The links `generate_edges` emits for one chapter: one per other chapter listed under one of its keywords. */
  function ExpectedLinks(c: Chapter, index: map<string, set<string>>): set<KeywordLink> {
    set t | t in Recalled(KeywordsOf(c), index) - {c.id} :: KeywordLink(c.id, t, "keyword_overlap")
  }

  predicate DistinctLinkTargets(links: seq<KeywordLink>) {
    forall i, j | 0 <= i < j < |links| :: links[i].to != links[j].to
  }

  /** Each block is the links of the chapter at its position: every expected link once. */
  ghost predicate LinksFor(blocks: seq<seq<KeywordLink>>, chapters: seq<Chapter>, index: map<string, set<string>>) {
    |blocks| == |chapters| &&
    forall k | 0 <= k < |blocks| ::
      DistinctLinkTargets(blocks[k]) && (set l | l in blocks[k]) == ExpectedLinks(chapters[k], index)
  }

  lemma LinksForAppend(a: seq<seq<KeywordLink>>, ca: seq<Chapter>, b: seq<seq<KeywordLink>>, cb: seq<Chapter>,
                       index: map<string, set<string>>)
    requires LinksFor(a, ca, index) && LinksFor(b, cb, index)
    ensures LinksFor(a + b, ca + cb, index)
  {
    forall k | 0 <= k < |a + b|
      ensures DistinctLinkTargets((a + b)[k]) && (set l | l in (a + b)[k]) == ExpectedLinks((ca + cb)[k], index)
    {
      if k < |a| {
        assert (a + b)[k] == a[k] && (ca + cb)[k] == ca[k];
      } else {
        assert (a + b)[k] == b[k - |a|] && (ca + cb)[k] == cb[k - |a|];
      }
    }
  }

  /** `for tgt_id in candidates: edges.append(...)` for one chapter. */
  method ChapterLinks(chapter: Chapter, index: map<string, set<string>>) returns (block: seq<KeywordLink>)
    ensures DistinctLinkTargets(block)
    ensures (set l | l in block) == ExpectedLinks(chapter, index)
  {
    var src := chapter.id;
    var candidates := CollectCandidates(KeywordsOf(chapter), index, src);
    block := [];
    var rest := candidates;
    while rest != {}
      invariant rest <= candidates
      invariant DistinctLinkTargets(block)
      invariant forall l | l in block :: l.to in candidates - rest && l == KeywordLink(src, l.to, "keyword_overlap")
      invariant forall t | t in candidates - rest :: KeywordLink(src, t, "keyword_overlap") in block
    {
      var tgt :| tgt in rest;
      rest := rest - {tgt};
      block := block + [KeywordLink(src, tgt, "keyword_overlap")];
    }
  }

  /** The links of the chapters of one book, chapter by chapter. */
  method BookLinks(chapters: seq<Chapter>, index: map<string, set<string>>)
    returns (links: seq<KeywordLink>, ghost blocks: seq<seq<KeywordLink>>)
    ensures LinksFor(blocks, chapters, index) && links == Flatten(blocks)
  {
    links := [];
    blocks := [];
    var c := 0;
    while c < |chapters|
      invariant 0 <= c <= |chapters|
      invariant LinksFor(blocks, chapters[..c], index) && links == Flatten(blocks)
    {
      var block := ChapterLinks(chapters[c], index);
      assert LinksFor([block], [chapters[c]], index);
      LinksForAppend(blocks, chapters[..c], [block], [chapters[c]], index);
      assert chapters[..c + 1] == chapters[..c] + [chapters[c]];
      assert (blocks + [block])[..|blocks|] == blocks;
      blocks := blocks + [block];
      links := links + block;
      c := c + 1;
    }
    assert chapters[..c] == chapters;
  }

  /** `generate_edges(enriched_books, keyword_index)`; the ghost `blocks` are the links of each chapter. */
  method GenerateEdges(books: seq<Book>, index: map<string, set<string>>)
    returns (links: seq<KeywordLink>, ghost blocks: seq<seq<KeywordLink>>)
    ensures |blocks| == |AllChapters(books)| && links == Flatten(blocks)
    ensures forall k | 0 <= k < |blocks| ::
      DistinctLinkTargets(blocks[k]) && (set l | l in blocks[k]) == ExpectedLinks(AllChapters(books)[k], index)
    ensures forall l | l in links :: exists c | c in AllChapters(books) :: l in ExpectedLinks(c, index)
    ensures forall c, l | c in AllChapters(books) && l in ExpectedLinks(c, index) :: l in links
  {
    links := [];
    blocks := [];
    var b := 0;
    while b < |books|
      invariant 0 <= b <= |books|
      invariant LinksFor(blocks, AllChapters(books[..b]), index) && links == Flatten(blocks)
    {
      var bookLinks, bookBlocks := BookLinks(books[b].chapters, index);
      LinksForAppend(blocks, AllChapters(books[..b]), bookBlocks, books[b].chapters, index);
      FlattenAppend(blocks, bookBlocks);
      AllChaptersStep(books, b);
      blocks := blocks + bookBlocks;
      links := links + bookLinks;
      b := b + 1;
    }
    assert books[..b] == books;
    LinksExactly(blocks, AllChapters(books), index);
  }

  /** The concatenated blocks hold exactly the expected links of the chapters. */
  lemma LinksExactly(blocks: seq<seq<KeywordLink>>, all: seq<Chapter>, index: map<string, set<string>>)
    requires LinksFor(blocks, all, index)
    ensures forall l | l in Flatten(blocks) :: exists c | c in all :: l in ExpectedLinks(c, index)
    ensures forall c, l | c in all && l in ExpectedLinks(c, index) :: l in Flatten(blocks)
  {
    forall l | l in Flatten(blocks) ensures exists c | c in all :: l in ExpectedLinks(c, index) {
      FlattenMember(blocks, l);
      var k :| 0 <= k < |blocks| && l in blocks[k];
      assert l in (set x | x in blocks[k]);
      assert all[k] in all;
    }
    forall c, l | c in all && l in ExpectedLinks(c, index) ensures l in Flatten(blocks) {
      var k :| 0 <= k < |all| && all[k] == c;
      assert l in (set x | x in blocks[k]);
      FlattenMember(blocks, l);
    }
  }

  /** With the index built from the same books, a chapter links to `t` exactly when `t` is another id
      sharing one of its keywords; books play no part, so same-book links are emitted too. */
  lemma LinksShareKeyword(chapters: seq<Chapter>, c: Chapter, t: string)
    ensures KeywordLink(c.id, t, "keyword_overlap") in ExpectedLinks(c, KeywordIndex(chapters)) <==>
      t != c.id && exists p, k | 0 <= p < |KeywordsOf(c)| && 0 <= k < |chapters| ::
        chapters[k].id == t && KeywordsOf(c)[p] in KeywordsOf(chapters[k])
  {
    var kws := KeywordsOf(c);
    var index := KeywordIndex(chapters);
    RecalledIsUnion(kws, index, t);
    forall p | 0 <= p < |kws|
      ensures t in Holders(index, kws[p]) <==>
        exists k | 0 <= k < |chapters| :: chapters[k].id == t && kws[p] in KeywordsOf(chapters[k])
    {
      KeywordIndexSpec(chapters, kws[p], t);
    }
  }
}
