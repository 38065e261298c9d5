# ChapterGraph chapter-linking core, in Dafny

ChapterGraph links the chapters of several technical books. Each chapter has an id of the form
`{book_id}::{local_id}` and a bag of signals (summary bullets, extracted keywords). The code proposes
directed, scored edges between chapters of different books, and then shows the result as an
interactive graph of books and chapters.

This project models the parts of that code that decide which edges and which view elements exist:

- **Retrieval pipeline** (`Retrieval`, `TokenCandidates`, `Similarity`, `ChapterIds`, `RetrievalDriver`).
  - A candidate generator counts, for each target, how many of the source's top tokens list it.
  - A scorer looks similarity up in a precomputed row matrix.
  - `retrieve` keeps the candidates that are in another book and whose score reaches `min_score`.
  - A driver concatenates `retrieve` over every chapter of every book.
- **The three prototype edge generators.**
  - `KeywordPrototype`: keyword extraction, a keyword inverted index, and unscored keyword links.
  - `RuleBased`: keyword candidates, scored by keyword-set intersection, same-book pairs skipped.
  - `TfidfPrototype`: top-token candidates, then a TF-IDF cosine threshold, with no same-book filter.
- **Enrichment** (`Enrichment`): each chapter's text, built in place from its bullets or else its sections.
- **Front-end graph core.**
  - `Reducer` and `ReducerJs`: the typed and the payload-style reducer.
  - `ViewSpec`, `View` and `ViewProperties`: `buildView`, which chooses the nodes and links that are shown.
- **`normalize_progress`** (`Progress`): a percentage clamped into a fraction.

How the model is built:

- Python dicts are `map`s, sets are `set`s and strings are `seq<char>`.
- An exception the code would raise is an `Err` of `Outcomes.Result`:
  - `ValueError` from `list.index`;
  - `IndexError` from a matrix row;
  - `KeyError` from `d[key]`;
  - `TypeError` from reading a property of JavaScript `undefined`.
- Loops over Python sets run in an unknown order, so those methods pick elements with `:|`. Their
  results are specified up to order: a set of expected edges, each emitted once.
- Loops that mutate in place are methods on a `BookData` object (`enrich_chapter_text`,
  `enrich_signals_with_keywords`). Other loops are methods proved against recursive specification
  functions.
- The candidate-generator and scorer interfaces are datatypes with one constructor per strategy.

Shared definitions:

- `TokenCandidates.GenerateCandidates` models both the retrieval generator's `generate` and
  `generate_candidates` in `feature_achievement/edge_generation2.py`. The two have the same body.
- `ChapterIds.BookId` models both `get_book_id` functions (`feature_achievement/retrieval/pipeline.py:12-15`
  and `feature_achievement/edge_generation.py:81-83`). They are the same expression.
- `TokenCandidates.Recalled` is the keyword candidate union (`candidates |= index.get(kw, set())`) of both
  keyword generators.

## Model

| member | source | states |
|---|---|---|
| ChapterIds.BookId | feature_achievement/retrieval/pipeline.py:12-15 | the book id is a prefix of the chapter id that contains no `::`; no `::` starts before its end; it is either the whole id or is followed by `::` |
| ChapterIds.BookIdUnique | feature_achievement/retrieval/pipeline.py:15 | those conditions pin the result down: any prefix that meets them is the book id |
| ChapterIds.BookIdOfComposedId | feature_achievement/retrieval/pipeline.py:14-15 | round trip with the id format: `book + "::" + local` gives back `book` when `book` holds no `::` and does not end in `:` |
| ChapterIds.BookIdTrailingColon | feature_achievement/retrieval/pipeline.py:15 | `a:::b` splits to `a`, so the trailing-colon condition of the round trip is needed |
| ChapterIds.DifferentBooksDifferentIds | feature_achievement/retrieval/pipeline.py:23-25 | ids with different book ids are different ids, so a cross-book edge never has `from == to` |
| Vectors.DotSymmetric | feature_achievement/retrieval/similarity/embedding.py:17 | the dot product is symmetric |
| Vectors.DotZero | feature_achievement/retrieval/similarity/embedding.py:17 | an all-zero row scores 0 against any row |
| Similarity.PositionMap | feature_achievement/retrieval/similarity/embedding.py:9 | `id_to_idx` has exactly the listed ids as keys, and each maps to a position holding that id |
| Similarity.PositionMapIsLast | feature_achievement/retrieval/similarity/embedding.py:9 | a repeated id maps to its last position: no later position holds it |
| Similarity.NewEmbeddingScorer | feature_achievement/retrieval/similarity/embedding.py:6-10 | the scorer keeps the ids and rows and builds the id table above; the model name is the given one, and `"embedding"` when none is given |
| Similarity.IndexOf | feature_achievement/edge_generation2.py:62-63 | `list.index` succeeds iff the id is listed and returns its first position; otherwise it raises `ValueError` |
| Similarity.TfidfCosine | feature_achievement/edge_generation2.py:58-65 | `tfidf_similarity`: two `list.index` lookups, then the cosine of the two rows; specified by `TfidfFailsOnMissingId` (succeeds iff both ids are listed, with one row per id) and `ScoreSymmetric` |
| Similarity.EmbeddingMissingIdScoresZero | feature_achievement/retrieval/similarity/embedding.py:12-16 | if either id is missing from the embedding table, the score is exactly 0.0 and nothing is raised |
| Similarity.Score | feature_achievement/retrieval/similarity/embedding.py:12-17 | `score(src_id, tgt_id)` of both scorers, the TF-IDF one as at feature_achievement/retrieval/similarity/tfidf.py:10-16; specified by `EmbeddingMissingIdScoresZero`, `EmbeddingPresentIdsScoreDot`, `EmbeddingNeverFails`, `TfidfFailsOnMissingId` and `ScoreSymmetric` |
| Similarity.EmbeddingPresentIdsScoreDot | feature_achievement/retrieval/similarity/embedding.py:17 | with both ids present (one row per id), the score is the dot product of their rows |
| Similarity.EmbeddingNeverFails | feature_achievement/retrieval/similarity/embedding.py:12-17 | with one row per id, the embedding score never raises |
| Similarity.TfidfFailsOnMissingId | feature_achievement/edge_generation2.py:58-65 | with one row per id, the TF-IDF similarity succeeds iff both ids are in `chapter_ids` |
| Similarity.ScoreSymmetric | feature_achievement/retrieval/similarity/embedding.py:12-17 | both scorers are symmetric: `score(a, b)` succeeds iff `score(b, a)` does, with the same value |
| Similarity.EmbeddingNameIgnoresModel | feature_achievement/retrieval/similarity/embedding.py:19-21 | the embedding scorer is named `"embedding"` whatever its model name |
| Similarity.Name | feature_achievement/retrieval/similarity/tfidf.py:18-20 | the `name` property: `"tfidf"` here and `"embedding"` for the embedding scorer (embedding.py:19-21); specified by `EmbeddingNameIgnoresModel` |
| Similarity.RepeatedIdPositions | feature_achievement/retrieval/similarity/embedding.py:9 | for a repeated id, the embedding table picks the last row while `list.index` picks the first |
| TokenCandidates.GenerateCandidates | feature_achievement/edge_generation2.py:109-127 | the nested counting loops return exactly `CandidateSet`: recalled ids other than the source whose overlap count reaches the cutoff (2 when not given) |
| TokenCandidates.Generate | feature_achievement/retrieval/candidates/tfidf_token.py:11-21 | the generator returns the same set over its own maps, which it only reads, and never returns the source |
| TokenCandidates.RecalledIffCounted | feature_achievement/retrieval/candidates/tfidf_token.py:14-17 | an id gets a counter iff at least one source token lists it |
| TokenCandidates.CandidateIff | feature_achievement/retrieval/candidates/tfidf_token.py:14-20 | `t` is returned iff `t != src` and the number of source-token positions listing `t` is at least 1 and at least `min_shared_tokens` |
| TokenCandidates.RecalledIsUnion | feature_achievement/retrieval/candidates/tfidf_token.py:14-15 | the recalled ids are the union of the index entries of the source's tokens |
| TokenCandidates.CandidatesWithinUnion | feature_achievement/retrieval/candidates/tfidf_token.py:14-17 | every result lies in that union and differs from the source |
| TokenCandidates.NoTokensNoCandidates | feature_achievement/retrieval/candidates/tfidf_token.py:14 | a source missing from the top-token map, or with no tokens, has no candidates and raises nothing |
| TokenCandidates.CutoffMonotone | feature_achievement/retrieval/candidates/tfidf_token.py:19-21 | raising the cutoff can only shrink the result |
| TokenCandidates.DefaultCutoffScenario | feature_achievement/retrieval/candidates/tfidf_token.py:6-21 | with the default cutoff 2, a chapter sharing two tokens is returned and one sharing a single token is not |
| Retrieval.Retrieve | feature_achievement/retrieval/pipeline.py:17-40 | `retrieve` raises iff some cross-book candidate cannot be scored; otherwise it returns each expected edge once; there are no more edges than candidates; each edge comes from the source, goes to a candidate of another book, has the scorer's score (at least `min_score`, 0.1 when not given) and the scorer's name as its type; a raised error is the scorer's own, on some cross-book candidate |
| Retrieval.RetrievalComplete | feature_achievement/retrieval/pipeline.py:22-38 | each kept candidate yields exactly one edge, and the result is as long as the expected edge set |
| Retrieval.SameBookExcluded | feature_achievement/retrieval/pipeline.py:19-25 | no edge goes to a chapter of the source's book |
| Retrieval.RetrievalUniqueUpToOrder | feature_achievement/retrieval/pipeline.py:22-40 | any two results for one source are permutations of each other |
| Retrieval.EmbeddingPipelineSucceeds | feature_achievement/retrieval/pipeline.py:27 | a pipeline using an embedding index with one row per id never raises |
| Retrieval.CrossBookScenario | feature_achievement/retrieval/pipeline.py:23-25 | `A::1` never links to `A::2` |
| RetrievalDriver.GenerateEdges | feature_achievement/retrieval/edge_generation.py:1-9 | the driver succeeds iff every chapter's `retrieve` succeeds; the result is the concatenation, in book then chapter order, of one retrieval per chapter; its length is the sum of the block lengths; every pipeline invariant holds for every edge; a raised error is one that `retrieve` raises for some chapter; no chapters give `[]` |
| RetrievalDriver.BookRetrievals | feature_achievement/retrieval/edge_generation.py:5-7 | over one book's chapters: success iff every chapter's `retrieve` succeeds, and then one retrieval block per chapter, concatenated; otherwise the error is one `retrieve` raises for one of its chapters |
| Sequences.FlattenLength | feature_achievement/retrieval/edge_generation.py:4-7 | the length of the concatenation is the sum of the block lengths (no deduplication) |
| Corpus.ByIdSpec | feature_achievement/edge_generation.py:72-76 | a dict filled from the chapters holds an id iff some chapter has it, with the value of the last chapter carrying it |
| Corpus.AddById | feature_achievement/edge_generation.py:73-76 | the chapter loop of one book extends the dict filled so far to the dict of those chapters as well |
| Corpus.FillById | feature_achievement/edge_generation.py:68-78 | the nested book and chapter loops build exactly that dict |
| TfidfPrototype.CollectChapterTexts | feature_achievement/edge_generation2.py:12-21 | every chapter id is a key and every key is a chapter id; a key's text comes from the last chapter with that id, `""` when the chapter has none |
| TfidfPrototype.TokenIndex | feature_achievement/edge_generation2.py:98-106 | `cid` is in `index[t]` iff `t` is among `cid`'s top tokens, and no entry is empty |
| TfidfPrototype.BuildTokenIndex | feature_achievement/edge_generation2.py:98-106 | the loops over the dict and its token lists build exactly `TokenIndex` |
| TfidfPrototype.ChapterEdges | feature_achievement/edge_generation2.py:152-174 | one chapter's candidate loop fails iff some candidate's TF-IDF score fails; otherwise it emits each candidate scoring at least the threshold once, as a `"tfidf_similarity"` edge with that score |
| TfidfPrototype.BookEdges | feature_achievement/edge_generation2.py:151-174 | over one book's chapters: success iff every chapter succeeds, and one block per chapter on success; an error is one a score of some chapter's candidate raises |
| TfidfPrototype.GenerateEdges | feature_achievement/edge_generation2.py:135-176 | builds the token index from the top tokens; success iff every chapter's scores are defined; one block per chapter; every edge is typed `"tfidf_similarity"`, has `from != to`, a score at least the threshold, and that score is the TF-IDF cosine; an error is one a score of some chapter's candidate raises; the cutoffs default to 2 shared tokens and a 0.1 score |
| TfidfPrototype.IndexedChaptersNeverFail | feature_achievement/edge_generation2.py:161-162 | if every chapter with top tokens has a TF-IDF row, no score fails |
| TfidfPrototype.PreparedInputsNeverFail | feature_achievement/edge_generation2.py:143-147 | with the TF-IDF index built over the keys of `collect_chapter_texts` (one row each, covering every chapter id) and the top tokens keyed by its ids, every chapter succeeds, so the run never raises |
| TfidfPrototype.SameBookLinked | feature_achievement/edge_generation2.py:150-174 | there is no same-book filter: `A::1` links to `A::2` when they share two tokens and their rows match |
| RuleBased.RuleBasedIsSharedCount | feature_achievement/edge_generation.py:58-65 | the score is the number of shared distinct keywords (the empty-set guard agrees with it): symmetric, at most either set's size, and 0 iff the sets are disjoint |
| RuleBased.RuleBasedSimilarity | feature_achievement/edge_generation.py:58-65 | `rule_based_similarity`: 0 when either keyword set is empty, else the size of their intersection; specified by `RuleBasedIsSharedCount` (the shared distinct count, symmetric, bounded by each set, 0 iff disjoint) |
| RuleBased.BuildChapterSignalMap | feature_achievement/edge_generation.py:68-78 | the map is the last-wins signals dict of all chapters, `{}` for a chapter without signals, and it holds every chapter id |
| RuleBased.ChapterEdges | feature_achievement/edge_generation.py:19-46 | for one chapter: success iff the source and every cross-book candidate are in the signal map; an error is a `KeyError` on such a missing id; on success, each cross-book candidate once, typed `"keyword_overlap"` and scored by rule-based similarity, with no threshold |
| RuleBased.BookEdges | feature_achievement/edge_generation.py:17-46 | over one book's chapters: success iff every chapter succeeds; one block per chapter on success |
| RuleBased.GenerateEdges | feature_achievement/edge_generation.py:12-48 | succeeds iff every chapter succeeds; an error is a `KeyError` on a cross-book candidate missing from the signal map; on success, one block per chapter, concatenated in order |
| RuleBased.OwnIndexNeverFails | feature_achievement/edge_generation.py:30-37 | with the keyword index built from the same chapters, every lookup in the signal map succeeds |
| RuleBased.OwnIndexEdgesShareKeyword | feature_achievement/edge_generation.py:32-46 | with unique ids and the index built from the same chapters, every edge joins different books and scores at least 1 |
| Text.WordsOfJoin | book_content/feature_achievement.py:14 | splitting text joined with spaces gives the words of each part, in order |
| Text.StripKeepsWords | book_content/feature_achievement.py:14 | `strip()` does not change the words |
| Text.WordsBetweenSpaces | book_content/feature_achievement.py:14 | whitespace around a text adds no words |
| Text.StripEmptyIffAllSpace | book_content/feature_achievement.py:14-16 | `strip()` leaves nothing iff the text is all whitespace |
| KeywordPrototype.StopwordTestRedundant | book_content/feature_achievement.py:26-31 | every stopword is shorter than five characters, so a word is kept iff it is longer than four |
| KeywordPrototype.KeepKeywords | book_content/feature_achievement.py:31 | every word kept is longer than four characters and not a stopword |
| KeywordPrototype.ExtractKeywords | book_content/feature_achievement.py:29-31 | every keyword returned is longer than four characters and not a stopword |
| KeywordPrototype.KeepKeywordsCounts | book_content/feature_achievement.py:31 | a qualifying word is kept as many times as it occurs, and any other word never |
| KeywordPrototype.KeepKeywordsAppend | book_content/feature_achievement.py:31 | the filter distributes over concatenation, so word order is preserved |
| KeywordPrototype.KeywordsOfJoinedBullets | book_content/feature_achievement.py:14-18 | the keywords of the joined bullets are the keywords of each bullet, bullet by bullet |
| KeywordPrototype.KeywordsAroundSpace | book_content/feature_achievement.py:14 | the keywords of two texts joined by a space are the keywords of the first followed by those of the second |
| KeywordPrototype.StripLowerCommute | book_content/feature_achievement.py:14 | stripping before lower-casing and splitting gives the same words as not stripping |
| KeywordPrototype.WithKeywordsSkipsBlankBullets | book_content/feature_achievement.py:8-16 | a chapter with missing, empty or whitespace-only bullets is left unchanged |
| KeywordPrototype.WithKeywordsSetsKeywords | book_content/feature_achievement.py:14-21 | otherwise its keywords become those of its bullets; the other feature entries and every other field are kept |
| KeywordPrototype.WithKeywords | book_content/feature_achievement.py:8-21 | one chapter as the loop leaves it; specified by `WithKeywordsSkipsBlankBullets`, `WithKeywordsSetsKeywords` and `KeywordsOfJoinedBullets` |
| KeywordPrototype.EnrichSignalsWithKeywords | book_content/feature_achievement.py:5-23 | updates every chapter of the record in place as above, keeps the chapter count, and returns the same object |
| KeywordPrototype.EnrichChapter | book_content/feature_achievement.py:8-21 | the body of the chapter loop computes exactly `WithKeywords` of the chapter |
| KeywordPrototype.AddKeywordsSpec | book_content/feature_achievement.py:65-66 | `setdefault(kw, set()).add(id)` under each keyword: the keys gained and the ids listed |
| KeywordPrototype.IndexChapter | book_content/feature_achievement.py:65-66 | the keyword loop of one chapter files its id under each of its keywords, exactly as `AddKeywords` |
| KeywordPrototype.IndexChapters | book_content/feature_achievement.py:60-66 | the chapter loop of one book extends the index of the chapters seen so far to the index of those chapters followed by the book's |
| KeywordPrototype.KeywordIndexSpec | book_content/feature_achievement.py:57-68 | a keyword is a key iff some chapter has it, and `cid` is listed under it iff some chapter with id `cid` has it |
| KeywordPrototype.KeywordIndexNoEmptyEntry | book_content/feature_achievement.py:65-66 | no key of the index maps to an empty set |
| KeywordPrototype.BuildKeywordIndex | book_content/feature_achievement.py:57-68 | the loops build exactly the keyword index of all chapters, in order |
| KeywordPrototype.CollectCandidates | book_content/feature_achievement.py:81-85 | the candidates are the union of the index entries of the keywords, minus the source |
| KeywordPrototype.ChapterLinks | book_content/feature_achievement.py:76-88 | one chapter emits each candidate once, and its links are exactly the expected links of that chapter |
| KeywordPrototype.BookLinks | book_content/feature_achievement.py:75-88 | one block of links per chapter of the book, in chapter order, concatenated |
| KeywordPrototype.GenerateEdges | book_content/feature_achievement.py:71-90 | one block per chapter, concatenated; each block emits every candidate once as an unscored `"keyword_overlap"` link from the chapter; so the links are exactly the union of every chapter's expected links |
| KeywordPrototype.LinksShareKeyword | book_content/feature_achievement.py:81-88 | with the index built from the same chapters, a chapter links to `t` iff `t` is a different id of a chapter sharing a keyword with it, whatever the books |
| Enrichment.WithChapterText | feature_achievement/enrichment.py:11-14 | every chapter gets a `chapter_text`, and its other fields are kept |
| Enrichment.EnrichChapterText | feature_achievement/enrichment.py:9-15 | every chapter of the record is updated in place, the count is kept, and the same object is returned |
| Enrichment.ChapterTextWords | feature_achievement/enrichment.py:13-14 | with bullets, the text's words are the bullets' words; without, the sections' words; with neither, the text is `""` |
| Enrichment.WithChapterTextIdempotent | feature_achievement/enrichment.py:11-14 | running the enrichment twice gives the same chapter as once |
| Progress.NormalizeProgress | src/normalize_progress.py:3 | the result is in [0, 1]; it is `percent / 100` within [0, 100], 0 at or below 0, and 1 at or above 100 |
| Progress.NormalizeProgressMonotone | src/normalize_progress.py:3 | the result does not decrease as the percentage grows |
| Reducer.Toggled | frontend/graph-core/reducer.ts:16-24 | `TOGGLE_BOOK` flips the membership of its book and no other; the untyped reducer applies it to possibly-`undefined` ids |
| Reducer.Reduce | frontend/graph-core/reducer.ts:3-37 | `reducer(state, action)`: the partial state of each action; specified by `ReduceFields`, `ReduceEffect` and `ToggleTwiceRestores` |
| Reducer.ToggledTwice | frontend/graph-core/reducer.js:17-22 | toggling the same id twice restores the set, for ids of any type, an `undefined` book id included |
| Reducer.ReduceFields | frontend/graph-core/reducer.ts:7-36 | each action's partial state carries exactly its own fields; unknown actions carry none |
| Reducer.ReduceEffect | frontend/graph-core/reducer.ts:8-35 | merged into the state, each action sets its fields to the action's data (the loaded graph with an empty expansion, the toggled set, the resized dimensions, …) and keeps every other field |
| Reducer.ToggleTwiceRestores | frontend/graph-core/reducer.ts:17-22 | toggling the same book twice gives back the original expanded set |
| ReducerJs.ReducersAgree | frontend/graph-core/reducer.js:3-41 | on every encoded typed action, the untyped reducer succeeds and returns the typed reducer's partial state |
| ReducerJs.ReduceJs | frontend/graph-core/reducer.js:3-41 | the untyped reducer, raising `TypeError` on a missing payload; specified by `ReducersAgree`, `MissingPayload` and `ResizeCopiesDimensions` |
| ReducerJs.MissingPayload | frontend/graph-core/reducer.js:5-36 | a missing payload raises iff the type is known and is not `LOAD_GRAPH_START` |
| ReducerJs.ResizeCopiesDimensions | frontend/graph-core/reducer.js:34-36 | `RESIZE` copies `payload.dimensions` as given |
| ViewSpec.BooksOf | frontend/graph-core/buildView.ts:40 | the book filter keeps exactly the book nodes |
| ViewSpec.ChaptersOf | frontend/graph-core/buildView.ts:41 | the chapter filter keeps exactly the chapter nodes |
| ViewSpec.ChaptersOfBook | frontend/graph-core/buildView.ts:95 | the per-book filter keeps exactly the chapters with that `book_id` |
| ViewSpec.ColorMap | frontend/graph-core/buildView.ts:51-54 | the colour map has exactly the book ids as keys |
| ViewSpec.ChapterViews | frontend/graph-core/buildView.ts:96-115 | one chapter node per chapter, in chapter order |
| ViewSpec.PrevPositions | frontend/graph-core/buildView.ts:60-64 | `prevPositions`; specified by `PrevPositionsSpec` (an id is present iff a previous node with it has x and y, the last such node winning) and built by `BuildPrevPositions` |
| ViewSpec.ChapterView | frontend/graph-core/buildView.ts:96-113 | the node of one chapter of an expanded book; its fields are stated by `ChapterViewFields` and `ExpandedChapterNode` |
| ViewSpec.BookView | frontend/graph-core/buildView.ts:116-130 | the node of a collapsed book; its fields are stated by `BookViewFields` and `CollapsedBookNode` |
| ViewSpec.ViewNodes | frontend/graph-core/buildView.ts:81-131 | the nodes of the view, the books' blocks in order; built by `BuildNodes` and specified by `BlocksOfAt`, `NodeShape`, `NodeIdsUnique` and `VisibleIffChapterNode` |
| ViewSpec.LinksOf | frontend/graph-core/buildView.ts:133-139 | `nextLinks`; built by `BuildLinks` and specified by `LinksOfMember`, `LinksOfAppend` and `LinksJoinChapterNodes` |
| View.CountChapters | frontend/graph-core/buildView.ts:43-49 | a book id is counted iff it has a chapter, and its count is its number of chapters |
| View.BuildColorMap | frontend/graph-core/buildView.ts:51-54 | the loop builds exactly `ColorMap` |
| View.BuildPrevPositions | frontend/graph-core/buildView.ts:60-64 | the loop builds exactly `PrevPositions` |
| View.EmitChapters | frontend/graph-core/buildView.ts:96-115 | pushes the chapter views of an expanded book and marks exactly their keys visible |
| View.EmitBook | frontend/graph-core/buildView.ts:116-130 | the node of a collapsed book, with its count read from the count map |
| View.EmitBlock | frontend/graph-core/buildView.ts:82-130 | one book's nodes, and the keys it makes visible |
| View.AddBook | frontend/graph-core/buildView.ts:82-130 | one pass of the book loop extends the nodes and visible keys of the books so far by the next book's block and keys |
| View.BuildNodes | frontend/graph-core/buildView.ts:81-131 | the loop over books pushes the books' blocks in order, and its visible set is the keys of the expanded books' chapters |
| View.BuildLinks | frontend/graph-core/buildView.ts:133-139 | the loop over edges builds exactly `LinksOf` |
| View.BuildView | frontend/graph-core/buildView.ts:28-142 | no graph gives no nodes and no links; otherwise the nodes are `ViewNodes` and the links are the edges between visible chapters |
| ViewProperties.BlocksOfAt | frontend/graph-core/buildView.ts:81-131 | block `k` of the nodes is the block of book `k`: the chapter views if it is expanded, its one book node otherwise |
| ViewProperties.NodeShape | frontend/graph-core/buildView.ts:81-130 | every node belongs to one of the books; a book node is `book-<id>` of a collapsed book; a chapter node is `chapter-<id>` of a chapter of an expanded book |
| ViewProperties.ExpandedBooksHaveNoBookNode | frontend/graph-core/buildView.ts:85-130 | no book node of the view belongs to an expanded book |
| ViewProperties.CollapsedBookShown | frontend/graph-core/buildView.ts:116-130 | a collapsed book's node is in the view |
| ViewProperties.ExpandedChaptersShown | frontend/graph-core/buildView.ts:95-115 | every chapter of an expanded book has its node in the view |
| ViewProperties.ChaptersOfBookUnique | frontend/graph-core/buildView.ts:95 | the per-book filter keeps ids unique |
| ViewProperties.BlockUnique | frontend/graph-core/buildView.ts:96-114 | the nodes of one book carry distinct ids |
| ViewProperties.BookAndChapterKeysDiffer | frontend/graph-core/buildView.ts:83-97 | a `book-` id never equals a `chapter-` id |
| ViewProperties.DifferentBooksDifferentKeys | frontend/graph-core/buildView.ts:83-97 | with unique chapter ids, nodes of different books have different ids |
| ViewProperties.NodeIdsUnique | frontend/graph-core/buildView.ts:81-131 | with unique book ids and unique chapter ids, the pushed nodes carry distinct ids |
| ViewProperties.ViewNodeIdsUnique | frontend/graph-core/buildView.ts:39 | node ids are unique across the view when the graph's book and chapter ids are unique |
| ViewProperties.KeysOfMember | frontend/graph-core/buildView.ts:114 | a key is marked visible iff it is `chapter-<id>` of one of the chapters concerned |
| ViewProperties.VisibleIffChapterNode | frontend/graph-core/buildView.ts:79-115 | a key is visible iff it is the id of a chapter node of the view |
| ViewProperties.LinksOfMember | frontend/graph-core/buildView.ts:133-139 | one link per edge with both chapter keys visible, carrying those keys and the edge's score, and no other links |
| ViewProperties.LinksOfAppend | frontend/graph-core/buildView.ts:133-139 | links keep the edge order: the links of concatenated edges are the concatenated links |
| ViewProperties.LinksJoinChapterNodes | frontend/graph-core/buildView.ts:36-37 | both ends of every link are chapter nodes of the same view |
| ViewProperties.ColorOfPosition | frontend/graph-core/buildView.ts:51-54 | with unique book ids, the book at position `i` gets `BOOK_COLORS[i % 5]` |
| ViewProperties.BookViewFields | frontend/graph-core/buildView.ts:116-130 | a collapsed book's node is `book-<id>`, of kind book, labelled with its id, in the given colour, with the chapter count when it has chapters and `size` otherwise, at the x and y carried over under its key |
| ViewProperties.ChapterViewFields | frontend/graph-core/buildView.ts:96-113 | a chapter's node is `chapter-<id>`, of kind chapter, in its book and colour, carrying its chapter id, labelled with its non-empty title or else its id, at the x and y carried over under its key |
| ViewProperties.CollapsedBookNode | frontend/graph-core/buildView.ts:116-130 | a collapsed book `i` shows `book-<id>`: labelled with its id, in colour `i % 5`, with a chapter count that is its number of chapters or else `size`, and at its carried-over position |
| ViewProperties.ExpandedChapterNode | frontend/graph-core/buildView.ts:96-113 | a chapter of expanded book `i` shows `chapter-<id>`: labelled with its non-empty title or else its id, in colour `i % 5`, with its chapter id, and at its carried-over position |
| ViewProperties.PrevPositionsSpec | frontend/graph-core/buildView.ts:60-64 | an id has a carried-over position iff some previous node with that id has both x and y; the position comes from the last such node |

## Left out

- TF-IDF and embedding computation are inputs, not computed.
  - Inputs: the vectoriser, `build_tfidf_index`, `extract_top_tfidf_tokens`, sklearn's `cosine_similarity`, and the embedding model.
  - The TF-IDF prototype takes the row matrix and the top-token map as parameters.
  - The TF-IDF cosine is the dot product of two rows. The vectoriser L2-normalises its rows, so on such rows the two agree.
- Vectors.Dot: the vector arithmetic is a concrete recursive dot product over `real`, so the scores are the exact sums of products that numpy computes in floating point.
- Vectors.Dot: rows of unequal length are cut to the shorter one. For such rows numpy raises instead, and the model does not capture that error.
- Floating point: scores, thresholds and percentages are `real`. NaN, rounding and overflow are not modelled.
- The `CandidateGenerator` and `SimilarityScorer` base classes are closed datatypes with one constructor per strategy in the repository. Properties are proved for those strategies only; a subclass outside them is not covered.
- The retrieval `TfidfSimilarityScorer` is a constructor of that datatype. Its score is the same `list.index` lookup as in `tfidf_similarity`, which raises on a missing id.
- Text.LowerChar lower-cases ASCII letters only. Python's `str.lower` also folds non-ASCII letters, so extracted keywords can differ on non-ASCII text.
- Aliasing: `signals.setdefault("features", {})` writes into the chapter's own dict; here it is modelled as a new value. Sharing of one dict between chapters is not modelled.
- An input that is not a dict or list where the code expects one, such as a `None` signals value, is not modelled: JSON shapes are datatypes with optional fields.
- File, YAML and JSON I/O, the spaCy load, the module-level scripts and their printing are not modelled.
- `compute_similarity` only raises `NotImplementedError`, and is not modelled.
- `console.warn` is logging, and is not modelled.
- `draw`, `rebuildGraph`, `findNodeAtPosition` and `getBookRadius` are canvas rendering, d3 simulation and float geometry, and are not modelled.
- ViewSpec.ChapterView: a chapter without a carried-over position gets x and y `None`. The source computes a spiral position around the book's previous position or the chapter centroid; the cos/sin and centroid geometry is not modelled.
- JavaScript `null` and `undefined` positions are both `None`. The view's `source`/`target` are string ids only, not the node objects d3 later puts there.
- `frontend/graph-core/types.js` is not part of this model. The `ActionTypes` constants are taken to be the action names (`"LOAD_GRAPH_START"`, …), as in `types.ts`.
- ReducerJs.ReduceJs: the actions' payload fields are untyped values of the right shape; a payload holding a value of some other type is not modelled.
- Reducer.Reduce: the state passed in is a value, so "the input set is never mutated" holds by construction rather than by a proof about a copy.
