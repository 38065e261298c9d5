/** The similarity scorers: `score(src_id, tgt_id)` is a lookup into a precomputed row matrix. */
module Similarity {
  import opened Outcomes
  import opened Vectors

  /** The embedding index handed to the embedding scorer: one row per chapter id, and an optional model name. */
  datatype EmbeddingIndex = EmbeddingIndex(chapterIds: seq<string>, embeddings: seq<seq<real>>, modelName: Option<string>)

  /** The TF-IDF index: the ordered chapter ids and one (L2-normalised) matrix row per id. */
  datatype TfidfIndex = TfidfIndex(chapterIds: seq<string>, tfidfMatrix: seq<seq<real>>)

  /** The SimilarityScorer interface, one constructor per concrete strategy. */
  datatype Scorer =
    | EmbeddingScorer(chapterIds: seq<string>, embeddings: seq<seq<real>>, idToIdx: map<string, nat>, modelName: string)
    | TfidfScorer(index: TfidfIndex)

  /** `{cid: i for i, cid in enumerate(chapter_ids)}`: each id maps to its position, a repeated id to its last one. */
  function PositionMap(ids: seq<string>): (m: map<string, nat>)
    ensures m.Keys == set x | x in ids
    ensures forall x | x in m :: m[x] < |ids| && ids[m[x]] == x
  {
    if ids == [] then map[]
    else
      var init := ids[..|ids| - 1];
      assert (set x | x in ids) == (set x | x in init) + {ids[|ids| - 1]};
      PositionMap(init)[ids[|ids| - 1] := |ids| - 1]
  }

  /** A repeated id keeps its last position: no later position holds it. */
  lemma {:induction false} PositionMapIsLast(ids: seq<string>, x: string, k: int)
    requires x in PositionMap(ids) && PositionMap(ids)[x] < k < |ids|
    ensures ids[k] != x
  {
    var init := ids[..|ids| - 1];
    if x != ids[|ids| - 1] && k < |ids| - 1 {
      PositionMapIsLast(init, x, k);
    }
  }

  /** `EmbeddingSimilarityScorer.__init__`: keeps the rows, builds the id-to-row table, and takes the model
      name, `"embedding"` when the index gives none. */
  function NewEmbeddingScorer(index: EmbeddingIndex): (sc: Scorer)
    ensures sc.EmbeddingScorer? && sc.chapterIds == index.chapterIds && sc.embeddings == index.embeddings
    ensures sc.idToIdx.Keys == set x | x in index.chapterIds
    ensures forall x | x in sc.idToIdx :: sc.idToIdx[x] < |index.chapterIds| && index.chapterIds[sc.idToIdx[x]] == x
    ensures index.modelName.None? ==> sc.modelName == "embedding"
    ensures index.modelName.Some? ==> sc.modelName == index.modelName.value
  {
    EmbeddingScorer(index.chapterIds, index.embeddings, PositionMap(index.chapterIds), index.modelName.GetOr("embedding"))
  }

  /** `chapter_ids.index(x)`: the first position of `x`, or the ValueError `list.index` raises. */
  function IndexOf(ids: seq<string>, x: string): (r: Result<nat>)
    ensures r.Ok? <==> x in ids
    ensures r.Ok? ==> r.value < |ids| && ids[r.value] == x && forall k | 0 <= k < r.value :: ids[k] != x
    ensures r.Err? ==> r.error == ValueError(x)
  {
    if ids == [] then Err(ValueError(x))
    else if ids[0] == x then Ok(0)
    else
      match IndexOf(ids[1..], x)
      case Ok(i) => Ok(i + 1)
      case Err(e) => Err(e)
  }

  /** `tfidf_matrix[i]`, or the IndexError of a row past the end. */
  function Row(matrix: seq<seq<real>>, i: nat): Result<seq<real>> {
    if i < |matrix| then Ok(matrix[i]) else Err(IndexError(i))
  }

  /** TF-IDF similarity of two chapters: the cosine of their rows, found by `list.index`. The vectoriser
      L2-normalises every row, so the cosine is the dot product. */
  function TfidfCosine(index: TfidfIndex, src: string, tgt: string): Result<real> {
    match IndexOf(index.chapterIds, src)
    case Err(e) => Err(e)
    case Ok(i) =>
      match IndexOf(index.chapterIds, tgt)
      case Err(e) => Err(e)
      case Ok(j) =>
        match Row(index.tfidfMatrix, i)
        case Err(e) => Err(e)
        case Ok(u) =>
          match Row(index.tfidfMatrix, j)
          case Err(e) => Err(e)
          case Ok(v) => Ok(Dot(u, v))
  }

  /** `score(src_id, tgt_id)` of either strategy. */
  function Score(sc: Scorer, src: string, tgt: string): Result<real> {
    match sc
    case EmbeddingScorer(_, embeddings, idToIdx, _) =>
      if src !in idToIdx || tgt !in idToIdx then Ok(0.0)
      else
        (match Row(embeddings, idToIdx[src])
         case Err(e) => Err(e)
         case Ok(u) =>
           match Row(embeddings, idToIdx[tgt])
           case Err(e) => Err(e)
           case Ok(v) => Ok(Dot(u, v)))
    case TfidfScorer(index) => TfidfCosine(index, src, tgt)
  }

  /** The `name` property, used verbatim as the edge type. */
  function Name(sc: Scorer): string {
    match sc
    case EmbeddingScorer(_, _, _, _) => "embedding"
    case TfidfScorer(_) => "tfidf"
  }

  /** Silent degrade: an id missing from the embedding table scores exactly 0.0 and raises nothing. */
  lemma EmbeddingMissingIdScoresZero(index: EmbeddingIndex, src: string, tgt: string)
    requires src !in index.chapterIds || tgt !in index.chapterIds
    ensures Score(NewEmbeddingScorer(index), src, tgt) == Ok(0.0)
  {
  }

  /** With both ids present and one row per id, the embedding score is the dot product of their rows. */
  lemma EmbeddingPresentIdsScoreDot(index: EmbeddingIndex, src: string, tgt: string)
    requires |index.embeddings| == |index.chapterIds|
    requires src in index.chapterIds && tgt in index.chapterIds
    ensures var m := PositionMap(index.chapterIds);
      Score(NewEmbeddingScorer(index), src, tgt) == Ok(Dot(index.embeddings[m[src]], index.embeddings[m[tgt]]))
  {
  }

  /** An embedding scorer over an index with one row per id never raises. */
  lemma EmbeddingNeverFails(index: EmbeddingIndex, src: string, tgt: string)
    requires |index.embeddings| == |index.chapterIds|
    ensures Score(NewEmbeddingScorer(index), src, tgt).Ok?
  {
  }

  /** A TF-IDF score fails exactly when an id is absent from the ordered id list (one row per id). */
  lemma TfidfFailsOnMissingId(index: TfidfIndex, src: string, tgt: string)
    requires |index.tfidfMatrix| == |index.chapterIds|
    ensures TfidfCosine(index, src, tgt).Ok? <==> src in index.chapterIds && tgt in index.chapterIds
  {
  }

  /** Both scorers are symmetric: `score(a, b)` succeeds iff `score(b, a)` does, with the same value. */
  lemma ScoreSymmetric(sc: Scorer, a: string, b: string)
    ensures Score(sc, a, b).Ok? <==> Score(sc, b, a).Ok?
    ensures Score(sc, a, b).Ok? ==> Score(sc, a, b).value == Score(sc, b, a).value
  {
    match sc
    case EmbeddingScorer(_, embeddings, idToIdx, _) =>
      if a in idToIdx && b in idToIdx && idToIdx[a] < |embeddings| && idToIdx[b] < |embeddings| {
        DotSymmetric(embeddings[idToIdx[a]], embeddings[idToIdx[b]]);
      }
    case TfidfScorer(index) =>
      var i, j := IndexOf(index.chapterIds, a), IndexOf(index.chapterIds, b);
      if i.Ok? && j.Ok? && i.value < |index.tfidfMatrix| && j.value < |index.tfidfMatrix| {
        DotSymmetric(index.tfidfMatrix[i.value], index.tfidfMatrix[j.value]);
      }
  }

  /** The embedding scorer's name is `"embedding"` whatever model produced the vectors. */
  lemma EmbeddingNameIgnoresModel(index: EmbeddingIndex)
    ensures Name(NewEmbeddingScorer(index)) == "embedding"
  {
  }

  /** A repeated id resolves to different rows in the two scorers: the embedding table keeps the last
      position, `list.index` finds the first. */
  lemma RepeatedIdPositions()
    ensures PositionMap(["x", "y", "x"])["x"] == 2
    ensures IndexOf(["x", "y", "x"], "x") == Ok(0)
  {
    assert ["x", "y", "x"][2] == "x";
  }
}
