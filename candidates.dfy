/** Candidate generation by shared top tokens: an inverted-index overlap counter with a cutoff. */
module TokenCandidates {

  const DefaultMinSharedTokens: int := 2

  /** `chapter_top_tokens.get(src_id, [])` */
  function TopTokens(chapterTopTokens: map<string, seq<string>>, src: string): seq<string> {
    if src in chapterTopTokens then chapterTopTokens[src] else []
  }

  /** `token_index.get(token, [])` */
  function Holders(tokenIndex: map<string, set<string>>, token: string): set<string> {
    if token in tokenIndex then tokenIndex[token] else {}
  }

  /** Every chapter listed under some token of `tokens`. */
  function Recalled(tokens: seq<string>, tokenIndex: map<string, set<string>>): set<string> {
    if tokens == [] then {}
    else Recalled(tokens[..|tokens| - 1], tokenIndex) + Holders(tokenIndex, tokens[|tokens| - 1])
  }

  /** The number of positions of `tokens` whose index entry lists `tgt`. */
  function OverlapCount(tokens: seq<string>, tokenIndex: map<string, set<string>>, tgt: string): nat {
    if tokens == [] then 0
    else
      OverlapCount(tokens[..|tokens| - 1], tokenIndex, tgt)
      + (if tgt in Holders(tokenIndex, tokens[|tokens| - 1]) then 1 else 0)
  }

  /** The ids that `generate(src_id)` returns: recalled, not the source, with overlap at least the cutoff. */
  function CandidateSet(src: string, chapterTopTokens: map<string, seq<string>>,
                        tokenIndex: map<string, set<string>>, minShared: int): set<string>
  {
    var tokens := TopTokens(chapterTopTokens, src);
    set t | t in Recalled(tokens, tokenIndex) && t != src && OverlapCount(tokens, tokenIndex, t) >= minShared
  }

  /** `generate_candidates(src_id, chapter_top_tokens, token_index, min_shared_tokens)`: count, per target,
      the source tokens listing it, then keep the targets that reach the cutoff. */
  method GenerateCandidates(src: string, chapterTopTokens: map<string, seq<string>>,
                            tokenIndex: map<string, set<string>>, minShared: int := DefaultMinSharedTokens)
    returns (r: set<string>)
    ensures r == CandidateSet(src, chapterTopTokens, tokenIndex, minShared)
  {
    var tokens := TopTokens(chapterTopTokens, src);
    var overlap: map<string, nat> := map[];
    var i := 0;
    while i < |tokens|
      invariant 0 <= i <= |tokens|
      invariant forall t :: t in overlap <==> t != src && t in Recalled(tokens[..i], tokenIndex)
      invariant forall t | t in overlap :: overlap[t] == OverlapCount(tokens[..i], tokenIndex, t)
    {
      var targets := Holders(tokenIndex, tokens[i]);
      var rest := targets;
      while rest != {}
        invariant rest <= targets
        invariant forall t :: t in overlap <==> t != src && (t in Recalled(tokens[..i], tokenIndex) || t in targets - rest)
        invariant forall t | t in overlap ::
          overlap[t] == OverlapCount(tokens[..i], tokenIndex, t) + (if t in targets - rest then 1 else 0)
      {
        var t :| t in rest;
        RecalledIffCounted(tokens[..i], tokenIndex, t);
        if t != src {
          overlap := overlap[t := (if t in overlap then overlap[t] else 0) + 1];
        }
        rest := rest - {t};
      }
      assert tokens[..i + 1][..i] == tokens[..i];
      i := i + 1;
    }
    assert tokens[..i] == tokens;
    r := set t | t in overlap && overlap[t] >= minShared;
  }

  /** A target is recalled exactly when at least one source token lists it. */
  lemma {:induction false} RecalledIffCounted(tokens: seq<string>, tokenIndex: map<string, set<string>>, t: string)
    ensures t in Recalled(tokens, tokenIndex) <==> OverlapCount(tokens, tokenIndex, t) >= 1
  {
    if tokens != [] {
      RecalledIffCounted(tokens[..|tokens| - 1], tokenIndex, t);
    }
  }

  /** Membership test of the result: not the source, and listed under at least `max(1, minShared)` source tokens
      (an id that no token lists never gets a counter). */
  lemma CandidateIff(src: string, chapterTopTokens: map<string, seq<string>>,
                     tokenIndex: map<string, set<string>>, minShared: int, t: string)
    ensures var n := OverlapCount(TopTokens(chapterTopTokens, src), tokenIndex, t);
      t in CandidateSet(src, chapterTopTokens, tokenIndex, minShared) <==> t != src && n >= 1 && n >= minShared
  {
    RecalledIffCounted(TopTokens(chapterTopTokens, src), tokenIndex, t);
  }

  /** Recalled ids are exactly those listed under some position of the token list. */
  lemma {:induction false} RecalledIsUnion(tokens: seq<string>, tokenIndex: map<string, set<string>>, t: string)
    ensures t in Recalled(tokens, tokenIndex) <==> exists p | 0 <= p < |tokens| :: t in Holders(tokenIndex, tokens[p])
  {
    if tokens != [] {
      var init := tokens[..|tokens| - 1];
      RecalledIsUnion(init, tokenIndex, t);
      assert forall p | 0 <= p < |init| :: init[p] == tokens[p];
    }
  }

  /** The result lies inside the union of the index entries of the source's tokens, and never holds the source. */
  lemma CandidatesWithinUnion(src: string, chapterTopTokens: map<string, seq<string>>,
                              tokenIndex: map<string, set<string>>, minShared: int, t: string)
    requires t in CandidateSet(src, chapterTopTokens, tokenIndex, minShared)
    ensures t != src
    ensures var tokens := TopTokens(chapterTopTokens, src);
      exists p | 0 <= p < |tokens| :: t in Holders(tokenIndex, tokens[p])
  {
    RecalledIsUnion(TopTokens(chapterTopTokens, src), tokenIndex, t);
  }

  /** A source with no top tokens, or missing from the map, has no candidates (and no error). */
  lemma NoTokensNoCandidates(src: string, chapterTopTokens: map<string, seq<string>>,
                             tokenIndex: map<string, set<string>>, minShared: int)
    requires src !in chapterTopTokens || chapterTopTokens[src] == []
    ensures CandidateSet(src, chapterTopTokens, tokenIndex, minShared) == {}
  {
  }

  /** Raising the cutoff can only shrink the result. */
  lemma CutoffMonotone(src: string, chapterTopTokens: map<string, seq<string>>,
                       tokenIndex: map<string, set<string>>, lo: int, hi: int)
    requires lo <= hi
    ensures CandidateSet(src, chapterTopTokens, tokenIndex, hi) <= CandidateSet(src, chapterTopTokens, tokenIndex, lo)
  {
  }

  /** With the default cutoff of 2, a chapter sharing two of `X::1`'s tokens is a candidate and one sharing
      a single token is not. */
  lemma DefaultCutoffScenario()
    ensures var ctt := map["X::1" := ["spring", "boot", "rest"]];
      var idx := map["spring" := {"X::1", "Y::3", "Y::4"}, "boot" := {"X::1", "Y::3"}, "rest" := {"X::1"}];
      CandidateSet("X::1", ctt, idx, DefaultMinSharedTokens) == {"Y::3"}
  {
    var ctt := map["X::1" := ["spring", "boot", "rest"]];
    var idx := map["spring" := {"X::1", "Y::3", "Y::4"}, "boot" := {"X::1", "Y::3"}, "rest" := {"X::1"}];
    var t1, t2, t3 := ["spring"], ["spring", "boot"], ["spring", "boot", "rest"];
    assert t1[..0] == [] && t2[..1] == t1 && t3[..2] == t2;
    assert Recalled(t1, idx) == {"X::1", "Y::3", "Y::4"};
    assert Recalled(t3, idx) == {"X::1", "Y::3", "Y::4"};
    assert OverlapCount(t1, idx, "Y::3") == 1 && OverlapCount(t2, idx, "Y::3") == 2;
    assert OverlapCount(t3, idx, "Y::3") == 2;
    assert OverlapCount(t1, idx, "Y::4") == 1 && OverlapCount(t2, idx, "Y::4") == 1;
    assert OverlapCount(t3, idx, "Y::4") == 1;
  }

  /** The CandidateGenerator interface, one constructor per strategy; the token-overlap one holds
      the top-token map, the inverted token index and `min_shared_tokens`. */
  datatype CandidateGenerator =
    TokenOverlapGenerator(chapterTopTokens: map<string, seq<string>>, tokenIndex: map<string, set<string>>, minSharedTokens: int := DefaultMinSharedTokens)

  /** What `generate(src_id)` returns. */
  function Candidates(g: CandidateGenerator, src: string): set<string> {
    CandidateSet(src, g.chapterTopTokens, g.tokenIndex, g.minSharedTokens)
  }

  /** `TfidfTokenCandidateGenerator.generate`: the same overlap count over the generator's own indices,
      which it only reads. */
  method Generate(g: CandidateGenerator, src: string) returns (r: set<string>)
    ensures r == Candidates(g, src)
    ensures src !in r
  {
    r := GenerateCandidates(src, g.chapterTopTokens, g.tokenIndex, g.minSharedTokens);
  }
}
