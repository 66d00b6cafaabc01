/** The semantic scorer and the hybrid scorer. The sentence embedding behind
    the semantic score is not modelled: its cosine similarity between a text
    and a skill phrase is the parameter `sim`. */
module Scoring {

  import opened Text
  import opened Numeric
  import opened Dicts
  import SkillCatalog
  import AliasMatcher

  /** Cosine similarity between the embedding of a text and that of a skill phrase. */
  type Similarity = (string, string) -> real

  /** What normalised embeddings guarantee: every similarity of `text` with a
      canonical skill lies in [-1,1]. */
  ghost predicate CosineBounded(sim: Similarity, text: string, skills: seq<string>)
  {
    forall s :: s in skills ==> -1.0 <= sim(text, s) <= 1.0
  }

  /** The default `keyword_boost`. */
  const DefaultKeywordBoost: real := 0.25

  /** `semantic_skill_scores`: nothing for empty or whitespace-only text,
      otherwise one score per canonical skill, the similarity moved from
      [-1,1] to [0,1]. */
  function SemanticScores(text: string, sim: Similarity): (r: map<string, real>)
    ensures IsBlank(text) ==> r == map[]
    ensures !IsBlank(text) ==> r.Keys == Elems(SkillCatalog.CanonicalSkills)
  {
    SemanticOver(text, SkillCatalog.CanonicalSkills, sim)
  }

  function SemanticOver(text: string, skills: seq<string>, sim: Similarity): (r: map<string, real>)
    ensures IsBlank(text) ==> r == map[]
    ensures !IsBlank(text) ==> r.Keys == Elems(skills)
  {
    if IsBlank(text) then map[]
    else map s | s in skills :: (sim(text, s) + 1.0) / 2.0
  }

  /** The catalog has no repeated skill, so the map has exactly one entry per catalog row. */
  lemma SemanticScoresSize(text: string, sim: Similarity)
    requires !IsBlank(text)
    ensures |SemanticScores(text, sim)| == |SkillCatalog.CanonicalSkills| == 28
  {
    SkillCatalog.CanonicalSkillsDistinct();
    SkillCatalog.CatalogShape();
    DistinctCardinality(SkillCatalog.CanonicalSkills);
  }

  /** With similarities in [-1,1] every semantic score is in [0,1], and a
      larger similarity gives a larger score. */
  lemma SemanticScoresInUnit(text: string, sim: Similarity)
    requires CosineBounded(sim, text, SkillCatalog.CanonicalSkills)
    ensures forall s :: s in SemanticScores(text, sim) ==> InUnit(SemanticScores(text, sim)[s])
    ensures forall s, u :: s in SemanticScores(text, sim) && u in SemanticScores(text, sim) && sim(text, s) <= sim(text, u) ==>
      SemanticScores(text, sim)[s] <= SemanticScores(text, sim)[u]
  {
  }

  /** The rescale loses nothing: each score maps back to its similarity. */
  lemma SemanticScoresRescale(text: string, sim: Similarity)
    ensures forall s :: s in SemanticScores(text, sim) ==> 2.0 * SemanticScores(text, sim)[s] - 1.0 == sim(text, s)
  {
  }

  /** The boost a skill earns: `keyword_boost` when the keyword detector counted it. */
  function Boost(kw: map<string, nat>, s: string, keywordBoost: real): real
  {
    if Get(kw, s, 0) > 0 then keywordBoost else 0.0
  }

  /** `hybrid_skill_scores`: the semantic score plus the boost, clamped to [0,1]. */
  function HybridScores(text: string, sim: Similarity, keywordBoost: real): (r: map<string, real>)
    ensures r.Keys == SemanticScores(text, sim).Keys
    ensures forall s :: s in r ==> InUnit(r[s])
  {
    Combine(SemanticScores(text, sim), AliasMatcher.KeywordCounts(text), keywordBoost)
  }

  /** Boosted and clamped semantic scores, given the keyword counts. */
  function Combine(sims: map<string, real>, kw: map<string, nat>, keywordBoost: real): (r: map<string, real>)
    ensures r.Keys == sims.Keys
    ensures forall s :: s in r ==> InUnit(r[s])
  {
    map s | s in sims :: Clamp01(sims[s] + Boost(kw, s, keywordBoost))
  }

  /** `hybrid_skill_scores`. */
  method HybridSkillScores(text: string, sim: Similarity, keywordBoost: real) returns (out: map<string, real>)
    ensures out == HybridScores(text, sim, keywordBoost)
  {
    var sims := SemanticScores(text, sim);
    var kw := AliasMatcher.DetectSkillsKeyword(text);
    out := CombineLoop(sims, kw, keywordBoost);
  }

  /** The loop filling `out`, one semantic entry at a time. */
  method CombineLoop(sims: map<string, real>, kw: map<string, nat>, keywordBoost: real) returns (out: map<string, real>)
    ensures out == Combine(sims, kw, keywordBoost)
  {
    out := map[];
    var todo := sims.Keys;
    while todo != {}
      invariant todo <= sims.Keys
      invariant out.Keys == sims.Keys - todo
      invariant forall s :: s in out ==> out[s] == Clamp01(sims[s] + Boost(kw, s, keywordBoost))
      decreases |todo|
    {
      var s :| s in todo;
      var boost := if Get(kw, s, 0) > 0 then keywordBoost else 0.0;
      out := out[s := Clamp01(sims[s] + boost)];
      todo := todo - {s};
    }
    CombineByEntries(out, sims, kw, keywordBoost);
  }

  /** A map with the semantic keys and the combined value at each is `Combine`'s result. */
  lemma CombineByEntries(out: map<string, real>, sims: map<string, real>, kw: map<string, nat>, keywordBoost: real)
    requires out.Keys == sims.Keys
    requires forall s :: s in out ==> out[s] == Clamp01(sims[s] + Boost(kw, s, keywordBoost))
    ensures out == Combine(sims, kw, keywordBoost)
  {
  }

  /** A blank text scores nothing; otherwise every canonical skill gets a hybrid score. */
  lemma HybridScoresKeys(text: string, sim: Similarity, keywordBoost: real)
    ensures IsBlank(text) ==> HybridScores(text, sim, keywordBoost) == map[]
    ensures !IsBlank(text) ==> forall s :: s in HybridScores(text, sim, keywordBoost) <==> s in SkillCatalog.CanonicalSkills
  {
  }

  /** For a semantic score in [0,1] and a non-negative boost (0.25 by default),
      the hybrid score is `min(1, v + boost)` when the keyword detector counted
      the skill and `v` otherwise; either way it is at least `v`. */
  lemma HybridScoreValue(text: string, sim: Similarity, keywordBoost: real, s: string)
    requires s in SemanticScores(text, sim) && InUnit(SemanticScores(text, sim)[s]) && keywordBoost >= 0.0
    ensures var v := SemanticScores(text, sim)[s];
      var h := HybridScores(text, sim, keywordBoost)[s];
      && (s in AliasMatcher.KeywordCounts(text) ==> h == Min(1.0, v + keywordBoost))
      && (s !in AliasMatcher.KeywordCounts(text) ==> h == v)
      && h >= v
  {
    AliasMatcher.KeywordCountsPositive(text);
    CombineValue(SemanticScores(text, sim), AliasMatcher.KeywordCounts(text), keywordBoost, s);
  }

  /** One combined score, given positive keyword counts. */
  lemma CombineValue(sims: map<string, real>, kw: map<string, nat>, keywordBoost: real, s: string)
    requires s in sims && InUnit(sims[s]) && keywordBoost >= 0.0
    requires forall u :: u in kw ==> kw[u] > 0
    ensures var h := Combine(sims, kw, keywordBoost)[s];
      && (s in kw ==> h == Min(1.0, sims[s] + keywordBoost))
      && (s !in kw ==> h == sims[s])
      && h >= sims[s]
  {
  }
}
