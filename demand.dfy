/** The demand side of the gap analysis: every posting's description is scored
    with the hybrid scorer and the scores are averaged per canonical skill. */
module DemandAggregator {

  import Text
  import opened Numeric
  import opened Dicts
  import SkillCatalog
  import Scoring

  /** A job posting as the job feed delivers it; only the description is scored. */
  datatype JobPosting = JobPosting(title: string, company: string, url: string, location: string, date: string, description: string)

  /** A skill's scores summed over the postings, a missing entry counting as 0. */
  function Total(ps: seq<map<string, real>>, s: string): real
  {
    if ps == [] then 0.0 else Total(ps[..|ps| - 1], s) + Get(ps[|ps| - 1], s, 0.0)
  }

  /** The averages over `skills`: nothing for no postings, otherwise the total
      divided by the number of postings. */
  function AverageOver(ps: seq<map<string, real>>, skills: seq<string>): (r: map<string, real>)
    ensures ps == [] ==> r == map[]
    ensures ps != [] ==> r.Keys == Elems(skills)
  {
    if ps == [] then map[] else map s | s in skills :: Total(ps, s) / |ps| as real
  }

  /** The result of `aggregate_job_skill_scores`, given each posting's score map. */
  function AverageScores(ps: seq<map<string, real>>): (r: map<string, real>)
    ensures ps == [] ==> r == map[]
    ensures ps != [] ==> r.Keys == Elems(SkillCatalog.CanonicalSkills)
  {
    AverageOver(ps, SkillCatalog.CanonicalSkills)
  }

  /** The score maps the aggregator computes, one per posting: each has the
      posting's semantic keys and values in [0,1]. */
  function PostingScores(jobs: seq<JobPosting>, sim: Scoring.Similarity): (ps: seq<map<string, real>>)
    ensures |ps| == |jobs|
    ensures forall i :: 0 <= i < |ps| ==> ps[i].Keys == Scoring.SemanticScores(jobs[i].description, sim).Keys
    ensures ScoresInUnit(ps)
  {
    seq(|jobs|, i requires 0 <= i < |jobs| => Scoring.HybridScores(jobs[i].description, sim, Scoring.DefaultKeywordBoost))
  }

  /** `aggregate_job_skill_scores`. */
  method AggregateJobSkillScores(jobs: seq<JobPosting>, sim: Scoring.Similarity) returns (avg: map<string, real>)
    ensures avg == AverageScores(PostingScores(jobs, sim))
  {
    var ps: seq<map<string, real>> := [];
    var i := 0;
    while i < |jobs|
      invariant i <= |jobs|
      invariant ps == PostingScores(jobs[..i], sim)
    {
      var scores := Scoring.HybridSkillScores(jobs[i].description, sim, Scoring.DefaultKeywordBoost);
      ps := ps + [scores];
      i := i + 1;
    }
    assert jobs[..i] == jobs;
    SkillCatalog.CanonicalSkillsDistinct();
    avg := Aggregate(ps, SkillCatalog.CanonicalSkills);
  }

  /** The accumulation into `agg` and the final division. */
  method Aggregate(ps: seq<map<string, real>>, skills: seq<string>) returns (avg: map<string, real>)
    requires NoDuplicates(skills)
    ensures avg == AverageOver(ps, skills)
  {
    if ps == [] {
      return map[];
    }
    var agg := map s | s in skills :: 0.0;
    var j := 0;
    while j < |ps|
      invariant j <= |ps|
      invariant agg.Keys == Elems(skills)
      invariant forall s :: s in agg ==> agg[s] == Total(ps[..j], s)
    {
      agg := AddPosting(agg, ps[..j], ps[j], skills);
      assert ps[..j + 1][..j] == ps[..j];
      j := j + 1;
    }
    assert ps[..j] == ps;
    var n := |ps| as real;
    avg := map s | s in skills :: agg[s] / n;
  }

  /** The inner loop: adds one posting's scores to the running totals. */
  method AddPosting(agg0: map<string, real>, done: seq<map<string, real>>, scores: map<string, real>, skills: seq<string>)
    returns (agg: map<string, real>)
    requires NoDuplicates(skills)
    requires agg0.Keys == Elems(skills) && forall s :: s in agg0 ==> agg0[s] == Total(done, s)
    ensures agg.Keys == Elems(skills) && forall s :: s in agg ==> agg[s] == Total(done + [scores], s)
  {
    agg := agg0;
    var i := 0;
    while i < |skills|
      invariant i <= |skills|
      invariant agg.Keys == Elems(skills)
      invariant forall k :: 0 <= k < |skills| ==>
        agg[skills[k]] == Total(done, skills[k]) + (if k < i then Get(scores, skills[k], 0.0) else 0.0)
    {
      agg := agg[skills[i] := agg[skills[i]] + Get(scores, skills[i], 0.0)];
      i := i + 1;
    }
    var all := done + [scores];
    assert all[..|all| - 1] == done;
    forall s | s in agg ensures agg[s] == Total(all, s) {
      var k :| 0 <= k < |skills| && skills[k] == s;
    }
  }

  /** `n` copies of one score map. */
  function Copies(m: map<string, real>, n: nat): seq<map<string, real>>
  {
    seq(n, i => m)
  }

  lemma {:induction false} TotalOfCopies(m: map<string, real>, n: nat, s: string)
    ensures Total(Copies(m, n), s) == n as real * Get(m, s, 0.0)
  {
    if n > 0 {
      assert Copies(m, n)[..n - 1] == Copies(m, n - 1);
      TotalOfCopies(m, n - 1, s);
    }
  }

  /** Averaging `n >= 1` copies of one posting's scores gives that posting's
      score for every canonical skill (0 where it has none); when the posting
      scores every canonical skill, the average is the posting's map itself. */
  lemma AverageOfCopies(m: map<string, real>, n: nat)
    requires n > 0
    ensures forall s :: s in SkillCatalog.CanonicalSkills ==> AverageScores(Copies(m, n))[s] == Get(m, s, 0.0)
    ensures m.Keys == Elems(SkillCatalog.CanonicalSkills) ==> AverageScores(Copies(m, n)) == m
  {
    AverageOverCopies(m, n, SkillCatalog.CanonicalSkills);
  }

  /** `aggregate_job_skill_scores` of `n >= 1` copies of one posting gives that
      posting's hybrid score for every canonical skill, whatever `n` is; when its
      description is not blank, the result is the posting's hybrid map itself. */
  lemma RepeatedPosting(p: JobPosting, n: nat, sim: Scoring.Similarity)
    requires n > 0
    ensures var h := Scoring.HybridScores(p.description, sim, Scoring.DefaultKeywordBoost);
      && (forall s :: s in SkillCatalog.CanonicalSkills ==>
            AverageScores(PostingScores(seq(n, _ => p), sim))[s] == Get(h, s, 0.0))
      && (!Text.IsBlank(p.description) ==> AverageScores(PostingScores(seq(n, _ => p), sim)) == h)
  {
    var h := Scoring.HybridScores(p.description, sim, Scoring.DefaultKeywordBoost);
    assert PostingScores(seq(n, _ => p), sim) == Copies(h, n);
    AverageOfCopies(h, n);
  }

  lemma AverageOverCopies(m: map<string, real>, n: nat, skills: seq<string>)
    requires n > 0
    ensures forall s :: s in skills ==> AverageOver(Copies(m, n), skills)[s] == Get(m, s, 0.0)
    ensures m.Keys == Elems(skills) ==> AverageOver(Copies(m, n), skills) == m
  {
    var avg := AverageOver(Copies(m, n), skills);
    forall s | s in skills ensures avg[s] == Get(m, s, 0.0) {
      TotalOfCopies(m, n, s);
      assert avg[s] == (n as real * Get(m, s, 0.0)) / n as real;
    }
  }

  ghost predicate ScoresInUnit(ps: seq<map<string, real>>)
  {
    forall i, s :: 0 <= i < |ps| && s in ps[i] ==> InUnit(ps[i][s])
  }

  lemma {:induction false} TotalBounds(ps: seq<map<string, real>>, s: string)
    requires ScoresInUnit(ps)
    ensures 0.0 <= Total(ps, s) <= |ps| as real
  {
    if ps != [] {
      var init := ps[..|ps| - 1];
      assert ScoresInUnit(init) by {
        forall i, u | 0 <= i < |init| && u in init[i] ensures InUnit(init[i][u]) {
          assert init[i] == ps[i];
        }
      }
      TotalBounds(init, s);
    }
  }

  /** Averages of scores in [0,1] stay in [0,1]. */
  lemma AverageInUnit(ps: seq<map<string, real>>)
    requires ScoresInUnit(ps)
    ensures forall s :: s in AverageScores(ps) ==> InUnit(AverageScores(ps)[s])
  {
    forall s | s in AverageScores(ps) ensures InUnit(AverageScores(ps)[s]) {
      TotalBounds(ps, s);
      var n := |ps| as real;
      assert AverageScores(ps)[s] == Total(ps, s) / n;
      QuotientInUnit(Total(ps, s), n);
    }
  }

  /** A total between 0 and the number of postings averages into [0,1]. */
  lemma QuotientInUnit(x: real, n: real)
    requires n > 0.0 && 0.0 <= x <= n
    ensures InUnit(x / n)
  {
    assert (x / n) * n == x;
  }

  /** The aggregated job scores are in [0,1]: each posting's hybrid scores are. */
  lemma JobScoresInUnit(jobs: seq<JobPosting>, sim: Scoring.Similarity)
    ensures forall s :: s in AverageScores(PostingScores(jobs, sim)) ==> InUnit(AverageScores(PostingScores(jobs, sim))[s])
  {
    AverageInUnit(PostingScores(jobs, sim));
  }
}
