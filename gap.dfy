/** The gap analysis: for each canonical skill, how far the resume's score falls
    short of the averaged job score, kept when the skill is in demand and the
    shortfall is noticeable, then ordered largest gap first. */
module GapAnalyzer {

  import opened Text
  import opened Numeric
  import opened Dicts
  import opened Sorting
  import SkillCatalog

  /** One row of the result; the three scores are rounded to three decimals. */
  datatype GapRow = GapRow(skill: string, resumeScore: real, jobScore: real, gap: real)

  /** The default `job_threshold`. */
  const DefaultJobThreshold: real := 0.40

  /** A skill is reported when its (unrounded) job score reaches the threshold
      and exceeds the resume score by more than 0.05. */
  predicate Included(r: real, j: real, threshold: real)
  {
    j >= threshold && j - r > 0.05
  }

  function MakeRow(s: string, r: real, j: real): GapRow
  {
    GapRow(s, Round3(r), Round3(j), Round3(j - r))
  }

  /** The rows appended by the loop over `skills`, in that order. */
  function Candidates(resume: map<string, real>, job: map<string, real>, threshold: real, skills: seq<string>): seq<GapRow>
  {
    if skills == [] then []
    else
      var rows := Candidates(resume, job, threshold, skills[..|skills| - 1]);
      var s := skills[|skills| - 1];
      var r, j := Get(resume, s, 0.0), Get(job, s, 0.0);
      if Included(r, j, threshold) then rows + [MakeRow(s, r, j)] else rows
  }

  /** The sort key `(-gap, -job_score, skill)`: `a` comes strictly before `b`. */
  predicate GapBefore(a: GapRow, b: GapRow)
  {
    || a.gap > b.gap
    || (a.gap == b.gap && a.jobScore > b.jobScore)
    || (a.gap == b.gap && a.jobScore == b.jobScore && LexLess(a.skill, b.skill))
  }

  lemma GapBeforeStrictWeakOrder()
    ensures StrictWeakOrder(GapBefore)
  {
    forall a: GapRow, b: GapRow | GapBefore(a, b) ensures !GapBefore(b, a) {
      LexLessAsymmetric(a.skill, b.skill);
    }
    forall a: GapRow, b: GapRow, c: GapRow | !GapBefore(a, b) && !GapBefore(b, c) ensures !GapBefore(a, c) {
      if a.gap == b.gap == c.gap && a.jobScore == b.jobScore == c.jobScore {
        LexLessTotal(a.skill, b.skill);
        LexLessTotal(b.skill, c.skill);
        LexLessTransitive(c.skill, b.skill, a.skill);
        LexLessIrreflexive(a.skill);
        LexLessAsymmetric(a.skill, c.skill);
        if a.skill == b.skill { } else if b.skill == c.skill { }
      }
    }
  }

  /** The rows of `skill_gap_analysis`, given the two score maps. */
  function GapRowsOver(resume: map<string, real>, job: map<string, real>, threshold: real, skills: seq<string>): (rows: seq<GapRow>)
    ensures SortedBy(GapBefore, rows)
    ensures multiset(rows) == multiset(Candidates(resume, job, threshold, skills))
  {
    GapBeforeStrictWeakOrder();
    Sort(Candidates(resume, job, threshold, skills), GapBefore)
  }

  function GapRows(resume: map<string, real>, job: map<string, real>, threshold: real): (rows: seq<GapRow>)
    ensures SortedBy(GapBefore, rows)
    ensures multiset(rows) == multiset(Candidates(resume, job, threshold, SkillCatalog.CanonicalSkills))
  {
    GapRowsOver(resume, job, threshold, SkillCatalog.CanonicalSkills)
  }

  /** The part of `skill_gap_analysis` after the two score maps are known. */
  method SkillGapAnalysis(resume: map<string, real>, job: map<string, real>, threshold: real) returns (rows: seq<GapRow>)
    ensures rows == GapRows(resume, job, threshold)
  {
    rows := CollectRows(resume, job, threshold, SkillCatalog.CanonicalSkills);
    GapBeforeStrictWeakOrder();
    rows := Sort(rows, GapBefore);
  }

  /** The loop appending one row per included skill. */
  method CollectRows(resume: map<string, real>, job: map<string, real>, threshold: real, skills: seq<string>)
    returns (rows: seq<GapRow>)
    ensures rows == Candidates(resume, job, threshold, skills)
  {
    rows := [];
    var i := 0;
    while i < |skills|
      invariant i <= |skills|
      invariant rows == Candidates(resume, job, threshold, skills[..i])
    {
      var s := skills[i];
      var r := Get(resume, s, 0.0);
      var j := Get(job, s, 0.0);
      var gap := j - r;
      assert skills[..i + 1][..i] == skills[..i];
      if j >= threshold && gap > 0.05 {
        rows := rows + [GapRow(s, Round3(r), Round3(j), Round3(gap))];
      }
      i := i + 1;
    }
    assert skills[..i] == skills;
  }

  // ---------------------------------------------------------------------------
  // Which rows there are.

  /** Every candidate row belongs to an included skill of `skills`, built from
      its two scores (absent ones read as 0); every included skill has a row;
      with distinct skills, no skill has two rows. */
  lemma {:induction false} CandidatesSpec(resume: map<string, real>, job: map<string, real>, threshold: real, skills: seq<string>)
    ensures forall row :: row in Candidates(resume, job, threshold, skills) ==>
      && row.skill in skills
      && Included(Get(resume, row.skill, 0.0), Get(job, row.skill, 0.0), threshold)
      && row == MakeRow(row.skill, Get(resume, row.skill, 0.0), Get(job, row.skill, 0.0))
    ensures forall s :: s in skills && Included(Get(resume, s, 0.0), Get(job, s, 0.0), threshold) ==>
      MakeRow(s, Get(resume, s, 0.0), Get(job, s, 0.0)) in Candidates(resume, job, threshold, skills)
    ensures NoDuplicates(skills) ==> UniqueSkills(Candidates(resume, job, threshold, skills))
  {
    if skills != [] {
      var init := skills[..|skills| - 1];
      var s := skills[|skills| - 1];
      CandidatesSpec(resume, job, threshold, init);
      assert skills == init + [s];
      if NoDuplicates(skills) {
        assert NoDuplicates(init) by {
          forall a, b | 0 <= a < b < |init| ensures init[a] != init[b] {
            assert init[a] == skills[a] && init[b] == skills[b];
          }
        }
        assert s !in init by {
          forall a | 0 <= a < |init| ensures init[a] != s {
            assert init[a] == skills[a];
          }
        }
      }
    }
  }

  /** No two rows share a skill. */
  ghost predicate UniqueSkills(rows: seq<GapRow>)
  {
    forall i, j :: 0 <= i < j < |rows| ==> rows[i].skill != rows[j].skill
  }

  /** Rearranging rows keeps their skills unique. */
  lemma UniqueSkillsOfPermutation(a: seq<GapRow>, b: seq<GapRow>)
    requires UniqueSkills(a) && multiset(a) == multiset(b)
    ensures UniqueSkills(b)
  {
    forall i, j | 0 <= i < j < |b| ensures b[i].skill != b[j].skill {
      assert b[i] in multiset(a) && b[j] in multiset(a);
      var p :| 0 <= p < |a| && a[p] == b[i];
      var q :| 0 <= q < |a| && a[q] == b[j];
      CountOfUnique(a, p);
      CountAtTwo(b, i, j);
      assert p != q;
    }
  }

  lemma CountAtTwo<T>(b: seq<T>, i: nat, j: nat)
    requires i < j < |b|
    ensures multiset(b)[b[i]] >= if b[i] == b[j] then 2 else 1
  {
    assert b == b[..i] + [b[i]] + b[i + 1..j] + [b[j]] + b[j + 1..];
  }

  /** A row of a sequence with unique skills occurs in it once. */
  lemma CountOfUnique(a: seq<GapRow>, p: nat)
    requires UniqueSkills(a) && p < |a|
    ensures multiset(a)[a[p]] == 1
  {
    var x := a[p];
    var front, back := a[..p], a[p + 1..];
    assert a == front + [x] + back;
    assert x !in front by {
      forall k | 0 <= k < |front| ensures front[k] != x { assert front[k] == a[k]; }
    }
    assert x !in back by {
      forall k | 0 <= k < |back| ensures back[k] != x { assert back[k] == a[p + 1 + k]; }
    }
  }

  // ---------------------------------------------------------------------------
  // The result over the catalog.

  /** `skill_gap_analysis` reports a canonical skill exactly when its job score
      (0.0 if absent) reaches the threshold and exceeds its resume score (0.0 if
      absent) by more than 0.05, both unrounded; the row holds the rounded scores
      and gap; no skill has two rows. */
  lemma GapRowsSpec(resume: map<string, real>, job: map<string, real>, threshold: real)
    ensures forall row :: row in GapRows(resume, job, threshold) ==>
      && row.skill in SkillCatalog.CanonicalSkills
      && Included(Get(resume, row.skill, 0.0), Get(job, row.skill, 0.0), threshold)
      && row == MakeRow(row.skill, Get(resume, row.skill, 0.0), Get(job, row.skill, 0.0))
    ensures forall s :: s in SkillCatalog.CanonicalSkills && Included(Get(resume, s, 0.0), Get(job, s, 0.0), threshold) ==>
      MakeRow(s, Get(resume, s, 0.0), Get(job, s, 0.0)) in GapRows(resume, job, threshold)
    ensures UniqueSkills(GapRows(resume, job, threshold))
  {
    CatalogNoDuplicates();
    GapRowsOverSpec(resume, job, threshold, SkillCatalog.CanonicalSkills);
  }

  lemma CatalogNoDuplicates()
    ensures NoDuplicates(SkillCatalog.CanonicalSkills)
  {
    SkillCatalog.CanonicalSkillsDistinct();
  }

  lemma GapRowsOverSpec(resume: map<string, real>, job: map<string, real>, threshold: real, skills: seq<string>)
    requires NoDuplicates(skills)
    ensures forall row :: row in GapRowsOver(resume, job, threshold, skills) ==>
      && row.skill in skills
      && Included(Get(resume, row.skill, 0.0), Get(job, row.skill, 0.0), threshold)
      && row == MakeRow(row.skill, Get(resume, row.skill, 0.0), Get(job, row.skill, 0.0))
    ensures forall s :: s in skills && Included(Get(resume, s, 0.0), Get(job, s, 0.0), threshold) ==>
      MakeRow(s, Get(resume, s, 0.0), Get(job, s, 0.0)) in GapRowsOver(resume, job, threshold, skills)
    ensures UniqueSkills(GapRowsOver(resume, job, threshold, skills))
  {
    var cands := Candidates(resume, job, threshold, skills);
    var rows := GapRowsOver(resume, job, threshold, skills);
    CandidatesSpec(resume, job, threshold, skills);
    UniqueSkillsOfPermutation(cands, rows);
    forall row | row in rows ensures row in cands {
      assert row in multiset(rows);
    }
    forall row | row in cands ensures row in rows {
      assert row in multiset(cands);
    }
  }

  /** Distinct skills make the key order total on the rows. */
  lemma TotalOnUniqueSkills(rows: seq<GapRow>)
    requires UniqueSkills(rows)
    ensures TotalOn(GapBefore, rows)
  {
    forall x, y | x in rows && y in rows && x != y ensures GapBefore(x, y) || GapBefore(y, x) {
      var p :| 0 <= p < |rows| && rows[p] == x;
      var q :| 0 <= q < |rows| && rows[q] == y;
      assert p != q;
      LexLessTotal(x.skill, y.skill);
    }
  }

  /** No two rows tie: each row comes strictly before every later one, so equal
      gaps are broken by the job score and then by the skill name. */
  lemma GapRowsStrictlyOrdered(resume: map<string, real>, job: map<string, real>, threshold: real)
    ensures forall i, j :: 0 <= i < j < |GapRows(resume, job, threshold)| ==>
      GapBefore(GapRows(resume, job, threshold)[i], GapRows(resume, job, threshold)[j])
  {
    var rows := GapRows(resume, job, threshold);
    GapRowsSpec(resume, job, threshold);
    forall i, j | 0 <= i < j < |rows| ensures GapBefore(rows[i], rows[j]) {
      assert rows[i].skill != rows[j].skill;
      LexLessTotal(rows[i].skill, rows[j].skill);
    }
  }

  /** Skill names are distinct, so the order is total: the rows are the only
      arrangement of the candidate rows that the sort key orders, whatever
      order the candidates were collected in and whether or not the sort is
      stable. */
  lemma GapRowsUnique(resume: map<string, real>, job: map<string, real>, threshold: real, t: seq<GapRow>)
    requires SortedBy(GapBefore, t)
    requires multiset(t) == multiset(Candidates(resume, job, threshold, SkillCatalog.CanonicalSkills))
    ensures t == GapRows(resume, job, threshold)
  {
    var rows := GapRows(resume, job, threshold);
    GapRowsSpec(resume, job, threshold);
    TotalOnUniqueSkills(rows);
    GapBeforeStrictWeakOrder();
    SortedUnique(rows, t, GapBefore);
  }

  lemma {:induction false} NoneIncluded(resume: map<string, real>, job: map<string, real>, threshold: real, skills: seq<string>)
    requires forall u :: u in skills ==> !Included(Get(resume, u, 0.0), Get(job, u, 0.0), threshold)
    ensures Candidates(resume, job, threshold, skills) == []
  {
    if skills != [] {
      var init := skills[..|skills| - 1];
      assert skills[|skills| - 1] in skills;
      assert forall u :: u in init ==> u in skills;
      NoneIncluded(resume, job, threshold, init);
    }
  }

  lemma {:induction false} OnlyOneIncluded(resume: map<string, real>, job: map<string, real>, threshold: real, skills: seq<string>, s: string)
    requires NoDuplicates(skills) && s in skills
    requires forall u :: u in skills ==> (Included(Get(resume, u, 0.0), Get(job, u, 0.0), threshold) <==> u == s)
    ensures Candidates(resume, job, threshold, skills) == [MakeRow(s, Get(resume, s, 0.0), Get(job, s, 0.0))]
  {
    var init := skills[..|skills| - 1];
    var last := skills[|skills| - 1];
    assert skills == init + [last];
    assert forall u :: u in init ==> u in skills;
    assert NoDuplicates(init) by {
      forall a, b | 0 <= a < b < |init| ensures init[a] != init[b] {
        assert init[a] == skills[a] && init[b] == skills[b];
      }
    }
    if last == s {
      assert s !in init by {
        forall a | 0 <= a < |init| ensures init[a] != s { assert init[a] == skills[a]; }
      }
      NoneIncluded(resume, job, threshold, init);
    } else {
      OnlyOneIncluded(resume, job, threshold, init, s);
    }
  }

  /** A resume without "sql" against a job score of 0.5 for it: with the
      threshold at 0.40 the one row is ("sql", 0.000, 0.500, 0.500); at 0.60 there is none. */
  lemma SqlGapExample()
    ensures GapRows(map[], map["sql" := 0.5], 0.40) == [GapRow("sql", 0.0, 0.5, 0.5)]
    ensures GapRows(map[], map["sql" := 0.5], 0.60) == []
  {
    var job := map["sql" := 0.5];
    var resume: map<string, real> := map[];
    CatalogNoDuplicates();
    SkillCatalog.CatalogShape();
    assert "sql" == SkillCatalog.CanonicalSkills[3];
    OnlyOneIncluded(resume, job, 0.40, SkillCatalog.CanonicalSkills, "sql");
    NoneIncluded(resume, job, 0.60, SkillCatalog.CanonicalSkills);
    assert MakeRow("sql", 0.0, 0.5) == GapRow("sql", 0.0, 0.5, 0.5) by {
      Round3Half();
      RoundHalfEvenIntOfInt(0);
    }
    GapBeforeStrictWeakOrder();
    assert Sort([GapRow("sql", 0.0, 0.5, 0.5)], GapBefore) == [GapRow("sql", 0.0, 0.5, 0.5)];
  }
}
