module MatcherExamples {
  import opened Text
  import opened AliasMatcher

  function Lits(w: string): (p: seq<Elem>)
    ensures |p| == |w| && forall i :: 0 <= i < |w| ==> p[i] == Lit(w[i])
  {
    seq(|w|, i requires 0 <= i < |w| => Lit(w[i]))
  }

  lemma {:induction false} LitsMatch(w: string, rest: seq<Elem>, t: string, pos: nat)
    requires pos + |w| <= |t|
    requires forall i :: 0 <= i < |w| ==> LowerChar(t[pos + i]) == LowerChar(w[i])
    ensures MatchRest(Lits(w) + rest, t, pos) == MatchRest(rest, t, pos + |w|)
    decreases |w|
  {
    if w != [] {
      var p := Lits(w) + rest;
      assert p[0] == Lit(w[0]);
      assert p[1..] == Lits(w[1..]) + rest;
      LitsMatch(w[1..], rest, t, pos + 1);
    } else {
      assert Lits(w) + rest == rest;
    }
  }

  lemma CompileScikit()
    ensures Compile("scikit-learn") == Lits("scikit") + ([SepRun] + Lits("learn"))
  {
  }

  lemma ScikitUnderscore()
    ensures MatchAt("scikit_learn", Compile("scikit-learn"), 0) == Some(12)
  {
    CompileScikit();
    var tail := [SepRun] + Lits("learn");
    var t1 := "scikit_learn";
    LitsMatch("scikit", tail, t1, 0);
    assert tail[1..] == Lits("learn") + [];
    LitsMatch("learn", [], t1, 7);
    assert SepRunLength(t1, 6) == 1;
  }

  lemma ScikitLearning()
    ensures MatchAt("scikit-learning", Compile("scikit-learn"), 0) == None
  {
    CompileScikit();
    var tail := [SepRun] + Lits("learn");
    var t2 := "scikit-learning";
    LitsMatch("scikit", tail, t2, 0);
    assert tail[1..] == Lits("learn") + [];
    LitsMatch("learn", [], t2, 7);
    assert SepRunLength(t2, 6) == 1;
    assert MatchRest([], t2, 12) == None by {
      assert WordAt(t2, 11) && WordAt(t2, 12);
    }
    assert TryRuns(tail[1..], t2, 6, 1) == None;
  }

  /** The only word boundaries of `scikit-learning` are at its two ends and
      around the hyphen. */
  lemma LearningBoundaries()
    ensures forall q :: 0 <= q <= 15 && AtBoundary("scikit-learning", q) ==> q == 0 || q == 6 || q == 7 || q == 15
  {
    var t := "scikit-learning";
    forall q | 0 <= q <= 15 && q != 0 && q != 6 && q != 7 && q != 15 ensures !AtBoundary(t, q) {
      assert WordAt(t, q - 1) && WordAt(t, q);
    }
  }

  /** A pattern that matches nowhere from `pos` on is counted zero times. */
  lemma {:induction false} CountWithoutMatches(t: string, p: seq<Elem>, pos: nat)
    requires |p| > 0 && pos <= |t| + 1
    requires forall q: nat :: pos <= q <= |t| ==> MatchAt(t, p, q).None?
    ensures CountFrom(t, p, pos) == 0
    decreases |t| + 1 - pos
  {
    if pos <= |t| {
      CountWithoutMatches(t, p, pos + 1);
    }
  }

  /** A pattern starting with a literal `s` cannot match at the hyphen, after it, or at the end. */
  lemma NoMatchAfterHyphen(p: seq<Elem>, q: nat)
    requires p != [] && p[0] == Lit('s') && (q == 6 || q == 7 || q == 15)
    ensures MatchAt("scikit-learning", p, q).None?
  {
  }

  lemma ScikitLearnAbsent()
    ensures AliasCount("scikit-learning", "scikit-learn") == 0
  {
    var t, p := "scikit-learning", Compile("scikit-learn");
    LearningBoundaries();
    ScikitLearning();
    forall q: nat | q <= |t| ensures MatchAt(t, p, q).None? {
      if q != 0 && AtBoundary(t, q) { NoMatchAfterHyphen(p, q); }
    }
    CountWithoutMatches(t, p, 0);
  }

  lemma SklearnAbsent()
    ensures AliasCount("scikit-learning", "sklearn") == 0
  {
    var t, p := "scikit-learning", Compile("sklearn");
    LearningBoundaries();
    forall q: nat | q <= |t| ensures MatchAt(t, p, q).None? {
      if q == 0 {
        assert p[0] == Lit('s') && p[1..][0] == Lit('k');
        assert MatchRest(p[1..], t, 1).None?;
      } else if AtBoundary(t, q) {
        NoMatchAfterHyphen(p, q);
      }
    }
    CountWithoutMatches(t, p, 0);
  }

  /** Neither alias of `scikit-learn` occurs as a whole word in `scikit-learning`,
      so the skill is not reported. */
  lemma ScikitLearningNotCounted()
    ensures "scikit-learn" !in KeywordCounts("scikit-learning")
  {
    var t := "scikit-learning";
    var aliases := SkillCatalog.SkillAliases[6].1;
    assert aliases == ["scikit-learn", "sklearn"];
    assert SkillCatalog.CanonicalSkills[6] == "scikit-learn";
    assert Lower(t) == t;
    ScikitLearnAbsent();
    SklearnAbsent();
    CatalogWellFormed();
    assert aliases[..1] == ["scikit-learn"] && aliases[..1][..0] == [];
    assert SkillHits(t, aliases) == 0;
    KeywordCountsSpec(t);
  }

  lemma SkillPresent(text: string, i: nat, k: nat)
    requires i < |SkillCatalog.SkillAliases| && k < |SkillCatalog.SkillAliases[i].1|
    requires MatchAt(Lower(text), Compile(SkillCatalog.SkillAliases[i].1[k]), 0).Some?
    ensures SkillCatalog.CanonicalSkills[i] in KeywordCounts(text)
  {
    KeywordCountsSpec(text);
    CatalogWellFormed();
    var aliases := SkillCatalog.SkillAliases[i].1;
    SkillHitsAtLeast(Lower(text), aliases, k);
  }

  lemma ScikitUnderscoreCounted()
    ensures "scikit-learn" in KeywordCounts("Scikit_Learn")
  {
    assert Lower("Scikit_Learn") == "scikit_learn";
    assert SkillCatalog.SkillAliases[6].1[0] == "scikit-learn";
    ScikitUnderscore();
    SkillPresent("Scikit_Learn", 6, 0);
  }

  lemma BigQueryMatches()
    ensures MatchAt("bigquery", Compile("bigquery"), 0).Some?
  {
    assert Compile("bigquery") == Lits("bigquery") + [];
    LitsMatch("bigquery", [], "bigquery", 0);
  }

  lemma LowerBigQuery()
    ensures Lower("bigquery") == "bigquery"
  {
  }

  /** "bigquery" is an alias of "sql" ... */
  lemma BigQueryIsSql()
    ensures "sql" in KeywordCounts("bigquery")
  {
    LowerBigQuery();
    BigQueryMatches();
    assert SkillCatalog.SkillAliases[3].1[6] == "bigquery";
    SkillPresent("bigquery", 3, 6);
  }

  /** ... and of "gcp", so one mention counts for both. */
  lemma BigQueryIsGcp()
    ensures "gcp" in KeywordCounts("bigquery")
  {
    LowerBigQuery();
    BigQueryMatches();
    assert SkillCatalog.SkillAliases[21].1[2] == "bigquery";
    SkillPresent("bigquery", 21, 2);
  }
}
