/** The keyword detector: each alias is compiled to a word-bounded pattern in
    which a space or hyphen stands for any run of `[ _-]`, and the
    non-overlapping matches in the lower-cased text are counted per skill. */
module AliasMatcher {

  import opened Text
  import SkillCatalog

  /** One piece of a compiled alias: a literal character (matched without
      regard to case) or the class `[ _-]+`. */
  datatype Elem = Lit(c: char) | SepRun

  predicate IsWordChar(c: char)
  {
    'a' <= c <= 'z' || 'A' <= c <= 'Z' || '0' <= c <= '9' || c == '_'
  }

  predicate IsSeparator(c: char) { c == ' ' || c == '_' || c == '-' }

  /** The character at `k` exists and is a word character. */
  predicate WordAt(t: string, k: int)
  {
    0 <= k < |t| && IsWordChar(t[k])
  }

  /** `\b` at position `k`: a word character on exactly one side. */
  predicate AtBoundary(t: string, k: int)
  {
    WordAt(t, k - 1) != WordAt(t, k)
  }

  /** The escaped alias with every escaped space and escaped hyphen replaced by `[ _-]+`. */
  function Compile(alias: string): (p: seq<Elem>)
    ensures |p| == |alias|
  {
    seq(|alias|, i requires 0 <= i < |alias| => if alias[i] == ' ' || alias[i] == '-' then SepRun else Lit(alias[i]))
  }

  /** How many characters of `[ _-]` start at `pos`. */
  function SepRunLength(t: string, pos: nat): (n: nat)
    requires pos <= |t|
    ensures pos + n <= |t|
    ensures forall k :: pos <= k < pos + n ==> IsSeparator(t[k])
    ensures pos + n < |t| ==> !IsSeparator(t[pos + n])
    decreases |t| - pos
  {
    if pos == |t| || !IsSeparator(t[pos]) then 0 else 1 + SepRunLength(t, pos + 1)
  }

  /** The regular-expression engine on `p` followed by `\b`, from `pos`: the end
      of the first match in backtracking order (a separator run is tried longest
      first), or None. */
  function MatchRest(p: seq<Elem>, t: string, pos: nat): (r: Option<nat>)
    requires pos <= |t|
    ensures r.Some? ==> pos + |p| <= r.value <= |t| && AtBoundary(t, r.value)
    decreases |p|, 0
  {
    if p == [] then
      if AtBoundary(t, pos) then Some(pos) else None
    else
      match p[0]
      case Lit(c) =>
        if pos < |t| && LowerChar(t[pos]) == LowerChar(c) then MatchRest(p[1..], t, pos + 1) else None
      case SepRun =>
        TryRuns(p[1..], t, pos, SepRunLength(t, pos))
  }

  /** Tries the rest of the pattern after a separator run of `k`, `k - 1`, ..., 1 characters. */
  function TryRuns(rest: seq<Elem>, t: string, pos: nat, k: nat): (r: Option<nat>)
    requires pos + k <= |t|
    ensures r.Some? ==> pos + 1 + |rest| <= r.value <= |t| && AtBoundary(t, r.value)
    decreases |rest|, k + 1
  {
    if k == 0 then None
    else
      match MatchRest(rest, t, pos + k)
      case Some(e) => Some(e)
      case None => TryRuns(rest, t, pos, k - 1)
  }

  /** `\b<pattern>\b` matched at `pos`. */
  function MatchAt(t: string, p: seq<Elem>, pos: nat): (r: Option<nat>)
    requires pos <= |t|
    ensures r.Some? ==> pos + |p| <= r.value <= |t|
    ensures r.Some? ==> AtBoundary(t, pos) && AtBoundary(t, r.value)
  {
    if AtBoundary(t, pos) then MatchRest(p, t, pos) else None
  }

  /** `len(re.findall(...))` from `pos` on: matches are searched left to right and
      the search resumes where the previous match ended. */
  function CountFrom(t: string, p: seq<Elem>, pos: nat): nat
    requires |p| > 0
    requires pos <= |t| + 1
    decreases |t| + 1 - pos
  {
    if pos > |t| then 0
    else
      match MatchAt(t, p, pos)
      case Some(e) => 1 + CountFrom(t, p, e)
      case None => CountFrom(t, p, pos + 1)
  }

  /** Occurrences of one alias in the (lower-cased) text. */
  function AliasCount(t: string, alias: string): nat
    requires |alias| > 0
  {
    CountFrom(t, Compile(alias), 0)
  }

  /** The scanner behind `re.findall`: counts the non-overlapping matches of `p`. */
  method FindAllCount(t: string, p: seq<Elem>) returns (n: nat)
    requires |p| > 0
    ensures n == CountFrom(t, p, 0)
  {
    n := 0;
    var pos := 0;
    while pos <= |t|
      invariant pos <= |t| + 1
      invariant n + CountFrom(t, p, pos) == CountFrom(t, p, 0)
      decreases |t| + 1 - pos
    {
      var m := MatchAt(t, p, pos);
      if m.Some? {
        n := n + 1;
        pos := m.value;
      } else {
        pos := pos + 1;
      }
    }
  }

  ghost predicate NonEmptyAliases(aliases: seq<string>)
  {
    forall a :: a in aliases ==> |a| > 0
  }

  /** A skill's hit count: the sum of its aliases' counts. */
  function SkillHits(t: string, aliases: seq<string>): nat
    requires NonEmptyAliases(aliases)
  {
    if aliases == [] then 0
    else SkillHits(t, aliases[..|aliases| - 1]) + AliasCount(t, aliases[|aliases| - 1])
  }

  ghost predicate WellFormed(entries: seq<SkillCatalog.Entry>)
  {
    forall i :: 0 <= i < |entries| ==> NonEmptyAliases(entries[i].1)
  }

  /** The `counts` dictionary after the loop has visited `entries`. */
  function CountsOver(t: string, entries: seq<SkillCatalog.Entry>): map<string, nat>
    requires WellFormed(entries)
  {
    if entries == [] then map[]
    else
      var m := CountsOver(t, entries[..|entries| - 1]);
      var (canon, aliases) := entries[|entries| - 1];
      var hit := SkillHits(t, aliases);
      if hit > 0 then m[canon := hit] else m
  }

  lemma CatalogWellFormed()
    ensures WellFormed(SkillCatalog.SkillAliases)
  {
    SkillCatalog.CatalogAliasesWellFormed();
    var entries := SkillCatalog.SkillAliases;
    forall i | 0 <= i < |entries| ensures NonEmptyAliases(entries[i].1) {
      forall a | a in entries[i].1 ensures |a| > 0 {
        var k :| 0 <= k < |entries[i].1| && entries[i].1[k] == a;
      }
    }
  }

  /** `detect_skills_keyword(text)`. */
  function KeywordCounts(text: string): map<string, nat>
  {
    CatalogWellFormed();
    if text == [] then map[] else CountsOver(Lower(text), SkillCatalog.SkillAliases)
  }

  /** `detect_skills_keyword`: the loop over the catalog. */
  method DetectSkillsKeyword(text: string) returns (counts: map<string, nat>)
    ensures counts == KeywordCounts(text)
    ensures forall s :: s in counts ==> counts[s] > 0
  {
    if text == [] {
      return map[];
    }
    CatalogWellFormed();
    counts := CountSkills(Lower(text), SkillCatalog.SkillAliases);
  }

  /** The outer loop: one `hit` total per skill, kept only when positive. */
  method CountSkills(t: string, entries: seq<SkillCatalog.Entry>) returns (counts: map<string, nat>)
    requires WellFormed(entries)
    ensures counts == CountsOver(t, entries)
    ensures forall s :: s in counts ==> counts[s] > 0
  {
    counts := map[];
    var i := 0;
    while i < |entries|
      invariant i <= |entries|
      invariant counts == CountsOver(t, entries[..i])
      invariant forall s :: s in counts ==> counts[s] > 0
    {
      var (canon, aliases) := entries[i];
      var hit := CountAliases(t, aliases);
      assert entries[..i + 1][..i] == entries[..i];
      if hit > 0 {
        counts := counts[canon := hit];
      }
      i := i + 1;
    }
    assert entries[..i] == entries;
  }

  /** The inner loop: `hit += len(found)` for every alias of one skill. */
  method CountAliases(t: string, aliases: seq<string>) returns (hit: nat)
    requires NonEmptyAliases(aliases)
    ensures hit == SkillHits(t, aliases)
  {
    hit := 0;
    var j := 0;
    while j < |aliases|
      invariant j <= |aliases|
      invariant hit == SkillHits(t, aliases[..j])
    {
      assert aliases[..j + 1][..j] == aliases[..j];
      var found := FindAllCount(t, Compile(aliases[j]));
      hit := hit + found;
      j := j + 1;
    }
    assert aliases[..j] == aliases;
  }

  // ---------------------------------------------------------------------------
  // What the engine computes, stated without backtracking.

  ghost predicate AllSeparators(s: string)
  {
    forall k :: 0 <= k < |s| ==> IsSeparator(s[k])
  }

  /** `s` is an instance of `p`: literals equal up to case, and each
      separator element stands for a non-empty run of `[ _-]`. */
  ghost predicate Matches(p: seq<Elem>, s: string)
    decreases |p|
  {
    if p == [] then s == []
    else
      match p[0]
      case Lit(c) => |s| > 0 && LowerChar(s[0]) == LowerChar(c) && Matches(p[1..], s[1..])
      case SepRun => exists j :: 1 <= j <= |s| && AllSeparators(s[..j]) && Matches(p[1..], s[j..])
  }

  /** Compiling and then dropping the first character is compiling the rest. */
  lemma CompileTail(alias: string)
    requires alias != []
    ensures Compile(alias)[1..] == Compile(alias[1..])
  {
    var p, q := Compile(alias)[1..], Compile(alias[1..]);
    assert forall i :: 0 <= i < |q| ==> p[i] == Compile(alias)[i + 1] && alias[1..][i] == alias[i + 1];
  }

  /** Every alias spells its own pattern: each literal matches itself and each
      space or hyphen is a one-character run of `[ _-]`. */
  lemma {:induction false} AliasSpellsItself(alias: string)
    ensures Matches(Compile(alias), alias)
    decreases |alias|
  {
    if alias != [] {
      var p := Compile(alias);
      CompileTail(alias);
      AliasSpellsItself(alias[1..]);
      if p[0] == SepRun {
        assert alias[..1] == [alias[0]] && IsSeparator(alias[0]);
        assert alias[1..] == alias[1..][..];
      }
    }
  }

  lemma {:induction false} MatchRestSound(p: seq<Elem>, t: string, pos: nat)
    requires pos <= |t| && MatchRest(p, t, pos).Some?
    ensures pos <= MatchRest(p, t, pos).value <= |t|
    ensures Matches(p, t[pos..MatchRest(p, t, pos).value])
    decreases |p|, 0
  {
    var e := MatchRest(p, t, pos).value;
    if p != [] {
      match p[0]
      case Lit(c) =>
        MatchRestSound(p[1..], t, pos + 1);
        assert t[pos..e][1..] == t[pos + 1..e];
      case SepRun =>
        TryRunsSound(p[1..], t, pos, SepRunLength(t, pos));
    }
  }

  lemma {:induction false} TryRunsSound(rest: seq<Elem>, t: string, pos: nat, k: nat)
    requires pos + k <= |t| && k <= SepRunLength(t, pos) && TryRuns(rest, t, pos, k).Some?
    ensures Matches([SepRun] + rest, t[pos..TryRuns(rest, t, pos, k).value])
    decreases |rest|, k + 1
  {
    var e := TryRuns(rest, t, pos, k).value;
    var p := [SepRun] + rest;
    assert p[1..] == rest;
    if MatchRest(rest, t, pos + k).Some? {
      assert e == MatchRest(rest, t, pos + k).value;
      MatchRestSound(rest, t, pos + k);
      var s := t[pos..e];
      assert s[k..] == t[pos + k..e];
      assert AllSeparators(s[..k]) by {
        forall m | 0 <= m < k ensures IsSeparator(s[..k][m]) {
          assert s[..k][m] == t[pos + m];
        }
      }
      assert 1 <= k <= |s| && AllSeparators(s[..k]) && Matches(p[1..], s[k..]);
    } else {
      TryRunsSound(rest, t, pos, k - 1);
    }
  }

  lemma {:induction false} MatchRestComplete(p: seq<Elem>, t: string, pos: nat, e: nat)
    requires pos <= e <= |t| && AtBoundary(t, e) && Matches(p, t[pos..e])
    ensures MatchRest(p, t, pos).Some?
    decreases |p|, 1
  {
    var s := t[pos..e];
    if p == [] {
      assert e == pos;
    } else {
      match p[0]
      case Lit(c) =>
        assert s[1..] == t[pos + 1..e];
        MatchRestComplete(p[1..], t, pos + 1, e);
      case SepRun =>
        SepRunComplete(p, t, pos, e);
    }
  }

  lemma {:induction false} SepRunComplete(p: seq<Elem>, t: string, pos: nat, e: nat)
    requires pos <= e <= |t| && AtBoundary(t, e) && p != [] && p[0] == SepRun && Matches(p, t[pos..e])
    ensures MatchRest(p, t, pos).Some?
    decreases |p|, 0
  {
    var s := t[pos..e];
    var j :| 1 <= j <= |s| && AllSeparators(s[..j]) && Matches(p[1..], s[j..]);
    SliceParts(t, pos, j, e);
    MatchRestComplete(p[1..], t, pos + j, e);
    SepRunFound(p, t, pos, j);
  }

  /** Cutting `t[pos..e]` at `j` gives the two slices of `t` on either side of `pos + j`. */
  lemma SliceParts(t: string, pos: nat, j: nat, e: nat)
    requires pos + j <= e <= |t|
    ensures t[pos..e][..j] == t[pos..pos + j] && t[pos..e][j..] == t[pos + j..e]
  {
  }

  /** A separator run of length `j` after which the rest of the pattern matches
      is one of the lengths the engine tries. */
  lemma SepRunFound(p: seq<Elem>, t: string, pos: nat, j: nat)
    requires p != [] && p[0] == SepRun && 1 <= j && pos + j <= |t| && AllSeparators(t[pos..pos + j])
    requires MatchRest(p[1..], t, pos + j).Some?
    ensures MatchRest(p, t, pos).Some?
  {
    SepRunIsMaximal(t, pos, j);
    TryRunsComplete(p[1..], t, pos, SepRunLength(t, pos), j);
  }

  /** A run of separators at `pos` is never longer than the one the engine measures. */
  lemma {:induction false} SepRunIsMaximal(t: string, pos: nat, j: nat)
    requires pos + j <= |t| && AllSeparators(t[pos..pos + j])
    ensures j <= SepRunLength(t, pos)
    decreases j
  {
    if j > 0 {
      assert IsSeparator(t[pos..pos + j][0]);
      assert t[pos + 1..pos + j] == t[pos..pos + j][1..];
      SepRunIsMaximal(t, pos + 1, j - 1);
    }
  }

  lemma {:induction false} TryRunsComplete(rest: seq<Elem>, t: string, pos: nat, k: nat, j: nat)
    requires 1 <= j <= k && pos + k <= |t| && MatchRest(rest, t, pos + j).Some?
    ensures TryRuns(rest, t, pos, k).Some?
    decreases k
  {
    if j < k && MatchRest(rest, t, pos + k).None? {
      TryRunsComplete(rest, t, pos, k - 1, j);
    }
  }

  /** The engine finds a match at `pos` exactly when the text from `pos` holds a
      word-bounded instance of the pattern. */
  lemma MatchAtIff(t: string, p: seq<Elem>, pos: nat)
    requires pos <= |t|
    ensures MatchAt(t, p, pos).Some? <==>
      AtBoundary(t, pos) && exists e :: pos <= e <= |t| && AtBoundary(t, e) && Matches(p, t[pos..e])
  {
    if MatchAt(t, p, pos).Some? {
      MatchRestSound(p, t, pos);
    }
    if AtBoundary(t, pos) && exists e :: pos <= e <= |t| && AtBoundary(t, e) && Matches(p, t[pos..e]) {
      var e :| pos <= e <= |t| && AtBoundary(t, e) && Matches(p, t[pos..e]);
      MatchRestComplete(p, t, pos, e);
    }
  }

  /** An alias written out as a whole word of the text is found where it starts. */
  lemma AliasFoundAsWord(t: string, alias: string, pos: nat)
    requires pos + |alias| <= |t| && t[pos..pos + |alias|] == alias
    requires AtBoundary(t, pos) && AtBoundary(t, pos + |alias|)
    ensures MatchAt(t, Compile(alias), pos).Some?
  {
    AliasSpellsItself(alias);
    MatchAtIff(t, Compile(alias), pos);
  }

  // ---------------------------------------------------------------------------
  // The per-skill counts.

  ghost predicate DistinctNames(entries: seq<SkillCatalog.Entry>)
  {
    forall i, j :: 0 <= i < j < |entries| ==> entries[i].0 != entries[j].0
  }

  /** With distinct skill names, a skill is present exactly when its aliases hit,
      with the sum of their counts; no other key appears. */
  lemma CountsOverSpec(t: string, entries: seq<SkillCatalog.Entry>)
    requires WellFormed(entries) && DistinctNames(entries)
    ensures forall i :: 0 <= i < |entries| ==>
      (entries[i].0 in CountsOver(t, entries) <==> SkillHits(t, entries[i].1) > 0)
    ensures forall i :: 0 <= i < |entries| && entries[i].0 in CountsOver(t, entries) ==>
      CountsOver(t, entries)[entries[i].0] == SkillHits(t, entries[i].1)
    ensures forall s :: s in CountsOver(t, entries) ==> exists i :: 0 <= i < |entries| && entries[i].0 == s
  {
    CountsOverValues(t, entries);
    CountsOverKeys(t, entries);
  }

  lemma {:induction false} CountsOverValues(t: string, entries: seq<SkillCatalog.Entry>)
    requires WellFormed(entries) && DistinctNames(entries)
    ensures forall i :: 0 <= i < |entries| ==>
      (entries[i].0 in CountsOver(t, entries) <==> SkillHits(t, entries[i].1) > 0)
    ensures forall i :: 0 <= i < |entries| && entries[i].0 in CountsOver(t, entries) ==>
      CountsOver(t, entries)[entries[i].0] == SkillHits(t, entries[i].1)
  {
    if entries != [] {
      var init := entries[..|entries| - 1];
      assert WellFormed(init) && DistinctNames(init);
      CountsOverValues(t, init);
      CountsOverKeys(t, init);
      forall i | 0 <= i < |init| ensures init[i] == entries[i] { }
    }
  }

  lemma {:induction false} CountsOverKeys(t: string, entries: seq<SkillCatalog.Entry>)
    requires WellFormed(entries)
    ensures forall s :: s in CountsOver(t, entries) ==> exists i :: 0 <= i < |entries| && entries[i].0 == s
  {
    if entries != [] {
      var n := |entries| - 1;
      var init := entries[..n];
      assert WellFormed(init);
      CountsOverKeys(t, init);
      forall s | s in CountsOver(t, entries) ensures exists i :: 0 <= i < |entries| && entries[i].0 == s {
        if s != entries[n].0 {
          assert s in CountsOver(t, init);
          var i :| 0 <= i < |init| && init[i].0 == s;
          assert entries[i] == init[i];
        }
      }
    }
  }

  lemma {:induction false} SkillHitsOfEmptyText(aliases: seq<string>)
    requires NonEmptyAliases(aliases)
    ensures SkillHits([], aliases) == 0
  {
    if aliases != [] {
      SkillHitsOfEmptyText(aliases[..|aliases| - 1]);
      var p := Compile(aliases[|aliases| - 1]);
      assert MatchAt([], p, 0).None?;
    }
  }

  /** One alias's occurrences never exceed its skill's total. */
  lemma {:induction false} SkillHitsAtLeast(t: string, aliases: seq<string>, k: nat)
    requires NonEmptyAliases(aliases) && k < |aliases|
    ensures SkillHits(t, aliases) >= AliasCount(t, aliases[k])
  {
    if k < |aliases| - 1 {
      var init := aliases[..|aliases| - 1];
      assert init[k] == aliases[k];
      SkillHitsAtLeast(t, init, k);
    }
  }

  /** `detect_skills_keyword`: a canonical skill is a key exactly when the
      sum over its aliases of their matches in the lower-cased text is positive,
      and then it maps to that sum; no other key appears, and empty text gives
      no keys at all. */
  lemma KeywordCountsSpec(text: string)
    ensures WellFormed(SkillCatalog.SkillAliases)
    ensures forall i :: 0 <= i < |SkillCatalog.SkillAliases| ==>
      (SkillCatalog.CanonicalSkills[i] in KeywordCounts(text) <==> SkillHits(Lower(text), SkillCatalog.SkillAliases[i].1) > 0)
    ensures forall i :: 0 <= i < |SkillCatalog.SkillAliases| && SkillCatalog.CanonicalSkills[i] in KeywordCounts(text) ==>
      KeywordCounts(text)[SkillCatalog.CanonicalSkills[i]] == SkillHits(Lower(text), SkillCatalog.SkillAliases[i].1)
    ensures forall s :: s in KeywordCounts(text) ==> s in SkillCatalog.CanonicalSkills
    ensures text == [] ==> KeywordCounts(text) == map[]
  {
    CatalogCounts(Lower(text));
    if text == [] {
      assert Lower(text) == [];
      EmptyTextHitsNothing();
    }
  }

  /** No skill name repeats in the catalog. */
  lemma CatalogDistinctNames()
    ensures DistinctNames(SkillCatalog.SkillAliases)
  {
    var entries := SkillCatalog.SkillAliases;
    SkillCatalog.CanonicalSkillsDistinct();
    SkillCatalog.CatalogShape();
    forall i, j | 0 <= i < j < |entries| ensures entries[i].0 != entries[j].0 {
      assert SkillCatalog.CanonicalSkills[i] != SkillCatalog.CanonicalSkills[j];
    }
  }

  /** The loop over the catalog, for an already lower-cased text: presence,
      value and keys in terms of the canonical skills. */
  lemma CatalogCounts(t: string)
    ensures WellFormed(SkillCatalog.SkillAliases)
    ensures forall i :: 0 <= i < |SkillCatalog.SkillAliases| ==>
      (SkillCatalog.CanonicalSkills[i] in CountsOver(t, SkillCatalog.SkillAliases) <==> SkillHits(t, SkillCatalog.SkillAliases[i].1) > 0)
    ensures forall i :: 0 <= i < |SkillCatalog.SkillAliases| && SkillCatalog.CanonicalSkills[i] in CountsOver(t, SkillCatalog.SkillAliases) ==>
      CountsOver(t, SkillCatalog.SkillAliases)[SkillCatalog.CanonicalSkills[i]] == SkillHits(t, SkillCatalog.SkillAliases[i].1)
    ensures forall s :: s in CountsOver(t, SkillCatalog.SkillAliases) ==> s in SkillCatalog.CanonicalSkills
  {
    var entries := SkillCatalog.SkillAliases;
    CatalogWellFormed();
    CatalogDistinctNames();
    SkillCatalog.CatalogShape();
    CountsOverSpec(t, entries);
    forall s | s in CountsOver(t, entries) ensures s in SkillCatalog.CanonicalSkills {
      var i :| 0 <= i < |entries| && entries[i].0 == s;
      assert SkillCatalog.CanonicalSkills[i] == s;
    }
  }

  /** No alias of the catalog matches in the empty text. */
  lemma EmptyTextHitsNothing()
    ensures WellFormed(SkillCatalog.SkillAliases)
    ensures forall i :: 0 <= i < |SkillCatalog.SkillAliases| ==> SkillHits([], SkillCatalog.SkillAliases[i].1) == 0
  {
    var entries := SkillCatalog.SkillAliases;
    CatalogWellFormed();
    forall i | 0 <= i < |entries| ensures SkillHits([], entries[i].1) == 0 {
      SkillHitsOfEmptyText(entries[i].1);
    }
  }

  lemma {:induction false} CountsOverPositive(t: string, entries: seq<SkillCatalog.Entry>)
    requires WellFormed(entries)
    ensures forall s :: s in CountsOver(t, entries) ==> CountsOver(t, entries)[s] > 0
  {
    if entries != [] {
      CountsOverPositive(t, entries[..|entries| - 1]);
    }
  }

  /** No skill is reported with a count of zero. */
  lemma KeywordCountsPositive(text: string)
    ensures forall s :: s in KeywordCounts(text) ==> KeywordCounts(text)[s] > 0
  {
    CatalogWellFormed();
    CountsOverPositive(Lower(text), SkillCatalog.SkillAliases);
  }
}
