/** The first skill detector: a fixed list of skills, each reported when it
    occurs anywhere in the lower-cased text, returned sorted without repeats. */
module OriginalDetector {

  import opened Text
  import opened Dicts
  import opened Sorting

  /** `SKILLS`. */
  const Skills: seq<string> := ["python", "sql", "excel", "pandas", "numpy", "scikit-learn", "tableau", "git", "aws"]

  /** The entries of `skills` occurring in `t`, in list order: `found`. */
  function FoundIn(t: string, skills: seq<string>): (r: seq<string>)
    ensures forall s :: s in r <==> s in skills && IsSubstring(s, t)
  {
    if skills == [] then []
    else
      var last := skills[|skills| - 1];
      FoundIn(t, skills[..|skills| - 1]) + (if IsSubstring(last, t) then [last] else [])
  }

  /** `set(found)` as a sequence: first occurrences only. */
  function Dedup<T(==,!new)>(xs: seq<T>): (r: seq<T>)
    ensures NoDuplicates(r)
    ensures forall x :: x in r <==> x in xs
  {
    if xs == [] then []
    else
      var d := Dedup(xs[..|xs| - 1]);
      var last := xs[|xs| - 1];
      if last in d then d
      else
        assert forall k :: 0 <= k < |d| ==> d[k] != last;
        d + [last]
  }

  lemma LexLessStrictWeakOrder()
    ensures StrictWeakOrder(LexLess)
  {
    forall a: string, b: string | LexLess(a, b) ensures !LexLess(b, a) {
      LexLessAsymmetric(a, b);
    }
    forall a: string, b: string, c: string | !LexLess(a, b) && !LexLess(b, c) ensures !LexLess(a, c) {
      LexLessTotal(a, b);
      LexLessTotal(b, c);
      LexLessTransitive(c, b, a);
      LexLessIrreflexive(a);
      LexLessAsymmetric(a, c);
    }
  }

  /** `detect_skills(text)`. */
  function Detect(text: string): seq<string>
  {
    LexLessStrictWeakOrder();
    if text == [] then [] else Sort(Dedup(FoundIn(Lower(text), Skills)), LexLess)
  }

  /** `detect_skills`. */
  method DetectSkills(text: string) returns (r: seq<string>)
    ensures r == Detect(text)
  {
    var found: seq<string> := [];
    if text != [] {
      var t := Lower(text);
      var i := 0;
      while i < |Skills|
        invariant i <= |Skills|
        invariant found == FoundIn(t, Skills[..i])
      {
        assert Skills[..i + 1][..i] == Skills[..i];
        if IsSubstring(Skills[i], t) {
          found := found + [Skills[i]];
        }
        i := i + 1;
      }
      assert Skills[..i] == Skills;
    }
    LexLessStrictWeakOrder();
    r := Sort(Dedup(found), LexLess);
  }

  /** The result is strictly ascending (so free of repeats) and holds exactly
      the listed skills that occur in the lower-cased text, with no word
      boundary required; empty text gives nothing. */
  lemma DetectSpec(text: string)
    ensures forall i, j :: 0 <= i < j < |Detect(text)| ==> LexLess(Detect(text)[i], Detect(text)[j])
    ensures forall s :: s in Detect(text) <==> text != [] && s in Skills && IsSubstring(s, Lower(text))
    ensures text == [] ==> Detect(text) == []
  {
    if text != [] {
      var d := Dedup(FoundIn(Lower(text), Skills));
      var r := Detect(text);
      LexLessStrictWeakOrder();
      NoDuplicatesPermutation(d, r);
      forall i, j | 0 <= i < j < |r| ensures LexLess(r[i], r[j]) {
        LexLessTotal(r[i], r[j]);
      }
      forall s ensures s in r <==> s in d {
        assert s in r <==> s in multiset(r);
      }
    }
  }

  /** Detection ignores case: a text and its lower-cased form give the same result. */
  lemma DetectIgnoresCase(text: string)
    ensures Detect(Lower(text)) == Detect(text)
  {
    LowerIdempotent(text);
  }

  lemma GitOccursInDigital()
    ensures IsSubstring("git", Lower("Digital"))
  {
    assert Lower("Digital") == "digital";
    assert OccursAt("digital", "git", 2);
  }

  /** "git" is reported for "Digital", where it is only part of a word. */
  lemma GitInDigital()
    ensures "git" in Detect("Digital")
  {
    GitOccursInDigital();
    assert Skills[7] == "git";
    DetectSpec("Digital");
  }
}
