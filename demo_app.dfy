/** The two pieces of logic inside the demo front end: tidying a detected
    skill list, and reading job postings typed one per line as
    `Title :: Description`; plus the order of its demand table. The sidebar
    settings `dedup` and `top_n` are parameters. */
module DemoApp {

  import opened Text
  import opened Sorting
  import DemoApi

  /** The lower-cased forms of the kept skills: the `seen` set. */
  function SeenKeys(out: seq<string>): set<string>
  {
    set k | 0 <= k < |out| :: Lower(out[k])
  }

  /** `out` once the loop of `postprocess` has visited `skills`: stripped,
      blanks dropped and, with `dedup`, a skill dropped when one with the same
      lower-cased form is already kept. */
  function Cleaned(skills: seq<string>, dedup: bool): seq<string>
  {
    if skills == [] then []
    else
      var out := Cleaned(skills[..|skills| - 1], dedup);
      var s2 := Strip(skills[|skills| - 1]);
      if s2 == [] then out
      else if dedup && Lower(s2) in SeenKeys(out) then out
      else out + [s2]
  }

  /** `postprocess`: the cleaned list, cut to its first `top_n` entries when `top_n > 0`. */
  function Postprocessed(skills: seq<string>, dedup: bool, topN: int): seq<string>
  {
    if skills == [] then []
    else
      var out := Cleaned(skills, dedup);
      if topN > 0 then out[..if topN < |out| then topN else |out|] else out
  }

  /** `postprocess`. */
  method Postprocess(skills: seq<string>, dedup: bool, topN: int) returns (out: seq<string>)
    ensures out == Postprocessed(skills, dedup, topN)
  {
    if skills == [] {
      return [];
    }
    out := CleanLoop(skills, dedup);
    if topN > 0 {
      out := out[..if topN < |out| then topN else |out|];
    }
  }

  /** The loop of `postprocess`, keeping `seen` in step with `out`. */
  method CleanLoop(skills: seq<string>, dedup: bool) returns (out: seq<string>)
    ensures out == Cleaned(skills, dedup)
  {
    var seen: set<string> := {};
    out := [];
    var i := 0;
    while i < |skills|
      invariant i <= |skills|
      invariant out == Cleaned(skills[..i], dedup)
      invariant seen == SeenKeys(out)
    {
      assert skills[..i + 1][..i] == skills[..i];
      var s2 := Strip(skills[i]);
      if s2 != [] {
        var key := Lower(s2);
        if !(dedup && key in seen) {
          SeenKeysAppend(out, s2);
          out := out + [s2];
          seen := seen + {key};
        }
      }
      i := i + 1;
    }
    assert skills[..i] == skills;
  }

  lemma SeenKeysAppend(out: seq<string>, s: string)
    ensures SeenKeys(out + [s]) == SeenKeys(out) + {Lower(s)}
  {
    var ext := out + [s];
    assert forall k :: 0 <= k < |out| ==> ext[k] == out[k];
    assert ext[|out|] == s;
  }

  /** Every non-blank input is represented: its lower-cased stripped form is among the kept keys. */
  lemma CleanedCovers(skills: seq<string>, dedup: bool)
    ensures forall i :: 0 <= i < |skills| && Strip(skills[i]) != [] ==> Lower(Strip(skills[i])) in SeenKeys(Cleaned(skills, dedup))
  {
    forall i | 0 <= i < |skills| && Strip(skills[i]) != [] ensures Lower(Strip(skills[i])) in SeenKeys(Cleaned(skills, dedup)) {
      CoveredAt(skills, dedup, i);
    }
  }

  lemma {:induction false} CoveredAt(skills: seq<string>, dedup: bool, i: nat)
    requires i < |skills| && Strip(skills[i]) != []
    ensures Lower(Strip(skills[i])) in SeenKeys(Cleaned(skills, dedup))
  {
    var n := |skills| - 1;
    if i < n {
      var init := skills[..n];
      var key := Lower(Strip(skills[i]));
      assert key in SeenKeys(Cleaned(init, dedup)) by {
        assert skills[i] == init[i];
        CoveredAt(init, dedup, i);
      }
      KeyPersists(skills, dedup, key);
    } else {
      assert i == |skills| - 1;
      CoveredLast(skills, dedup);
    }
  }

  /** The loop only appends to `out`. */
  lemma CleanedGrows(skills: seq<string>, dedup: bool)
    requires skills != []
    ensures Cleaned(skills[..|skills| - 1], dedup) <= Cleaned(skills, dedup)
  {
  }

  /** A key kept before the last input is still kept after it. */
  lemma KeyPersists(skills: seq<string>, dedup: bool, key: string)
    requires skills != [] && key in SeenKeys(Cleaned(skills[..|skills| - 1], dedup))
    ensures key in SeenKeys(Cleaned(skills, dedup))
  {
    CleanedGrows(skills, dedup);
    SeenKeysOfPrefix(Cleaned(skills[..|skills| - 1], dedup), Cleaned(skills, dedup));
  }

  lemma SeenKeysOfPrefix(a: seq<string>, b: seq<string>)
    requires a <= b
    ensures SeenKeys(a) <= SeenKeys(b)
  {
    forall x | x in SeenKeys(a) ensures x in SeenKeys(b) {
      var k :| 0 <= k < |a| && Lower(a[k]) == x;
      assert b[k] == a[k];
    }
  }

  lemma CoveredLast(skills: seq<string>, dedup: bool)
    requires skills != [] && Strip(skills[|skills| - 1]) != []
    ensures Lower(Strip(skills[|skills| - 1])) in SeenKeys(Cleaned(skills, dedup))
  {
    var n := |skills| - 1;
    var out, s2 := Cleaned(skills[..n], dedup), Strip(skills[n]);
    if !(dedup && Lower(s2) in SeenKeys(out)) {
      assert Cleaned(skills, dedup) == out + [s2];
      SeenKeysAppend(out, s2);
    }
  }

  /** The input positions whose entries `postprocess` keeps, in order. */
  function Kept(skills: seq<string>, dedup: bool): (r: seq<nat>)
    ensures |r| == |Cleaned(skills, dedup)|
    ensures forall k :: 0 <= k < |r| ==> r[k] < |skills|
  {
    if skills == [] then []
    else
      var n := |skills| - 1;
      var out := Cleaned(skills[..n], dedup);
      var s2 := Strip(skills[n]);
      if s2 == [] || (dedup && Lower(s2) in SeenKeys(out)) then Kept(skills[..n], dedup)
      else Kept(skills[..n], dedup) + [n]
  }

  /** One step of the loop: the last input is either kept, at position `n`,
      or dropped. */
  lemma KeptStep(skills: seq<string>, dedup: bool)
    requires skills != []
    ensures var n := |skills| - 1;
      || (&& Kept(skills, dedup) == Kept(skills[..n], dedup) + [n]
          && Cleaned(skills, dedup) == Cleaned(skills[..n], dedup) + [Strip(skills[n])]
          && Strip(skills[n]) != [])
      || (&& Kept(skills, dedup) == Kept(skills[..n], dedup)
          && Cleaned(skills, dedup) == Cleaned(skills[..n], dedup))
  {
  }

  /** The kept positions are strictly increasing. */
  lemma {:induction false} KeptIncreasing(skills: seq<string>, dedup: bool)
    ensures forall k, l :: 0 <= k < l < |Kept(skills, dedup)| ==> Kept(skills, dedup)[k] < Kept(skills, dedup)[l]
  {
    if skills != [] {
      var n := |skills| - 1;
      KeptIncreasing(skills[..n], dedup);
      KeptStep(skills, dedup);
    }
  }

  /** The kept skills are the stripped, non-blank inputs, not lower-cased, in
      their original order: the subsequence at the positions `Kept`. */
  lemma {:induction false} CleanedIsSubsequence(skills: seq<string>, dedup: bool)
    ensures forall k, l :: 0 <= k < l < |Kept(skills, dedup)| ==> Kept(skills, dedup)[k] < Kept(skills, dedup)[l]
    ensures forall k :: 0 <= k < |Kept(skills, dedup)| ==>
      Cleaned(skills, dedup)[k] == Strip(skills[Kept(skills, dedup)[k]]) != []
  {
    KeptIncreasing(skills, dedup);
    if skills != [] {
      var n := |skills| - 1;
      var init := skills[..n];
      CleanedIsSubsequence(init, dedup);
      KeptStep(skills, dedup);
      var prev, out := Kept(init, dedup), Cleaned(init, dedup);
      var idx, res := Kept(skills, dedup), Cleaned(skills, dedup);
      forall k | 0 <= k < |idx| ensures res[k] == Strip(skills[idx[k]]) != [] {
        if k < |prev| {
          assert idx[k] == prev[k] && res[k] == out[k];
          assert skills[prev[k]] == init[prev[k]];
        }
      }
    }
  }

  /** With `dedup`, each kept skill comes from the first input with its lower-cased form. */
  lemma {:induction false} KeptAreFirst(skills: seq<string>)
    ensures forall k, j :: 0 <= k < |Kept(skills, true)| && 0 <= j < Kept(skills, true)[k] && Strip(skills[j]) != [] ==>
      Lower(Strip(skills[j])) != Lower(Cleaned(skills, true)[k])
  {
    if skills != [] {
      var n := |skills| - 1;
      var init := skills[..n];
      KeptAreFirst(init);
      var prev, out := Kept(init, true), Cleaned(init, true);
      var idx, res := Kept(skills, true), Cleaned(skills, true);
      var s2 := Strip(skills[n]);
      forall k, j | 0 <= k < |idx| && 0 <= j < idx[k] && Strip(skills[j]) != []
        ensures Lower(Strip(skills[j])) != Lower(res[k])
      {
        if k < |prev| {
          assert idx[k] == prev[k] && res[k] == out[k];
          assert skills[j] == init[j];
        } else {
          assert res[k] == s2 && idx[k] == n;
          assert skills[j] == init[j];
          CleanedCovers(init, true);
          assert Lower(Strip(init[j])) in SeenKeys(out);
        }
      }
    }
  }

  /** With `dedup` on, no two kept skills have the same lower-cased form. */
  lemma {:induction false} CleanedDistinctKeys(skills: seq<string>)
    ensures forall k, l :: 0 <= k < l < |Cleaned(skills, true)| ==> Lower(Cleaned(skills, true)[k]) != Lower(Cleaned(skills, true)[l])
  {
    if skills != [] {
      CleanedDistinctKeys(skills[..|skills| - 1]);
    }
  }

  /** With `dedup` on, the first input carrying a given lower-cased form is kept. */
  lemma FirstOccurrenceKept(skills: seq<string>, i: nat)
    requires i < |skills| && Strip(skills[i]) != []
    requires forall j :: 0 <= j < i && Strip(skills[j]) != [] ==> Lower(Strip(skills[j])) != Lower(Strip(skills[i]))
    ensures Strip(skills[i]) in Cleaned(skills, true)
  {
    CleanedCovers(skills, true);
    var out := Cleaned(skills, true);
    CleanedIsSubsequence(skills, true);
    KeptAreFirst(skills);
    var idx := Kept(skills, true);
    var k :| 0 <= k < |out| && Lower(out[k]) == Lower(Strip(skills[i]));
    assert out[k] == Strip(skills[idx[k]]);
    assert idx[k] == i;
  }

  /** With `dedup` off, every non-blank input is kept, stripped, in order. */
  lemma {:induction false} CleanedWithoutDedup(skills: seq<string>)
    ensures Cleaned(skills, false) == NonBlank(skills)
  {
    if skills != [] {
      CleanedWithoutDedup(skills[..|skills| - 1]);
    }
  }

  /** The stripped non-blank entries, in order. */
  function NonBlank(skills: seq<string>): seq<string>
  {
    if skills == [] then []
    else
      var s2 := Strip(skills[|skills| - 1]);
      NonBlank(skills[..|skills| - 1]) + (if s2 == [] then [] else [s2])
  }

  /** The result of `postprocess` is empty for an empty list, is a prefix of
      the cleaned list, has at most `top_n` entries when `top_n > 0`, and is the
      whole cleaned list otherwise. */
  lemma PostprocessedSpec(skills: seq<string>, dedup: bool, topN: int)
    ensures skills == [] ==> Postprocessed(skills, dedup, topN) == []
    ensures Postprocessed(skills, dedup, topN) <= Cleaned(skills, dedup)
    ensures topN > 0 ==>
      |Postprocessed(skills, dedup, topN)| == if topN < |Cleaned(skills, dedup)| then topN else |Cleaned(skills, dedup)|
    ensures topN <= 0 ==> Postprocessed(skills, dedup, topN) == Cleaned(skills, dedup)
  {
  }

  // ---------------------------------------------------------------------------
  // The job-postings parser.

  /** One input line: two colons split the title from the description at their
      first occurrence; a line without them is a description only; a blank line
      is no posting. */
  function ParseLine(line: string): (p: Option<DemoApi.Post>)
    ensures p.None? <==> !IsSubstring("::", line) && Strip(line) == []
  {
    match Find(line, "::")
    case Some(i) => Some(DemoApi.Post(Strip(line[..i]), Strip(line[i + 2..])))
    case None => if Strip(line) != [] then Some(DemoApi.Post("", Strip(line))) else None
  }

  /** The postings read from `lines`, in order. */
  function ParseLines(lines: seq<string>): (posts: seq<DemoApi.Post>)
    ensures |posts| <= |lines|
  {
    if lines == [] then []
    else
      var posts := ParseLines(lines[..|lines| - 1]);
      match ParseLine(lines[|lines| - 1])
      case Some(p) => posts + [p]
      case None => posts
  }

  /** What the parser makes of the text area: a JSON list (not decoded here)
      or the line-format postings. */
  datatype Parsed = JsonList(raw: string) | LinePosts(posts: seq<DemoApi.Post>)

  function ParsePostings(jobsText: string): Parsed
  {
    var raw := Strip(jobsText);
    if |raw| > 0 && raw[0] == '[' && raw[|raw| - 1] == ']' then JsonList(raw)
    else LinePosts(ParseLines(SplitLines(raw)))
  }

  /** The parsing loop of the "Analyze demand" action. */
  method ParseJobPostings(jobsText: string) returns (r: Parsed)
    ensures r == ParsePostings(jobsText)
  {
    var raw := Strip(jobsText);
    if |raw| > 0 && raw[0] == '[' && raw[|raw| - 1] == ']' {
      return JsonList(raw);
    }
    var posts := ParseEachLine(SplitLines(raw));
    r := LinePosts(posts);
  }

  /** The `for line in raw.splitlines()` loop of the parser, split out of
      `ParseJobPostings` as a proof step; it adds no behaviour of its own:
      one posting per line that `ParseLine` accepts. */
  method ParseEachLine(lines: seq<string>) returns (posts: seq<DemoApi.Post>)
    ensures posts == ParseLines(lines)
  {
    posts := [];
    var i := 0;
    while i < |lines|
      invariant i <= |lines|
      invariant posts == ParseLines(lines[..i])
    {
      assert lines[..i + 1][..i] == lines[..i];
      var p := ParseOneLine(lines[i]);
      if p.Some? {
        posts := posts + [p.value];
      }
      i := i + 1;
    }
    assert lines[..i] == lines;
  }

  /** The body of the parsing loop for one line, as a method so that the loop's
      proof stays small; it computes nothing beyond `ParseLine`. */
  method ParseOneLine(line: string) returns (p: Option<DemoApi.Post>)
    ensures p == ParseLine(line)
  {
    var at := Find(line, "::");
    if at.Some? {
      var title, desc := line[..at.value], line[at.value + 2..];
      p := Some(DemoApi.Post(Strip(title), Strip(desc)));
    } else if Strip(line) != [] {
      p := Some(DemoApi.Post("", Strip(line)));
    } else {
      p := None;
    }
  }

  /** The split of a line at its first "::": the line is title, "::", rest;
      title and description are those two parts stripped, so a later "::"
      stays in the description. */
  lemma ParseLineSplit(line: string, i: nat)
    requires OccursAt(line, "::", i) && forall k: nat :: k < i ==> !OccursAt(line, "::", k)
    ensures line == line[..i] + "::" + line[i + 2..]
    ensures ParseLine(line) == Some(DemoApi.Post(Strip(line[..i]), Strip(line[i + 2..])))
  {
    assert line[i..i + 2] == "::";
  }

  /** A non-blank line without "::" becomes a posting with an empty title. */
  lemma ParseLineNoSeparator(line: string)
    requires !IsSubstring("::", line) && Strip(line) != []
    ensures ParseLine(line) == Some(DemoApi.Post("", Strip(line)))
  {
  }

  /** Line-format input never yields more postings than it has lines. */
  lemma LinePostsBound(jobsText: string)
    ensures ParsePostings(jobsText).LinePosts? ==>
      |ParsePostings(jobsText).posts| <= |SplitLines(Strip(jobsText))| <= |jobsText|
  {
    var raw := Strip(jobsText);
    assert |raw| <= |jobsText|;
  }

  // ---------------------------------------------------------------------------
  // The demand table.

  /** `key=lambda x: (-x[1], x[0])`: larger count first, then name. */
  predicate MoreDemanded(a: (string, nat), b: (string, nat))
  {
    a.1 > b.1 || (a.1 == b.1 && LexLess(a.0, b.0))
  }

  lemma MoreDemandedStrictWeakOrder()
    ensures StrictWeakOrder(MoreDemanded)
  {
    forall a: (string, nat), b: (string, nat) | MoreDemanded(a, b) ensures !MoreDemanded(b, a) {
      LexLessAsymmetric(a.0, b.0);
    }
    forall a: (string, nat), b: (string, nat), c: (string, nat) | !MoreDemanded(a, b) && !MoreDemanded(b, c)
      ensures !MoreDemanded(a, c)
    {
      if a.1 == b.1 == c.1 {
        LexLessTotal(a.0, b.0);
        LexLessTotal(b.0, c.0);
        LexLessTransitive(c.0, b.0, a.0);
        LexLessIrreflexive(a.0);
        LexLessAsymmetric(a.0, c.0);
      }
    }
  }

  function Items(counts: map<string, nat>): set<(string, nat)>
  {
    set s | s in counts :: (s, counts[s])
  }

  /** `sorted(counts.items(), key=lambda x: (-x[1], x[0]))`. */
  method DemandTable(counts: map<string, nat>) returns (table: seq<(string, nat)>)
    ensures multiset(table) == multiset(Items(counts))
    ensures SortedBy(MoreDemanded, table)
  {
    table := [];
    var todo := counts.Keys;
    while todo != {}
      invariant todo <= counts.Keys
      invariant multiset(table) == multiset(set s | s in counts.Keys - todo :: (s, counts[s]))
      decreases |todo|
    {
      var s :| s in todo;
      ghost var before := set u | u in counts.Keys - todo :: (u, counts[u]);
      assert (set u | u in counts.Keys - (todo - {s}) :: (u, counts[u])) == before + {(s, counts[s])};
      table := table + [(s, counts[s])];
      todo := todo - {s};
    }
    assert counts.Keys - todo == counts.Keys;
    MoreDemandedStrictWeakOrder();
    table := Sort(table, MoreDemanded);
  }

  /** Every entry appears once with its count, and since skill names are
      distinct the order is total: the table is the same whatever the
      dictionary's iteration order. */
  lemma DemandTableDeterminate(counts: map<string, nat>, t: seq<(string, nat)>, u: seq<(string, nat)>)
    requires multiset(t) == multiset(Items(counts)) && SortedBy(MoreDemanded, t)
    requires multiset(u) == multiset(Items(counts)) && SortedBy(MoreDemanded, u)
    ensures t == u
    ensures forall s, c :: (s, c) in t <==> s in counts && counts[s] == c
  {
    MoreDemandedStrictWeakOrder();
    forall x, y | x in t && y in t && x != y ensures MoreDemanded(x, y) || MoreDemanded(y, x) {
      assert x in multiset(t) && y in multiset(t);
      LexLessTotal(x.0, y.0);
    }
    SortedUnique(t, u, MoreDemanded);
    forall s, c ensures (s, c) in t <==> s in counts && counts[s] == c {
      assert (s, c) in t <==> (s, c) in multiset(t);
    }
  }
}
