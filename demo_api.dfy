/** The placeholder skill detector of the demo front end: vocabulary terms
    found as substrings of the re-joined tokens of the text, the number of
    postings that mention each term, and the resume-versus-demand summary.
    `DEMO_MODE` is the parameter `demoMode`. */
module DemoApi {

  import opened Text
  import opened Numeric
  import opened Dicts
  import opened Sorting

  /** A result, or the `NotImplementedError` raised when the demo mode is off. */
  datatype Outcome<T> = Done(value: T) | NotImplemented

  /** `DEMO_VOCAB`. */
  const DemoVocab: set<string> := {
    "python", "sql", "excel", "tableau", "pandas", "power bi", "r", "aws", "git", "spark",
    "docker", "linux", "rest apis", "numpy", "scikit-learn", "sklearn"
  }

  /** The character class `[A-Za-z0-9#+.]`. */
  predicate IsTokenChar(c: char)
  {
    'A' <= c <= 'Z' || 'a' <= c <= 'z' || '0' <= c <= '9' || c == '#' || c == '+' || c == '.'
  }

  ghost predicate AllTokenChars(s: string)
  {
    forall i :: 0 <= i < |s| ==> IsTokenChar(s[i])
  }

  /** Length of the run of token characters at the start of `s`. */
  function RunLength(s: string): (n: nat)
    ensures n <= |s| && AllTokenChars(s[..n])
    ensures n < |s| ==> !IsTokenChar(s[n])
  {
    if s == [] || !IsTokenChar(s[0]) then 0
    else
      var m := RunLength(s[1..]);
      assert s[..1 + m] == [s[0]] + s[1..][..m];
      1 + m
  }

  /** `re.findall(r"[A-Za-z0-9#+.]+", s)`: the maximal runs of token characters, left to right. */
  function Tokens(s: string): (ts: seq<string>)
    ensures forall k :: 0 <= k < |ts| ==> |ts[k]| > 0 && AllTokenChars(ts[k])
    ensures |ts| <= |s|
    decreases |s|
  {
    if s == [] then []
    else if !IsTokenChar(s[0]) then Tokens(s[1..])
    else
      var n := RunLength(s);
      [s[..n]] + Tokens(s[n..])
  }

  /** A run of token characters is a single token. */
  lemma TokensOfRun(w: string)
    requires w != [] && AllTokenChars(w)
    ensures Tokens(w) == [w]
  {
    var n := RunLength(w);
    assert n == |w|;
    assert w[..n] == w && w[n..] == [];
  }

  /** The run at the start stops at a character outside the class at the latest. */
  lemma RunLengthStops(a: string, c: char, b: string)
    requires !IsTokenChar(c)
    ensures RunLength(a + [c] + b) == RunLength(a)
  {
    var s := a + [c] + b;
    var n, m := RunLength(s), RunLength(a);
    assert forall i :: 0 <= i < m ==> s[i] == a[i] && IsTokenChar(s[i]);
    assert forall i :: 0 <= i < n ==> IsTokenChar(s[i]);
    assert s[m] == (if m < |a| then a[m] else c);
  }

  /** A character outside the class splits the text: the tokens of the whole
      are the tokens of the part before it followed by those of the part after. */
  lemma {:induction false} TokensSplit(a: string, c: char, b: string)
    requires !IsTokenChar(c)
    ensures Tokens(a + [c] + b) == Tokens(a) + Tokens(b)
    decreases |a|
  {
    var s := a + [c] + b;
    if a == [] {
      assert s[0] == c && s[1..] == b;
    } else if !IsTokenChar(a[0]) {
      assert s[0] == a[0] && s[1..] == a[1..] + [c] + b;
      TokensSplit(a[1..], c, b);
    } else {
      var n := RunLength(s);
      RunLengthStops(a, c, b);
      assert s[0] == a[0];
      assert 0 < n <= |a|;
      assert s[..n] == a[..n];
      assert s[n..] == a[n..] + [c] + b;
      TokensSplit(a[n..], c, b);
    }
  }

  /** `sep.join(ts)`. */
  function Join(ts: seq<string>, sep: string): string
  {
    if ts == [] then [] else if |ts| == 1 then ts[0] else ts[0] + sep + Join(ts[1..], sep)
  }

  /** The text the vocabulary is searched in: the lower-cased tokens joined by single spaces. */
  function Joined(text: string): string
  {
    Join(Tokens(Lower(text)), " ")
  }

  /** Only token characters and spaces survive tokenising and re-joining. */
  lemma {:induction false} JoinAlphabet(ts: seq<string>)
    requires forall k :: 0 <= k < |ts| ==> AllTokenChars(ts[k])
    ensures forall i :: 0 <= i < |Join(ts, " ")| ==> IsTokenChar(Join(ts, " ")[i]) || Join(ts, " ")[i] == ' '
  {
    if |ts| > 1 {
      JoinAlphabet(ts[1..]);
      var rest := Join(ts[1..], " ");
      assert Join(ts, " ") == ts[0] + " " + rest;
      forall i | 0 <= i < |Join(ts, " ")| ensures IsTokenChar(Join(ts, " ")[i]) || Join(ts, " ")[i] == ' ' {
        if i > |ts[0]| { assert Join(ts, " ")[i] == rest[i - |ts[0]| - 1]; }
      }
    }
  }

  lemma JoinedAlphabet(text: string)
    ensures forall i :: 0 <= i < |Joined(text)| ==> IsTokenChar(Joined(text)[i]) || Joined(text)[i] == ' '
  {
    JoinAlphabet(Tokens(Lower(text)));
  }

  /** The vocabulary terms `detect_skills` reports for `text`. */
  function Detected(text: string): (r: set<string>)
    ensures r <= DemoVocab
  {
    set s | s in DemoVocab && IsSubstring(s, Joined(text))
  }

  /** A term holding a character that is neither a token character nor a space
      is never found, whatever the text. */
  lemma NeverDetected(term: string, k: nat, text: string)
    requires k < |term| && !IsTokenChar(term[k]) && term[k] != ' '
    ensures !IsSubstring(term, Joined(text))
  {
    var j := Joined(text);
    JoinedAlphabet(text);
    forall i: nat | i <= |j| ensures !OccursAt(j, term, i) {
      if i + |term| <= |j| {
        assert j[i..i + |term|][k] == j[i + k];
      }
    }
  }

  /** So the vocabulary's own "scikit-learn" is never reported. */
  lemma ScikitLearnNeverDetected(text: string)
    ensures "scikit-learn" !in Detected(text)
  {
    NeverDetected("scikit-learn", 6, text);
  }

  /** `detect_skills`: the loop over the vocabulary with the `seen` set. The
      order of the result follows set iteration and is left open. */
  method DetectSkills(text: string, demoMode: bool) returns (r: Outcome<seq<string>>)
    ensures r.NotImplemented? <==> !demoMode
    ensures r.Done? ==> NoDuplicates(r.value) && Elems(r.value) == Detected(text)
  {
    if !demoMode {
      return NotImplemented;
    }
    var found := FindTerms(DemoVocab, Join(Tokens(Lower(text)), " "));
    r := Done(found);
  }

  /** The `for s in DEMO_VOCAB` loop of `detect_skills`, split out of
      `DetectSkills` as a proof step; it adds no behaviour of its own:
      each term found in `joined`, once. */
  method FindTerms(vocab: set<string>, joined: string) returns (found: seq<string>)
    ensures NoDuplicates(found)
    ensures forall s :: s in found <==> s in vocab && IsSubstring(s, joined)
  {
    found := [];
    var seen: set<string> := {};
    var todo := vocab;
    while todo != {}
      invariant todo <= vocab
      invariant seen == Elems(found) && NoDuplicates(found)
      invariant forall s :: s in found <==> s in vocab - todo && IsSubstring(s, joined)
      decreases |todo|
    {
      var s :| s in todo;
      var hit := IsSubstring(s, joined);
      if hit && s !in seen {
        AppendFresh(found, s);
        found := found + [s];
        seen := seen + {s};
      }
      todo := todo - {s};
    }
    assert vocab - todo == vocab;
  }

  /** The proof step behind `FindTerms`'s loop invariant. */
  lemma AppendFresh(found: seq<string>, s: string)
    requires NoDuplicates(found) && s !in found
    ensures NoDuplicates(found + [s]) && Elems(found + [s]) == Elems(found) + {s}
  {
    var ext := found + [s];
    assert forall k :: 0 <= k < |found| ==> ext[k] == found[k];
  }

  // ---------------------------------------------------------------------------
  // Demand counts.

  /** A posting as the front end passes it; a missing field is the empty string. */
  datatype Post = Post(title: string, description: string)

  function PostText(p: Post): string
  {
    p.title + " " + p.description
  }

  /** `counts` after one more posting in which `found` was detected. */
  function Bump(m: map<string, nat>, found: set<string>): map<string, nat>
  {
    map s | s in m.Keys + found :: Get(m, s, 0) + (if s in found then 1 else 0)
  }

  /** The `counts` dictionary of `compute_demand` after the postings `posts`. */
  function DemandCounts(posts: seq<Post>): map<string, nat>
  {
    if posts == [] then map[]
    else Bump(DemandCounts(posts[..|posts| - 1]), Detected(PostText(posts[|posts| - 1])))
  }

  /** How many of `posts` mention `s`. */
  function PostsMentioning(posts: seq<Post>, s: string): (n: nat)
    ensures n <= |posts|
  {
    if posts == [] then 0
    else PostsMentioning(posts[..|posts| - 1], s) + (if s in Detected(PostText(posts[|posts| - 1])) then 1 else 0)
  }

  /** `compute_demand`. */
  method ComputeDemand(posts: seq<Post>, demoMode: bool) returns (r: Outcome<map<string, nat>>)
    ensures r.NotImplemented? <==> !demoMode
    ensures r.Done? ==> r.value == DemandCounts(posts)
  {
    if !demoMode {
      return NotImplemented;
    }
    var counts: map<string, nat> := map[];
    var i := 0;
    while i < |posts|
      invariant i <= |posts|
      invariant counts == DemandCounts(posts[..i])
    {
      var present := DetectSkills(PostText(posts[i]), demoMode);
      counts := CountPresent(counts, present.value);
      assert posts[..i + 1][..i] == posts[..i];
      i := i + 1;
    }
    assert posts[..i] == posts;
    r := Done(counts);
  }

  /** The inner `for s in present` loop of `compute_demand`, split out of
      `ComputeDemand` as a proof step: one more posting for each skill detected in it. */
  method CountPresent(counts0: map<string, nat>, present: seq<string>) returns (counts: map<string, nat>)
    requires NoDuplicates(present)
    ensures counts == Bump(counts0, Elems(present))
  {
    counts := counts0;
    var k := 0;
    while k < |present|
      invariant k <= |present|
      invariant counts == Bump(counts0, Elems(present[..k]))
    {
      var s := present[k];
      BumpStep(counts0, present, k);
      counts := counts[s := Get(counts, s, 0) + 1];
      k := k + 1;
    }
    assert present[..k] == present;
  }

  /** The proof step behind `CountPresent`'s loop invariant: counting one more
      distinct skill adds one to its entry only. */
  lemma BumpStep(m: map<string, nat>, present: seq<string>, k: nat)
    requires NoDuplicates(present) && k < |present|
    ensures Bump(m, Elems(present[..k + 1])) ==
      Bump(m, Elems(present[..k]))[present[k] := Get(Bump(m, Elems(present[..k])), present[k], 0) + 1]
  {
    var s := present[k];
    var e := Elems(present[..k]);
    assert s !in e by {
      forall a | 0 <= a < k ensures present[..k][a] != s { assert present[..k][a] == present[a]; }
    }
    assert Elems(present[..k + 1]) == e + {s} by {
      assert present[..k + 1] == present[..k] + [s];
    }
    BumpOneMore(m, e, s);
  }

  /** Counting a skill not yet among `found` adds one to its entry only. */
  lemma BumpOneMore(m: map<string, nat>, e: set<string>, s: string)
    requires s !in e
    ensures Bump(m, e + {s}) == Bump(m, e)[s := Get(Bump(m, e), s, 0) + 1]
  {
    var lhs, prev := Bump(m, e + {s}), Bump(m, e);
    var rhs := prev[s := Get(prev, s, 0) + 1];
    assert lhs.Keys == rhs.Keys;
    forall u | u in lhs ensures lhs[u] == rhs[u] {
      if u != s { assert u in e <==> u in e + {s}; }
    }
  }

  /** Each key of the demand counts is a vocabulary term mentioned by some
      posting, and maps to the number of postings mentioning it. */
  lemma {:induction false} DemandCountsSpec(posts: seq<Post>)
    ensures forall s :: s in DemandCounts(posts) <==> PostsMentioning(posts, s) > 0
    ensures forall s :: s in DemandCounts(posts) ==> DemandCounts(posts)[s] == PostsMentioning(posts, s)
    ensures DemandCounts(posts).Keys <= DemoVocab
  {
    if posts != [] {
      DemandCountsSpec(posts[..|posts| - 1]);
    }
  }

  /** Every count lies between 1 and the number of postings; no postings, no counts. */
  lemma DemandCountsBounds(posts: seq<Post>)
    ensures forall s :: s in DemandCounts(posts) ==> 1 <= DemandCounts(posts)[s] <= |posts|
    ensures posts == [] ==> DemandCounts(posts) == map[]
  {
    DemandCountsSpec(posts);
  }

  // ---------------------------------------------------------------------------
  // The summary table.

  datatype SummaryRow = SummaryRow(skill: string, demandCount: nat, demandPct: real, inResume: bool)

  /** `set(map(str.lower, resume_skills))`: already lower-case strings, no more
      of them than resume skills, and none only when there are no resume skills. */
  function ResumeSet(resumeSkills: seq<string>): (r: set<string>)
    ensures |r| <= |resumeSkills|
    ensures r == {} <==> resumeSkills == []
    ensures forall x :: x in r ==> Lower(x) == x
  {
    LoweredStayLowered(resumeSkills);
    ElemsSize(LowerAll(resumeSkills));
    Elems(LowerAll(resumeSkills))
  }

  /** `map(str.lower, xs)`. */
  function LowerAll(xs: seq<string>): seq<string>
  {
    seq(|xs|, i requires 0 <= i < |xs| => Lower(xs[i]))
  }

  lemma LoweredStayLowered(xs: seq<string>)
    ensures forall y :: y in LowerAll(xs) ==> Lower(y) == y
  {
    forall y | y in LowerAll(xs) ensures Lower(y) == y {
      var i :| 0 <= i < |xs| && LowerAll(xs)[i] == y;
      LowerIdempotent(xs[i]);
    }
  }

  /** A string is in the resume set exactly when it is some resume skill lower-cased. */
  lemma ResumeSetMembers(resumeSkills: seq<string>)
    ensures forall x :: x in ResumeSet(resumeSkills) <==> exists k :: 0 <= k < |resumeSkills| && Lower(resumeSkills[k]) == x
  {
    var ys := LowerAll(resumeSkills);
    forall x ensures x in ResumeSet(resumeSkills) <==> exists k :: 0 <= k < |resumeSkills| && Lower(resumeSkills[k]) == x {
      if x in ResumeSet(resumeSkills) {
        var k :| 0 <= k < |ys| && ys[k] == x;
      }
      if exists k :: 0 <= k < |resumeSkills| && Lower(resumeSkills[k]) == x {
        var k :| 0 <= k < |resumeSkills| && Lower(resumeSkills[k]) == x;
        assert ys[k] == x;
      }
    }
  }

  /** `round(100 * c / max(total_posts, 1), 1)`. */
  function Pct(c: nat, totalPosts: int): real
  {
    Round1(100.0 * c as real / (if totalPosts >= 1 then totalPosts else 1) as real)
  }

  function RowFor(s: string, c: nat, resume: set<string>, totalPosts: int): SummaryRow
  {
    SummaryRow(s, c, Pct(c, totalPosts), Lower(s) in resume)
  }

  /** The rows of the summary, one per demand key. */
  function SummaryRows(demand: map<string, nat>, resumeSkills: seq<string>, totalPosts: int): set<SummaryRow>
  {
    set s | s in demand :: RowFor(s, demand[s], ResumeSet(resumeSkills), totalPosts)
  }

  /** The sort order `demand_count` descending, then `skill` ascending. */
  predicate CountThenName(a: SummaryRow, b: SummaryRow)
  {
    a.demandCount > b.demandCount || (a.demandCount == b.demandCount && LexLess(a.skill, b.skill))
  }

  lemma CountThenNameStrictWeakOrder()
    ensures StrictWeakOrder(CountThenName)
  {
    forall a: SummaryRow, b: SummaryRow | CountThenName(a, b) ensures !CountThenName(b, a) {
      LexLessAsymmetric(a.skill, b.skill);
    }
    forall a: SummaryRow, b: SummaryRow, c: SummaryRow | !CountThenName(a, b) && !CountThenName(b, c)
      ensures !CountThenName(a, c)
    {
      if a.demandCount == b.demandCount == c.demandCount {
        LexLessTotal(a.skill, b.skill);
        LexLessTotal(b.skill, c.skill);
        LexLessTransitive(c.skill, b.skill, a.skill);
        LexLessIrreflexive(a.skill);
        LexLessAsymmetric(a.skill, c.skill);
      }
    }
  }

  /** `summarize`, with the table as a sequence of rows: exactly one row per
      demand key, with its count, its percentage of the postings and whether
      the resume lists it (ignoring case), ordered by count and then name. */
  method Summarize(demand: map<string, nat>, resumeSkills: seq<string>, totalPosts: int) returns (rows: seq<SummaryRow>)
    ensures multiset(rows) == multiset(SummaryRows(demand, resumeSkills, totalPosts))
    ensures SortedBy(CountThenName, rows)
  {
    var resume := ResumeSet(resumeSkills);
    rows := [];
    var todo := demand.Keys;
    while todo != {}
      invariant todo <= demand.Keys
      invariant multiset(rows) == multiset(set s | s in demand.Keys - todo :: RowFor(s, demand[s], resume, totalPosts))
      decreases |todo|
    {
      var s :| s in todo;
      var c := demand[s];
      var pct := Pct(c, totalPosts);
      var row := SummaryRow(s, c, pct, Lower(s) in resume);
      ghost var before := set u | u in demand.Keys - todo :: RowFor(u, demand[u], resume, totalPosts);
      ghost var after := set u | u in demand.Keys - (todo - {s}) :: RowFor(u, demand[u], resume, totalPosts);
      assert after == before + {row};
      assert row !in before;
      rows := rows + [row];
      todo := todo - {s};
    }
    assert demand.Keys - todo == demand.Keys;
    CountThenNameStrictWeakOrder();
    rows := Sort(rows, CountThenName);
  }

  /** The summary has one row per demand key, holding its count and whether
      some resume skill equals it once both are lower-cased. */
  lemma SummaryRowsSpec(demand: map<string, nat>, resumeSkills: seq<string>, totalPosts: int)
    ensures forall s :: s in demand ==> exists row :: row in SummaryRows(demand, resumeSkills, totalPosts) && row.skill == s
    ensures forall row :: row in SummaryRows(demand, resumeSkills, totalPosts) ==>
      && row.skill in demand
      && row.demandCount == demand[row.skill]
      && (row.inResume <==> exists k :: 0 <= k < |resumeSkills| && Lower(resumeSkills[k]) == Lower(row.skill))
    ensures forall a, b :: a in SummaryRows(demand, resumeSkills, totalPosts) && b in SummaryRows(demand, resumeSkills, totalPosts) && a.skill == b.skill ==> a == b
    ensures SummaryRows(demand, resumeSkills, totalPosts) == {} <==> demand == map[]
  {
    var rows := SummaryRows(demand, resumeSkills, totalPosts);
    ResumeSetMembers(resumeSkills);
    forall s | s in demand ensures exists row :: row in rows && row.skill == s {
      assert RowFor(s, demand[s], ResumeSet(resumeSkills), totalPosts) in rows;
    }
    if demand != map[] {
      var s :| s in demand;
      assert RowFor(s, demand[s], ResumeSet(resumeSkills), totalPosts) in rows;
    }
  }

  /** The percentage divides by at least one posting, and lies in [0,100] when
      the count does not exceed the number of postings. */
  lemma PctSpec(c: nat, totalPosts: int)
    ensures totalPosts >= 1 ==> Pct(c, totalPosts) == Round1(100.0 * c as real / totalPosts as real)
    ensures totalPosts < 1 ==> Pct(c, totalPosts) == Round1(100.0 * c as real)
    ensures c <= totalPosts ==> 0.0 <= Pct(c, totalPosts) <= 100.0
  {
    var d := if totalPosts >= 1 then totalPosts else 1;
    if totalPosts < 1 {
      assert d as real == 1.0;
      assert 100.0 * c as real / d as real == 100.0 * c as real;
      assert Pct(c, totalPosts) == Round1(100.0 * c as real / d as real);
    }
    if c <= totalPosts {
      ShareAtMostWhole(100.0 * c as real, 100.0 * d as real, d as real);
      MultipleOverDivisor(100.0, d as real);
      Round1Percent(100.0 * c as real / d as real);
    }
  }

  lemma ShareAtMostWhole(a: real, b: real, d: real)
    requires 0.0 <= a <= b && d >= 1.0
    ensures 0.0 <= a / d <= b / d
  {
    var q := 1.0 / d;
    assert a / d == a * q && b / d == b * q;
    assert q > 0.0;
  }

  lemma MultipleOverDivisor(x: real, d: real)
    requires d >= 1.0
    ensures x * d / d == x
  {
  }

  /** Demand keys are distinct, so the order is total and any two sorted
      arrangements of the summary rows coincide: the result does not depend on
      the dictionary's iteration order. */
  lemma SummaryDeterminate(demand: map<string, nat>, resumeSkills: seq<string>, totalPosts: int, t: seq<SummaryRow>, u: seq<SummaryRow>)
    requires multiset(t) == multiset(SummaryRows(demand, resumeSkills, totalPosts)) && SortedBy(CountThenName, t)
    requires multiset(u) == multiset(SummaryRows(demand, resumeSkills, totalPosts)) && SortedBy(CountThenName, u)
    ensures t == u
  {
    SummaryRowsSpec(demand, resumeSkills, totalPosts);
    CountThenNameStrictWeakOrder();
    forall x, y | x in t && y in t && x != y ensures CountThenName(x, y) || CountThenName(y, x) {
      assert x in multiset(t) && y in multiset(t);
      LexLessTotal(x.skill, y.skill);
    }
    SortedUnique(t, u, CountThenName);
  }

  /** What `pd.DataFrame(rows).sort_values(["demand_count", "skill"], ...)`
      yields: the sorted table, or a `KeyError` when there are no rows, since a
      frame built from no rows has no columns to sort by. */
  datatype Frame = Table(rows: seq<SummaryRow>) | KeyError(column: string)

  /** `summarize` as written: an empty demand map raises instead of giving an empty table. */
  method SummarizeAsWritten(demand: map<string, nat>, resumeSkills: seq<string>, totalPosts: int) returns (f: Frame)
    ensures f.KeyError? <==> demand == map[]
    ensures f.Table? ==> multiset(f.rows) == multiset(SummaryRows(demand, resumeSkills, totalPosts)) && SortedBy(CountThenName, f.rows)
  {
    var rows := Summarize(demand, resumeSkills, totalPosts);
    SummaryRowsSpec(demand, resumeSkills, totalPosts);
    if rows == [] {
      assert |multiset(SummaryRows(demand, resumeSkills, totalPosts))| == 0;
      f := KeyError("demand_count");
    } else {
      assert rows[0] in multiset(SummaryRows(demand, resumeSkills, totalPosts));
      f := Table(rows);
    }
  }

  /** The summary of no demand is the empty table. */
  lemma SummaryOfNoDemand(resumeSkills: seq<string>, totalPosts: int, rows: seq<SummaryRow>)
    requires multiset(rows) == multiset(SummaryRows(map[], resumeSkills, totalPosts))
    ensures rows == []
  {
    SummaryRowsSpec(map[], resumeSkills, totalPosts);
    assert |rows| == |multiset(rows)| == 0;
  }
}
