/** Sorting by a "comes strictly before" relation, as Python's `list.sort` and
    `sorted` do with a key (and pandas' `sort_values`). The model is insertion
    sort; once the relation orders the elements totally, every sorted
    permutation is the same sequence, so the choice of algorithm is invisible. */
module Sorting {

  /** `lt` is a strict weak order: asymmetric, and "not before" is transitive
      (the order that comparing key tuples gives). */
  ghost predicate StrictWeakOrder<T(!new)>(lt: (T, T) -> bool)
  {
    && (forall a, b :: lt(a, b) ==> !lt(b, a))
    && (forall a, b, c :: !lt(a, b) && !lt(b, c) ==> !lt(a, c))
  }

  /** No element of `s` comes strictly before an earlier one. */
  ghost predicate SortedBy<T>(lt: (T, T) -> bool, s: seq<T>)
  {
    forall i, j :: 0 <= i < j < |s| ==> !lt(s[j], s[i])
  }

  /** Any two distinct elements of `s` are ordered one way or the other. */
  ghost predicate TotalOn<T>(lt: (T, T) -> bool, s: seq<T>)
  {
    forall x, y :: x in s && y in s && x != y ==> lt(x, y) || lt(y, x)
  }

  /** Places `x` in front of the first element that does not come before it. */
  function Insert<T(!new)>(x: T, s: seq<T>, lt: (T, T) -> bool): (r: seq<T>)
    requires StrictWeakOrder(lt) && SortedBy(lt, s)
    ensures multiset(r) == multiset(s) + multiset{x}
    ensures SortedBy(lt, r)
  {
    if s == [] || !lt(s[0], x) then
      NothingBeforeHead(x, s, lt);
      ConsSorted(x, s, lt);
      [x] + s
    else
      var rest := Insert(x, s[1..], lt);
      HeadBeforeRest(x, s, rest, lt);
      ConsSorted(s[0], rest, lt);
      assert s == [s[0]] + s[1..];
      [s[0]] + rest
  }

  /** A sorted sequence stays sorted with a new first element that nothing comes before. */
  lemma ConsSorted<T>(h: T, s: seq<T>, lt: (T, T) -> bool)
    requires SortedBy(lt, s) && forall y :: y in s ==> !lt(y, h)
    ensures SortedBy(lt, [h] + s)
  {
    var r := [h] + s;
    forall i, j | 0 <= i < j < |r| ensures !lt(r[j], r[i]) {
      assert r[j] == s[j - 1];
      if i > 0 { assert r[i] == s[i - 1]; }
    }
  }

  lemma NothingBeforeHead<T(!new)>(x: T, s: seq<T>, lt: (T, T) -> bool)
    requires StrictWeakOrder(lt) && SortedBy(lt, s) && (s == [] || !lt(s[0], x))
    ensures forall y :: y in s ==> !lt(y, x)
  {
    forall y | y in s ensures !lt(y, x) {
      var j :| 0 <= j < |s| && s[j] == y;
      if j > 0 { assert !lt(s[j], s[0]); }
    }
  }

  lemma HeadBeforeRest<T(!new)>(x: T, s: seq<T>, rest: seq<T>, lt: (T, T) -> bool)
    requires StrictWeakOrder(lt) && SortedBy(lt, s) && s != [] && lt(s[0], x)
    requires multiset(rest) == multiset(s[1..]) + multiset{x}
    ensures forall y :: y in rest ==> !lt(y, s[0])
  {
    forall y | y in rest ensures !lt(y, s[0]) {
      assert y in multiset(rest);
      if y != x {
        assert y in multiset(s[1..]);
        var j :| 0 <= j < |s[1..]| && s[1..][j] == y;
        assert s[j + 1] == y;
      }
    }
  }

  /** Insertion sort: a sorted permutation of `s`. */
  function Sort<T(!new)>(s: seq<T>, lt: (T, T) -> bool): (r: seq<T>)
    requires StrictWeakOrder(lt)
    ensures multiset(r) == multiset(s)
    ensures SortedBy(lt, r)
  {
    if s == [] then []
    else
      assert s == [s[0]] + s[1..];
      Insert(s[0], Sort(s[1..], lt), lt)
  }

  /** Under an order that is total on the elements, a sorted permutation is unique. */
  lemma {:induction false} SortedUnique<T(!new)>(a: seq<T>, b: seq<T>, lt: (T, T) -> bool)
    requires StrictWeakOrder(lt) && TotalOn(lt, a)
    requires SortedBy(lt, a) && SortedBy(lt, b) && multiset(a) == multiset(b)
    ensures a == b
  {
    if a == [] {
      assert |b| == |multiset(b)| == 0;
    } else {
      assert |b| == |multiset(b)| == |multiset(a)| == |a|;
      HeadsEqual(a, b, lt);
      TailsSameMultiset(a, b);
      assert TotalOn(lt, a[1..]) by {
        forall x | x in a[1..] ensures x in a { }
      }
      SortedUnique(a[1..], b[1..], lt);
      assert a == [a[0]] + a[1..] && b == [b[0]] + b[1..];
    }
  }

  lemma HeadsEqual<T(!new)>(a: seq<T>, b: seq<T>, lt: (T, T) -> bool)
    requires StrictWeakOrder(lt) && TotalOn(lt, a)
    requires SortedBy(lt, a) && SortedBy(lt, b) && multiset(a) == multiset(b)
    requires a != [] && b != []
    ensures a[0] == b[0]
  {
    assert a[0] in multiset(b) && b[0] in multiset(a);
    var i :| 0 <= i < |b| && b[i] == a[0];
    var k :| 0 <= k < |a| && a[k] == b[0];
    assert !lt(a[0], b[0]) by { if i > 0 { assert !lt(b[i], b[0]); } }
    assert !lt(b[0], a[0]) by { if k > 0 { assert !lt(a[k], a[0]); } }
    assert b[0] in a;
  }

  lemma TailsSameMultiset<T>(a: seq<T>, b: seq<T>)
    requires a != [] && b != [] && a[0] == b[0] && multiset(a) == multiset(b)
    ensures multiset(a[1..]) == multiset(b[1..])
  {
    assert a == [a[0]] + a[1..] && b == [b[0]] + b[1..];
    calc {
      multiset(a[1..]);
      multiset(a) - multiset{a[0]};
      multiset(b) - multiset{b[0]};
      multiset(b[1..]);
    }
  }

  /** Sorting depends only on the multiset of its input, not on its order. */
  lemma SortIndependentOfOrder<T(!new)>(s: seq<T>, t: seq<T>, lt: (T, T) -> bool)
    requires StrictWeakOrder(lt) && TotalOn(lt, s) && multiset(s) == multiset(t)
    ensures Sort(s, lt) == Sort(t, lt)
  {
    var a, b := Sort(s, lt), Sort(t, lt);
    assert TotalOn(lt, a) by {
      forall x | x in a ensures x in s { assert x in multiset(a); }
    }
    SortedUnique(a, b, lt);
  }
}
