/** Dictionary lookups with a default, as `d.get(k, default)`. */
module Dicts {

  /** `d.get(k, default)`. */
  function Get<K, V>(m: map<K, V>, k: K, d: V): V
  {
    if k in m then m[k] else d
  }

  /** `d[k] = v` followed by `d.get(j, default)`: the new value at `k`, the old lookup elsewhere. */
  lemma GetOfUpdate<K, V>(m: map<K, V>, k: K, v: V, j: K, d: V)
    ensures Get(m[k := v], j, d) == if j == k then v else Get(m, j, d)
  {
  }

  /** The elements of a sequence as a set (`set(xs)`). */
  function Elems<T(!new)>(xs: seq<T>): set<T>
  {
    set x | x in xs
  }

  /** `set(xs)` never has more elements than `xs` has positions, and is empty
      only for the empty sequence. */
  lemma {:induction false} ElemsSize<T(!new)>(xs: seq<T>)
    ensures |Elems(xs)| <= |xs|
    ensures Elems(xs) == {} <==> xs == []
  {
    if xs != [] {
      var init := xs[..|xs| - 1];
      ElemsSize(init);
      assert xs[0] in Elems(xs);
      assert Elems(xs) == Elems(init) + {xs[|xs| - 1]} by {
        assert xs == init + [xs[|xs| - 1]];
      }
    }
  }

  ghost predicate NoDuplicates<T>(xs: seq<T>)
  {
    forall i, j :: 0 <= i < j < |xs| ==> xs[i] != xs[j]
  }

  /** A sequence without repetitions has as many distinct elements as positions. */
  lemma {:induction false} DistinctCardinality<T(!new)>(xs: seq<T>)
    requires NoDuplicates(xs)
    ensures |Elems(xs)| == |xs|
  {
    if xs != [] {
      var init := xs[..|xs| - 1];
      var last := xs[|xs| - 1];
      assert NoDuplicates(init) by {
        forall i, j | 0 <= i < j < |init| ensures init[i] != init[j] {
          assert init[i] == xs[i] && init[j] == xs[j];
        }
      }
      DistinctCardinality(init);
      assert last !in Elems(init) by {
        forall i | 0 <= i < |init| ensures init[i] != last {
          assert init[i] == xs[i];
        }
      }
      assert Elems(xs) == Elems(init) + {last} by {
        assert xs == init + [last];
      }
    }
  }

  /** A rearrangement of a sequence without repetitions has none either. */
  lemma NoDuplicatesPermutation<T>(a: seq<T>, b: seq<T>)
    requires NoDuplicates(a) && multiset(a) == multiset(b)
    ensures NoDuplicates(b)
  {
    forall i, j | 0 <= i < j < |b| ensures b[i] != b[j] {
      assert b[i] in multiset(a);
      var p :| 0 <= p < |a| && a[p] == b[i];
      OccursOnce(a, p);
      assert b == b[..i] + [b[i]] + b[i + 1..j] + [b[j]] + b[j + 1..];
    }
  }

  lemma OccursOnce<T>(a: seq<T>, p: nat)
    requires NoDuplicates(a) && p < |a|
    ensures multiset(a)[a[p]] == 1
  {
    var x := a[p];
    var front, back := a[..p], a[p + 1..];
    assert a == front + [x] + back;
    assert x !in front by {
      forall k | 0 <= k < |front| ensures front[k] != x { assert front[k] == a[k]; }
    }
    assert x !in back by {
      forall k | 0 <= k < |back| ensures back[k] != x { assert back[k] == a[p + 1 + k]; }
    }
  }
}
