/** The insertion order of a Python dict's keys, which is the order its
    iterator yields them in: a sequence without repetitions, from which a
    deletion drops keys while the survivors keep their relative order. */
module Ordering {

  /** No element occurs twice. */
  ghost predicate Distinct<K>(s: seq<K>) {
    forall i, j :: 0 <= i < j < |s| ==> s[i] != s[j]
  }

  /** The elements of `s` that belong to `keep`, in the order of `s`. */
  function Filter<K(!new)>(s: seq<K>, keep: set<K>): (r: seq<K>)
    ensures forall x :: x in r <==> x in s && x in keep
    ensures |r| <= |s|
  {
    if s == [] then []
    else (if s[0] in keep then [s[0]] else []) + Filter(s[1..], keep)
  }

  /** Prepending an element that does not occur keeps a sequence distinct. */
  lemma DistinctCons<K>(x: K, s: seq<K>)
    requires x !in s && Distinct(s)
    ensures Distinct([x] + s)
  {
  }

  /** Appending an element that does not occur keeps a sequence distinct. */
  lemma DistinctAppend<K>(s: seq<K>, x: K)
    requires Distinct(s) && x !in s
    ensures Distinct(s + [x])
  {
  }

  /** Filtering never creates a repetition. */
  lemma {:induction false} FilterDistinct<K(!new)>(s: seq<K>, keep: set<K>)
    requires Distinct(s)
    ensures Distinct(Filter(s, keep))
  {
    if s != [] {
      assert Distinct(s[1..]) by {
        forall i, j | 0 <= i < j < |s[1..]| ensures s[1..][i] != s[1..][j] {
          assert s[1..][i] == s[i + 1] && s[1..][j] == s[j + 1];
        }
      }
      FilterDistinct(s[1..], keep);
      if s[0] in keep {
        assert s[0] !in s[1..] by {
          forall i | 0 <= i < |s[1..]| ensures s[1..][i] != s[0] {
            assert s[1..][i] == s[i + 1];
          }
        }
        DistinctCons(s[0], Filter(s[1..], keep));
      }
    }
  }

  /** Filtering a sequence whose every element is kept changes nothing. */
  lemma {:induction false} FilterKeepsAll<K(!new)>(s: seq<K>, keep: set<K>)
    requires forall x :: x in s ==> x in keep
    ensures Filter(s, keep) == s
  {
    if s != [] {
      FilterKeepsAll(s[1..], keep);
      assert s == [s[0]] + s[1..];
    }
  }

  /** Two successive deletions from an ordered key list are one deletion:
      filtering by a larger set and then by a smaller one is filtering by the
      smaller one. */
  lemma {:induction false} FilterFilter<K(!new)>(s: seq<K>, outer: set<K>, inner: set<K>)
    requires inner <= outer
    ensures Filter(Filter(s, outer), inner) == Filter(s, inner)
  {
    if s != [] {
      FilterFilter(s[1..], outer, inner);
      var head := if s[0] in outer then [s[0]] else [];
      assert Filter(s, outer) == head + Filter(s[1..], outer);
      FilterAppend(head, Filter(s[1..], outer), inner);
    }
  }

  /** Filtering distributes over concatenation. */
  lemma {:induction false} FilterAppend<K(!new)>(a: seq<K>, b: seq<K>, keep: set<K>)
    ensures Filter(a + b, keep) == Filter(a, keep) + Filter(b, keep)
  {
    if a != [] {
      assert (a + b)[1..] == a[1..] + b;
      FilterAppend(a[1..], b, keep);
    } else {
      assert a + b == b;
    }
  }

  /** A distinct sequence has exactly as many elements as the set of its
      elements: the length of a dict equals the number of keys its iterator
      yields. */
  lemma {:induction false} DistinctCard<K(!new)>(s: seq<K>)
    requires Distinct(s)
    ensures |set x | x in s| == |s|
  {
    if s != [] {
      assert Distinct(s[1..]) by {
        forall i, j | 0 <= i < j < |s[1..]| ensures s[1..][i] != s[1..][j] {
          assert s[1..][i] == s[i + 1] && s[1..][j] == s[j + 1];
        }
      }
      DistinctCard(s[1..]);
      assert s[0] !in s[1..] by {
        forall i | 0 <= i < |s[1..]| ensures s[1..][i] != s[0] {
          assert s[1..][i] == s[i + 1];
        }
      }
      assert (set x | x in s) == {s[0]} + (set x | x in s[1..]);
    }
  }
}
