/** The deletion cascade of a table whose values may themselves be keys.

    Deleting key `k` removes `k` and then pops the removed value: if that
    value is a key still present, its entry is deleted the same way, so the
    deletion runs along the chain k, m[k], m[m[k]], ... until it reaches a
    value that is no longer a key (absent from the start, or already removed
    earlier in the chain). */
module Cascade {
  import opened Ordering

  /** The table left after deleting `k` and, after it, every key on its
      chain; a `k` that is absent leaves the table as it is (the `pop` with a
      default). */
  function CascadeDelete<K(!new)>(m: map<K, K>, k: K): (r: map<K, K>)
    ensures r.Keys <= m.Keys
    ensures forall j :: j in r ==> r[j] == m[j]
    ensures k !in r
    ensures k in m ==> |r| < |m|
    ensures k !in m ==> r == m
    decreases |m|
  {
    if k !in m then m
    else
      assert (m - {k}).Keys == m.Keys - {k};
      CascadeDelete(m - {k}, m[k])
  }

  /** The keys that the cascade started at `k` removes, in removal order. */
  function Chain<K(!new)>(m: map<K, K>, k: K): (c: seq<K>)
    decreases |m|
  {
    if k !in m then []
    else
      assert (m - {k}).Keys == m.Keys - {k};
      [k] + Chain(m - {k}, m[k])
  }

  /** Position `i` of `c` holds the value stored under position `i - 1`. */
  ghost predicate Follows<K>(m: map<K, K>, c: seq<K>, i: int) {
    0 < i < |c| && c[i - 1] in m && c[i] == m[c[i - 1]]
  }

  /** An independent description of the removal chain of `k` in `m`: it is
      empty exactly when `k` is absent, starts at `k`, visits present keys
      without repetition, each next key is the value stored under the
      previous one, and it stops at the first value that is absent or has
      already been visited. */
  ghost predicate IsCascade<K>(m: map<K, K>, k: K, c: seq<K>) {
    && (c == [] <==> k !in m)
    && (c != [] ==> c[0] == k)
    && (forall i :: 0 <= i < |c| ==> c[i] in m)
    && Distinct(c)
    && (forall i :: 0 < i < |c| ==> Follows(m, c, i))
    && (c != [] ==> m[c[|c| - 1]] !in m || m[c[|c| - 1]] in c)
  }

  /** The chain computed by `Chain` is a removal chain in the sense of
      `IsCascade`. */
  lemma {:induction false} ChainIsCascade<K(!new)>(m: map<K, K>, k: K)
    ensures IsCascade(m, k, Chain(m, k))
    decreases |m|
  {
    if k in m {
      var rest := m - {k};
      assert rest.Keys == m.Keys - {k};
      ChainIsCascade(rest, m[k]);
      var t := Chain(rest, m[k]);
      var c := [k] + t;
      assert Chain(m, k) == c;
      assert forall i :: 0 <= i < |t| ==> t[i] in rest;
      assert k !in t;
      DistinctCons(k, t);
      forall i | 0 < i < |c| ensures Follows(m, c, i) {
        if i == 1 {
          assert c[1] == t[0];
        } else {
          assert Follows(rest, t, i - 1);
          assert c[i] == t[i - 1] && c[i - 1] == t[i - 2];
        }
      }
      if t != [] {
        var last := t[|t| - 1];
        assert c[|c| - 1] == last;
        assert m[last] == rest[last];
      }
    }
  }

  /** There is only one removal chain: any sequence that satisfies
      `IsCascade` is the one `Chain` computes. */
  lemma {:induction false} CascadeUnique<K(!new)>(m: map<K, K>, k: K, c: seq<K>)
    requires IsCascade(m, k, c)
    ensures c == Chain(m, k)
    decreases |m|
  {
    if k in m {
      var rest := m - {k};
      assert rest.Keys == m.Keys - {k};
      var t := c[1..];
      assert c == [k] + t;
      forall i | 0 <= i < |t| ensures t[i] in rest {
        assert t[i] == c[i + 1] && c[i + 1] != c[0];
      }
      assert Distinct(t) by {
        forall i, j | 0 <= i < j < |t| ensures t[i] != t[j] {
          assert t[i] == c[i + 1] && t[j] == c[j + 1];
        }
      }
      forall i | 0 < i < |t| ensures Follows(rest, t, i) {
        assert t[i] == c[i + 1] && t[i - 1] == c[i] && Follows(m, c, i + 1);
      }
      if t == [] {
        assert m[c[|c| - 1]] == m[k];
      } else {
        assert Follows(m, c, 1);
        assert t[0] == c[1] == m[k];
        var last := t[|t| - 1];
        assert last == c[|c| - 1];
        assert m[last] == rest[last];
        assert m[last] in c ==> m[last] == k || m[last] in t;
      }
      assert IsCascade(rest, m[k], t);
      CascadeUnique(rest, m[k], t);
    }
  }

  /** Deleting `k` removes exactly the keys on its chain; every other key
      stays (with its value, by the contract of `CascadeDelete`). */
  lemma {:induction false} CascadeDeleteRemovesChain<K(!new)>(m: map<K, K>, k: K)
    ensures forall j :: j in CascadeDelete(m, k) <==> j in m && j !in Chain(m, k)
    decreases |m|
  {
    if k in m {
      var rest := m - {k};
      assert rest.Keys == m.Keys - {k};
      CascadeDeleteRemovesChain(rest, m[k]);
      assert Chain(m, k) == [k] + Chain(rest, m[k]);
    }
  }

  /** The table shrinks by exactly the length of the chain. */
  lemma {:induction false} CascadeDeleteSize<K(!new)>(m: map<K, K>, k: K)
    ensures |CascadeDelete(m, k)| == |m| - |Chain(m, k)|
    decreases |m|
  {
    if k in m {
      var rest := m - {k};
      assert rest.Keys == m.Keys - {k};
      CascadeDeleteSize(rest, m[k]);
    }
  }
}
