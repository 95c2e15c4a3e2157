/** Sizes of sets and maps, and powers of two. */
module Counting {
  function Pow2(n: nat): nat {
    if n == 0 then 1 else 2 * Pow2(n - 1)
  }

  lemma {:induction false} SubsetSize<T>(a: set<T>, b: set<T>)
    requires a <= b
    ensures |a| <= |b|
    decreases |a|
  {
    if a != {} {
      var x :| x in a;
      SubsetSize(a - {x}, b - {x});
    }
  }

  lemma UnionSize<T>(a: set<T>, b: set<T>)
    ensures |a + b| <= |a| + |b|
  {
    assert a + b == a + (b - a);
    SubsetSize(b - a, b);
  }

  /** A map that never gives a value twice has as many values as keys. */
  lemma {:induction false} InjectiveSize<K, V>(f: map<K, V>)
    requires forall a, b :: a in f && b in f && f[a] == f[b] ==> a == b
    ensures |f.Keys| == |f.Values|
    decreases |f|
  {
    if f == map[] {
      assert f.Keys == {} && f.Values == {};
    } else {
      var k :| k in f;
      var g := f - {k};
      InjectiveSize(g);
      assert f.Keys == g.Keys + {k} && k !in g.Keys;
      assert f.Values == g.Values + {f[k]};
      assert f[k] !in g.Values;
    }
  }

  function Elements<T>(s: seq<T>): set<T> {
    set x | x in s
  }

  lemma {:induction false} DistinctSize<T>(s: seq<T>)
    requires forall i, j :: 0 <= i < j < |s| ==> s[i] != s[j]
    ensures |Elements(s)| == |s|
    decreases |s|
  {
    if s != [] {
      var front, last := s[..|s| - 1], s[|s| - 1];
      DistinctSize(front);
      assert Elements(s) == Elements(front) + {last};
      assert last !in Elements(front);
    }
  }
}
