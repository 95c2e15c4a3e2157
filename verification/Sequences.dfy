/** Sequences of sequences. */
module Sequences {
  function Concat<T>(parts: seq<seq<T>>): seq<T> {
    if parts == [] then [] else parts[0] + Concat(parts[1..])
  }

  lemma {:induction false} ConcatAdds<T>(a: seq<seq<T>>, b: seq<seq<T>>)
    ensures Concat(a + b) == Concat(a) + Concat(b)
  {
    if a == [] {
      assert a + b == b;
    } else {
      assert (a + b)[1..] == a[1..] + b && (a + b)[0] == a[0];
      assert Concat(a + b) == a[0] + Concat(a[1..] + b) && Concat(a) == a[0] + Concat(a[1..]);
      hide Concat;
      ConcatAdds(a[1..], b);
      Regroup(a[0], Concat(a[1..]), Concat(b));
    }
  }

  lemma Regroup<T>(a: seq<T>, b: seq<T>, c: seq<T>)
    ensures (a + b) + c == a + (b + c)
  {
  }

  lemma HeadAndTail<T>(s: seq<T>, x: T, rest: seq<T>)
    requires s != []
    ensures s == [x] + rest <==> s[0] == x && s[1..] == rest
  {
    assert s == [s[0]] + s[1..];
  }
}
