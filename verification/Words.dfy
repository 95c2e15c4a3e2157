/** Strings over bytes for the Aho-Corasick automaton of ragel/trigger_match.c: longest
    suffixes in a prefix-closed set, and the dictionary words that end a text. */
module Words {
  import opened Bytes

  type Word = seq<Byte>

  ghost predicate Suffix(u: Word, w: Word) {
    |u| <= |w| && w[|w| - |u|..] == u
  }

  /** What a trie holds: the empty string, and the prefixes of whatever it holds. */
  ghost predicate PrefixClosed(P: set<Word>) {
    [] in P && forall w :: w in P && w != [] ==> w[..|w| - 1] in P
  }

  /** The longest suffix of w that is in P. */
  ghost function Longest(P: set<Word>, w: Word): (r: Word)
    requires [] in P
    ensures r in P && |r| <= |w|
    decreases |w|
  {
    if w in P || w == [] then w else Longest(P, w[1..])
  }

  lemma SuffixTail(u: Word, w: Word)
    requires w != []
    ensures Suffix(u, w) <==> u == w || Suffix(u, w[1..])
  {
    if |u| < |w| {
      assert w[|w| - |u|..] == w[1..][|w| - 1 - |u|..];
    }
  }

  /** The suffixes of w in P are the suffixes in P of its longest one. */
  lemma {:induction false} LongestSuffixes(P: set<Word>, w: Word, u: Word)
    requires [] in P && u in P
    ensures Suffix(u, w) <==> Suffix(u, Longest(P, w))
    decreases |w|
  {
    if w !in P && w != [] {
      SuffixTail(u, w);
      LongestSuffixes(P, w[1..], u);
    }
  }

  /** Reading one more byte needs only the longest suffix, not the whole text. */
  lemma {:induction false} LongestStep(P: set<Word>, w: Word, c: Byte)
    requires PrefixClosed(P)
    ensures Longest(P, w + [c]) == Longest(P, Longest(P, w) + [c])
    decreases |w|
  {
    if w !in P && w != [] {
      assert (w + [c])[..|w|] == w && (w + [c])[1..] == w[1..] + [c];
      LongestStep(P, w[1..], c);
    }
  }

  // ----- words that end a text -----

  datatype Found = NoWord | Found(word: Word)

  /** The longest suffix of w that is in D. */
  ghost function LastWord(D: set<Word>, w: Word): (r: Found)
    ensures r.Found? ==> r.word in D && |r.word| <= |w|
    decreases |w|
  {
    if w in D then Found(w) else if w == [] then NoWord else LastWord(D, w[1..])
  }

  /** It can be looked for from the longest suffix in any larger set. */
  lemma {:induction false} LastWordFromLongest(P: set<Word>, D: set<Word>, w: Word)
    requires [] in P && D <= P
    ensures LastWord(D, w) == LastWord(D, Longest(P, w))
    decreases |w|
  {
    if w !in P && w != [] {
      LastWordFromLongest(P, D, w[1..]);
    }
  }

  /** The nonempty words of D that end w. */
  ghost predicate Ends(D: set<Word>, w: Word, x: Word) {
    x in D && x != [] && Suffix(x, w)
  }

  /** They are the longest one and the nonempty words that end what it leaves. */
  lemma {:induction false} EndsFromLast(D: set<Word>, w: Word, x: Word)
    ensures LastWord(D, w) == NoWord ==> !Ends(D, w, x)
    ensures LastWord(D, w).Found? ==> (Ends(D, w, x) <==> Ends(D, LastWord(D, w).word, x))
    decreases |w|
  {
    if w !in D && w != [] {
      SuffixTail(x, w);
      EndsFromLast(D, w[1..], x);
    }
  }

  lemma EndsSplit(D: set<Word>, w: Word, x: Word)
    requires w != []
    ensures Ends(D, w, x) <==> (x == w && w in D) || Ends(D, w[1..], x)
  {
    SuffixTail(x, w);
    assert Suffix(w, w);
  }
}
