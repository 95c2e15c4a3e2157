/** The Aho-Corasick automaton of ragel/trigger_match.c: ac_insert, ac_build and ac_search.
    State s stands for a string, paths[s]; state 0 is the root. */
module AhoCorasick {
  import opened Bytes
  import opened Words

  datatype Node = Node(go: seq<int>, fail: int, matchId: int, dictLink: int)

  function AsciiLower(c: Byte): Byte {
    if 'A' as int <= c <= 'Z' as int then c + 32 else c
  }

  function FoldByte(c: Byte, icase: bool): Byte {
    if icase then AsciiLower(c) else c
  }

  predicate IsUpper(c: Byte) {
    65 <= c <= 90
  }

  /** The same byte, or the two cases of one letter. */
  predicate SameLetter(c: Byte, d: Byte) {
    c == d || (IsUpper(c) && d == c + 32) || (IsUpper(d) && c == d + 32)
  }

  /** Folding under either flag, told without it: c is the byte of a pattern, d a byte of a text.
      Where only one side is folded, the other must not be an upper-case letter. */
  predicate Alike(c: Byte, icase: bool, d: Byte, icase': bool) {
    if icase == icase' then c == d || (icase && SameLetter(c, d))
    else SameLetter(c, d) && !IsUpper(if icase then d else c)
  }

  /** Folding relates the two cases of each letter and nothing else. */
  lemma FoldByteExactly(c: Byte, icase: bool, d: Byte, icase': bool)
    ensures FoldByte(c, icase) == FoldByte(d, icase') <==> Alike(c, icase, d, icase')
    ensures FoldByte(c, false) == c
  {
  }

  function Fold(s: Word, icase: bool): (r: Word)
    ensures |r| == |s|
  {
    seq(|s|, i requires 0 <= i < |s| => FoldByte(s[i], icase))
  }

  function NewNode(): (n: Node)
    ensures |n.go| == 256 && (forall c :: 0 <= c < 256 ==> n.go[c] == -1)
    ensures n.fail == 0 && n.matchId == -1 && n.dictLink == -1
  {
    Node(seq(256, _ => -1), 0, -1, -1)
  }

  // ----- the trie -----

  ghost function Strings(paths: seq<Word>): set<Word> {
    set w | w in paths
  }

  /** One state for each string of a prefix-closed set. */
  ghost predicate Shape(paths: seq<Word>) {
    && |paths| > 0 && paths[0] == []
    && (forall s, t :: 0 <= s < t < |paths| ==> paths[s] != paths[t])
    && PrefixClosed(Strings(paths))
  }

  /** t is the transition of the trie from s on c: the state of the longer string, or none. */
  ghost predicate Child(paths: seq<Word>, s: nat, c: int, t: int)
    requires s < |paths| && 0 <= c < 256
  {
    if t < 0 then paths[s] + [c] !in paths else 0 < t < |paths| && paths[t] == paths[s] + [c]
  }

  ghost predicate TrieRow(paths: seq<Word>, s: nat, go: seq<int>)
    requires s < |paths|
  {
    |go| == 256 && forall c :: 0 <= c < 256 ==> Child(paths, s, c, go[c])
  }

  ghost predicate Trie(nodes: seq<Node>, paths: seq<Word>) {
    && Shape(paths) && |nodes| == |paths|
    && forall s :: 0 <= s < |nodes| ==> TrieRow(paths, s, nodes[s].go)
  }

  /** A state carries the id of the dictionary word it stands for. */
  ghost predicate Labelled(nodes: seq<Node>, paths: seq<Word>, dict: map<Word, int>) {
    && |nodes| == |paths| && dict.Keys <= Strings(paths)
    && (forall w :: w in dict ==> dict[w] >= 0)
    && (forall s :: 0 <= s < |nodes| ==> nodes[s].matchId == if paths[s] in dict then dict[paths[s]] else -1)
  }

  ghost predicate Unlinked(nodes: seq<Node>) {
    forall s :: 0 <= s < |nodes| ==> nodes[s].fail == 0 && nodes[s].dictLink == -1
  }

  /** ac_new_state, linked from state s on byte c. */
  function WithChild(nodes: seq<Node>, s: nat, c: Byte): seq<Node>
    requires s < |nodes| && |nodes[s].go| == 256
  {
    nodes[s := nodes[s].(go := nodes[s].go[c := |nodes|])] + [NewNode()]
  }

  lemma StringsAppend(paths: seq<Word>, w: Word)
    ensures Strings(paths + [w]) == Strings(paths) + {w}
  {
  }

  lemma ShapeGrows(paths: seq<Word>, s: nat, c: Byte)
    requires Shape(paths) && s < |paths| && paths[s] + [c] !in paths
    ensures Shape(paths + [paths[s] + [c]])
  {
    var w := paths[s] + [c];
    StringsAppend(paths, w);
    assert w[..|w| - 1] == paths[s] && paths[s] in Strings(paths);
  }

  /** The other transitions are not changed by the new string. */
  lemma ChildGrows(paths: seq<Word>, s: nat, c: Byte, x: nat, d: Byte, t: int)
    requires Shape(paths) && s < |paths| && x < |paths| && (x != s || d != c) && Child(paths, x, d, t)
    ensures Child(paths + [paths[s] + [c]], x, d, t)
  {
    var w, v := paths[s] + [c], paths[x] + [d];
    if t < 0 {
      assert v[..|v| - 1] == paths[x] && w[..|w| - 1] == paths[s];
      assert v[|v| - 1] == d && w[|w| - 1] == c;
      assert v != w;
    }
  }

  /** Rows other than the one that gets the child stay rows of the trie. */
  lemma RowGrows(paths: seq<Word>, s: nat, c: Byte, x: nat, go: seq<int>)
    requires Shape(paths) && s < |paths| && paths[s] + [c] !in paths
    requires x < |paths| && TrieRow(paths, x, go)
    ensures TrieRow(paths + [paths[s] + [c]], x, if x == s then go[c := |paths|] else go)
  {
    var w, go' := paths[s] + [c], if x == s then go[c := |paths|] else go;
    assert Child(paths + [w], s, c, |paths|);
    hide Child, Shape;
    forall d | 0 <= d < 256 ensures Child(paths + [w], x, d, go'[d]) {
      if x != s || d != c {
        ChildGrows(paths, s, c, x, d, go[d]);
      }
    }
  }

  lemma NewRow(paths: seq<Word>, w: Word)
    requires Shape(paths) && w !in paths
    ensures TrieRow(paths + [w], |paths|, NewNode().go)
  {
    forall d | 0 <= d < 256 ensures w + [d] !in paths + [w] {
      assert (w + [d])[..|w|] == w && w !in Strings(paths);
    }
  }

  lemma WithChildTrie(nodes: seq<Node>, paths: seq<Word>, s: nat, c: Byte)
    requires Trie(nodes, paths) && s < |nodes| && nodes[s].go[c] < 0
    ensures Trie(WithChild(nodes, s, c), paths + [paths[s] + [c]])
  {
    var nodes', w := WithChild(nodes, s, c), paths[s] + [c];
    assert Child(paths, s, c, nodes[s].go[c]);
    ShapeGrows(paths, s, c);
    NewRow(paths, w);
    hide TrieRow, Child;
    forall x | 0 <= x < |nodes'| ensures TrieRow(paths + [w], x, nodes'[x].go) {
      if x < |nodes| {
        RowGrows(paths, s, c, x, nodes[x].go);
      }
    }
  }

  lemma WithChildLabelled(nodes: seq<Node>, paths: seq<Word>, dict: map<Word, int>, s: nat, c: Byte)
    requires Labelled(nodes, paths, dict) && Unlinked(nodes) && s < |nodes| && |nodes[s].go| == 256
    requires paths[s] + [c] !in paths
    ensures var nodes' := WithChild(nodes, s, c);
      Labelled(nodes', paths + [paths[s] + [c]], dict) && Unlinked(nodes')
  {
    StringsAppend(paths, paths[s] + [c]);
    assert paths[s] + [c] !in Strings(paths);
  }

  // ----- the finished automaton -----

  /** t is the state of the longest suffix of path(s) + c in the trie. */
  ghost predicate Arrow(paths: seq<Word>, s: nat, c: int, t: int)
    requires Shape(paths) && s < |paths| && 0 <= c < 256
  {
    0 <= t < |paths| && paths[t] == Longest(Strings(paths), paths[s] + [c])
  }

  ghost predicate Complete(paths: seq<Word>, s: nat, go: seq<int>)
    requires Shape(paths) && s < |paths|
  {
    |go| == 256 && forall c :: 0 <= c < 256 ==> Arrow(paths, s, c, go[c])
  }

  /** fail is the state of the longest proper suffix in the trie; dict_link is the state of the
      longest proper suffix that is a nonempty word, or no positive state. */
  ghost predicate Linked(paths: seq<Word>, D: set<Word>, s: nat, fail: int, link: int)
    requires Shape(paths) && s < |paths|
  {
    && paths[s] != []
    && 0 <= fail < |paths| && paths[fail] == Longest(Strings(paths), paths[s][1..])
    && LinkTo(link, paths, LastWord(D, paths[s][1..]))
  }

  ghost predicate LinkTo(link: int, paths: seq<Word>, found: Found) {
    match found
    case NoWord => link <= 0
    case Found(x) => 0 <= link < |paths| && paths[link] == x
  }

  ghost function Nonempty(dict: map<Word, int>): set<Word> {
    dict.Keys - {[]}
  }

  ghost predicate Automaton(nodes: seq<Node>, paths: seq<Word>, dict: map<Word, int>) {
    && Shape(paths) && Labelled(nodes, paths, dict)
    && (forall s :: 0 <= s < |nodes| ==> Complete(paths, s, nodes[s].go))
    && (forall s :: 0 < s < |nodes| ==> Linked(paths, Nonempty(dict), s, nodes[s].fail, nodes[s].dictLink))
  }

  lemma FoldOneMore(s: Word, icase: bool, i: nat)
    requires i < |s|
    ensures Fold(s, icase)[..i + 1] == Fold(s, icase)[..i] + [FoldByte(s[i], icase)]
  {
  }

  class Machine {
    var nodes: seq<Node>
    ghost var paths: seq<Word>
    ghost var dict: map<Word, int>

    /** ac_init and the root state. */
    constructor ()
      ensures IsTrie() && dict == map[]
    {
      nodes, paths, dict := [NewNode()], [[]], map[];
    }

    /** Between ac_init and ac_build. */
    ghost predicate IsTrie()
      reads this
    {
      Trie(nodes, paths) && Labelled(nodes, paths, dict) && Unlinked(nodes)
    }

    /** After ac_build. */
    ghost predicate IsAutomaton()
      reads this
    {
      Automaton(nodes, paths, dict)
    }

    /** ac_insert: the folded pattern becomes a word; a repeated one takes the new id. */
    method Insert(pat: Word, id: int, icase: bool)
      requires IsTrie() && id >= 0
      modifies this
      ensures IsTrie() && dict == old(dict)[Fold(pat, icase) := id]
    {
      ghost var w := Fold(pat, icase);
      var state := 0;
      assert w[..0] == [] && w[..|pat|] == w && |nodes| == |paths|;
      hide *;
      for i := 0 to |pat|
        invariant IsTrie() && |nodes| == |paths| && dict == old(dict)
        invariant 0 <= state < |nodes| && paths[state] == w[..i]
      {
        FoldOneMore(pat, icase, i);
        state := Follow(state, FoldByte(pat[i], icase));
      }
      Label(state, id);
    }

    method Follow(state: int, c: Byte) returns (state': int)
      requires IsTrie() && 0 <= state < |nodes|
      modifies this`nodes, this`paths
      ensures IsTrie() && 0 <= state' < |nodes| == |paths| && paths[state'] == old(paths)[state] + [c]
    {
      assert Child(paths, state, c, nodes[state].go[c]);
      if nodes[state].go[c] < 0 {
        WithChildTrie(nodes, paths, state, c);
        WithChildLabelled(nodes, paths, dict, state, c);
        paths := paths + [paths[state] + [c]];
        nodes := WithChild(nodes, state, c);
        state' := |nodes| - 1;
      } else {
        state' := nodes[state].go[c];
      }
    }

    method Label(state: int, id: int)
      requires IsTrie() && 0 <= state < |nodes| && id >= 0
      modifies this`nodes, this`dict
      ensures IsTrie() && dict == old(dict)[paths[state] := id]
    {
      nodes := nodes[state := nodes[state].(matchId := id)];
      dict := dict[paths[state] := id];
    }
  }
}
