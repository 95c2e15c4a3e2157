/** ac_search (ragel/trigger_match.c) against its plain meaning: which words end where. */
module AhoSearch {
  import opened Bytes
  import opened Words
  import opened AhoCorasick

  const TRIGGER_MAX := 256

  /** trigger_match_t */
  datatype Hit = Hit(id: int, offset: nat)

  // ----- the bitmask of reported ids -----

  /** 1 << k */
  function Bit(k: int): bv8
    requires 0 <= k < 8
  {
    if k == 0 then 1 else if k == 1 then 2 else if k == 2 then 4 else if k == 3 then 8
    else if k == 4 then 16 else if k == 5 then 32 else if k == 6 then 64 else 128
  }

  predicate Has(a: bv8, k: int)
    requires 0 <= k < 8
  {
    a & Bit(k) != 0
  }

  function With(a: bv8, k: int): bv8
    requires 0 <= k < 8
  {
    a | Bit(k)
  }

  predicate IsSet(seen: seq<bv8>, id: int)
    requires |seen| == TRIGGER_MAX / 8 && 0 <= id < TRIGGER_MAX
  {
    Has(seen[id / 8], id % 8)
  }

  function Set(seen: seq<bv8>, id: int): seq<bv8>
    requires |seen| == TRIGGER_MAX / 8 && 0 <= id < TRIGGER_MAX
  {
    seen[id / 8 := With(seen[id / 8], id % 8)]
  }

  lemma BitOr(a: bv8, i: int, j: int)
    requires 0 <= i < 8 && 0 <= j < 8
    ensures Has(With(a, i), j) <==> i == j || Has(a, j)
  {
  }

  lemma SetOne(seen: seq<bv8>, id: int, other: int)
    requires |seen| == TRIGGER_MAX / 8 && 0 <= id < TRIGGER_MAX && 0 <= other < TRIGGER_MAX
    ensures |Set(seen, id)| == TRIGGER_MAX / 8
    ensures IsSet(Set(seen, id), other) <==> id == other || IsSet(seen, other)
  {
    hide Has, With, Bit;
    var p, q, i, j := id / 8, other / 8, id % 8, other % 8;
    assert id == 8 * p + i && other == 8 * q + j;
    BitOr(seen[p], i, j);
  }

  /** The mask holds exactly the reported ids. */
  ghost predicate Mask(seen: seq<bv8>, hits: seq<Hit>) {
    && |seen| == TRIGGER_MAX / 8
    && forall id :: 0 <= id < TRIGGER_MAX ==> (IsSet(seen, id) <==> Reported(hits, id))
  }

  ghost predicate Reported(hits: seq<Hit>, id: int) {
    exists k :: 0 <= k < |hits| && hits[k].id == id
  }

  lemma ReportedAppend(hits: seq<Hit>, h: Hit, id: int)
    ensures Reported(hits + [h], id) <==> Reported(hits, id) || id == h.id
  {
    if Reported(hits, id) {
      var k :| 0 <= k < |hits| && hits[k].id == id;
      assert (hits + [h])[k].id == id;
    }
    assert (hits + [h])[|hits|] == h;
  }

  lemma MaskSet(seen: seq<bv8>, hits: seq<Hit>, h: Hit)
    requires Mask(seen, hits) && 0 <= h.id < TRIGGER_MAX
    ensures Mask(Set(seen, h.id), hits + [h])
  {
    forall id | 0 <= id < TRIGGER_MAX ensures IsSet(Set(seen, h.id), id) <==> Reported(hits + [h], id) {
      SetOne(seen, h.id, id);
      ReportedAppend(hits, h, id);
    }
  }

  // ----- what a search must report -----

  ghost predicate Ids(dict: map<Word, int>) {
    forall w :: w in dict ==> 0 <= dict[w] < TRIGGER_MAX
  }

  /** Some nonempty word with this id ends at position i of the text. */
  ghost predicate EndsAt(dict: map<Word, int>, text: Word, id: int, i: nat)
    requires i < |text|
  {
    exists x :: Ends(Nonempty(dict), text[..i + 1], x) && dict[x] == id
  }

  /** i is where the earliest-ending occurrence ends. */
  ghost predicate Earliest(dict: map<Word, int>, text: Word, id: int, i: nat)
    requires i < |text|
  {
    EndsAt(dict, text, id, i) && forall j :: 0 <= j < i ==> !EndsAt(dict, text, id, j)
  }

  /** The hits so far are right: each id once, with the end of its earliest-ending occurrence,
      in order of position. */
  ghost predicate Sound(dict: map<Word, int>, text: Word, hits: seq<Hit>) {
    && (forall k :: 0 <= k < |hits| ==> hits[k].offset < |text| && Earliest(dict, text, hits[k].id, hits[k].offset))
    && (forall j, k :: 0 <= j < k < |hits| ==> hits[j].id != hits[k].id && hits[j].offset <= hits[k].offset)
  }

  /** No id that ends before position n is missing. */
  ghost predicate CompleteTo(dict: map<Word, int>, text: Word, hits: seq<Hit>, n: nat)
    requires n <= |text|
  {
    forall id, i :: 0 <= i < n && EndsAt(dict, text, id, i) ==> Reported(hits, id)
  }

  /** However little room there is, nothing that ends before the last hit is passed over. */
  ghost predicate NonePassed(dict: map<Word, int>, text: Word, hits: seq<Hit>) {
    hits != [] ==> hits[|hits| - 1].offset <= |text| && CompleteTo(dict, text, hits, hits[|hits| - 1].offset)
  }

  lemma SoFarPasses(dict: map<Word, int>, text: Word, hits: seq<Hit>, seen: seq<bv8>, n: nat)
    requires n <= |text| && SoFar(dict, text, hits, seen, n)
    ensures NonePassed(dict, text, hits)
  {
  }

  /** The words that end at the current position are reported, or still ahead on the chain. */
  ghost predicate Ahead(dict: map<Word, int>, w: Word, hits: seq<Hit>, tmp: int, paths: seq<Word>) {
    && tmp < |paths|
    && (forall x :: Ends(Nonempty(dict), w, x) ==> Reported(hits, dict[x]) || (tmp > 0 && Ends(Nonempty(dict), paths[tmp], x)))
    && (forall x :: tmp > 0 && Ends(Nonempty(dict), paths[tmp], x) ==> Ends(Nonempty(dict), w, x))
  }

  /** The state after reading w starts the chain. */
  lemma ChainStarts(nodes: seq<Node>, paths: seq<Word>, dict: map<Word, int>, w: Word, state: nat, hits: seq<Hit>)
    requires Automaton(nodes, paths, dict) && state < |paths| && paths[state] == Longest(Strings(paths), w)
    ensures Ahead(dict, w, hits, state, paths)
  {
    var D := Nonempty(dict);
    forall x | x in D ensures Ends(D, w, x) <==> Ends(D, paths[state], x) {
      LongestSuffixes(Strings(paths), w, x);
    }
    forall x | Ends(D, paths[state], x) ensures state > 0 {
      assert x != [] && Suffix(x, paths[state]);
    }
  }

  /** Following dict_link leaves out only the word of the state itself. */
  lemma ChainFollows(nodes: seq<Node>, paths: seq<Word>, dict: map<Word, int>, w: Word, hits: seq<Hit>, tmp: nat)
    requires Automaton(nodes, paths, dict) && 0 < tmp < |nodes| && Ahead(dict, w, hits, tmp, paths)
    requires nodes[tmp].matchId >= 0 ==> Reported(hits, nodes[tmp].matchId)
    ensures nodes[tmp].dictLink < |nodes|
    ensures Ahead(dict, w, hits, nodes[tmp].dictLink, paths)
    ensures nodes[tmp].dictLink > 0 ==> |paths[nodes[tmp].dictLink]| < |paths[tmp]|
  {
    var D, y, link := Nonempty(dict), paths[tmp], nodes[tmp].dictLink;
    LinkCovers(nodes, paths, dict, tmp);
    StateWord(nodes, paths, dict, tmp);
    hide Automaton, Linked, Ends, Labelled, Reported;
  }

  /** A positive state carries an id exactly when its string is a word. */
  lemma StateWord(nodes: seq<Node>, paths: seq<Word>, dict: map<Word, int>, tmp: nat)
    requires Automaton(nodes, paths, dict) && 0 < tmp < |nodes|
    ensures |nodes| == |paths| && paths[tmp] != []
    ensures nodes[tmp].matchId >= 0 <==> paths[tmp] in Nonempty(dict)
    ensures paths[tmp] in dict ==> dict[paths[tmp]] == nodes[tmp].matchId
    ensures paths[tmp] in Nonempty(dict) ==> Ends(Nonempty(dict), paths[tmp], paths[tmp])
  {
    assert Linked(paths, Nonempty(dict), tmp, nodes[tmp].fail, nodes[tmp].dictLink);
  }

  /** The words that end a state's string: its own, and those at the end of dict_link's. */
  lemma LinkCovers(nodes: seq<Node>, paths: seq<Word>, dict: map<Word, int>, tmp: nat)
    requires Automaton(nodes, paths, dict) && 0 < tmp < |nodes| == |paths|
    ensures var D, y, link := Nonempty(dict), paths[tmp], nodes[tmp].dictLink;
      && link < |paths| && (link > 0 ==> |paths[link]| < |y|)
      && forall x :: Ends(D, y, x) <==> (x == y && y in D) || (link > 0 && Ends(D, paths[link], x))
  {
    var D, y, link := Nonempty(dict), paths[tmp], nodes[tmp].dictLink;
    assert Linked(paths, D, tmp, nodes[tmp].fail, link);
    hide Automaton;
    forall x ensures Ends(D, y, x) <==> (x == y && y in D) || (link > 0 && Ends(D, paths[link], x)) {
      EndsSplit(D, y, x);
      EndsFromLast(D, y[1..], x);
    }
  }

  /** Reporting the word of a state on the chain, unless its id was reported before. */
  lemma ReportSound(nodes: seq<Node>, paths: seq<Word>, dict: map<Word, int>, text: Word, hits: seq<Hit>, i: nat, tmp: nat)
    requires Automaton(nodes, paths, dict) && 0 < tmp < |nodes| && nodes[tmp].matchId >= 0
    requires i < |text| && Ahead(dict, text[..i + 1], hits, tmp, paths)
    requires Sound(dict, text, hits) && CompleteTo(dict, text, hits, i) && forall k :: 0 <= k < |hits| ==> hits[k].offset <= i
    requires !Reported(hits, nodes[tmp].matchId)
    ensures Sound(dict, text, hits + [Hit(nodes[tmp].matchId, i)])
  {
    hide Automaton, Ends;
    var D, y, id := Nonempty(dict), paths[tmp], nodes[tmp].matchId;
    StateWord(nodes, paths, dict, tmp);
    assert Ends(D, text[..i + 1], y);
    assert EndsAt(dict, text, id, i);
    assert Earliest(dict, text, id, i);
    hide Earliest, EndsAt, Ahead;
    forall k | 0 <= k < |hits| ensures hits[k].id != id {
      assert !Reported(hits, id);
    }
  }

  lemma AheadMore(dict: map<Word, int>, w: Word, hits: seq<Hit>, h: Hit, tmp: int, paths: seq<Word>)
    requires Ahead(dict, w, hits, tmp, paths)
    ensures Ahead(dict, w, hits + [h], tmp, paths)
  {
    forall x | Ends(Nonempty(dict), w, x) && Reported(hits, dict[x]) ensures Reported(hits + [h], dict[x]) {
      ReportedAppend(hits, h, dict[x]);
    }
  }

  lemma CompleteMore(dict: map<Word, int>, text: Word, hits: seq<Hit>, h: Hit, n: nat)
    requires n <= |text| && CompleteTo(dict, text, hits, n)
    ensures CompleteTo(dict, text, hits + [h], n)
  {
    forall id, i | 0 <= i < n && EndsAt(dict, text, id, i) ensures Reported(hits + [h], id) {
      ReportedAppend(hits, h, id);
    }
  }

  lemma ChainEnds(dict: map<Word, int>, text: Word, hits: seq<Hit>, i: nat, tmp: int, paths: seq<Word>)
    requires i < |text| && CompleteTo(dict, text, hits, i) && tmp <= 0 && Ahead(dict, text[..i + 1], hits, tmp, paths)
    ensures CompleteTo(dict, text, hits, i + 1)
  {
    forall id | EndsAt(dict, text, id, i) ensures Reported(hits, id) {
      var x :| Ends(Nonempty(dict), text[..i + 1], x) && dict[x] == id;
    }
  }

  /** Everything the search knows after position n. */
  ghost predicate SoFar(dict: map<Word, int>, text: Word, hits: seq<Hit>, seen: seq<bv8>, n: nat)
    requires n <= |text|
  {
    && Sound(dict, text, hits) && Mask(seen, hits) && CompleteTo(dict, text, hits, n)
    && forall k :: 0 <= k < |hits| ==> hits[k].offset <= n
  }

  lemma ReportOne(nodes: seq<Node>, paths: seq<Word>, dict: map<Word, int>, text: Word, hits: seq<Hit>, seen: seq<bv8>, i: nat, tmp: nat, id: int)
    requires Automaton(nodes, paths, dict) && Ids(dict) && 0 < tmp < |nodes| && id == nodes[tmp].matchId >= 0
    requires i < |text| && Ahead(dict, text[..i + 1], hits, tmp, paths) && SoFar(dict, text, hits, seen, i)
    ensures id < TRIGGER_MAX && |seen| == TRIGGER_MAX / 8
    ensures IsSet(seen, id) ==> Reported(hits, id)
    ensures !IsSet(seen, id) ==> SoFar(dict, text, hits + [Hit(id, i)], Set(seen, id), i)
    ensures !IsSet(seen, id) ==> Ahead(dict, text[..i + 1], hits + [Hit(id, i)], tmp, paths)
    ensures !IsSet(seen, id) ==> Reported(hits + [Hit(id, i)], id)
  {
    hide Automaton, Sound, CompleteTo, Ahead, Ends, IsSet, Set;
    StateWord(nodes, paths, dict, tmp);
    assert IsSet(seen, id) <==> Reported(hits, id);
    if !IsSet(seen, id) {
      var h := Hit(id, i);
      ReportSound(nodes, paths, dict, text, hits, i, tmp);
      MaskSet(seen, hits, h);
      AheadMore(dict, text[..i + 1], hits, h, tmp, paths);
      CompleteMore(dict, text, hits, h, i);
      ReportedAppend(hits, h, id);
      hide Mask, Reported;
      assert forall k :: 0 <= k < |hits + [h]| ==> (hits + [h])[k].offset <= i;
    }
  }

  /** Reports the words that end here: the state's own, then those of the states that the
      dictionary links lead through. */
  method WalkChain(ac: Machine, ghost text: Word, i: nat, state: nat, seen: seq<bv8>, hits: seq<Hit>, max: nat)
    returns (seen': seq<bv8>, hits': seq<Hit>)
    requires ac.IsAutomaton() && Ids(ac.dict)
    requires i < |text| && SoFar(ac.dict, text, hits, seen, i) && |hits| < max && Shape(ac.paths)
    requires state < |ac.nodes| == |ac.paths| && ac.paths[state] == Longest(Strings(ac.paths), text[..i + 1])
    ensures |hits'| <= max && Sound(ac.dict, text, hits') && NonePassed(ac.dict, text, hits')
    ensures |hits'| < max ==> SoFar(ac.dict, text, hits', seen', i + 1)
  {
    seen', hits' := seen, hits;
    var tmp: int := state;
    ChainStarts(ac.nodes, ac.paths, ac.dict, text[..i + 1], state, hits);
    hide Automaton, Ahead, Mask, Sound, CompleteTo, Longest, Ids, Reported, NonePassed;
    while tmp > 0 && |hits'| < max
      invariant tmp < |ac.nodes| == |ac.paths| && |hits'| <= max
      invariant SoFar(ac.dict, text, hits', seen', i)
      invariant Ahead(ac.dict, text[..i + 1], hits', tmp, ac.paths)
      decreases if tmp > 0 then |ac.paths[tmp]| + 1 else 0
    {
      var id := ac.nodes[tmp].matchId;
      if id >= 0 {
        ReportOne(ac.nodes, ac.paths, ac.dict, text, hits', seen', i, tmp, id);
        if !IsSet(seen', id) {
          seen' := Set(seen', id);
          hits' := hits' + [Hit(id, i)];
        }
      }
      ChainFollows(ac.nodes, ac.paths, ac.dict, text[..i + 1], hits', tmp);
      tmp := ac.nodes[tmp].dictLink;
    }
    SoFarPasses(ac.dict, text, hits', seen', i);
    if |hits'| < max {
      ChainEnds(ac.dict, text, hits', i, tmp, ac.paths);
    }
  }

  lemma ArrowAt(nodes: seq<Node>, paths: seq<Word>, dict: map<Word, int>, state: nat, c: Byte)
    requires Automaton(nodes, paths, dict) && state < |nodes| == |paths|
    ensures [] in Strings(paths) && PrefixClosed(Strings(paths))
    ensures |nodes[state].go| == 256 && 0 <= nodes[state].go[c] < |nodes|
    ensures paths[nodes[state].go[c]] == Longest(Strings(paths), paths[state] + [c])
  {
    assert Complete(paths, state, nodes[state].go);
    assert Arrow(paths, state, c, nodes[state].go[c]);
  }

  /** Reading a byte keeps the state at the longest suffix of what was read. */
  lemma StateReads(nodes: seq<Node>, paths: seq<Word>, dict: map<Word, int>, read: Word, c: Byte, state: nat)
    requires Automaton(nodes, paths, dict) && state < |nodes| == |paths|
    requires paths[state] == Longest(Strings(paths), read)
    ensures |nodes[state].go| == 256 && 0 <= nodes[state].go[c] < |nodes|
    ensures paths[nodes[state].go[c]] == Longest(Strings(paths), read + [c])
  {
    hide Automaton, Longest, Strings;
    ArrowAt(nodes, paths, dict, state, c);
    LongestStep(Strings(paths), read, c);
  }

  /** ac_search. With room to spare, an id is reported exactly when one of its words occurs in
      the folded text. */
  method Search(ac: Machine, text: Word, icase: bool, max: nat) returns (hits: seq<Hit>)
    requires ac.IsAutomaton() && Ids(ac.dict)
    ensures |hits| <= max && Sound(ac.dict, Fold(text, icase), hits) && NonePassed(ac.dict, Fold(text, icase), hits)
    ensures |hits| < max ==> CompleteTo(ac.dict, Fold(text, icase), hits, |text|)
  {
    hide Automaton, Sound, SoFar, CompleteTo, Ids, Shape, Longest, Strings, NoIds, FoldByte, NonePassed;
    ghost var folded := Fold(text, icase);
    hits := [];
    var seen := NoIds();
    var state, i := 0, 0;
    SearchStarts(ac.nodes, ac.paths, ac.dict, folded);
    ghost var read := folded[..0];
    SoFarPasses(ac.dict, folded, hits, seen, 0);
    hide Fold;
    while i < |text| && |hits| < max
      invariant i <= |text| && |hits| <= max && Sound(ac.dict, folded, hits) && NonePassed(ac.dict, folded, hits)
      invariant |hits| < max ==> SoFar(ac.dict, folded, hits, seen, i)
      invariant read == folded[..i]
      invariant 0 <= state < |ac.nodes| == |ac.paths| && ac.paths[state] == Longest(Strings(ac.paths), read)
    {
      var c := FoldByte(text[i], icase);
      FoldOneMore(text, icase, i);
      StateReads(ac.nodes, ac.paths, ac.dict, read, c, state);
      read := read + [c];
      state := ac.nodes[state].go[c];
      seen, hits := WalkChain(ac, folded, i, state, seen, hits, max);
      i := i + 1;
    }
    if |hits| < max {
      SoFarComplete(ac.dict, folded, hits, seen, i);
    }
  }

  lemma SoFarComplete(dict: map<Word, int>, text: Word, hits: seq<Hit>, seen: seq<bv8>, n: nat)
    requires n <= |text| && SoFar(dict, text, hits, seen, n)
    ensures CompleteTo(dict, text, hits, n)
  {
  }

  /** memset(seen, 0, sizeof(seen)) */
  function NoIds(): seq<bv8> {
    seq(TRIGGER_MAX / 8, _ => 0)
  }

  lemma EmptyMask()
    ensures Mask(NoIds(), [])
  {
    var seen := NoIds();
    forall id | 0 <= id < TRIGGER_MAX ensures !IsSet(seen, id) {
      assert seen[id / 8] == 0;
    }
  }

  lemma SearchStarts(nodes: seq<Node>, paths: seq<Word>, dict: map<Word, int>, text: Word)
    requires Automaton(nodes, paths, dict)
    ensures |nodes| == |paths| > 0 && Shape(paths) && [] in Strings(paths)
    ensures paths[0] == Longest(Strings(paths), text[..0])
    ensures Sound(dict, text, []) && SoFar(dict, text, [], NoIds(), 0)
  {
    assert |nodes| == |paths| > 0 && Shape(paths) && paths[0] == [] && [] in Strings(paths);
    assert Longest(Strings(paths), []) == [] == text[..0];
    hide Automaton, Shape, Mask, Longest, Strings;
    EmptyMask();
  }
}
