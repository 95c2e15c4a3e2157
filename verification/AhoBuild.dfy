/** ac_build (ragel/trigger_match.c): what the breadth-first pass has established when it
    takes a state from the queue, and what each transition adds. */
module AhoBuild {
  import opened Bytes
  import opened Words
  import opened AhoCorasick

  ghost function Front(w: Word): Word
    requires w != []
  {
    w[..|w| - 1]
  }

  ghost function Last(w: Word): Byte
    requires w != []
  {
    w[|w| - 1]
  }

  // ----- the queue -----

  /** States other than the root, each at most once, in order of depth. */
  ghost predicate QueueShape(paths: seq<Word>, queue: seq<int>) {
    && (forall i :: 0 <= i < |queue| ==> 0 < queue[i] < |paths|)
    && (forall i, j :: 0 <= i < j < |queue| ==> queue[i] != queue[j] && |paths[queue[i]]| <= |paths[queue[j]]|)
  }

  /** The strings of the states that have been taken from the queue. */
  ghost function Done(paths: seq<Word>, queue: seq<int>, qh: nat): set<Word>
    requires QueueShape(paths, queue) && qh <= |queue|
  {
    set i | 0 <= i < qh :: paths[queue[i]]
  }

  /** A state has been queued if it is a child of the root, of a state that is done, or of u by
      a byte below c. */
  ghost predicate Reached(w: Word, done: set<Word>, u: Word, c: int) {
    w != [] && (|w| == 1 || Front(w) in done || (Front(w) == u && Last(w) < c))
  }

  ghost predicate Enqueued(paths: seq<Word>, queue: seq<int>, done: set<Word>, u: Word, c: int) {
    forall x :: 0 < x < |paths| ==> (x in queue <==> Reached(paths[x], done, u, c))
  }

  /** When the next state is taken, every state nearer the root is done. */
  lemma {:induction false} ShallowDone(paths: seq<Word>, queue: seq<int>, qh: nat, x: nat)
    requires Shape(paths) && QueueShape(paths, queue) && qh < |queue|
    requires Enqueued(paths, queue, Done(paths, queue, qh), [], 0)
    requires 0 < x < |paths| && |paths[x]| < |paths[queue[qh]]|
    ensures paths[x] in Done(paths, queue, qh)
    decreases |paths[x]|
  {
    ShallowQueued(paths, queue, qh, x);
    var j :| 0 <= j < |queue| && queue[j] == x;
    assert j < qh;
  }

  lemma {:induction false} ShallowQueued(paths: seq<Word>, queue: seq<int>, qh: nat, x: nat)
    requires Shape(paths) && QueueShape(paths, queue) && qh < |queue|
    requires Enqueued(paths, queue, Done(paths, queue, qh), [], 0)
    requires 0 < x < |paths| && |paths[x]| <= |paths[queue[qh]]|
    ensures x in queue
    decreases |paths[x]|, 0
  {
    var w := paths[x];
    assert w != [] && w in Strings(paths);
    if |w| > 1 {
      assert Front(w) in Strings(paths);
      var p :| 0 <= p < |paths| && paths[p] == Front(w);
      ShallowDone(paths, queue, qh, p);
    }
    assert Reached(w, Done(paths, queue, qh), [], 0);
  }

  /** When the queue is used up, every state but the root is done. */
  lemma {:induction false} AllDone(paths: seq<Word>, queue: seq<int>, x: nat)
    requires Shape(paths) && QueueShape(paths, queue)
    requires Enqueued(paths, queue, Done(paths, queue, |queue|), [], 0)
    requires 0 < x < |paths|
    ensures x in queue && paths[x] in Done(paths, queue, |queue|)
    decreases |paths[x]|
  {
    var w := paths[x];
    assert w != [] && w in Strings(paths);
    if |w| > 1 {
      assert Front(w) in Strings(paths);
      var p :| 0 <= p < |paths| && paths[p] == Front(w);
      AllDone(paths, queue, p);
    }
    assert Reached(w, Done(paths, queue, |queue|), [], 0);
  }

  /** The queue array of `num` cells is never overrun. */
  lemma QueueBound(paths: seq<Word>, queue: seq<int>)
    requires QueueShape(paths, queue) && |paths| > 0
    ensures |queue| < |paths|
  {
    Pigeonhole(queue, |paths|);
  }

  lemma {:induction false} Pigeonhole(queue: seq<int>, n: nat)
    requires n > 0 && forall i :: 0 <= i < |queue| ==> 0 < queue[i] < n
    requires forall i, j :: 0 <= i < j < |queue| ==> queue[i] != queue[j]
    ensures |queue| < n
    decreases n
  {
    if queue != [] {
      if i :| 0 <= i < |queue| && queue[i] == n - 1 {
        var rest := queue[..i] + queue[i + 1..];
        assert forall j :: 0 <= j < |rest| ==> rest[j] == queue[if j < i then j else j + 1];
        Pigeonhole(rest, n - 1);
      } else {
        assert 0 < queue[0] < n - 1;
        Pigeonhole(queue, n - 1);
      }
    }
  }

  // ----- one transition -----

  /** Failure follows the input: the transition of fail(w) on c leads to fail(w + c). */
  lemma FailFollows(P: set<Word>, w: Word, c: Byte)
    requires PrefixClosed(P) && w != []
    ensures Longest(P, Longest(P, w[1..]) + [c]) == Longest(P, (w + [c])[1..])
    ensures w + [c] !in P ==> Longest(P, Longest(P, w[1..]) + [c]) == Longest(P, w + [c])
  {
    var t := w[1..];
    assert (w + [c])[1..] == t + [c];
    assert w + [c] !in P ==> Longest(P, w + [c]) == Longest(P, t + [c]);
    hide Longest;
    LongestStep(P, t, c);
  }

  /** The dictionary link computed from the failure state f is the right one. */
  lemma LinkFromFailure(nodes: seq<Node>, paths: seq<Word>, dict: map<Word, int>, w: Word, f: nat)
    requires Shape(paths) && Labelled(nodes, paths, dict) && f < |nodes|
    requires paths[f] == Longest(Strings(paths), w)
    requires nodes[0].dictLink <= 0
    requires f > 0 ==> Linked(paths, Nonempty(dict), f, nodes[f].fail, nodes[f].dictLink)
    ensures LinkTo(if nodes[f].matchId >= 0 then f else nodes[f].dictLink, paths, LastWord(Nonempty(dict), w))
  {
    LastWordFromLongest(Strings(paths), Nonempty(dict), w);
    if f == 0 {
      assert LastWord(Nonempty(dict), []) == NoWord;
    }
  }

  // ----- the pass -----

  /** The root and the states that are done have complete rows, the others (u apart) still have
      their trie rows, and every queued state has its links. */
  ghost predicate Progress(nodes: seq<Node>, paths: seq<Word>, dict: map<Word, int>, queue: seq<int>, done: set<Word>, u: int) {
    && Shape(paths) && Labelled(nodes, paths, dict) && QueueShape(paths, queue)
    && Complete(paths, 0, nodes[0].go) && nodes[0].dictLink <= 0
    && (forall s :: 0 < s < |nodes| && s != u ==>
          if paths[s] in done then Complete(paths, s, nodes[s].go) else TrieRow(paths, s, nodes[s].go))
    && (forall s :: 0 < s < |nodes| && s in queue ==> Linked(paths, Nonempty(dict), s, nodes[s].fail, nodes[s].dictLink))
  }

  /** The row of u while byte c is looked at. */
  ghost predicate PartRow(paths: seq<Word>, u: nat, go: seq<int>, c: int)
    requires Shape(paths) && u < |paths|
  {
    |go| == 256 && forall d :: 0 <= d < 256 ==> if d < c then Arrow(paths, u, d, go[d]) else Child(paths, u, d, go[d])
  }

  /** Everything nearer the root than u is done, everything as near is queued, and nothing is
      queued more than one level below u. */
  ghost predicate Levels(paths: seq<Word>, queue: seq<int>, done: set<Word>, u: nat)
    requires QueueShape(paths, queue) && u < |paths|
  {
    && (forall x :: 0 < x < |paths| && |paths[x]| < |paths[u]| ==> paths[x] in done)
    && (forall x :: 0 < x < |paths| && |paths[x]| <= |paths[u]| ==> x in queue)
    && (forall j :: 0 <= j < |queue| ==> |paths[queue[j]]| <= |paths[u]| + 1)
  }

  ghost predicate Expanding(nodes: seq<Node>, paths: seq<Word>, dict: map<Word, int>, queue: seq<int>, done: set<Word>, u: nat, c: int) {
    && Progress(nodes, paths, dict, queue, done, u)
    && 0 < u < |paths| && paths[u] !in done && paths[u] != [] && Levels(paths, queue, done, u)
    && Enqueued(paths, queue, done, paths[u], c)
    && PartRow(paths, u, nodes[u].go, c)
  }

  /** The failure state of u is complete, so its transition is the longest suffix of what u and
      c make, short of u + c itself; and that state has its links. */
  lemma FailureKnown(nodes: seq<Node>, paths: seq<Word>, dict: map<Word, int>, queue: seq<int>, done: set<Word>, u: nat, c: Byte)
    requires Expanding(nodes, paths, dict, queue, done, u, c)
    ensures 0 < u < |nodes| && |nodes[u].go| == 256
    ensures 0 <= nodes[u].fail < |nodes| && |nodes[nodes[u].fail].go| == 256
    ensures var f := nodes[nodes[u].fail].go[c];
      && 0 <= f < |nodes| && paths[f] == Longest(Strings(paths), (paths[u] + [c])[1..])
      && (paths[u] + [c] !in paths ==> Arrow(paths, u, c, f))
      && (f > 0 ==> Linked(paths, Nonempty(dict), f, nodes[f].fail, nodes[f].dictLink))
  {
    var w, x := paths[u], nodes[u].fail;
    assert u in queue && Linked(paths, Nonempty(dict), u, x, nodes[u].dictLink);
    assert Complete(paths, x, nodes[x].go) by {
      assert x > 0 ==> paths[x] in done;
    }
    assert Arrow(paths, x, c, nodes[x].go[c]);
    FailFollows(Strings(paths), w, c);
    var f := nodes[x].go[c];
    assert |paths[f]| <= |(w + [c])[1..]|;
    assert f > 0 ==> f in queue;
  }

  lemma EnqueuedNext(paths: seq<Word>, queue: seq<int>, done: set<Word>, u: nat, c: Byte)
    requires 0 < u < |paths| && paths[u] !in done && paths[u] != []
    requires QueueShape(paths, queue) && Enqueued(paths, queue, done, paths[u], c)
    ensures forall x :: 0 < x < |paths| ==>
      (Reached(paths[x], done, paths[u], c + 1) <==> x in queue || paths[x] == paths[u] + [c])
    ensures forall x :: 0 < x < |paths| && paths[x] == paths[u] + [c] ==> x !in queue
  {
    forall x | 0 < x < |paths| && paths[x] != []
      ensures paths[x] == paths[u] + [c] <==> Front(paths[x]) == paths[u] && Last(paths[x]) == c
    {
      assert paths[x] == Front(paths[x]) + [Last(paths[x])];
    }
  }

  lemma QueueGrows(paths: seq<Word>, queue: seq<int>, v: int)
    requires QueueShape(paths, queue) && 0 < v < |paths| && v !in queue
    requires forall j :: 0 <= j < |queue| ==> |paths[queue[j]]| <= |paths[v]|
    ensures QueueShape(paths, queue + [v])
  {
  }

  lemma LevelsGrow(paths: seq<Word>, queue: seq<int>, done: set<Word>, u: nat, v: int)
    requires QueueShape(paths, queue) && QueueShape(paths, queue + [v]) && u < |paths| && Levels(paths, queue, done, u)
    requires 0 < v < |paths| && |paths[v]| == |paths[u]| + 1
    ensures Levels(paths, queue + [v], done, u)
  {
    hide QueueShape;
    assert forall x :: x in queue ==> x in queue + [v];
  }

  lemma ChildQueued(paths: seq<Word>, queue: seq<int>, done: set<Word>, u: nat, c: Byte, v: nat)
    requires Shape(paths) && QueueShape(paths, queue) && 0 < u < |paths| && paths[u] !in done && paths[u] != []
    requires Levels(paths, queue, done, u) && Enqueued(paths, queue, done, paths[u], c)
    requires 0 < v < |paths| && paths[v] == paths[u] + [c]
    ensures QueueShape(paths, queue + [v]) && v !in queue && v != u
    ensures Levels(paths, queue + [v], done, u) && Enqueued(paths, queue + [v], done, paths[u], c + 1)
  {
    EnqueuedNext(paths, queue, done, u, c);
    QueueGrows(paths, queue, v);
    LevelsGrow(paths, queue, done, u, v);
    assert forall x :: 0 < x < |paths| && paths[x] == paths[v] ==> x == v;
    hide Reached, Shape, QueueShape, Levels;
    assert forall x :: x in queue + [v] <==> x in queue || x == v;
  }

  /** A child of the state gets its links and joins the queue. */
  function LinkChild(nodes: seq<Node>, v: nat, f: int): seq<Node>
    requires v < |nodes| && 0 <= f < |nodes|
  {
    nodes[v := nodes[v].(fail := f, dictLink := if nodes[f].matchId >= 0 then f else nodes[f].dictLink)]
  }

  lemma RowPast(paths: seq<Word>, u: nat, go: seq<int>, c: Byte, t: int)
    requires Shape(paths) && u < |paths| && PartRow(paths, u, go, c) && Arrow(paths, u, c, t)
    ensures PartRow(paths, u, go[c := t], c + 1)
  {
  }

  /** A child queued by its parent gets the right links. */
  lemma ChildLinked(nodes: seq<Node>, paths: seq<Word>, dict: map<Word, int>, w: Word, v: nat, f: nat)
    requires Shape(paths) && Labelled(nodes, paths, dict) && f < |nodes| && 0 < v < |nodes| && v != f
    requires paths[v] != [] && paths[f] == Longest(Strings(paths), paths[v][1..])
    requires nodes[0].dictLink <= 0
    requires f > 0 ==> Linked(paths, Nonempty(dict), f, nodes[f].fail, nodes[f].dictLink)
    ensures var n := LinkChild(nodes, v, f)[v]; Linked(paths, Nonempty(dict), v, n.fail, n.dictLink)
    ensures Labelled(LinkChild(nodes, v, f), paths, dict)
  {
    LinkFromFailure(nodes, paths, dict, paths[v][1..], f);
  }

  lemma SameSize(nodes: seq<Node>, paths: seq<Word>, dict: map<Word, int>)
    requires Labelled(nodes, paths, dict)
    ensures |nodes| == |paths|
  {
  }

  lemma ProgressChild(nodes: seq<Node>, paths: seq<Word>, dict: map<Word, int>, queue: seq<int>, done: set<Word>, u: nat, v: nat, f: nat)
    requires Progress(nodes, paths, dict, queue, done, u) && 0 < v < |nodes| && f < |nodes|
    requires QueueShape(paths, queue + [v])
    requires var n := LinkChild(nodes, v, f)[v]; Linked(paths, Nonempty(dict), v, n.fail, n.dictLink)
    requires Labelled(LinkChild(nodes, v, f), paths, dict)
    ensures Progress(LinkChild(nodes, v, f), paths, dict, queue + [v], done, u)
  {
    hide Complete, TrieRow, Shape, Labelled, Linked, QueueShape, Nonempty;
    var nodes', queue' := LinkChild(nodes, v, f), queue + [v];
    SameSize(nodes, paths, dict);
    assert forall s :: 0 <= s < |nodes| ==> nodes'[s].go == nodes[s].go && (s != v ==> nodes'[s] == nodes[s]);
    assert forall s :: s in queue' ==> s == v || s in queue;
  }

  /** What linking the child of u on c needs. */
  lemma ChildFacts(nodes: seq<Node>, paths: seq<Word>, dict: map<Word, int>, queue: seq<int>, done: set<Word>, u: nat, c: Byte, v: int, f: int)
    requires Expanding(nodes, paths, dict, queue, done, u, c)
    requires v == nodes[u].go[c] > 0 && 0 <= nodes[u].fail < |nodes| && c < |nodes[nodes[u].fail].go| && f == nodes[nodes[u].fail].go[c]
    ensures 0 < v < |nodes| == |paths| && 0 <= f < |nodes| && v != f && paths[v] == paths[u] + [c] && Arrow(paths, u, c, v)
    ensures paths[f] == Longest(Strings(paths), paths[v][1..])
    ensures f > 0 ==> Linked(paths, Nonempty(dict), f, nodes[f].fail, nodes[f].dictLink)
  {
    FailureKnown(nodes, paths, dict, queue, done, u, c);
    assert Child(paths, u, c, v);
    assert paths[v] in Strings(paths);
    assert |paths[f]| <= |paths[v][1..]|;
  }

  lemma ExpandChild(nodes: seq<Node>, paths: seq<Word>, dict: map<Word, int>, queue: seq<int>, done: set<Word>, u: nat, c: Byte, v: int, f: int)
    requires Expanding(nodes, paths, dict, queue, done, u, c)
    requires v == nodes[u].go[c] > 0 && 0 <= nodes[u].fail < |nodes| && c < |nodes[nodes[u].fail].go| && f == nodes[nodes[u].fail].go[c]
    ensures v < |nodes| && 0 <= f < |nodes|
    ensures Expanding(LinkChild(nodes, v, f), paths, dict, queue + [v], done, u, c + 1)
  {
    assert |nodes[u].go| == 256;
    hide Complete, TrieRow, PartRow, Enqueued, Shape, Labelled, Linked, Longest, Levels, QueueShape, Child, Arrow, Strings;
    ChildFacts(nodes, paths, dict, queue, done, u, c, v, f);
    ChildQueued(paths, queue, done, u, c, v);
    ChildLinked(nodes, paths, dict, paths[u] + [c], v, f);
    RowPast(paths, u, nodes[u].go, c, v);
    ProgressChild(nodes, paths, dict, queue, done, u, v, f);
    assert nodes[u].go[c := v] == nodes[u].go;
    assert LinkChild(nodes, v, f)[u] == nodes[u];
    hide Progress;
  }

  /** Otherwise: complete the transition from the failure state. */
  function CompleteArrow(nodes: seq<Node>, u: nat, c: Byte, f: int): seq<Node>
    requires u < |nodes| && |nodes[u].go| == 256
  {
    nodes[u := nodes[u].(go := nodes[u].go[c := f])]
  }

  lemma ProgressMissing(nodes: seq<Node>, paths: seq<Word>, dict: map<Word, int>, queue: seq<int>, done: set<Word>, u: nat, c: Byte, f: int)
    requires Progress(nodes, paths, dict, queue, done, u) && 0 < u < |nodes| && |nodes[u].go| == 256
    ensures Progress(CompleteArrow(nodes, u, c, f), paths, dict, queue, done, u)
  {
    var nodes' := CompleteArrow(nodes, u, c, f);
    assert Labelled(nodes', paths, dict) && |nodes| == |paths|;
    hide Complete, TrieRow, Shape, Labelled, Linked, QueueShape;
    assert forall s :: 0 <= s < |nodes| && s != u ==> nodes'[s] == nodes[s];
    assert nodes'[u].fail == nodes[u].fail && nodes'[u].dictLink == nodes[u].dictLink;
  }

  lemma ExpandMissing(nodes: seq<Node>, paths: seq<Word>, dict: map<Word, int>, queue: seq<int>, done: set<Word>, u: nat, c: Byte, f: int)
    requires Expanding(nodes, paths, dict, queue, done, u, c) && nodes[u].go[c] <= 0
    requires 0 <= nodes[u].fail < |nodes| && c < |nodes[nodes[u].fail].go| && f == nodes[nodes[u].fail].go[c]
    ensures Expanding(CompleteArrow(nodes, u, c, f), paths, dict, queue, done, u, c + 1)
  {
    FailureKnown(nodes, paths, dict, queue, done, u, c);
    assert Child(paths, u, c, nodes[u].go[c]) && paths[u] + [c] !in paths;
    hide Complete, TrieRow, PartRow, Shape, Labelled, Linked, Longest, Levels, QueueShape, Child, Arrow, Strings;
    RowPast(paths, u, nodes[u].go, c, f);
    EnqueuedNext(paths, queue, done, u, c);
    ProgressMissing(nodes, paths, dict, queue, done, u, c, f);
    hide Progress, Reached;
  }

  /** The inner loop: one state of the queue. */
  method Expand(ac: Machine, queue: seq<int>, u: nat, ghost done: set<Word>) returns (queue': seq<int>)
    requires Expanding(ac.nodes, ac.paths, ac.dict, queue, done, u, 0)
    modifies ac`nodes
    ensures queue <= queue'
    ensures Expanding(ac.nodes, ac.paths, ac.dict, queue', done, u, 256)
  {
    queue' := queue;
    hide *;
    for c := 0 to 256
      invariant queue <= queue'
      invariant Expanding(ac.nodes, ac.paths, ac.dict, queue', done, u, c)
    {
      var nodes := ac.nodes;
      FailureKnown(nodes, ac.paths, ac.dict, queue', done, u, c);
      var v, f := nodes[u].go[c], nodes[nodes[u].fail].go[c];
      if v > 0 {
        ExpandChild(nodes, ac.paths, ac.dict, queue', done, u, c, v, f);
        ac.nodes := LinkChild(nodes, v, f);
        queue' := queue' + [v];
      } else {
        ExpandMissing(nodes, ac.paths, ac.dict, queue', done, u, c, f);
        ac.nodes := CompleteArrow(nodes, u, c, f);
      }
    }
  }

  /** The loop over the root: bytes below c have been looked at. */
  ghost predicate RootRow(before: seq<Node>, nodes: seq<Node>, paths: seq<Word>, queue: seq<int>, c: int) {
    && Trie(before, paths) && Unlinked(before) && QueueShape(paths, queue)
    && |nodes| == |before| && |nodes[0].go| == 256
    && nodes == before[0 := before[0].(go := nodes[0].go)]
    && (forall d :: 0 <= d < 256 ==> nodes[0].go[d] == if d < c && before[0].go[d] <= 0 then 0 else before[0].go[d])
    && (forall x :: 0 < x < |paths| ==> (x in queue <==> |paths[x]| == 1 && paths[x][0] < c))
  }

  lemma RootBounds(before: seq<Node>, nodes: seq<Node>, paths: seq<Word>, queue: seq<int>, c: int)
    requires RootRow(before, nodes, paths, queue, c)
    ensures |nodes| > 0 && |nodes[0].go| == 256
  {
  }

  lemma RootChild(before: seq<Node>, nodes: seq<Node>, paths: seq<Word>, queue: seq<int>, c: Byte)
    requires RootRow(before, nodes, paths, queue, c) && nodes[0].go[c] > 0
    ensures nodes[0].go[c] < |nodes| && RootRow(before, nodes, paths, queue + [nodes[0].go[c]], c + 1)
    ensures var s := nodes[0].go[c]; nodes[s := nodes[s].(fail := 0, dictLink := -1)] == nodes
  {
    var s := nodes[0].go[c];
    assert TrieRow(paths, 0, before[0].go) && Child(paths, 0, c, s);
    assert paths[s] == [] + [c] == [c];
    forall x | 0 < x < |paths| ensures x in queue + [s] <==> |paths[x]| == 1 && paths[x][0] < c + 1 {
      assert |paths[x]| == 1 && paths[x][0] == c ==> paths[x] == paths[s];
    }
    assert forall j :: 0 <= j < |queue| ==> queue[j] in queue;
    QueueGrows(paths, queue, s);
  }

  lemma RootMissing(before: seq<Node>, nodes: seq<Node>, paths: seq<Word>, queue: seq<int>, c: Byte)
    requires RootRow(before, nodes, paths, queue, c) && nodes[0].go[c] <= 0
    ensures RootRow(before, nodes[0 := nodes[0].(go := nodes[0].go[c := 0])], paths, queue, c + 1)
  {
    assert TrieRow(paths, 0, before[0].go) && Child(paths, 0, c, before[0].go[c]);
    assert [] + [c] == [c];
    forall x | 0 < x < |paths| ensures x in queue <==> |paths[x]| == 1 && paths[x][0] < c + 1 {
      assert [c] !in paths;
      if |paths[x]| == 1 {
        assert paths[x] == [paths[x][0]];
      }
    }
  }

  lemma RootComplete(before: seq<Node>, nodes: seq<Node>, paths: seq<Word>, queue: seq<int>)
    requires RootRow(before, nodes, paths, queue, 256)
    ensures Shape(paths) && Complete(paths, 0, nodes[0].go)
  {
    forall c | 0 <= c < 256 ensures Arrow(paths, 0, c, nodes[0].go[c]) {
      assert TrieRow(paths, 0, before[0].go) && Child(paths, 0, c, before[0].go[c]);
      assert [] + [c] == [c] && [c][1..] == [];
      assert [c] in Strings(paths) <==> [c] in paths;
    }
  }

  /** A child of the root fails to the root and has no word behind it. */
  lemma ShallowLinked(paths: seq<Word>, D: set<Word>, s: nat, link: int)
    requires Shape(paths) && s < |paths| && |paths[s]| == 1 && link <= 0 && [] !in D
    ensures Linked(paths, D, s, 0, link)
  {
    assert paths[s][1..] == [] && LastWord(D, []) == NoWord;
  }

  /** The other rows, the labels and the links are as they were. */
  lemma RootKept(before: seq<Node>, nodes: seq<Node>, paths: seq<Word>, dict: map<Word, int>, queue: seq<int>)
    requires RootRow(before, nodes, paths, queue, 256) && Labelled(before, paths, dict)
    ensures |nodes| == |paths| > 0 && Labelled(nodes, paths, dict) && Shape(paths) && [] !in Nonempty(dict)
    ensures forall s :: 0 <= s < |nodes| ==> nodes[s].fail == 0 && nodes[s].dictLink <= 0
    ensures forall s :: 0 < s < |nodes| ==> TrieRow(paths, s, nodes[s].go)
  {
    hide TrieRow, QueueShape, PrefixClosed, Strings;
    assert forall s :: 0 <= s < |nodes| ==> nodes[s] == before[s].(go := nodes[s].go) && (s > 0 ==> nodes[s] == before[s]);
  }

  lemma RootQueued(before: seq<Node>, nodes: seq<Node>, paths: seq<Word>, queue: seq<int>)
    requires RootRow(before, nodes, paths, queue, 256)
    ensures QueueShape(paths, queue) && Enqueued(paths, queue, {}, [], 0)
    ensures forall s :: 0 < s < |paths| && s in queue ==> |paths[s]| == 1
    ensures forall j :: 0 <= j < |queue| ==> 0 < queue[j] < |paths| && |paths[queue[j]]| == 1
  {
    hide Trie, Unlinked, Shape;
    assert forall j :: 0 <= j < |queue| ==> queue[j] in queue;
  }

  lemma RootDone(before: seq<Node>, nodes: seq<Node>, paths: seq<Word>, dict: map<Word, int>, queue: seq<int>)
    requires RootRow(before, nodes, paths, queue, 256) && Labelled(before, paths, dict)
    ensures Progress(nodes, paths, dict, queue, {}, 0)
    ensures Enqueued(paths, queue, {}, [], 0)
    ensures forall j :: 0 <= j < |queue| ==> |paths[queue[j]]| == 1
  {
    hide Linked, Complete, TrieRow, Nonempty, RootRow, Enqueued, Labelled, QueueShape, Shape;
    RootComplete(before, nodes, paths, queue);
    RootKept(before, nodes, paths, dict, queue);
    RootQueued(before, nodes, paths, queue);
    forall s | 0 < s < |nodes| && s in queue ensures Linked(paths, Nonempty(dict), s, nodes[s].fail, nodes[s].dictLink) {
      ShallowLinked(paths, Nonempty(dict), s, nodes[s].dictLink);
    }
  }

  /** The root: children are queued without links, other transitions loop back. */
  method ExpandRoot(ac: Machine) returns (queue: seq<int>)
    requires ac.IsTrie()
    modifies ac`nodes
    ensures Progress(ac.nodes, ac.paths, ac.dict, queue, {}, 0)
    ensures Enqueued(ac.paths, queue, {}, [], 0)
    ensures forall j :: 0 <= j < |queue| ==> |ac.paths[queue[j]]| == 1
  {
    ghost var before := ac.nodes;
    queue := [];
    assert RootRow(before, ac.nodes, ac.paths, queue, 0) by {
      assert TrieRow(ac.paths, 0, before[0].go);
    }
    assert Labelled(before, ac.paths, ac.dict);
    hide *;
    for c := 0 to 256
      invariant RootRow(before, ac.nodes, ac.paths, queue, c)
    {
      RootBounds(before, ac.nodes, ac.paths, queue, c);
      var s := ac.nodes[0].go[c];
      if s > 0 {
        RootChild(before, ac.nodes, ac.paths, queue, c);
        ac.nodes := ac.nodes[s := ac.nodes[s].(fail := 0, dictLink := -1)];
        queue := queue + [s];
      } else {
        RootMissing(before, ac.nodes, ac.paths, queue, c);
        ac.nodes := ac.nodes[0 := ac.nodes[0].(go := ac.nodes[0].go[c := 0])];
      }
    }
    RootDone(before, ac.nodes, ac.paths, ac.dict, queue);
  }

  /** Before the state at qh is taken. */
  ghost predicate Ready(nodes: seq<Node>, paths: seq<Word>, dict: map<Word, int>, queue: seq<int>, qh: nat) {
    && QueueShape(paths, queue) && qh <= |queue|
    && Progress(nodes, paths, dict, queue, Done(paths, queue, qh), 0)
    && Enqueued(paths, queue, Done(paths, queue, qh), [], 0)
    && (qh < |queue| ==> forall j :: 0 <= j < |queue| ==> |paths[queue[j]]| <= |paths[queue[qh]]| + 1)
  }

  lemma TakeLevels(paths: seq<Word>, queue: seq<int>, qh: nat)
    requires Shape(paths) && QueueShape(paths, queue) && qh < |queue|
    requires Enqueued(paths, queue, Done(paths, queue, qh), [], 0)
    requires forall j :: 0 <= j < |queue| ==> |paths[queue[j]]| <= |paths[queue[qh]]| + 1
    ensures Levels(paths, queue, Done(paths, queue, qh), queue[qh])
    ensures paths[queue[qh]] !in Done(paths, queue, qh) && paths[queue[qh]] != []
    ensures Enqueued(paths, queue, Done(paths, queue, qh), paths[queue[qh]], 0)
  {
    var u, done := queue[qh], Done(paths, queue, qh);
    forall x | 0 < x < |paths| && |paths[x]| < |paths[u]| ensures paths[x] in done {
      ShallowDone(paths, queue, qh, x);
    }
    forall x | 0 < x < |paths| && |paths[x]| <= |paths[u]| ensures x in queue {
      ShallowQueued(paths, queue, qh, x);
    }
  }

  lemma TakeNext(nodes: seq<Node>, paths: seq<Word>, dict: map<Word, int>, queue: seq<int>, qh: nat)
    requires Ready(nodes, paths, dict, queue, qh) && qh < |queue|
    ensures 0 < queue[qh] && Expanding(nodes, paths, dict, queue, Done(paths, queue, qh), queue[qh], 0)
  {
    assert 0 < queue[qh] < |paths| == |nodes|;
    hide TrieRow, Complete, Linked, Shape, Levels, Enqueued, QueueShape, Labelled, PartRow, Done;
    TakeLevels(paths, queue, qh);
    var u := queue[qh];
    assert TrieRow(paths, u, nodes[u].go);
    RowUntouched(paths, u, nodes[u].go);
  }

  lemma RowUntouched(paths: seq<Word>, u: nat, go: seq<int>)
    requires Shape(paths) && u < |paths| && TrieRow(paths, u, go)
    ensures PartRow(paths, u, go, 0)
  {
  }

  lemma RowFinished(paths: seq<Word>, u: nat, go: seq<int>)
    requires Shape(paths) && u < |paths| && PartRow(paths, u, go, 256)
    ensures Complete(paths, u, go)
  {
  }

  lemma DoneNext(paths: seq<Word>, queue: seq<int>, queue': seq<int>, qh: nat)
    requires QueueShape(paths, queue) && QueueShape(paths, queue') && qh < |queue| && queue <= queue'
    ensures Done(paths, queue', qh + 1) == Done(paths, queue, qh) + {paths[queue[qh]]}
  {
  }

  lemma EnqueuedTaken(paths: seq<Word>, queue: seq<int>, done: set<Word>, u: nat)
    requires u < |paths| && Enqueued(paths, queue, done, paths[u], 256)
    ensures Enqueued(paths, queue, done + {paths[u]}, [], 0)
  {
  }

  lemma ProgressTaken(nodes: seq<Node>, paths: seq<Word>, dict: map<Word, int>, queue: seq<int>, done: set<Word>, u: nat)
    requires Progress(nodes, paths, dict, queue, done, u) && 0 < u < |nodes| && Complete(paths, u, nodes[u].go)
    ensures Progress(nodes, paths, dict, queue, done + {paths[u]}, 0)
  {
    assert |nodes| == |paths| && forall s :: 0 < s < |paths| && paths[s] == paths[u] ==> s == u;
    hide TrieRow, Complete, Linked, Shape, QueueShape, Labelled;
  }

  lemma TakenNext(nodes: seq<Node>, paths: seq<Word>, dict: map<Word, int>, queue: seq<int>, queue': seq<int>, qh: nat)
    requires QueueShape(paths, queue) && qh < |queue| && queue <= queue' && 0 < queue[qh]
    requires Expanding(nodes, paths, dict, queue', Done(paths, queue, qh), queue[qh], 256)
    ensures Ready(nodes, paths, dict, queue', qh + 1)
  {
    var u, done := queue[qh], Done(paths, queue, qh);
    assert 0 < u < |paths| == |nodes| && QueueShape(paths, queue') && Shape(paths);
    assert qh + 1 < |queue'| ==> |paths[u]| <= |paths[queue'[qh + 1]]| by {
      assert queue'[qh] == u;
    }
    hide TrieRow, Complete, Linked, Shape, Enqueued, QueueShape, Labelled, PartRow, Done;
    DoneNext(paths, queue, queue', qh);
    EnqueuedTaken(paths, queue', done, u);
    RowFinished(paths, u, nodes[u].go);
    ProgressTaken(nodes, paths, dict, queue', done, u);
    hide Progress;
  }

  lemma AllTaken(nodes: seq<Node>, paths: seq<Word>, dict: map<Word, int>, queue: seq<int>)
    requires Ready(nodes, paths, dict, queue, |queue|)
    ensures Automaton(nodes, paths, dict)
    ensures forall s :: 0 < s < |nodes| ==> s in queue
    ensures |queue| < |nodes|
  {
    QueueBound(paths, queue);
    forall s | 0 < s < |nodes| ensures s in queue && paths[s] in Done(paths, queue, |queue|) {
      AllDone(paths, queue, s);
    }
    hide TrieRow, Complete, Linked, Shape;
  }

  lemma RootReady(nodes: seq<Node>, paths: seq<Word>, dict: map<Word, int>, queue: seq<int>)
    requires Progress(nodes, paths, dict, queue, {}, 0) && Enqueued(paths, queue, {}, [], 0)
    requires forall j :: 0 <= j < |queue| ==> |paths[queue[j]]| == 1
    ensures Ready(nodes, paths, dict, queue, 0)
  {
    hide Enqueued, Complete, TrieRow, Linked, Labelled;
    assert Done(paths, queue, 0) == {};
  }

  lemma ReadyBounds(nodes: seq<Node>, paths: seq<Word>, dict: map<Word, int>, queue: seq<int>, qh: nat)
    requires Ready(nodes, paths, dict, queue, qh)
    ensures QueueShape(paths, queue) && |queue| < |paths| == |nodes|
    ensures forall j :: 0 <= j < |queue| ==> 0 < queue[j] < |nodes|
  {
    hide Enqueued, Complete, TrieRow, Linked, Done;
    QueueBound(paths, queue);
  }

  /** ac_build: every state but the root is queued exactly once, and afterwards the links and
      the completed transitions are the automaton's. */
  method Build(ac: Machine) returns (queue: seq<int>)
    requires ac.IsTrie()
    modifies ac`nodes
    ensures ac.IsAutomaton()
    ensures QueueShape(ac.paths, queue) && |queue| < |ac.nodes| && forall s :: 0 < s < |ac.nodes| ==> s in queue
  {
    hide Progress, Enqueued, Ready, Expanding, QueueShape, Shape, Automaton, Trie, Labelled, Unlinked;
    queue := ExpandRoot(ac);
    var qh := 0;
    RootReady(ac.nodes, ac.paths, ac.dict, queue);
    while qh < |queue|
      invariant qh <= |queue| && Ready(ac.nodes, ac.paths, ac.dict, queue, qh)
      decreases |ac.paths| - qh
    {
      ReadyBounds(ac.nodes, ac.paths, ac.dict, queue, qh);
      TakeNext(ac.nodes, ac.paths, ac.dict, queue, qh);
      var queue' := Expand(ac, queue, queue[qh], Done(ac.paths, queue, qh));
      TakenNext(ac.nodes, ac.paths, ac.dict, queue, queue', qh);
      queue, qh := queue', qh + 1;
    }
    ReadyBounds(ac.nodes, ac.paths, ac.dict, queue, qh);
    AllTaken(ac.nodes, ac.paths, ac.dict, queue);
  }
}
