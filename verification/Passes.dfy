/** The merge passes of utf/smutil.cpp in sequence, as both drivers run them: what any list of
    passes keeps, and how far it can shrink the machine. */
module Passes {
  import opened Automaton
  import opened Bytes
  import opened Columns
  import opened Trie
  import opened StateMachines
  import opened Pruning

  datatype Pass = AcceptingStates | DuplicateRows

  /** The six passes that both drivers run. */
  const DRIVER_PASSES := [AcceptingStates, AcceptingStates, AcceptingStates, DuplicateRows, DuplicateRows, DuplicateRows]

  /** What a pass does to the machine. */
  ghost predicate Effect(pass: Pass, m: Store, m': Store, start: nat) {
    && Preserves(m, m', start)
    && match pass
       case AcceptingStates => Pruned(m, m') && Survivors(m, m', start)
       case DuplicateRows => KeepsNodes(m, m', start) && (m.Keys == {start} ==> m' == m)
  }

  /** The machines before, between and after the passes. */
  ghost predicate History(passes: seq<Pass>, stores: seq<Store>, start: nat) {
    && |stores| == |passes| + 1 && Closed(stores[0]) && start in stores[0]
    && forall i :: 0 <= i < |passes| ==> (var next := i + 1; Effect(passes[i], stores[i], stores[next], start))
  }

  method RunPass(sm: StateMachine, pass: Pass)
    requires sm.Valid()
    modifies sm`store, sm`stt, sm`merged
    ensures sm.Valid() && Effect(pass, old(sm.store), sm.store, sm.start) && |sm.stt| <= |old(sm.stt)|
  {
    sm.StateCount();
    hide Preserves, Pruned, Survivors, KeepsNodes, RowsApart, Closed, AcceptsUpTo, Distinct;
    match pass {
      case AcceptingStates => sm.MergeAcceptingStates();
      case DuplicateRows => var _ := sm.RemoveDuplicateRows();
    }
  }

  /** Any list of passes. */
  method Optimise(sm: StateMachine, passes: seq<Pass>) returns (ghost stores: seq<Store>)
    requires sm.Valid()
    modifies sm`store, sm`stt, sm`merged
    ensures sm.Valid() && History(passes, stores, sm.start) && |sm.stt| <= |old(sm.stt)|
    ensures stores[0] == old(sm.store) && stores[|passes|] == sm.store && Preserves(old(sm.store), sm.store, sm.start)
  {
    stores := [sm.store];
    ghost var before := sm.store;
    assert Preserves(before, before, sm.start);
    assert passes[..0] == [] && passes[..|passes|] == passes;
    assert History(passes[..0], stores, sm.start);
    hide Preserves, Effect, History, Closed, AcceptsUpTo, Distinct;
    for i := 0 to |passes|
      invariant sm.Valid() && |sm.stt| <= |old(sm.stt)| && |stores| == i + 1 && stores[0] == before && stores[i] == sm.store
      invariant History(passes[..i], stores, sm.start) && Preserves(before, sm.store, sm.start)
    {
      ghost var middle := sm.store;
      RunPass(sm, passes[i]);
      assert passes[..i + 1] == passes[..i] + [passes[i]];
      HistoryGrows(passes[..i], stores, sm.start, passes[i], sm.store);
      EffectPreserves(passes[i], before, middle, sm.store, sm.start);
      stores := stores + [sm.store];
    }
  }

  lemma HistoryGrows(passes: seq<Pass>, stores: seq<Store>, start: nat, pass: Pass, m: Store)
    requires History(passes, stores, start) && Effect(pass, stores[|passes|], m, start)
    ensures History(passes + [pass], stores + [m], start)
  {
    hide Effect;
    var passes', stores' := passes + [pass], stores + [m];
    forall i | 0 <= i < |passes'| ensures var next := i + 1; Effect(passes'[i], stores'[i], stores'[next], start) {
      if i < |passes| {
        var next := i + 1;
        assert Effect(passes[i], stores[i], stores[next], start);
      }
    }
  }

  lemma EffectPreserves(pass: Pass, before: Store, m: Store, m': Store, start: nat)
    requires Preserves(before, m, start) && Effect(pass, m, m', start)
    ensures Preserves(before, m', start)
  {
    PreservesTransitive(before, m, m', start);
  }

  // ----- how far pruning goes -----

  /** How many pruning passes come first. */
  function Leading(passes: seq<Pass>): (n: nat)
    ensures n <= |passes|
  {
    if passes == [] || passes[0] != AcceptingStates then 0 else 1 + Leading(passes[1..])
  }

  lemma {:induction false} LeadingPrunes(passes: seq<Pass>, i: nat)
    requires i < Leading(passes)
    ensures passes[i] == AcceptingStates
    decreases |passes|
  {
    if i > 0 {
      LeadingPrunes(passes[1..], i - 1);
    }
  }

  /** A machine with one state is not changed any more. */
  lemma SingleStays(pass: Pass, m: Store, m': Store, start: nat)
    requires Effect(pass, m, m', start) && m.Keys == {start}
    ensures m' == m
  {
    if pass == AcceptingStates {
      assert m'.Keys == {start};
      assert forall c :: 0 <= c < 256 ==> PrunedCell(m, m', m[start][c], m'[start][c]);
      assert forall c :: 0 <= c < 256 ==> m'[start][c] == m[start][c];
      assert m'[start] == m[start];
    }
  }

  lemma LevelNext(pass: Pass, m: Store, m': Store, start: nat, v: nat, depth: map<nat, nat>, h: nat)
    requires Effect(pass, m, m', start) && Leveled(m, start, v, depth, h) && (h > 0 ==> pass == AcceptingStates)
    ensures Leveled(m', start, v, depth, if h > 0 then h - 1 else 0)
  {
    hide Leveled, Pruned, Survivors, KeepsNodes, Closed;
    if h > 0 {
      LevelDown(m, m', start, v, depth, h);
    } else {
      LevelZero(m, start, v, depth);
      SingleStays(pass, m, m', start);
    }
  }

  /** The level of a machine that starts with one level for each leading pruning pass. */
  lemma {:induction false} LevelAt(passes: seq<Pass>, stores: seq<Store>, start: nat, v: nat, depth: map<nat, nat>, i: nat)
    requires History(passes, stores, start) && i <= |passes| && Leveled(stores[0], start, v, depth, Leading(passes))
    ensures Leveled(stores[i], start, v, depth, if i < Leading(passes) then Leading(passes) - i else 0)
    decreases i
  {
    hide Effect, Leveled, Leading, Closed;
    if i > 0 {
      var j, n := i - 1, Leading(passes);
      LevelAt(passes, stores, start, v, depth, j);
      assert Effect(passes[j], stores[j], stores[i], start);
      if j < n {
        LeadingPrunes(passes, j);
      }
      LevelNext(passes[j], stores[j], stores[i], start, v, depth, if j < n then n - j else 0);
    }
  }

  lemma {:induction false} HistoryClosed(passes: seq<Pass>, stores: seq<Store>, start: nat, i: nat)
    requires History(passes, stores, start) && i <= |passes|
    ensures Closed(stores[i]) && start in stores[i]
  {
    if i > 0 {
      var j := i - 1;
      assert Effect(passes[j], stores[j], stores[i], start);
    }
  }

  /** Enough pruning in front leaves a single column of a machine with one answer. */
  lemma LevelsLast(passes: seq<Pass>, stores: seq<Store>, start: nat, v: nat, depth: map<nat, nat>)
    requires History(passes, stores, start) && Leveled(stores[0], start, v, depth, Leading(passes))
    ensures OneColumn(stores[|passes|])
  {
    HistoryClosed(passes, stores, start, |passes|);
    LevelAt(passes, stores, start, v, depth, |passes|);
    LevelZero(stores[|passes|], start, v, depth);
  }

  // ----- how far it cannot go -----

  /** Pruning passes first, and merging of rows after that. */
  ghost predicate PrunesFirst(passes: seq<Pass>) {
    forall i :: Leading(passes) <= i < |passes| ==> passes[i] == DuplicateRows
  }

  /** A pruning pass keeps the path to a state that leads to another state. */
  lemma {:induction false} PathStays(m: Store, m': Store, start: nat, u: seq<Byte>, c: Byte)
    requires Closed(m) && Closed(m') && start in m && start in m' && Pruned(m, m') && Survivors(m, m', start)
    requires Answer(m, start, u + [c]).Node?
    ensures Answer(m', start, u) == Answer(m, start, u) && Answer(m, start, u).Node?
    decreases |u|
  {
    RunSnoc(m, Node(start), u, c);
    var t := Answer(m, start, u);
    if u != [] {
      var w, d := u[..|u| - 1], u[|u| - 1];
      assert u == w + [d];
      PathStays(m, m', start, w, d);
      RunSnoc(m, Node(start), w, d);
      RunSnoc(m', Node(start), w, d);
      NotPruned(m[t.id], c);
      var p := Answer(m, start, w).id;
      assert PrunedCell(m, m', m[p][d], m'[p][d]);
    }
  }

  lemma NotPruned(row: Row, c: Byte)
    requires row[c].Node?
    ensures !Prunable(row)
  {
  }

  /** A path that is longer than the leading passes can prune still starts with a state. */
  lemma {:induction false} DeepAt(passes: seq<Pass>, stores: seq<Store>, start: nat, w: seq<Byte>, i: nat)
    requires History(passes, stores, start) && i <= Leading(passes) < |w| && Answer(stores[0], start, w).Node?
    ensures Closed(stores[i]) && start in stores[i] && Answer(stores[i], start, w[..|w| - i]).Node?
    decreases i
  {
    hide Leading;
    HistoryClosed(passes, stores, start, i);
    if i == 0 {
      assert w[..|w|] == w;
    } else {
      var j, n := i - 1, |w| - i;
      DeepAt(passes, stores, start, w, j);
      LeadingPrunes(passes, j);
      assert Effect(passes[j], stores[j], stores[i], start);
      assert w[..n + 1] == w[..n] + [w[n]];
      PathStays(stores[j], stores[i], start, w[..n], w[n]);
    }
  }

  lemma {:induction false} NodeStays(passes: seq<Pass>, stores: seq<Store>, start: nat, c: Byte, i: nat)
    requires History(passes, stores, start) && PrunesFirst(passes) && Leading(passes) <= i <= |passes|
    requires start in stores[Leading(passes)] && stores[Leading(passes)][start][c].Node?
    ensures start in stores[i] && stores[i][start][c].Node?
    decreases i
  {
    HistoryClosed(passes, stores, start, i);
    if i > Leading(passes) {
      var j := i - 1;
      NodeStays(passes, stores, start, c, j);
      assert Effect(passes[j], stores[j], stores[i], start);
    }
  }

  lemma {:induction false} AcceptStays(passes: seq<Pass>, stores: seq<Store>, start: nat, b: Byte, i: nat)
    requires History(passes, stores, start) && i <= |passes| && stores[0][start][b].Accept?
    ensures start in stores[i] && stores[i][start][b].Accept?
    decreases i
  {
    HistoryClosed(passes, stores, start, i);
    if i > 0 {
      var j := i - 1;
      AcceptStays(passes, stores, start, b, j);
      HistoryClosed(passes, stores, start, j);
      assert Effect(passes[j], stores[j], stores[i], start);
      RunSnoc(stores[j], Node(start), [], b);
      RunSnoc(stores[i], Node(start), [], b);
      assert [] + [b] == [b];
    }
  }

  lemma FirstIsNode(m: Store, start: nat, w: seq<Byte>)
    requires Closed(m) && start in m && w != [] && Answer(m, start, w).Node?
    ensures m[start][w[0]].Node?
  {
    RunSnoc(m, Node(start), [], w[0]);
    assert [] + [w[0]] == [w[0]];
    if !m[start][w[0]].Node? {
      SettledStays(m, Node(start), [w[0]], w);
    }
  }

  /** With a byte on which the start accepts and a path beyond reach, more than one column is
      left. */
  lemma DeepLast(passes: seq<Pass>, stores: seq<Store>, start: nat, w: seq<Byte>, b: Byte)
    requires History(passes, stores, start) && PrunesFirst(passes) && Leading(passes) < |w|
    requires Answer(stores[0], start, w).Node? && stores[0][start][b].Accept?
    ensures !OneColumn(stores[|passes|])
  {
    var n := Leading(passes);
    var u := w[..|w| - n];
    DeepAt(passes, stores, start, w, n);
    FirstIsNode(stores[n], start, u);
    NodeStays(passes, stores, start, u[0], |passes|);
    AcceptStays(passes, stores, start, b, |passes|);
    var m := stores[|passes|];
    assert m[start][u[0]] != Undefined && m[start][b] != Undefined && m[start][u[0]] != m[start][b];
  }
}
