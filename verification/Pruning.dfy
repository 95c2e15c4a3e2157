/** How far the passes of utf/smutil.cpp that prune certain outcomes go: with one answer in all,
    each pass takes off the deepest level of the trie, until a single state is left. */
module Pruning {
  import opened Automaton
  import opened Bytes
  import opened Columns
  import opened Trie
  import opened StateMachines

  /** Every state has a depth up to h, its children one more; every state but the start leads
      somewhere; and nothing is accepted with another value than v. */
  ghost predicate Leveled(m: Store, start: nat, v: nat, depth: map<nat, nat>, h: nat) {
    && start in m && m.Keys <= depth.Keys
    && (forall p :: p in m ==> depth[p] <= h && (depth[p] == 0 <==> p == start) && (p == start || LeadsOn(m[p])))
    && (forall p, c :: p in m && 0 <= c < 256 ==> LevelCell(depth, depth[p], v, m[p][c]))
  }

  ghost predicate LeadsOn(row: Row) {
    exists c :: 0 <= c < 256 && row[c] != Undefined
  }

  ghost predicate LevelCell(depth: map<nat, nat>, here: nat, v: nat, t: Target) {
    match t
    case Undefined => true
    case Accept(n) => n == v
    case Node(q) => q in depth && depth[q] == here + 1
  }

  /** A state on the deepest level has a certain outcome. */
  lemma DeepestPrunable(m: Store, start: nat, v: nat, depth: map<nat, nat>, h: nat, p: nat)
    requires Closed(m) && Leveled(m, start, v, depth, h) && p in m && p != start && depth[p] == h
    ensures Prunable(m[p])
  {
    var c :| 0 <= c < 256 && m[p][c] != Undefined;
    forall d | 0 <= d < 256 ensures m[p][d] == Undefined || m[p][d] == Accept(v) {
      assert LevelCell(depth, depth[p], v, m[p][d]) && Live(m, m[p][d]);
    }
    assert Accept(v) in m[p];
    assert OnlyLeadsTo(m[p], Accept(v));
  }

  /** The outcome of a pruned state is the one answer. */
  lemma PrunedIsAnswer(m: Store, start: nat, v: nat, depth: map<nat, nat>, h: nat, q: nat, t: Target)
    requires Leveled(m, start, v, depth, h) && q in m && q != start && t.Accept? && OnlyLeadsTo(m[q], t)
    ensures t == Accept(v)
  {
    var c :| 0 <= c < 256 && m[q][c] != Undefined;
    assert LevelCell(depth, depth[q], v, m[q][c]);
  }

  lemma CellDown(m: Store, m': Store, start: nat, v: nat, depth: map<nat, nat>, h: nat, p: nat, c: Byte)
    requires Closed(m) && Leveled(m, start, v, depth, h) && Pruned(m, m') && p in m' && p in m && start in m'
    ensures LevelCell(depth, depth[p], v, m'[p][c]) && (m[p][c] != Undefined ==> m'[p][c] != Undefined)
  {
    var t, t' := m[p][c], m'[p][c];
    assert LevelCell(depth, depth[p], v, t) && PrunedCell(m, m', t, t') && Live(m, t);
    if t.Node? && t.id !in m' {
      PrunedIsAnswer(m, start, v, depth, h, t.id, t');
    }
  }

  /** A pass takes off the deepest level. */
  lemma LevelDown(m: Store, m': Store, start: nat, v: nat, depth: map<nat, nat>, h: nat)
    requires Closed(m) && Leveled(m, start, v, depth, h) && h > 0 && Pruned(m, m') && Survivors(m, m', start)
    ensures Leveled(m', start, v, depth, h - 1)
  {
    hide LevelCell, Prunable;
    forall p, c | p in m' && 0 <= c < 256
      ensures LevelCell(depth, depth[p], v, m'[p][c]) && (m[p][c] != Undefined ==> m'[p][c] != Undefined)
    {
      CellDown(m, m', start, v, depth, h, p, c);
    }
    forall p | p in m' ensures depth[p] <= h - 1 && (p == start || LeadsOn(m'[p])) {
      if p != start {
        if depth[p] == h {
          DeepestPrunable(m, start, v, depth, h, p);
        }
        var c :| 0 <= c < 256 && m[p][c] != Undefined;
        assert m'[p][c] != Undefined;
      }
    }
  }

  /** With a single level there is a single state, and it tells no bytes apart. */
  lemma LevelZero(m: Store, start: nat, v: nat, depth: map<nat, nat>)
    requires Closed(m) && Leveled(m, start, v, depth, 0)
    ensures m.Keys == {start} && OneColumn(m)
  {
    forall p, c: Byte | p in m ensures m[p][c] == Undefined || m[p][c] == Accept(v) {
      assert LevelCell(depth, depth[p], v, m[p][c]) && Live(m, m[p][c]);
    }
  }

  // ----- the recorded trie -----

  /** The answer that the entries and the default share. */
  ghost function SoleAnswer(entries: seq<Entry>, d: nat): nat {
    if exists e :: Known(entries, e) then (var e :| Known(entries, e); e.value) else d
  }

  ghost predicate KeysUpTo(entries: seq<Entry>, n: nat) {
    forall i :: 0 <= i < |entries| ==> |entries[i].key| <= n
  }

  ghost function Depths(m: Store, start: nat): map<nat, nat>
    requires Closed(m) && start in m && IsTree(m, start)
  {
    map p | p in m :: |PathTo(m, start, p)|
  }

  /** The string to a state, and what follows from where it is. */
  lemma PathFacts(m: Store, start: nat, entries: seq<Entry>, n: nat, p: nat)
    requires Describes(m, start, entries) && IsTree(m, start) && KeysUpTo(entries, n + 1) && p in m
    ensures var w := PathTo(m, start, p); |w| <= n && (|w| == 0 <==> p == start) && (p != start ==> LeadsOn(m[p]))
  {
    var w := PathTo(m, start, p);
    assert Answer(m, start, []) == Node(start);
    assert w == [] <==> p == start;
    assert Undecided(entries, w);
    if w != [] {
      var e :| Known(entries, e) && Proper(w, e.key);
      LeadsTo(m, start, w, p, e.key, e.value);
    }
  }

  /** A state on the way to an accepted string leads on. */
  lemma LeadsTo(m: Store, start: nat, w: seq<Byte>, p: nat, key: seq<Byte>, v: nat)
    requires Closed(m) && start in m && p in m && Answer(m, start, w) == Node(p) && Proper(w, key) && Answer(m, start, key) == Accept(v)
    ensures |w| < |key| && LeadsOn(m[p])
  {
    var c := key[|w|];
    RunSnoc(m, Node(start), w, c);
    assert w + [c] <= key;
    if m[p][c] == Undefined {
      SettledStays(m, Node(start), w + [c], key);
    }
  }

  /** The string to a child is one byte longer. */
  lemma ChildPath(m: Store, start: nat, p: nat, c: Byte)
    requires Closed(m) && start in m && IsTree(m, start) && p in m && m[p][c].Node?
    ensures m[p][c].id in m && |PathTo(m, start, m[p][c].id)| == |PathTo(m, start, p)| + 1
  {
    var w, q := PathTo(m, start, p), m[p][c].id;
    assert Live(m, m[p][c]);
    RunSnoc(m, Node(start), w, c);
    assert Answer(m, start, w + [c]) == Node(q) == Answer(m, start, PathTo(m, start, q));
  }

  /** What a cell accepts with, filled or not, is the one answer. */
  lemma CellAnswer(m: Store, start: nat, entries: seq<Entry>, d: nat, filled: bool, p: nat, c: Byte)
    requires Describes(m, start, entries) && IsTree(m, start) && OneAnswer(entries, d, filled) && p in m
    ensures m[p][c].Accept? ==> m[p][c].n == SoleAnswer(entries, d)
    ensures filled && m[p][c] == Undefined ==> d == SoleAnswer(entries, d)
  {
    var s := CellString(m, start, p, c);
    if m[p][c].Accept? {
      var e := AcceptedBy(m, start, entries, s);
      hide Describes, IsTree;
      EntryAnswer(entries, d, filled, e);
    } else if m[p][c] == Undefined && filled {
      UndefinedIsFree(m, start, entries, s);
      hide Describes, IsTree, Decided, Undecided;
      FreeAnswer(entries, d, s);
    }
  }

  /** A string whose answer is the cell. */
  lemma CellString(m: Store, start: nat, p: nat, c: Byte) returns (s: seq<Byte>)
    requires Closed(m) && start in m && IsTree(m, start) && p in m
    ensures Answer(m, start, s) == m[p][c]
  {
    var w := PathTo(m, start, p);
    RunSnoc(m, Node(start), w, c);
    s := w + [c];
  }

  lemma AcceptedBy(m: Store, start: nat, entries: seq<Entry>, s: seq<Byte>) returns (e: Entry)
    requires Describes(m, start, entries) && Answer(m, start, s).Accept?
    ensures Known(entries, e) && Answer(m, start, s) == Accept(e.value)
  {
    assert Decided(entries, s);
    e :| Known(entries, e) && e.key <= s;
    SettledStays(m, Node(start), e.key, s);
  }

  lemma EntryAnswer(entries: seq<Entry>, d: nat, filled: bool, e: Entry)
    requires OneAnswer(entries, d, filled) && Known(entries, e)
    ensures e.value == SoleAnswer(entries, d)
  {
    hide Known;
  }

  lemma FreeAnswer(entries: seq<Entry>, d: nat, s: seq<Byte>)
    requires OneAnswer(entries, d, true) && !Decided(entries, s) && !Undecided(entries, s)
    ensures d == SoleAnswer(entries, d)
  {
    hide Known, Decided, Undecided;
  }

  lemma UndefinedIsFree(m: Store, start: nat, entries: seq<Entry>, s: seq<Byte>)
    requires Describes(m, start, entries) && Answer(m, start, s) == Undefined
    ensures !Decided(entries, s) && !Undecided(entries, s)
  {
    if Decided(entries, s) {
      var e :| Known(entries, e) && e.key <= s;
      SettledStays(m, Node(start), e.key, s);
    }
  }

  /** A trie whose entries and default share one answer is level, one level for each byte before
      the last. */
  lemma RecordedLevels(recorded: Store, total: Store, start: nat, entries: seq<Entry>, d: nat, filled: bool, n: nat)
    requires Describes(recorded, start, entries) && IsTree(recorded, start) && KeysUpTo(entries, n + 1)
    requires if filled then Totalised(recorded, total, d) else total == recorded
    requires OneAnswer(entries, d, filled)
    ensures Leveled(total, start, SoleAnswer(entries, d), Depths(recorded, start), n)
  {
    var depth, v := Depths(recorded, start), SoleAnswer(entries, d);
    assert total.Keys == recorded.Keys == depth.Keys;
    hide *;
    forall p | p in total ensures depth[p] <= n && (depth[p] == 0 <==> p == start) && (p == start || LeadsOn(total[p])) {
      RecordedState(recorded, total, start, entries, d, filled, n, p);
    }
    forall p, c | p in total && 0 <= c < 256 ensures LevelCell(depth, depth[p], v, total[p][c]) {
      RecordedCell(recorded, total, start, entries, d, filled, p, c);
    }
    MakeLeveled(total, start, v, depth, n);
  }

  lemma MakeLeveled(m: Store, start: nat, v: nat, depth: map<nat, nat>, h: nat)
    requires start in m && m.Keys <= depth.Keys
    requires forall p :: p in m ==> depth[p] <= h && (depth[p] == 0 <==> p == start) && (p == start || LeadsOn(m[p]))
    requires forall p, c :: p in m && 0 <= c < 256 ==> LevelCell(depth, depth[p], v, m[p][c])
    ensures Leveled(m, start, v, depth, h)
  {
    hide LeadsOn, LevelCell;
  }

  lemma RecordedState(recorded: Store, total: Store, start: nat, entries: seq<Entry>, d: nat, filled: bool, n: nat, p: nat)
    requires Describes(recorded, start, entries) && IsTree(recorded, start) && KeysUpTo(entries, n + 1) && p in recorded && p in total
    requires if filled then Totalised(recorded, total, d) else total == recorded
    ensures var depth := Depths(recorded, start);
      p in depth && depth[p] <= n && (depth[p] == 0 <==> p == start) && (p == start || LeadsOn(total[p]))
  {
    PathFacts(recorded, start, entries, n, p);
    if p != start && filled {
      StillLeads(recorded, total, d, p);
    }
    hide Describes, IsTree, LeadsOn, PathTo, KeysUpTo, Totalised;
  }

  lemma StillLeads(recorded: Store, total: Store, d: nat, p: nat)
    requires Totalised(recorded, total, d) && p in recorded && LeadsOn(recorded[p])
    ensures p in total && LeadsOn(total[p])
  {
    var c :| 0 <= c < 256 && recorded[p][c] != Undefined;
    assert total[p][c] != Undefined;
  }

  lemma RecordedCell(recorded: Store, total: Store, start: nat, entries: seq<Entry>, d: nat, filled: bool, p: nat, c: Byte)
    requires Describes(recorded, start, entries) && IsTree(recorded, start) && p in recorded && p in total
    requires if filled then Totalised(recorded, total, d) else total == recorded
    requires OneAnswer(entries, d, filled)
    ensures var depth := Depths(recorded, start); LevelCell(depth, depth[p], SoleAnswer(entries, d), total[p][c])
  {
    CellAnswer(recorded, start, entries, d, filled, p, c);
    if recorded[p][c].Node? {
      ChildPath(recorded, start, p, c);
    }
    hide Describes, IsTree, OneAnswer, SoleAnswer, PathTo;
  }
}
