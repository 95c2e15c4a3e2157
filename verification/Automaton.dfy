/** The state-transition table that utf/smutil.cpp optimises, as a value.

    A `State *` is a handle into a store of rows. The two kinds of special
    pointer (`&m_Undefined` and addresses inside `m_aAcceptingStates`) are
    constructors of their own, so no row is reached through them. */
module Automaton {
  import opened Bytes

  datatype Target = Undefined | Accept(n: nat) | Node(id: nat)

  type Row = r: seq<Target> | |r| == 256 witness seq(256, _ => Undefined)

  type Store = map<nat, Row>

  function EmptyRow(): (r: Row)
    ensures forall c :: 0 <= c < 256 ==> r[c] == Undefined
  {
    seq(256, _ => Undefined)
  }

  ghost predicate Live(m: Store, t: Target) {
    t.Node? ==> t.id in m
  }

  /** No transition leads to a state that is not in the store. */
  ghost predicate Closed(m: Store) {
    forall p, c :: p in m && 0 <= c < 256 ==> Live(m, m[p][c])
  }

  /** The walk of TestString: it stops at the first target that is not a state. */
  function Run(m: Store, t: Target, s: seq<Byte>): Target
    requires Closed(m) && Live(m, t)
    decreases |s|
  {
    if s == [] || !t.Node? then t else Run(m, m[t.id][s[0]], s[1..])
  }

  function Step(m: Store, t: Target, c: Byte): Target
    requires Closed(m) && Live(m, t)
  {
    if t.Node? then m[t.id][c] else t
  }

  lemma {:induction false} RunLive(m: Store, t: Target, s: seq<Byte>)
    requires Closed(m) && Live(m, t)
    ensures Live(m, Run(m, t, s))
    decreases |s|
  {
    if s != [] && t.Node? {
      RunLive(m, m[t.id][s[0]], s[1..]);
    }
  }

  /** A walk over u + v is a walk over u followed by a walk over v. */
  lemma {:induction false} RunAppend(m: Store, t: Target, u: seq<Byte>, v: seq<Byte>)
    requires Closed(m) && Live(m, t)
    ensures Live(m, Run(m, t, u)) && Run(m, t, u + v) == Run(m, Run(m, t, u), v)
    decreases |u|
  {
    if u == [] {
      assert u + v == v;
    } else if t.Node? {
      assert (u + v)[1..] == u[1..] + v;
      RunAppend(m, m[t.id][u[0]], u[1..], v);
    }
  }

  lemma RunSnoc(m: Store, t: Target, u: seq<Byte>, c: Byte)
    requires Closed(m) && Live(m, t)
    ensures Live(m, Run(m, t, u)) && Run(m, t, u + [c]) == Step(m, Run(m, t, u), c)
  {
    RunAppend(m, t, u, [c]);
  }

  /** A settled answer does not depend on the bytes that follow. */
  lemma SettledStays(m: Store, t: Target, u: seq<Byte>, s: seq<Byte>)
    requires Closed(m) && Live(m, t) && u <= s
    requires !Run(m, t, u).Node?
    ensures Run(m, t, s) == Run(m, t, u)
  {
    assert s == u + s[|u|..];
    RunAppend(m, t, u, s[|u|..]);
  }

  // ----- simulation between two machines -----

  /** What a merge pass puts in the `merged` field of the states it removes. */
  type Merging = map<nat, Target>

  function Redirect(merged: Merging, t: Target): Target {
    if t.Node? && t.id in merged then merged[t.id] else t
  }

  ghost predicate OnlyLeadsTo(row: Row, t: Target) {
    forall c :: 0 <= c < 256 ==> row[c] == Undefined || row[c] == t
  }

  ghost predicate AgreesWhereDefined(row: Row, row': Row, merged: Merging) {
    forall c :: 0 <= c < 256 && row[c] != Undefined ==> row'[c] == Redirect(merged, row[c])
  }

  /** Every old state is represented by its redirection: by a state that agrees
      with each of its defined transitions, or by the only accepting state that
      it could lead to. */
  ghost predicate Represented(old': Store, new': Store, merged: Merging, p: nat)
    requires p in old'
  {
    var r := Redirect(merged, Node(p));
    && r != Undefined
    && (r.Accept? ==> OnlyLeadsTo(old'[p], r))
    && (r.Node? ==> r.id in new' && AgreesWhereDefined(old'[p], new'[r.id], merged))
  }

  ghost predicate Simulates(old': Store, new': Store, merged: Merging) {
    forall p :: p in old' ==> Represented(old', new', merged, p)
  }

  lemma {:induction false} SimulationKeepsAnswers(old': Store, new': Store, merged: Merging, t: Target, s: seq<Byte>)
    requires Closed(old') && Closed(new') && Simulates(old', new', merged)
    requires Live(old', t)
    ensures Live(new', Redirect(merged, t))
    ensures Run(old', t, s).Accept? ==> Run(new', Redirect(merged, t), s) == Run(old', t, s)
    decreases |s|
  {
    if t.Node? {
      assert Represented(old', new', merged, t.id);
      if s != [] {
        SimulationKeepsAnswers(old', new', merged, old'[t.id][s[0]], s[1..]);
        if Redirect(merged, t).Accept? {
          assert old'[t.id][s[0]] == Undefined || old'[t.id][s[0]] == Redirect(merged, t);
        }
      }
    }
  }

  /** Whatever the old machine accepts from its start, the new one accepts with the same value. */
  ghost predicate Preserves(old': Store, new': Store, start: nat) {
    && Closed(old') && Closed(new') && start in old' && start in new'
    && forall s: seq<Byte> :: Run(old', Node(start), s).Accept? ==>
         Run(new', Node(start), s) == Run(old', Node(start), s)
  }

  lemma SimulationPreserves(old': Store, new': Store, merged: Merging, start: nat)
    requires Closed(old') && Closed(new') && Simulates(old', new', merged)
    requires start in old' && start !in merged
    ensures Preserves(old', new', start)
  {
    assert Represented(old', new', merged, start);
    forall s: seq<Byte> | Run(old', Node(start), s).Accept?
      ensures Run(new', Node(start), s) == Run(old', Node(start), s)
    {
      SimulationKeepsAnswers(old', new', merged, Node(start), s);
    }
  }

  lemma PreservesTransitive(a: Store, b: Store, c: Store, start: nat)
    requires Preserves(a, b, start) && Preserves(b, c, start)
    ensures Preserves(a, c, start)
  {
  }
}
