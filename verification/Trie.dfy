/** What recording a string does to the meaning of a trie-shaped machine, and
    the meaning of the machine once a whole list of strings is recorded. */
module Trie {
  import opened Automaton
  import opened Bytes
  import opened Counting
  import opened Columns

  datatype Entry = Entry(key: seq<Byte>, value: nat)

  ghost predicate Proper(u: seq<Byte>, s: seq<Byte>) {
    u <= s && u != s
  }

  /** The answer of the machine that starts in `start`. */
  ghost function Answer(m: Store, start: nat, s: seq<Byte>): Target
    requires Closed(m) && start in m
  {
    Run(m, Node(start), s)
  }

  /** Every state is reached, and by one string only. */
  ghost predicate IsTree(m: Store, start: nat)
    requires Closed(m) && start in m
  {
    && (forall u: seq<Byte>, v: seq<Byte> ::
          Answer(m, start, u).Node? && Answer(m, start, u) == Answer(m, start, v) ==> u == v)
    && (forall p :: p in m ==> Reached(m, start, p))
  }

  ghost predicate Reached(m: Store, start: nat, p: nat)
    requires Closed(m) && start in m
  {
    exists w: seq<Byte> :: Answer(m, start, w) == Node(p)
  }

  /** Fill the undefined transition p --c--> with a target, allocating the state it names. */
  function Grow(m: Store, p: nat, c: Byte, t: Target): Store
    requires p in m
  {
    (if t.Node? then m[t.id := EmptyRow()] else m)[p := m[p][c := t]]
  }

  /** No other string leads to the state that w leads to. */
  ghost predicate OnlyPath(m: Store, start: nat, w: seq<Byte>, p: nat)
    requires Closed(m) && start in m
  {
    Answer(m, start, w) == Node(p) && forall u: seq<Byte> :: Answer(m, start, u) == Node(p) ==> u == w
  }

  /** `w` leads to p, and the transition on c has not been used. */
  ghost predicate CanGrow(m: Store, start: nat, w: seq<Byte>, p: nat, c: Byte, t: Target) {
    && Closed(m) && start in m && p in m && OnlyPath(m, start, w, p)
    && m[p][c] == Undefined && t != Undefined && (t.Node? ==> t.id !in m)
  }

  ghost function GrownAnswer(m: Store, start: nat, w: seq<Byte>, c: Byte, t: Target, s: seq<Byte>): Target
    requires Closed(m) && start in m
  {
    if !(w + [c] <= s) then Answer(m, start, s)
    else if t.Accept? || s == w + [c] then t
    else Undefined
  }

  lemma {:induction false} GrowAnswer(m: Store, start: nat, w: seq<Byte>, p: nat, c: Byte, t: Target, s: seq<Byte>)
    requires CanGrow(m, start, w, p, c, t)
    ensures Closed(Grow(m, p, c, t))
    ensures Answer(Grow(m, p, c, t), start, s) == GrownAnswer(m, start, w, c, t, s)
    decreases |s|
  {
    var m' := Grow(m, p, c, t);
    if s != [] {
      var u, d := s[..|s| - 1], s[|s| - 1];
      assert s == u + [d];
      GrowAnswer(m, start, w, p, c, t, u);
      RunSnoc(m, Node(start), u, d);
      RunSnoc(m', Node(start), u, d);
      assert w + [c] <= s <==> w + [c] <= u || (u == w && d == c);
      assert w + [c] <= u ==> s != w + [c];
      hide Run, Closed;
    }
  }

  lemma GrowAnswers(m: Store, start: nat, w: seq<Byte>, p: nat, c: Byte, t: Target)
    requires CanGrow(m, start, w, p, c, t)
    ensures Closed(Grow(m, p, c, t))
    ensures forall s: seq<Byte> :: Answer(Grow(m, p, c, t), start, s) == GrownAnswer(m, start, w, c, t, s) && Live(m, Answer(m, start, s))
  {
    GrowAnswer(m, start, w, p, c, t, []);
    forall s: seq<Byte>
      ensures Answer(Grow(m, p, c, t), start, s) == GrownAnswer(m, start, w, c, t, s)
      ensures Live(m, Answer(m, start, s))
    {
      GrowAnswer(m, start, w, p, c, t, s);
      RunLive(m, Node(start), s);
    }
  }

  lemma GrowReaches(m: Store, start: nat, w: seq<Byte>, p: nat, c: Byte, t: Target, q: nat)
    requires CanGrow(m, start, w, p, c, t) && q in Grow(m, p, c, t) && (q in m ==> Reached(m, start, q))
    ensures Closed(Grow(m, p, c, t)) && Reached(Grow(m, p, c, t), start, q)
  {
    var m' := Grow(m, p, c, t);
    RunSnoc(m, Node(start), w, c);
    if q in m {
      var u: seq<Byte> :| Answer(m, start, u) == Node(q);
      GrowAnswer(m, start, w, p, c, t, u);
      if w + [c] <= u {
        SettledStays(m, Node(start), w + [c], u);
      }
      assert Answer(m', start, u) == Node(q);
    } else {
      GrowAnswer(m, start, w, p, c, t, w + [c]);
      assert Answer(m', start, w + [c]) == Node(q);
    }
  }

  lemma GrowKeepsTree(m: Store, start: nat, w: seq<Byte>, p: nat, c: Byte, t: Target)
    requires Closed(m) && start in m && IsTree(m, start) && CanGrow(m, start, w, p, c, t)
    ensures Closed(Grow(m, p, c, t)) && IsTree(Grow(m, p, c, t), start)
    ensures forall s: seq<Byte> :: Answer(Grow(m, p, c, t), start, s) == GrownAnswer(m, start, w, c, t, s)
  {
    var m' := Grow(m, p, c, t);
    GrowAnswers(m, start, w, p, c, t);
    forall q | q in m' ensures Reached(m', start, q) {
      GrowReaches(m, start, w, p, c, t, q);
    }
    hide Answer, Reached, Closed;
  }

  // ----- one recorded string -----

  /** The meaning of RecordString: s and its extensions are accepted with v, the
      proper prefixes of s are inside the trie, all else is as it was. */
  ghost predicate Records(old': Store, new': Store, start: nat, s: seq<Byte>, v: nat) {
    && Closed(old') && Closed(new') && start in old' && start in new'
    && forall t: seq<Byte> ::
         if s <= t then Answer(new', start, t) == Accept(v)
         else if t <= s then Answer(new', start, t).Node?
         else Answer(new', start, t) == Answer(old', start, t)
  }

  /** The loop of RecordString after it has followed or made a path for w. */
  ghost predicate PathMade(old': Store, new': Store, start: nat, w: seq<Byte>, p: nat) {
    && Closed(old') && Closed(new') && start in old' && start in new' && p in new'
    && IsTree(new', start)
    && Answer(new', start, w) == Node(p)
    && (forall t: seq<Byte> :: t <= w ==> Answer(new', start, t).Node?)
    && (forall t: seq<Byte> :: !(t <= w) ==> Answer(new', start, t) == Answer(old', start, t))
  }

  lemma PathStarts(m: Store, start: nat, s: seq<Byte>)
    requires Closed(m) && start in m && IsTree(m, start)
    ensures PathMade(m, m, start, s[..0], start)
  {
    assert s[..0] == [];
  }

  lemma PathFollowed(old': Store, m: Store, start: nat, w: seq<Byte>, p: nat, c: Byte)
    requires PathMade(old', m, start, w, p) && m[p][c].Node?
    ensures PathMade(old', m, start, w + [c], m[p][c].id)
    ensures Answer(m, start, w + [c]) == Answer(old', start, w + [c])
  {
    RunSnoc(m, Node(start), w, c);
    forall t: seq<Byte> | t <= w + [c] ensures Answer(m, start, t).Node? {
      assert t == w + [c] || t <= w;
    }
  }

  lemma PathExtended(old': Store, m: Store, start: nat, w: seq<Byte>, p: nat, c: Byte, fresh': nat)
    requires PathMade(old', m, start, w, p) && m[p][c] == Undefined && fresh' !in m
    ensures PathMade(old', Grow(m, p, c, Node(fresh')), start, w + [c], fresh')
  {
    var m' := Grow(m, p, c, Node(fresh'));
    GrowKeepsTree(m, start, w, p, c, Node(fresh'));
    RunSnoc(m, Node(start), w, c);
    forall t: seq<Byte> | t <= w + [c] ensures Answer(m', start, t).Node? {
      assert t == w + [c] || t <= w;
    }
    forall t: seq<Byte> | !(t <= w + [c]) ensures Answer(m', start, t) == Answer(old', start, t) {
      assert !(t <= w);
      if w + [c] <= t {
        SettledStays(m, Node(start), w + [c], t);
      }
    }
  }

  lemma PathFinished(old': Store, m: Store, start: nat, w: seq<Byte>, p: nat, c: Byte, v: nat)
    requires PathMade(old', m, start, w, p) && m[p][c] == Undefined
    ensures Records(old', Grow(m, p, c, Accept(v)), start, w + [c], v)
    ensures IsTree(Grow(m, p, c, Accept(v)), start)
    ensures Answer(old', start, w + [c]) == Undefined
  {
    var m' := Grow(m, p, c, Accept(v));
    GrowKeepsTree(m, start, w, p, c, Accept(v));
    RunSnoc(m, Node(start), w, c);
    forall t: seq<Byte>
      ensures if w + [c] <= t then Answer(m', start, t) == Accept(v)
              else if t <= w + [c] then Answer(m', start, t).Node?
              else Answer(m', start, t) == Answer(old', start, t)
    {
      if t <= w + [c] && t != w + [c] {
        assert t <= w;
      }
    }
  }

  // ----- the whole list -----

  /** RecordString ignores an empty string. */
  ghost predicate Known(entries: seq<Entry>, e: Entry) {
    e in entries && e.key != []
  }

  /** Some recorded string is a prefix of s. */
  ghost predicate Decided(entries: seq<Entry>, s: seq<Byte>) {
    exists e :: Known(entries, e) && e.key <= s
  }

  /** s is cut off inside a recorded string. */
  ghost predicate Undecided(entries: seq<Entry>, s: seq<Byte>) {
    s == [] || exists e :: Known(entries, e) && Proper(s, e.key)
  }

  /** The machine knows exactly the entries: a key and its extensions are accepted
      with the key's value, and a string is left open just when it is cut off inside
      a key. */
  ghost predicate Describes(m: Store, start: nat, entries: seq<Entry>) {
    && Closed(m) && start in m
    && (forall e :: Known(entries, e) ==> Answer(m, start, e.key) == Accept(e.value))
    && (forall t: seq<Byte> :: Answer(m, start, t).Accept? ==> Decided(entries, t))
    && (forall t: seq<Byte> :: Answer(m, start, t).Node? <==> Undecided(entries, t))
  }

  lemma KnownAppend(entries: seq<Entry>, e: Entry)
    ensures forall k :: Known(entries + [e], k) <==> Known(entries, k) || (k == e && e.key != [])
    ensures forall t :: Decided(entries + [e], t) <==> Decided(entries, t) || (e.key != [] && e.key <= t)
    ensures forall t :: Undecided(entries + [e], t) <==> Undecided(entries, t) || Proper(t, e.key)
  {
    var es := entries + [e];
    assert forall k :: Known(es, k) <==> Known(entries, k) || (k == e && e.key != []);
    forall t: seq<Byte> | Decided(entries, t) || (e.key != [] && e.key <= t) ensures Decided(es, t) {
      if e.key != [] && e.key <= t {
        assert Known(es, e);
      } else {
        var k :| Known(entries, k) && k.key <= t;
        assert Known(es, k);
      }
    }
    forall t: seq<Byte> | Undecided(entries, t) || Proper(t, e.key) ensures Undecided(es, t) {
      if t != [] {
        if Proper(t, e.key) {
          assert Known(es, e);
        } else {
          var k :| Known(entries, k) && Proper(t, k.key);
          assert Known(es, k);
        }
      }
    }
  }

  /** Strings the machine leaves undefined are comparable with no recorded string. */
  lemma UndefinedIsNew(m: Store, start: nat, entries: seq<Entry>, s: seq<Byte>, e: Entry)
    requires Describes(m, start, entries) && Known(entries, e)
    requires Answer(m, start, s) == Undefined
    ensures !(e.key <= s) && !(s <= e.key)
  {
    if e.key <= s {
      SettledStays(m, Node(start), e.key, s);
    }
    assert !Proper(s, e.key);
  }

  lemma RecordsDescribes(old': Store, new': Store, start: nat, entries: seq<Entry>, e: Entry)
    requires Describes(old', start, entries) && Records(old', new', start, e.key, e.value)
    requires e.key != [] && Answer(old', start, e.key) == Undefined
    ensures Describes(new', start, entries + [e])
  {
    var es := entries + [e];
    KnownAppend(entries, e);
    forall k | Known(es, k) ensures Answer(new', start, k.key) == Accept(k.value) {
      if Known(entries, k) {
        UndefinedIsNew(old', start, entries, e.key, k);
      }
    }
    forall t: seq<Byte> | e.key <= t ensures !Undecided(entries, t) {
      SettledStays(old', Node(start), e.key, t);
    }
    hide Known, Decided, Undecided;
  }

  lemma EmptyKeyDescribes(m: Store, start: nat, entries: seq<Entry>, e: Entry)
    requires Describes(m, start, entries) && e.key == []
    ensures Describes(m, start, entries + [e])
  {
    KnownAppend(entries, e);
  }

  lemma EmptyDescribes(m: Store, start: nat)
    requires start in m && m == map[start := EmptyRow()]
    ensures Describes(m, start, []) && IsTree(m, start)
  {
    forall t: seq<Byte> ensures t != [] ==> Answer(m, start, t) == Undefined {
      if t != [] {
        assert m[start][t[0]] == Undefined;
        assert Run(m, Undefined, t[1..]) == Undefined;
      }
    }
    assert Answer(m, start, []) == Node(start);
  }

  /** No key is a prefix of another, and no key occurs twice. */
  ghost predicate PrefixFree(entries: seq<Entry>) {
    forall i, j :: 0 <= i < j < |entries| && entries[i].key != [] && entries[j].key != [] ==>
      !(entries[i].key <= entries[j].key) && !(entries[j].key <= entries[i].key)
  }

  lemma PrefixFreeGrows(m: Store, start: nat, entries: seq<Entry>, e: Entry)
    requires Describes(m, start, entries) && PrefixFree(entries)
    requires e.key != [] ==> Answer(m, start, e.key) == Undefined
    ensures PrefixFree(entries + [e])
  {
    forall i | 0 <= i < |entries| && entries[i].key != [] && e.key != []
      ensures !(entries[i].key <= e.key) && !(e.key <= entries[i].key)
    {
      assert Known(entries, entries[i]);
      UndefinedIsNew(m, start, entries, e.key, entries[i]);
    }
  }

  /** RecordString's "Already recorded" exits are taken only for keys that are not prefix-free. */
  lemma ConflictBreaksPrefixFree(m: Store, start: nat, entries: seq<Entry>, e: Entry)
    requires Describes(m, start, entries) && e.key != [] && Answer(m, start, e.key) != Undefined
    ensures !PrefixFree(entries + [e])
  {
    var es := entries + [e];
    var k: Entry;
    if Answer(m, start, e.key).Accept? {
      assert Decided(entries, e.key);
      k :| Known(entries, k) && k.key <= e.key;
    } else {
      assert Undecided(entries, e.key);
      k :| Known(entries, k) && Proper(e.key, k.key);
    }
    var i :| 0 <= i < |entries| && entries[i] == k;
    assert es[i] == k && es[|entries|] == e;
  }

  // ----- filling the undefined transitions -----

  ghost predicate Totalised(old': Store, new': Store, d: nat) {
    && old'.Keys == new'.Keys
    && forall p, c :: p in old' && 0 <= c < 256 ==>
         new'[p][c] == if old'[p][c] == Undefined then Accept(d) else old'[p][c]
  }

  lemma {:induction false} TotalisedRun(old': Store, new': Store, d: nat, t: Target, s: seq<Byte>)
    requires Closed(old') && Totalised(old', new', d) && Live(old', t) && t != Undefined
    ensures Closed(new')
    ensures Run(new', t, s) == if Run(old', t, s) == Undefined then Accept(d) else Run(old', t, s)
    decreases |s|
  {
    assert Closed(new');
    if s != [] && t.Node? {
      var u := old'[t.id][s[0]];
      if u != Undefined {
        TotalisedRun(old', new', d, u, s[1..]);
      }
    }
  }

  // ----- how many states -----

  /** The proper prefixes of the keys. */
  function Prefixes(entries: seq<Entry>): set<seq<Byte>> {
    if entries == [] then {[]}
    else
      var key := entries[|entries| - 1].key;
      Prefixes(entries[..|entries| - 1]) + set k | 0 <= k < |key| :: key[..k]
  }

  lemma {:induction false} PrefixesUndecided(entries: seq<Entry>, s: seq<Byte>)
    ensures s in Prefixes(entries) <==> Undecided(entries, s)
  {
    if entries != [] {
      var front, e := entries[..|entries| - 1], entries[|entries| - 1];
      assert entries == front + [e];
      PrefixesUndecided(front, s);
      KnownAppend(front, e);
      assert Proper(s, e.key) <==> |s| < |e.key| && e.key[..|s|] == s;
    }
  }

  lemma {:induction false} PrefixesTake(entries: seq<Entry>, n: nat)
    requires n <= |entries|
    ensures Prefixes(entries[..n]) <= Prefixes(entries)
  {
    if n < |entries| {
      var front := entries[..|entries| - 1];
      PrefixesTake(front, n);
      assert front[..n] == entries[..n];
    } else {
      assert entries[..n] == entries;
    }
  }

  ghost function PathTo(m: Store, start: nat, p: nat): (w: seq<Byte>)
    requires Closed(m) && start in m && Reached(m, start, p)
    ensures Answer(m, start, w) == Node(p)
  {
    var w: seq<Byte> :| Answer(m, start, w) == Node(p);
    w
  }

  /** A trie has a state for each string that leads to one, and no more. */
  lemma StatesAreStrings(m: Store, start: nat, strings: set<seq<Byte>>)
    requires Closed(m) && start in m && IsTree(m, start)
    ensures (forall w :: Answer(m, start, w).Node? ==> w in strings) ==> |m.Keys| <= |strings|
    ensures (forall w :: Answer(m, start, w).Node? <==> w in strings) ==> |m.Keys| == |strings|
  {
    var f := map p | p in m :: PathTo(m, start, p);
    assert f.Keys == m.Keys;
    InjectiveSize(f);
    if forall w :: Answer(m, start, w).Node? ==> w in strings {
      SubsetSize(f.Values, strings);
    }
    if forall w :: Answer(m, start, w).Node? <==> w in strings {
      forall w | w in strings ensures w in f.Values {
        RunLive(m, Node(start), w);
        assert f[Answer(m, start, w).id] == w;
      }
      assert f.Values == strings;
    }
  }

  /** The number of states once the entries are recorded. */
  lemma DescribedSize(m: Store, start: nat, entries: seq<Entry>)
    requires Describes(m, start, entries) && IsTree(m, start)
    ensures |m.Keys| == |Prefixes(entries)|
  {
    forall w: seq<Byte> ensures Answer(m, start, w).Node? <==> w in Prefixes(entries) {
      PrefixesUndecided(entries, w);
    }
    StatesAreStrings(m, start, Prefixes(entries));
  }

  /** No state beyond the old ones and those on the way to s. */
  ghost predicate GrownTowards(old': Store, new': Store, start: nat, s: seq<Byte>) {
    && Closed(old') && Closed(new') && start in old' && start in new' && IsTree(new', start)
    && forall w: seq<Byte> :: Answer(new', start, w).Node? ==> Answer(old', start, w).Node? || Proper(w, s)
  }

  lemma PathGrows(old': Store, new': Store, start: nat, s: seq<Byte>, i: nat, p: nat)
    requires i < |s| && PathMade(old', new', start, s[..i], p)
    ensures GrownTowards(old', new', start, s)
  {
  }

  lemma GrownSize(old': Store, new': Store, start: nat, entries: seq<Entry>, e: Entry)
    requires Describes(old', start, entries) && GrownTowards(old', new', start, e.key)
    ensures |new'.Keys| <= |Prefixes(entries + [e])|
  {
    forall w: seq<Byte> | Answer(new', start, w).Node? ensures w in Prefixes(entries + [e]) {
      PrefixesUndecided(entries + [e], w);
      KnownAppend(entries, e);
    }
    StatesAreStrings(new', start, Prefixes(entries + [e]));
  }

  /** Short keys have few prefixes. */
  lemma {:induction false} FewPrefixes(entries: seq<Entry>, n: nat)
    requires forall i :: 0 <= i < |entries| ==> |entries[i].key| <= n
    ensures |Prefixes(entries)| <= 1 + n * |entries|
  {
    if entries != [] {
      var front, key := entries[..|entries| - 1], entries[|entries| - 1].key;
      FewPrefixes(front, n);
      var more := set k | 0 <= k < |key| :: key[..k];
      KeyPrefixes(key, |key|);
      UnionSize(Prefixes(front), more);
      assert |Prefixes(entries)| <= |Prefixes(front)| + n;
      hide Prefixes;
      assert n * (|front| + 1) == n * |front| + n;
    }
  }

  lemma {:induction false} KeyPrefixes(key: seq<Byte>, n: nat)
    requires n <= |key|
    ensures |set k | 0 <= k < n :: key[..k]| <= n
  {
    if n > 0 {
      KeyPrefixes(key, n - 1);
      assert (set k | 0 <= k < n :: key[..k]) == (set k | 0 <= k < n - 1 :: key[..k]) + {key[..n - 1]};
    }
  }

  // ----- a machine with a single column -----

  lemma {:induction false} OneColumnRuns(m: Store, t: Target, u: seq<Byte>, v: seq<Byte>)
    requires Closed(m) && OneColumn(m) && Live(m, t) && Run(m, t, u).Accept? && Run(m, t, v).Accept?
    ensures Run(m, t, u) == Run(m, t, v)
    decreases |u|
  {
    if t.Node? {
      var x, y := m[t.id][u[0]], m[t.id][v[0]];
      if x == Undefined || y == Undefined {
        UndefinedStays(m, u[1..]);
        UndefinedStays(m, v[1..]);
      } else {
        OneColumnRuns(m, x, u[1..], v[1..]);
      }
    }
  }

  lemma UndefinedStays(m: Store, s: seq<Byte>)
    requires Closed(m)
    ensures Run(m, Undefined, s) == Undefined
  {
  }

  /** Whatever the entries decide, the answer is the same. */
  ghost predicate OneAnswer(entries: seq<Entry>, d: nat, total: bool) {
    && (forall e, f :: Known(entries, e) && Known(entries, f) ==> e.value == f.value)
    && (total ==> forall e, s :: Known(entries, e) && !Decided(entries, s) && !Undecided(entries, s) ==> e.value == d)
  }

  lemma OneColumnAnswer(recorded: Store, total: Store, final: Store, start: nat, entries: seq<Entry>, d: nat, filled: bool)
    requires Describes(recorded, start, entries)
    requires if filled then Totalised(recorded, total, d) else total == recorded
    requires Preserves(total, final, start) && OneColumn(final)
    ensures OneAnswer(entries, d, filled)
  {
    forall s: seq<Byte>
      ensures Answer(recorded, start, s).Accept? ==> Answer(final, start, s) == Answer(recorded, start, s)
      ensures Answer(recorded, start, s) == Undefined && filled ==> Answer(final, start, s) == Accept(d)
    {
      if filled {
        TotalisedRun(recorded, total, d, Node(start), s);
      }
      assert Run(total, Node(start), s).Accept? ==> Run(final, Node(start), s) == Run(total, Node(start), s);
    }
    hide Preserves, Totalised;
    forall e, f | Known(entries, e) && Known(entries, f) ensures e.value == f.value {
      OneColumnRuns(final, Node(start), e.key, f.key);
    }
    if filled {
      forall e, s | Known(entries, e) && !Decided(entries, s) && !Undecided(entries, s) ensures e.value == d {
        assert Answer(recorded, start, s) == Undefined;
        OneColumnRuns(final, Node(start), e.key, s);
      }
    }
  }
}
