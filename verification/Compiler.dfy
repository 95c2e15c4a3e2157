/** The table compiler as the drivers use it (utf/pairs.cpp, utf/strings.cpp): record
    every string, optionally fill the undefined transitions, run the merge passes,
    merge columns, number the states and emit. */
module Compiler {
  import opened Automaton
  import opened Bytes
  import opened Trie
  import opened StateMachines
  import opened RunLength
  import opened Tables
  import opened Columns
  import opened Counting
  import opened Pruning
  import opened Passes

  /** WildPointer is no exit of the program: it goes on with a pointer outside its table, and
      nothing is promised about what it writes. */
  datatype Failure = BadValue | WildPointer | AlreadyRecorded | StateLimit | BlobOverflow | OutputsFull

  datatype Outcome = Compiled(tables: Tables) | Failed(why: Failure)

  /** Everything recorded so far is known, and nothing else. */
  ghost predicate Holds(sm: StateMachine, done: seq<Entry>)
    reads sm
  {
    && sm.Valid() && IsTree(sm.store, sm.start)
    && Describes(sm.store, sm.start, done) && PrefixFree(done)
    && |sm.stt| < NUM_STATES && sm.bound == sm.largest && ValuesUpTo(done, sm.largest)
  }

  ghost predicate ValuesUpTo(entries: seq<Entry>, top: int) {
    forall i :: 0 <= i < |entries| ==> entries[i].value <= top
  }

  lemma NextHeld(before: Store, after: Store, start: nat, done: seq<Entry>, e: Entry, was: int, largest: int)
    requires Describes(before, start, done) && PrefixFree(done)
    requires if e.key == [] then after == before else Answer(before, start, e.key) == Undefined && Records(before, after, start, e.key, e.value)
    requires ValuesUpTo(done, was) && largest == Max(was, e.value)
    ensures Describes(after, start, done + [e]) && PrefixFree(done + [e]) && ValuesUpTo(done + [e], largest)
  {
    PrefixFreeGrows(before, start, done, e);
    if e.key == [] {
      EmptyKeyDescribes(before, start, done, e);
    } else {
      RecordsDescribes(before, after, start, done, e);
    }
    hide Describes, PrefixFree, Records;
  }

  method RecordNext(sm: StateMachine, e: Entry, ghost done: seq<Entry>) returns (result: RecordResult)
    requires Holds(sm, done)
    modifies sm
    ensures sm.Valid() && sm.start == old(sm.start)
    ensures result == Recorded ==> Holds(sm, done + [e])
    ensures result == Conflict ==> !PrefixFree(done + [e])
    ensures result == OutOfRange ==> NUM_ACCEPTING_STATES < e.value
    ensures result == PastTheEnd ==> NUM_ACCEPTING_STATES == e.value
    ensures result == TooManyStates ==> NUM_STATES <= |Prefixes(done + [e])|
  {
    ghost var before, was := sm.store, sm.largest;
    hide Describes, PrefixFree, IsTree, Records, Answer, Prefixes, GrownTowards, Closed, AcceptsUpTo, Distinct, ValuesUpTo;
    result := sm.RecordString(e.key, e.value);
    if result == Conflict {
      ConflictBreaksPrefixFree(before, sm.start, done, e);
    } else if result == TooManyStates {
      GrownSize(before, sm.store, sm.start, done, e);
      sm.StateCount();
    } else if result == Recorded {
      NextHeld(before, sm.store, sm.start, done, e, was, sm.largest);
    }
  }

  /** Records the entries in order; stops at the first error exit. */
  method RecordAll(sm: StateMachine, entries: seq<Entry>) returns (result: RecordResult)
    requires Holds(sm, [])
    modifies sm
    ensures sm.Valid() && sm.start == old(sm.start)
    ensures result == Recorded ==> Holds(sm, entries)
    ensures result == Conflict ==> !PrefixFree(entries)
    ensures result == OutOfRange ==> exists e :: e in entries && NUM_ACCEPTING_STATES < e.value
    ensures result == PastTheEnd ==> exists e :: e in entries && NUM_ACCEPTING_STATES == e.value
    ensures result == TooManyStates ==> NUM_STATES <= |Prefixes(entries)|
  {
    hide IsTree, Describes, PrefixFree, ValuesUpTo, Closed, Distinct, AcceptsUpTo, Prefixes;
    ghost var done: seq<Entry> := [];
    assert entries[..0] == done && entries[..|entries|] == entries;
    for i := 0 to |entries|
      invariant sm.Valid() && sm.start == old(sm.start) && done == entries[..i] && Holds(sm, done)
    {
      result := RecordNext(sm, entries[i], done);
      done := done + [entries[i]];
      assert done == entries[..i + 1];
      if result != Recorded {
        EntriesTake(entries, i + 1);
        assert entries[i] in entries;
        return;
      }
    }
    result := Recorded;
  }

  lemma EntriesTake(entries: seq<Entry>, n: nat)
    requires n <= |entries|
    ensures PrefixFree(entries) ==> PrefixFree(entries[..n])
    ensures |Prefixes(entries[..n])| <= |Prefixes(entries)|
  {
    PrefixesTake(entries, n);
    SubsetSize(Prefixes(entries[..n]), Prefixes(entries));
  }

  lemma AllStandKeys(before: Store, m: Store, rep: seq<Byte>, present: seq<bool>)
    requires AllStand(before, m, rep, present)
    ensures before.Keys == m.Keys
  {
    assert Stands(before, m, 0, 0);
  }

  /** DetectDuplicateColumns, NumberStates and OutputTables. There is no table if
      and only if no state of the machine tells two bytes apart. */
  method Emit(sm: StateMachine) returns (r: Option<Tables>)
    requires sm.Valid()
    modifies sm
    ensures r.None? <==> OneColumn(old(sm.store))
    ensures r.Some? ==> Tabulates(r.value, old(sm.store), old(sm.stt))
    ensures r.Some? && old(sm.bound) <= old(sm.largest) ==> FitsWidths(r.value)
  {
    ghost var before, stt := sm.store, sm.stt;
    ghost var rep := sm.DetectDuplicateColumns();
    sm.NumberStates();
    AllStandKeys(before, sm.store, rep, sm.present);
    hide Tabulates, FitsWidths, HoldsRows, TableRows, Rank, Ranked, AllStand, OneColumn, Separate, Drawn, Closed, AcceptsUpTo, Distinct;
    r := OutputTables(sm);
    if r.Some? {
      EmittedTabulates(r.value, before, sm.store, stt, sm.number, sm.present, rep);
    }
  }

  /** The tables send every string that extends a recorded one to the recorded value,
      and every other string that is not cut off inside a key to the default. */
  ghost predicate Recognises(t: Tables, entries: seq<Entry>, default': Option<nat>) {
    && WellFormed(t)
    && (forall e, s: seq<Byte> :: Known(entries, e) && e.key <= s ==> TableRun(t, 0, s) == t.acceptStart + e.value)
    && (default'.Some? ==> forall s: seq<Byte> :: !Decided(entries, s) && !Undecided(entries, s) ==>
          TableRun(t, 0, s) == t.acceptStart + default'.value)
  }

  lemma CompiledRecognises(recorded: Store, total: Store, final: Store, start: nat, stt: seq<nat>, entries: seq<Entry>,
                           default': Option<nat>, t: Tables)
    requires Describes(recorded, start, entries)
    requires if default'.Some? then Totalised(recorded, total, default'.value) else total == recorded
    requires Preserves(total, final, start)
    requires Tabulates(t, final, stt) && stt[0] == start
    ensures Recognises(t, entries, default')
  {
    forall s: seq<Byte>
      ensures Answer(recorded, start, s).Accept? ==> TableRun(t, 0, s) == t.acceptStart + Answer(recorded, start, s).n
      ensures Answer(recorded, start, s) == Undefined && default'.Some? ==> TableRun(t, 0, s) == t.acceptStart + default'.value
    {
      if default'.Some? {
        TotalisedRun(recorded, total, default'.value, Node(start), s);
      }
      assert Run(total, Node(start), s).Accept? ==> Run(final, Node(start), s) == Run(total, Node(start), s);
      TablesAnswer(t, final, stt, 0, s);
    }
    hide Tabulates, Preserves, Totalised, TableRun;
    forall e, s: seq<Byte> | Known(entries, e) && e.key <= s ensures TableRun(t, 0, s) == t.acceptStart + e.value {
      SettledStays(recorded, Node(start), e.key, s);
    }
  }

  function DefaultValue(default': Option<nat>): nat {
    if default'.Some? then default'.value else 0
  }

  /** The machine was made from the entries by filling and by passes that keep every answer. */
  ghost predicate Derived(final: Store, start: nat, entries: seq<Entry>, default': Option<nat>) {
    exists recorded, total :: DerivedFrom(recorded, total, final, start, entries, default')
  }

  ghost predicate DerivedFrom(recorded: Store, total: Store, final: Store, start: nat, entries: seq<Entry>, default': Option<nat>) {
    && Describes(recorded, start, entries) && Preserves(total, final, start)
    && if default'.Some? then Totalised(recorded, total, default'.value) else total == recorded
  }

  /** The keys are short enough for the pruning passes in front to reach the start. */
  ghost predicate WithinReach(entries: seq<Entry>, passes: seq<Pass>) {
    KeysUpTo(entries, Leading(passes) + 1)
  }

  /** Some byte starts no key. */
  ghost predicate HasFreeByte(entries: seq<Entry>) {
    exists b: Byte :: FreeByte(entries, b)
  }

  ghost predicate FreeByte(entries: seq<Entry>, b: Byte) {
    forall i :: 0 <= i < |entries| && entries[i].key != [] ==> entries[i].key[0] != b
  }

  /** The start of a filled trie accepts on a free byte. */
  lemma FreeAccepts(recorded: Store, total: Store, start: nat, entries: seq<Entry>, d: nat, b: Byte)
    requires Describes(recorded, start, entries) && Totalised(recorded, total, d) && FreeByte(entries, b)
    ensures start in total && total[start][b] == Accept(d)
  {
    RunSnoc(recorded, Node(start), [], b);
    assert [] + [b] == [b];
    assert Answer(recorded, start, [b]) == recorded[start][b];
    assert !Decided(entries, [b]) && !Undecided(entries, [b]);
  }

  /** A key beyond the reach of pruning has a path that is too long. */
  lemma FarPath(recorded: Store, total: Store, start: nat, entries: seq<Entry>, d: nat, passes: seq<Pass>) returns (w: seq<Byte>)
    requires Describes(recorded, start, entries) && Totalised(recorded, total, d) && !WithinReach(entries, passes)
    ensures Closed(total) && start in total && |w| > Leading(passes) && Answer(total, start, w).Node?
  {
    var i :| 0 <= i < |entries| && |entries[i].key| > Leading(passes) + 1;
    var e := entries[i];
    w := e.key[..|e.key| - 1];
    assert Known(entries, e) && Proper(w, e.key);
    assert Undecided(entries, w);
    TotalisedRun(recorded, total, d, Node(start), w);
  }

  /** Everything after the recording, for a default that fits. No table comes out if and only if
      the machine after the passes has a single column. With keys within the reach of the
      pruning passes that is so if and only if there is a single answer; and for a filled machine
      with a byte that starts no key, and pruning before merging, if and only if there is a single
      answer and the keys are within reach. */
  method Finish(sm: StateMachine, entries: seq<Entry>, default': Option<nat>, passes: seq<Pass>) returns (t: Option<Tables>, ghost final: Store)
    requires Holds(sm, entries) && (default'.Some? ==> default'.value < NUM_ACCEPTING_STATES)
    modifies sm
    ensures Derived(final, old(sm.start), entries, default') && (t.None? <==> OneColumn(final))
    ensures t.Some? ==> Recognises(t.value, entries, default')
    ensures t.Some? && (default'.None? || default'.value <= old(sm.largest)) ==> FitsWidths(t.value)
    ensures t.None? ==> OneAnswer(entries, DefaultValue(default'), default'.Some?)
    ensures WithinReach(entries, passes) && OneAnswer(entries, DefaultValue(default'), default'.Some?) ==> t.None?
    ensures default'.Some? && HasFreeByte(entries) && PrunesFirst(passes) && t.None? ==> WithinReach(entries, passes)
  {
    ghost var recorded, start := sm.store, sm.start;
    hide Recognises, PrefixFree, FitsWidths, Tabulates, Describes, Totalised, Preserves, IsTree, OneAnswer, OneColumn, History, WithinReach, HasFreeByte, PrunesFirst;
    if default'.Some? {
      var _ := sm.SetUndefinedStates(default'.value);
    }
    ghost var total := sm.store;
    ghost var stores := Optimise(sm, passes);
    ghost var stt := sm.stt;
    final := sm.store;
    t := Emit(sm);
    assert DerivedFrom(recorded, total, final, start, entries, default');
    PassesDecide(recorded, total, start, entries, default', passes, stores);
    if t.Some? {
      CompiledRecognises(recorded, total, final, start, stt, entries, default', t.value);
    }
  }

  /** When a single column is left. */
  lemma PassesDecide(recorded: Store, total: Store, start: nat, entries: seq<Entry>, default': Option<nat>, passes: seq<Pass>, stores: seq<Store>)
    requires Describes(recorded, start, entries) && IsTree(recorded, start)
    requires if default'.Some? then Totalised(recorded, total, default'.value) else total == recorded
    requires History(passes, stores, start) && stores[0] == total && Preserves(total, stores[|passes|], start)
    ensures OneColumn(stores[|passes|]) ==> OneAnswer(entries, DefaultValue(default'), default'.Some?)
    ensures WithinReach(entries, passes) && OneAnswer(entries, DefaultValue(default'), default'.Some?) ==> OneColumn(stores[|passes|])
    ensures default'.Some? && HasFreeByte(entries) && PrunesFirst(passes) && OneColumn(stores[|passes|]) ==> WithinReach(entries, passes)
  {
    var d, filled, final := DefaultValue(default'), default'.Some?, stores[|passes|];
    hide Describes, Totalised, Preserves, IsTree, OneAnswer, OneColumn, History, PrunesFirst, Leveled, FreeByte;
    if OneColumn(final) {
      OneColumnAnswer(recorded, total, final, start, entries, d, filled);
    }
    if WithinReach(entries, passes) && OneAnswer(entries, d, filled) {
      RecordedLevels(recorded, total, start, entries, d, filled, Leading(passes));
      LevelsLast(passes, stores, start, SoleAnswer(entries, d), Depths(recorded, start));
    }
    if filled && HasFreeByte(entries) && PrunesFirst(passes) && !WithinReach(entries, passes) {
      var b :| FreeByte(entries, b);
      FreeAccepts(recorded, total, start, entries, d, b);
      var w := FarPath(recorded, total, start, entries, d, passes);
      DeepLast(passes, stores, start, w, b);
    }
  }

  /** The values that have a place in m_aAcceptingStates. */
  ghost predicate ValuesFit(entries: seq<Entry>) {
    forall e :: e in entries ==> e.value < NUM_ACCEPTING_STATES
  }

  ghost predicate DefaultFits(default': Option<int>) {
    default'.Some? ==> 0 <= default'.value < NUM_ACCEPTING_STATES
  }

  /** Nothing stands in the way of a compilation but, perhaps, that there is one answer. */
  ghost predicate Compilable(entries: seq<Entry>, default': Option<int>) {
    PrefixFree(entries) && ValuesFit(entries) && |Prefixes(entries)| < NUM_STATES && DefaultFits(default')
  }

  /** Whatever the entries decide, the answer is the same. */
  ghost predicate OneAnswerFor(entries: seq<Entry>, default': Option<int>) {
    DefaultFits(default') && OneAnswer(entries, DefaultValue(default'), default'.Some?)
  }

  /** The machine after the passes decides: no table if and only if it has a single column. */
  ghost predicate Settled(r: Outcome, final: Store, entries: seq<Entry>, default': Option<int>) {
    DefaultFits(default') && (exists start :: Derived(final, start, entries, default')) && (r == Failed(BlobOverflow) <==> OneColumn(final))
  }

  /** The whole compiler, for any entries, any default and any list of passes. It fails only for
      keys that are not prefix-free, for values, a default or states beyond the limits, or when
      there is nothing to tell apart. The last is exact for keys with at most one byte more than
      there are pruning passes in front; and, whatever the keys, for a filled machine with a byte
      that starts none of them, when pruning comes before merging. */
  method Compile(entries: seq<Entry>, default': Option<int>, passes: seq<Pass>) returns (r: Outcome, ghost final: Store)
    ensures r.Compiled? ==> PrefixFree(entries) && DefaultFits(default') && Recognises(r.tables, entries, default') && |Prefixes(entries)| < 65536
    ensures r.Compiled? && (default'.None? || exists e :: e in entries && default'.value <= e.value) ==> FitsWidths(r.tables)
    ensures r == Failed(AlreadyRecorded) ==> !PrefixFree(entries)
    ensures r == Failed(BadValue) ==> exists e :: e in entries && 65536 < e.value
    ensures r == Failed(WildPointer) ==> !DefaultFits(default') || exists e :: e in entries && 65536 == e.value
    ensures r == Failed(StateLimit) ==> 65536 <= |Prefixes(entries)|
    ensures r == Failed(BlobOverflow) ==> PrefixFree(entries) && |Prefixes(entries)| < 65536 && OneAnswerFor(entries, default')
    ensures r.Compiled? || r == Failed(BlobOverflow) ==> Settled(r, final, entries, default')
    ensures Compilable(entries, default') && WithinReach(entries, passes) ==> (r == Failed(BlobOverflow) <==> OneAnswerFor(entries, default'))
    ensures Compilable(entries, default') && default'.Some? && HasFreeByte(entries) && PrunesFirst(passes) ==>
      (r == Failed(BlobOverflow) <==> OneAnswerFor(entries, default') && WithinReach(entries, passes))
    ensures r != Failed(OutputsFull)
  {
    final := map[];
    var sm := new StateMachine();
    var result := RecordAll(sm, entries);
    match result {
      case OutOfRange => return Failed(BadValue), final;
      case PastTheEnd => return Failed(WildPointer), final;
      case Conflict => return Failed(AlreadyRecorded), final;
      case TooManyStates => return Failed(StateLimit), final;
      case Recorded =>
    }
    if default'.Some? && (default'.value < 0 || NUM_ACCEPTING_STATES <= default'.value) {
      return Failed(WildPointer), final;
    }
    DescribedSize(sm.store, sm.start, entries);
    sm.StateCount();
    hide Recognises, PrefixFree, FitsWidths, Describes, IsTree, OneAnswer, Prefixes, Derived, OneColumn, WithinReach, HasFreeByte, PrunesFirst;
    var t;
    t, final := Finish(sm, entries, default', passes);
    r := if t.Some? then Compiled(t.value) else Failed(BlobOverflow);
  }

  lemma LoneKey(passes: seq<Pass>)
    ensures var entries := [Entry([97], 1)]; Compilable(entries, None) && WithinReach(entries, passes) && OneAnswerFor(entries, None)
  {
    FewPrefixes([Entry([97], 1)], 1);
  }

  /** An input without a table: a single key of one byte, with no default to tell it from. */
  method LoneKeyFails(passes: seq<Pass>) returns (r: Outcome)
    ensures r == Failed(BlobOverflow)
  {
    LoneKey(passes);
    ghost var final;
    r, final := Compile([Entry([97], 1)], None, passes);
  }
}
