/** The pair tables: utf/pairs.cpp builds them, ComposeViaTable in
    mux/lib/utf8_normalize.cpp reads them. A table answers, for two code points, the code
    point they compose to, or 0. */
module Pairs {
  import opened Bytes
  import opened Trie
  import opened RunLength
  import opened Tables
  import opened Pruning
  import opened Passes
  import opened Compiler
  import opened StateMachines
  import opened Utf
  import opened Transcoding
  import opened Counting
  import opened Sequences

  const MAX_PAIRS := 2000

  /** One line of the input file: "CP1 CP2;RESULT". */
  datatype Line = Line(cp1: int, cp2: int, result: int) {
    /** Both code points can be converted, so the pair is recorded. */
    predicate Counts() {
      0 <= cp1 <= UNI_MAX_LEGAL_UTF32 && 0 <= cp2 <= UNI_MAX_LEGAL_UTF32
    }
  }

  function Key(a: CodePoint, b: CodePoint): (key: seq<Byte>)
    ensures key != []
  {
    Encode(a) + Encode(b)
  }

  /** PairToUTF8, on a buffer of 10 bytes: two lenient conversions, and no bytes at all
      when either fails. */
  function PairToUTF8(cp1: int, cp2: int): seq<int> {
    var lenient := Converter(Utf32To8, false);
    var r1 := Convert(lenient, [cp1], Units(10));
    if r1.Result() != Ok || |r1.out| > 10 then []
    else
      var r2 := Convert(lenient, [cp2], Units(10 - |r1.out|));
      if r2.Result() != Ok then [] else r1.out + r2.out
  }

  lemma PairToUTF8Is(cp1: int, cp2: int)
    ensures PairToUTF8(cp1, cp2) == if Line(cp1, cp2, 0).Counts() then Key(cp1, cp2) else []
  {
    forall cp: int, room: nat | 4 <= room
      ensures Convert(Converter(Utf32To8, false), [cp], Units(room)) ==
        if 0 <= cp <= UNI_MAX_LEGAL_UTF32 then Converted(Ok, false, [], Encode(cp))
        else Converted(Ok, true, [], Encode(UNI_REPLACEMENT_CHAR))
    {
      assert Convert(Converter(Utf32To8, false), [], Units(room - |NextOf32([cp], false).units|)).out == [];
    }
  }

  /** Two pairs whose keys are comparable are the same pair. */
  lemma KeysComparable(a: CodePoint, b: CodePoint, c: CodePoint, d: CodePoint)
    requires Key(a, b) <= Key(c, d)
    ensures a == c && b == d
  {
    var rest := Key(c, d)[|Key(a, b)|..];
    hide Encode;
    assert Key(c, d) == Key(a, b) + rest;
    Regroup(Encode(a), Encode(b), rest);
    EncodePrefixFree(a, c, Encode(b) + rest, Encode(d));
    assert Encode(d) + [] == Encode(d);
    EncodePrefixFree(b, d, rest, []);
  }

  // ----- result code points -----

  /** g_Results and g_nResults. */
  class ResultTable {
    var results: seq<int>

    constructor ()
      ensures results == []
    {
      results := [];
    }

    /** The 1-based index of a result, assigned on first use. Fails only when a new result
        finds the table full. */
    method ResultIndex(cp: int) returns (index: nat)
      modifies this
      ensures index == 0 <==> cp !in old(results) && |old(results)| >= MAX_PAIRS
      ensures index == 0 ==> results == old(results)
      ensures index != 0 ==> index <= |results| && results[index - 1] == cp
      ensures index != 0 ==> results == if cp in old(results) then old(results) else old(results) + [cp]
    {
      for i := 0 to |results|
        invariant cp !in results[..i]
      {
        if results[i] == cp {
          return i + 1;
        }
        assert results[..i + 1] == results[..i] + [results[i]];
      }
      assert results[..|results|] == results;
      if |results| >= MAX_PAIRS {
        return 0;
      }
      results := results + [cp];
      return |results|;
    }
  }

  ghost function ResultSet(lines: seq<Line>): set<int> {
    set l | l in lines :: l.result
  }

  /** The table holds results of the lines, none twice. */
  ghost predicate HoldsResults(results: seq<int>, lines: seq<Line>) {
    NoneTwice(results) && Elements(results) <= ResultSet(lines)
  }

  ghost predicate NoneTwice(results: seq<int>) {
    forall i, j :: 0 <= i < j < |results| ==> results[i] != results[j]
  }

  lemma ResultsGrow(results: seq<int>, lines: seq<Line>, l: Line)
    requires HoldsResults(results, lines) && l in lines && l.result !in results
    ensures HoldsResults(results + [l.result], lines)
  {
    assert Elements(results + [l.result]) == Elements(results) + {l.result};
  }

  /** A full table and a result that is not in it are too many results. */
  lemma TooManyResults(results: seq<int>, lines: seq<Line>, l: Line)
    requires HoldsResults(results, lines) && |results| >= MAX_PAIRS && l in lines && l.result !in results
    ensures MAX_PAIRS < |ResultSet(lines)|
  {
    DistinctSize(results);
    SubsetSize(Elements(results) + {l.result}, ResultSet(lines));
  }

  // ----- building -----

  /** The lines that are recorded, in order. */
  function Kept(lines: seq<Line>): seq<Line> {
    if lines == [] then []
    else
      var l := lines[|lines| - 1];
      Kept(lines[..|lines| - 1]) + if l.Counts() then [l] else []
  }

  lemma {:induction false} KeptMembers(lines: seq<Line>, l: Line)
    ensures l in Kept(lines) <==> l in lines && l.Counts()
  {
    if lines != [] {
      KeptMembers(lines[..|lines| - 1], l);
      assert lines == lines[..|lines| - 1] + [lines[|lines| - 1]];
    }
  }

  /** The entry recorded for a line: the pair's bytes and the index of its result. */
  ghost predicate EntryFor(l: Line, e: Entry, results: seq<int>) {
    l.Counts() && e.key == Key(l.cp1, l.cp2) && 0 < e.value <= |results| && results[e.value - 1] == l.result
  }

  ghost predicate EntriesFor(kept: seq<Line>, entries: seq<Entry>, results: seq<int>) {
    |kept| == |entries| && forall i :: 0 <= i < |kept| ==> EntryFor(kept[i], entries[i], results)
  }

  ghost predicate SamePair(l: Line, m: Line) {
    l.cp1 == m.cp1 && l.cp2 == m.cp2
  }

  /** Some pair is given twice. */
  ghost predicate Repeats(kept: seq<Line>) {
    exists i, j :: 0 <= i < j < |kept| && SamePair(kept[i], kept[j])
  }

  lemma PairsPrefixFree(kept: seq<Line>, entries: seq<Entry>, results: seq<int>)
    requires EntriesFor(kept, entries, results)
    ensures !Repeats(kept) ==> PrefixFree(entries)
  {
    if !Repeats(kept) {
      forall i, j | 0 <= i < j < |entries|
        ensures !(entries[i].key <= entries[j].key) && !(entries[j].key <= entries[i].key)
      {
        var l, m := kept[i], kept[j];
        assert EntryFor(l, entries[i], results) && EntryFor(m, entries[j], results) && !SamePair(l, m);
        if Key(l.cp1, l.cp2) <= Key(m.cp1, m.cp2) {
          KeysComparable(l.cp1, l.cp2, m.cp1, m.cp2);
        } else if Key(m.cp1, m.cp2) <= Key(l.cp1, l.cp2) {
          KeysComparable(m.cp1, m.cp2, l.cp1, l.cp2);
        }
      }
    }
  }

  lemma EntriesGrow(lines: seq<Line>, i: nat, entries: seq<Entry>, before: seq<int>, results: seq<int>, index: nat)
    requires i < |lines| && EntriesFor(Kept(lines[..i]), entries, before) && before <= results
    requires 0 < index <= |results| && results[index - 1] == lines[i].result
    ensures var l := lines[i];
      EntriesFor(Kept(lines[..i + 1]), entries + if l.Counts() then [Entry(Key(l.cp1, l.cp2), index)] else [], results)
  {
    assert lines[..i + 1][..i] == lines[..i];
    var kept := Kept(lines[..i]);
    forall x | 0 <= x < |kept| ensures EntryFor(kept[x], entries[x], results) {
      assert EntryFor(kept[x], entries[x], before);
    }
  }

  /** LoadPairs: index every result and collect what is to be recorded. */
  method LoadPairs(lines: seq<Line>) returns (ok: bool, entries: seq<Entry>, results: seq<int>)
    ensures ok ==> EntriesFor(Kept(lines), entries, results) && |results| <= MAX_PAIRS && NoneTwice(results)
    ensures !ok ==> MAX_PAIRS < |ResultSet(lines)|
  {
    var table := new ResultTable();
    entries := [];
    assert EntriesFor(Kept(lines[..0]), [], []) && HoldsResults([], lines);
    hide EntriesFor, Kept, PairToUTF8, Key, HoldsResults, ResultSet;
    for i := 0 to |lines|
      invariant EntriesFor(Kept(lines[..i]), entries, table.results) && |table.results| <= MAX_PAIRS
      invariant HoldsResults(table.results, lines)
    {
      var l := lines[i];
      ghost var before := table.results;
      var index := table.ResultIndex(l.result);
      if index == 0 {
        TooManyResults(before, lines, l);
        return false, [], [];
      }
      if l.result !in before {
        ResultsGrow(before, lines, l);
      }
      EntriesGrow(lines, i, entries, before, table.results, index);
      PairToUTF8Is(l.cp1, l.cp2);
      var bytes := PairToUTF8(l.cp1, l.cp2);
      if |bytes| > 0 {
        entries := entries + [Entry(bytes, index)];
      } else {
        assert entries + [] == entries;
      }
    }
    assert lines[..|lines|] == lines;
    return true, entries, table.results;
  }

  // ----- the table's answers -----

  /** What the table says about two code points. */
  function Lookup(t: Tables, results: seq<int>, a: CodePoint, b: CodePoint): int
    requires WellFormed(t)
  {
    var state := TableRun(t, 0, Key(a, b));
    if t.acceptStart < state && state - t.acceptStart <= |results| then results[state - t.acceptStart - 1] else 0
  }

  ghost predicate Listed(lines: seq<Line>, a: CodePoint, b: CodePoint) {
    exists l :: l in lines && l.Counts() && l.cp1 == a && l.cp2 == b
  }

  /** The answer is the 1-based index of a result. */
  ghost predicate Answers(t: Tables, results: seq<int>, a: CodePoint, b: CodePoint, result: int)
    requires WellFormed(t)
  {
    var index := TableRun(t, 0, Key(a, b)) - t.acceptStart;
    0 < index <= |results| && results[index - 1] == result
  }

  /** Exact for every pair of code points: a listed pair gives its result, and any other
      pair settles on the default. */
  ghost predicate Exact(t: Tables, results: seq<int>, lines: seq<Line>, d: nat) {
    && WellFormed(t)
    && (forall l :: l in lines && l.Counts() ==> Answers(t, results, l.cp1, l.cp2, l.result))
    && (forall a: CodePoint, b: CodePoint :: !Listed(lines, a, b) ==> TableRun(t, 0, Key(a, b)) == t.acceptStart + d)
  }

  lemma NotListedUndefined(lines: seq<Line>, entries: seq<Entry>, results: seq<int>, a: CodePoint, b: CodePoint)
    requires EntriesFor(Kept(lines), entries, results) && !Listed(lines, a, b)
    ensures !Decided(entries, Key(a, b)) && !Undecided(entries, Key(a, b))
  {
    forall e | Known(entries, e) ensures !(e.key <= Key(a, b)) && !(Key(a, b) <= e.key) {
      var i :| 0 <= i < |entries| && entries[i] == e;
      var l := Kept(lines)[i];
      assert EntryFor(l, e, results) && l in Kept(lines);
      KeptMembers(lines, l);
      if e.key <= Key(a, b) {
        KeysComparable(l.cp1, l.cp2, a, b);
      } else if Key(a, b) <= e.key {
        KeysComparable(a, b, l.cp1, l.cp2);
      }
    }
  }

  lemma ListedAnswers(t: Tables, lines: seq<Line>, entries: seq<Entry>, results: seq<int>, d: nat, l: Line)
    requires EntriesFor(Kept(lines), entries, results) && Recognises(t, entries, Some(d))
    requires l in lines && l.Counts()
    ensures Answers(t, results, l.cp1, l.cp2, l.result)
  {
    hide TableRun, Kept, Key, WellFormed;
    KeptMembers(lines, l);
    var i :| 0 <= i < |Kept(lines)| && Kept(lines)[i] == l;
    var e := entries[i];
    assert EntryFor(l, e, results) && Known(entries, e) && e.key <= Key(l.cp1, l.cp2);
  }

  lemma RecognisesIsExact(t: Tables, lines: seq<Line>, entries: seq<Entry>, results: seq<int>, d: nat)
    requires EntriesFor(Kept(lines), entries, results) && Recognises(t, entries, Some(d))
    ensures Exact(t, results, lines, d)
  {
    forall l | l in lines && l.Counts() ensures Answers(t, results, l.cp1, l.cp2, l.result) {
      ListedAnswers(t, lines, entries, results, d, l);
    }
    hide EntriesFor, Decided, Undecided, Listed;
    forall a: CodePoint, b: CodePoint | !Listed(lines, a, b) ensures TableRun(t, 0, Key(a, b)) == t.acceptStart + d {
      NotListedUndefined(lines, entries, results, a, b);
    }
  }

  /** No pair's bytes start with 0xFF. */
  lemma UnusedByte(kept: seq<Line>, entries: seq<Entry>, results: seq<int>)
    requires EntriesFor(kept, entries, results)
    ensures !Decided(entries, [0xFF]) && !Undecided(entries, [0xFF])
  {
    forall e | Known(entries, e) ensures e.key[0] < 0xFF {
      var i :| 0 <= i < |entries| && entries[i] == e;
      assert EntryFor(kept[i], e, results);
      EncodeFirst(kept[i].cp1);
    }
  }

  /** Every pair has the result that the default stands for, in keys short enough for the
      passes; or there is no pair at all. */
  ghost predicate OneResult(kept: seq<Line>, results: seq<int>, d: int) {
    kept != [] ==>
      && 0 < d <= |results|
      && forall i :: 0 <= i < |kept| ==> kept[i].result == results[d - 1] && kept[i].Counts() && |Key(kept[i].cp1, kept[i].cp2)| <= 4
  }

  lemma EntriesReady(kept: seq<Line>, entries: seq<Entry>, results: seq<int>)
    requires EntriesFor(kept, entries, results) && |results| <= MAX_PAIRS
    ensures ValuesFit(entries) && HasFreeByte(entries) && |Prefixes(entries)| <= 1 + 8 * |kept|
    ensures !Repeats(kept) ==> PrefixFree(entries)
    ensures kept != [] ==> exists e :: e in entries && 0 <= e.value
  {
    PairsPrefixFree(kept, entries, results);
    forall i | 0 <= i < |entries| ensures |entries[i].key| <= 8 && entries[i].value <= MAX_PAIRS && entries[i].key[0] != 0xFF {
      assert EntryFor(kept[i], entries[i], results);
      EncodeFirst(kept[i].cp1);
    }
    FewPrefixes(entries, 8);
    assert FreeByte(entries, 0xFF);
    assert kept != [] ==> entries[0] in entries;
  }

  ghost predicate AllHave(entries: seq<Entry>, d: nat) {
    forall i :: 0 <= i < |entries| ==> entries[i].value == d
  }

  /** As no key starts with 0xFF, one answer means that every entry has the default's value. */
  lemma OneAnswerIs(kept: seq<Line>, entries: seq<Entry>, results: seq<int>, d: nat)
    requires EntriesFor(kept, entries, results)
    ensures OneAnswer(entries, d, true) <==> AllHave(entries, d)
  {
    UnusedByte(kept, entries, results);
    forall i | 0 <= i < |entries| ensures Known(entries, entries[i]) {
      assert EntryFor(kept[i], entries[i], results);
    }
    hide Decided, Undecided, EntriesFor;
  }

  lemma ResultIs(l: Line, e: Entry, results: seq<int>, d: nat)
    requires EntryFor(l, e, results) && NoneTwice(results)
    ensures e.value == d <==> 0 < d <= |results| && l.result == results[d - 1]
    ensures e.key == Key(l.cp1, l.cp2)
  {
  }

  /** What the compiler calls one answer within reach is one result in short keys. */
  lemma OneResultExactly(kept: seq<Line>, entries: seq<Entry>, results: seq<int>, d: nat)
    requires EntriesFor(kept, entries, results) && NoneTwice(results)
    ensures OneAnswer(entries, d, true) && WithinReach(entries, DRIVER_PASSES) <==> OneResult(kept, results, d)
  {
    ReachIsFour(entries);
    OneAnswerIs(kept, entries, results, d);
    forall i | 0 <= i < |kept|
      ensures kept[i].Counts() && entries[i].key == Key(kept[i].cp1, kept[i].cp2)
      ensures entries[i].value == d <==> 0 < d <= |results| && kept[i].result == results[d - 1]
    {
      assert EntryFor(kept[i], entries[i], results);
      ResultIs(kept[i], entries[i], results, d);
    }
    assert |kept| == |entries|;
    hide OneAnswer, WithinReach, Key, EntriesFor, NoneTwice;
    assert kept != [] && AllHave(entries, d) ==> entries[0].value == d && 0 < d <= |results|;
  }

  lemma ReachIsFour(entries: seq<Entry>)
    ensures WithinReach(entries, DRIVER_PASSES) <==> KeysUpTo(entries, 4)
    ensures PrunesFirst(DRIVER_PASSES)
  {
    var p := DRIVER_PASSES;
    assert p[1..][0] == AcceptingStates && p[1..][1..][0] == AcceptingStates && p[1..][1..][1..][0] == DuplicateRows;
    assert Leading(p[1..][1..][1..]) == 0;
    assert Leading(p) == 3;
  }

  /** BuildAndOutputTable: undefined transitions become the default before any pass. The table is
      missing for lack of columns if and only if there is a single result, in short keys. */
  method BuildPairTable(lines: seq<Line>, d: int) returns (r: Outcome, results: seq<int>)
    ensures r.Compiled? ==> d >= 0 && Exact(r.tables, results, lines, d)
    ensures r.Compiled? && Kept(lines) != [] && d == 0 ==> FitsWidths(r.tables)
    ensures r == Failed(AlreadyRecorded) ==> Repeats(Kept(lines))
    ensures r == Failed(OutputsFull) ==> 2000 < |ResultSet(lines)|
    ensures r == Failed(StateLimit) ==> 65536 <= 1 + 8 * |Kept(lines)|
    ensures r == Failed(WildPointer) ==> !(0 <= d < 65536)
    ensures !(0 <= d < 65536) ==> !r.Compiled? && r != Failed(BlobOverflow)
    ensures r.Compiled? || r == Failed(BlobOverflow) ==> (r == Failed(BlobOverflow) <==> OneResult(Kept(lines), results, d))
    ensures r != Failed(BadValue)
  {
    var ok, entries;
    ok, entries, results := LoadPairs(lines);
    if !ok {
      return Failed(OutputsFull), results;
    }
    hide *;
    EntriesReady(Kept(lines), entries, results);
    ghost var final;
    r, final := Compile(entries, Some(d), DRIVER_PASSES);
    PairOutcome(lines, entries, results, d, r);
  }

  /** What the compiler promises, in terms of the lines. */
  lemma PairOutcome(lines: seq<Line>, entries: seq<Entry>, results: seq<int>, d: int, r: Outcome)
    requires EntriesFor(Kept(lines), entries, results) && NoneTwice(results) && ValuesFit(entries) && HasFreeByte(entries)
    requires r.Compiled? ==> PrefixFree(entries) && DefaultFits(Some(d)) && Recognises(r.tables, entries, Some(d)) && |Prefixes(entries)| < NUM_STATES
    requires r == Failed(BlobOverflow) ==> OneAnswerFor(entries, Some(d))
    requires Compilable(entries, Some(d)) && HasFreeByte(entries) && PrunesFirst(DRIVER_PASSES) ==>
      (r == Failed(BlobOverflow) <==> OneAnswerFor(entries, Some(d)) && WithinReach(entries, DRIVER_PASSES))
    requires r == Failed(BlobOverflow) ==> Compilable(entries, Some(d))
    ensures r.Compiled? ==> d >= 0 && Exact(r.tables, results, lines, d)
    ensures r.Compiled? || r == Failed(BlobOverflow) ==> (r == Failed(BlobOverflow) <==> OneResult(Kept(lines), results, d))
    ensures r.Compiled? || r == Failed(BlobOverflow) ==> 0 <= d < NUM_ACCEPTING_STATES
  {
    hide EntriesFor, NoneTwice, PrefixFree, Recognises, Exact, HasFreeByte, WithinReach, PrunesFirst, OneAnswer, Kept, Prefixes, OneResult, ValuesFit;
    ReachIsFour(entries);
    if r.Compiled? || r == Failed(BlobOverflow) {
      OneResultExactly(Kept(lines), entries, results, d);
      if r.Compiled? {
        RecognisesIsExact(r.tables, lines, entries, results, d);
      }
    }
  }

  /** Feed the starter's bytes, then the combining bytes, and read the result table, whose
      index 0 is unused. */
  method ComposeViaTable(t: Tables, results: seq<int>, a: CodePoint, b: CodePoint) returns (composed: int)
    requires WellFormed(t) && t.sizeOfOffset <= 2
    requires TableRun(t, 0, Key(a, b)) <= t.acceptStart + |results|
    ensures composed == Lookup(t, results, a, b)
  {
    TableRunAppend(t, 0, Encode(a), Encode(b));
    var iState := FeedBytes(t, 0, Encode(a));
    iState := FeedBytes(t, iState, Encode(b));
    if iState < t.acceptStart {
      return 0;
    }
    var idx := iState - t.acceptStart;
    if 0 == idx {
      return 0;
    }
    return ([0] + results)[idx];
  }

  /** With the default 0, composition through the table is the relation the input lists: the
      result of a listed pair, 0 for every other pair of code points; and the result table
      is never read out of bounds. */
  lemma ComposesAsListed(t: Tables, results: seq<int>, lines: seq<Line>, a: CodePoint, b: CodePoint)
    requires Exact(t, results, lines, 0)
    ensures TableRun(t, 0, Key(a, b)) <= t.acceptStart + |results|
    ensures forall l :: l in lines && l.Counts() && l.cp1 == a && l.cp2 == b ==> Lookup(t, results, a, b) == l.result
    ensures !Listed(lines, a, b) ==> Lookup(t, results, a, b) == 0
  {
    if Listed(lines, a, b) {
      var l :| l in lines && l.Counts() && l.cp1 == a && l.cp2 == b;
      assert Answers(t, results, l.cp1, l.cp2, l.result);
    }
    forall l | l in lines && l.Counts() && l.cp1 == a && l.cp2 == b ensures Lookup(t, results, a, b) == l.result {
      assert Answers(t, results, l.cp1, l.cp2, l.result);
    }
  }
}
