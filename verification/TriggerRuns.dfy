/** What the trigger set means over whole runs, and exactly when its literals keep the meaning
    of their patterns (ragel/trigger_match.c). */
module TriggerRuns {
  import opened Bytes
  import opened Words
  import opened AhoCorasick
  import opened AhoSearch
  import opened Glob
  import opened Patterns
  import opened Readings
  import opened Cutoffs
  import opened Triggers

  // ----- what a pattern is meant to say, and what the matcher does -----

  /** The literal that the matcher looks for. */
  function LiteralOf(e: Entry): Word {
    LiteralBytes(Parse(e.pattern).segs)
  }

  /** The pattern as it is meant: an active entry whose intended reading needs no regex and
      matches the text. The scanner has no part in this. */
  ghost predicate Ideal(e: Entry, text: Word) {
    var r := Intended(e.pattern);
    e.active && r.Plain? && Means(Parsed(r.segs, r.glob, false), text, e.icase)
  }

  /** The segments find room, or what does not find room adds nothing. */
  ghost predicate Fits(segs: seq<Seg>) {
    |segs| <= MAX_SEGS || Idle(Placed(segs), |Placed(segs)| - (|segs| - MAX_SEGS))
  }

  predicate IsLetter(c: Byte) {
    65 <= c <= 90 || 97 <= c <= 122
  }

  predicate Letterless(x: Word) {
    forall i :: 0 <= i < |x| ==> !IsLetter(x[i])
  }

  /** Entry i can be trusted, if it is active and not left to a regex: no `$` stands before the
      end, the segments fit, and a literal is nonempty, keeps its word, and has the automaton's
      case flag or no letter for the flag to matter. */
  ghost predicate Sure(entries: seq<Entry>, i: nat)
    requires i < |entries|
  {
    var e, atoms := entries[i], Atoms(entries[i].pattern);
    e.active && !PlainlyComplex(atoms) ==>
      && !StrayEnd(atoms) && Fits(Segments(atoms))
      && (AllExact(atoms) ==> SureLiteral(entries, i))
  }

  ghost predicate SureLiteral(entries: seq<Entry>, i: nat)
    requires i < |entries|
  {
    && LiteralOf(entries[i]) != [] && Keeps(entries, |entries|, i)
    && (entries[i].icase == AcIcase(entries) || Letterless(LiteralOf(entries[i])))
  }

  /** How the matcher routes an entry, told from the parts of its pattern. */
  lemma RoutedByParts(e: Entry)
    ensures var atoms := Atoms(e.pattern);
      && (IsLiteral(e) <==> e.active && AllExact(atoms))
      && (IsGlob(e) <==> e.active && !PlainlyComplex(atoms) && !AllExact(atoms))
  {
    var atoms := Atoms(e.pattern);
    RegexExactly(e.pattern);
    PlainOrNot(atoms);
    ExactIsPlain(atoms);
    if IsPlain(atoms) {
      PlainParse(e.pattern);
    }
    hide PlainlyComplex, Segments, Atoms, Parse, IsPlain, AllExact;
  }

  lemma ExactIsPlain(atoms: seq<Atom>)
    ensures AllExact(atoms) ==> IsPlain(atoms)
    ensures StrayEnd(atoms) ==> End in atoms
  {
  }

  // ----- literals -----

  lemma {:induction false} LiteralBytesAt(x: Word)
    ensures LiteralBytes(Literals(x)) == x
  {
    if x != [] {
      LiteralBytesAt(x[1..]);
      assert Literals(x)[1..] == Literals(x[1..]);
    }
  }

  /** A literal entry: its whole word, and the part of it that the matcher looks for. */
  lemma LiteralParts(e: Entry)
    requires IsLiteral(e)
    ensures AllExact(Atoms(e.pattern))
    ensures var x := ExactBytes(Atoms(e.pattern));
      && Segments(Atoms(e.pattern)) == Literals(x) && Intended(e.pattern) == Plain(Literals(x), false)
      && LiteralOf(e) == if |x| <= MAX_SEGS then x else x[..MAX_SEGS]
  {
    RoutedByParts(e);
    var atoms := Atoms(e.pattern);
    ExactIsPlain(atoms);
    ExactSegments(atoms);
    PlainParse(e.pattern);
    var x := ExactBytes(atoms);
    var y := if |x| <= MAX_SEGS then x else x[..MAX_SEGS];
    assert Cut(Literals(x)) == Literals(y);
    LiteralBytesAt(y);
  }

  lemma LiteralIdeal(e: Entry, text: Word)
    requires IsLiteral(e)
    ensures AllExact(Atoms(e.pattern))
    ensures Ideal(e, text) <==> Occurs(Fold(ExactBytes(Atoms(e.pattern)), e.icase), Fold(text, e.icase))
  {
    LiteralParts(e);
    LiteralMeans(ExactBytes(Atoms(e.pattern)), text, e.icase);
  }

  function UpperByte(c: Byte): Byte {
    if 97 <= c <= 122 then c - 32 else c
  }

  function Upper(x: Word): Word {
    seq(|x|, i requires 0 <= i < |x| => UpperByte(x[i]))
  }

  /** A word of the same length as the text occurs only as the whole text. */
  lemma OccursWhole(x: Word, text: Word)
    requires |x| == |text|
    ensures Occurs(x, text) <==> x == text
  {
    if Occurs(x, text) {
      var k :| OccursAt(x, text, k);
      assert text[0..|x|] == text;
    }
    if x == text {
      assert OccursAt(x, text, 0);
    }
  }

  /** The word, upper-cased or as it is: one of the two tells the flags apart. */
  lemma LettersTell(x: Word, icase: bool)
    requires !Letterless(x)
    ensures exists text :: |text| == |x| && (Fold(x, icase) == Fold(text, icase)) != (Fold(x, icase) == Fold(text, !icase))
  {
    var k :| 0 <= k < |x| && IsLetter(x[k]);
    var up := Upper(x);
    assert Fold(x, true)[k] != up[k] && Fold(up, false)[k] == up[k];
    assert Fold(x, true) == Fold(up, true);
    assert Fold(x, false) == x && Fold(up, false) == up;
    if icase {
      assert Fold(x, icase) == Fold(up, icase) && Fold(x, icase) != Fold(up, !icase);
    } else if Fold(x, true) == x {
      assert Fold(x, icase) != Fold(up, icase) && Fold(x, icase) == Fold(up, !icase);
    } else {
      assert Fold(x, icase) == Fold(x, icase) && Fold(x, icase) != Fold(x, !icase);
    }
  }

  lemma LetterlessFolds(x: Word, text: Word, icase: bool)
    requires Letterless(x)
    ensures Occurs(Fold(x, icase), Fold(text, true)) <==> Occurs(Fold(x, icase), Fold(text, false))
  {
    assert Fold(x, icase) == x;
    forall k: nat ensures OccursAt(x, Fold(text, true), k) <==> OccursAt(x, Fold(text, false), k) {
      if k + |x| <= |text| {
        FoldedSlice(x, text, k, false, true);
        FoldedSlice(x, text, k, false, false);
        assert Fold(x, false) == x;
      }
    }
  }

  lemma SureIsExact(entries: seq<Entry>, i: nat, text: Word)
    requires i < |entries| && IsLiteral(entries[i]) && SureLiteral(entries, i)
    requires |Segments(Atoms(entries[i].pattern))| <= MAX_SEGS
    ensures Fires(entries, i, text) <==> Ideal(entries[i], text)
  {
    var e := entries[i];
    LiteralIdeal(e, text);
    LiteralParts(e);
    if e.icase != AcIcase(entries) {
      LetterlessFolds(LiteralOf(e), text, e.icase);
    }
    assert Fold(LiteralOf(e), e.icase) == Key(e);
    hide Occurs, Fold, Keeps, Letterless, AcIcase, Ideal, Key, LiteralOf, Segments, Atoms;
  }

  lemma UnsureIsWrong(entries: seq<Entry>, i: nat)
    requires i < |entries| && IsLiteral(entries[i]) && !SureLiteral(entries, i)
    requires |Segments(Atoms(entries[i].pattern))| <= MAX_SEGS
    ensures exists text :: Fires(entries, i, text) != Ideal(entries[i], text)
  {
    var e := entries[i];
    var x, key := LiteralOf(e), Key(e);
    LiteralParts(e);
    hide Segments, Atoms;
    if x == [] || !Keeps(entries, |entries|, i) {
      LiteralIdeal(e, x);
      OccursWhole(key, Fold(x, e.icase));
      assert Ideal(e, x) && !Fires(entries, i, x);
    } else {
      LettersTell(x, e.icase);
      var text: Word :| |text| == |x| && (key == Fold(text, e.icase)) != (key == Fold(text, !e.icase));
      LiteralIdeal(e, text);
      OccursWhole(key, Fold(text, e.icase));
      OccursWhole(key, Fold(text, !e.icase));
      assert Fires(entries, i, text) != Ideal(e, text);
    }
  }

  lemma FoldSlice(text: Word, a: nat, b: nat, icase: bool)
    requires a <= b <= |text|
    ensures Fold(text[a..b], icase) == Fold(text, icase)[a..b]
  {
  }

  lemma TooLongToOccur(x: Word, text: Word)
    requires |x| > |text|
    ensures !Occurs(x, text)
  {
  }

  /** Where the cut-off word occurs in its own whole, the slice alone is enough for a report, and
      too short for the whole word. */
  lemma SliceTells(entries: seq<Entry>, i: nat, x: Word, key: Word, k: nat)
    requires i < |entries| && Keeps(entries, |entries|, i) && key == Key(entries[i]) != [] && |key| < |x|
    requires OccursAt(key, Fold(x, AcIcase(entries)), k)
    ensures var text := x[k..k + |key|]; |text| < |x| && Fires(entries, i, text)
  {
    var text, ac := x[k..k + |key|], AcIcase(entries);
    FoldSlice(x, k, k + |key|, ac);
    OccursWhole(key, Fold(text, ac));
    hide Keeps, AcIcase, Fold, Key;
  }

  /** A literal that was cut off is reported too often, or not at all. */
  lemma CutIsWrong(entries: seq<Entry>, i: nat)
    requires i < |entries| && IsLiteral(entries[i]) && |Segments(Atoms(entries[i].pattern))| > MAX_SEGS
    ensures exists text :: Fires(entries, i, text) != Ideal(entries[i], text)
  {
    var e := entries[i];
    LiteralParts(e);
    var x, key := ExactBytes(Atoms(e.pattern)), Key(e);
    KeyIs(e);
    hide Atoms, Segments, Ideal, AcIcase, Key, Keeps, LiteralOf, ExactBytes, IsLiteral, IsGlob;
    LiteralIdeal(e, x);
    OccursWhole(Fold(x, e.icase), Fold(x, e.icase));
    if Fires(entries, i, x) {
      var k := FiredAt(entries, i, x);
      SliceTells(entries, i, x, key, k);
      var text := x[k..k + |key|];
      hide Fires, Occurs, Fold;
      LiteralIdeal(e, text);
      TooLongToOccur(Fold(x, e.icase), Fold(text, e.icase));
    }
  }

  lemma KeyIs(e: Entry)
    ensures |Key(e)| == |LiteralOf(e)|
  {
    hide Parse;
  }

  /** A literal that fires has its word in the folded text. */
  lemma FiredAt(entries: seq<Entry>, i: nat, text: Word) returns (k: nat)
    requires i < |entries| && IsLiteral(entries[i]) && Fires(entries, i, text)
    ensures Keeps(entries, |entries|, i) && OccursAt(Key(entries[i]), Fold(text, AcIcase(entries)), k)
  {
    assert Occurs(Key(entries[i]), Fold(text, AcIcase(entries)));
    k :| OccursAt(Key(entries[i]), Fold(text, AcIcase(entries)), k);
  }

  lemma LiteralFits(x: Word)
    ensures Fits(Literals(x)) <==> |x| <= MAX_SEGS
  {
    var segs := Literals(x);
    if |x| > MAX_SEGS {
      var v, n := Placed(segs), |Placed(segs)| - (|segs| - MAX_SEGS);
      assert n < |v| && v[|v| - 1] == segs[|segs| - 1];
    }
  }

  lemma LiteralExactly(entries: seq<Entry>, i: nat)
    requires i < |entries| && IsLiteral(entries[i])
    ensures (forall text :: Fires(entries, i, text) <==> Ideal(entries[i], text)) <==>
      SureLiteral(entries, i) && Fits(Segments(Atoms(entries[i].pattern)))
  {
    LiteralParts(entries[i]);
    LiteralFits(ExactBytes(Atoms(entries[i].pattern)));
    hide Atoms, Segments, Fires, Ideal, SureLiteral, Fits, LiteralOf;
    if |Segments(Atoms(entries[i].pattern))| > MAX_SEGS {
      CutIsWrong(entries, i);
    } else if SureLiteral(entries, i) {
      forall text ensures Fires(entries, i, text) <==> Ideal(entries[i], text) {
        SureIsExact(entries, i, text);
      }
    } else {
      UnsureIsWrong(entries, i);
    }
  }

  // ----- globs -----

  lemma PlacedWell(segs: seq<Seg>)
    requires (forall i :: 0 < i < |segs| ==> segs[i] != Bol) && (forall i :: 0 <= i < |segs| - 1 ==> segs[i] != Eol)
    ensures WellPlaced(Placed(segs))
    ensures |segs| > MAX_SEGS ==> Placed(Cut(segs)) == Placed(segs)[..|Placed(segs)| - (|segs| - MAX_SEGS)]
  {
  }

  lemma GlobFires(entries: seq<Entry>, i: nat, text: Word)
    requires i < |entries| && IsGlob(entries[i])
    ensures Fires(entries, i, text) <==> Matches(Placed(Parse(entries[i].pattern).segs), text, entries[i].icase)
  {
    MeansPlaced(Parse(entries[i].pattern), text, entries[i].icase);
  }

  lemma IdealPlaced(e: Entry, text: Word)
    requires e.active && IsPlain(Atoms(e.pattern))
    ensures Ideal(e, text) <==> Matches(Placed(Segments(Atoms(e.pattern))), text, e.icase)
  {
    var atoms := Atoms(e.pattern);
    MeansPlaced(Parsed(Segments(atoms), !AllExact(atoms), false), text, e.icase);
  }

  /** A glob whose `$` is no anchor matches some text, although it should be left to a regex. */
  lemma StrayIsWrong(entries: seq<Entry>, i: nat)
    requires i < |entries| && IsGlob(entries[i]) && StrayEnd(Atoms(entries[i].pattern))
    ensures exists text :: Fires(entries, i, text) != Ideal(entries[i], text)
  {
    var e := entries[i];
    var segs := Parse(e.pattern).segs;
    ParseWell(e.pattern);
    PlacedWell(segs);
    var text := Fill(Placed(segs));
    SomeText(Placed(segs), e.icase);
    GlobFires(entries, i, text);
    PlainOrNot(Atoms(e.pattern));
    assert !Ideal(e, text);
  }

  lemma GlobExactly(entries: seq<Entry>, i: nat)
    requires i < |entries| && IsGlob(entries[i]) && IsPlain(Atoms(entries[i].pattern))
    ensures (forall text :: Fires(entries, i, text) <==> Ideal(entries[i], text)) <==> Fits(Segments(Atoms(entries[i].pattern)))
  {
    var e := entries[i];
    var segs := Segments(Atoms(e.pattern));
    PlainParse(e.pattern);
    PlainSegments(Atoms(e.pattern));
    PlacedWell(segs);
    assert Parse(e.pattern).segs == Cut(segs);
    var v, n := Placed(segs), |Placed(segs)| - (|segs| - MAX_SEGS);
    hide Parse, Segments, Atoms, Fires, Ideal, Matches, Idle, WellPlaced;
    forall text
      ensures Fires(entries, i, text) <==> Matches(Placed(Cut(segs)), text, e.icase)
      ensures Ideal(e, text) <==> Matches(v, text, e.icase)
    {
      GlobFires(entries, i, text);
      IdealPlaced(e, text);
    }
    if |segs| > MAX_SEGS {
      IdleExactly(v, n, e.icase);
    }
  }

  // ----- all entries -----

  lemma NeverFires(entries: seq<Entry>, i: nat, text: Word)
    requires i < |entries| && (!entries[i].active || PlainlyComplex(Atoms(entries[i].pattern)))
    ensures !Fires(entries, i, text) && !Ideal(entries[i], text)
  {
    RegexExactly(entries[i].pattern);
    PlainOrNot(Atoms(entries[i].pattern));
    hide Parse, Atoms, PlainlyComplex, IsPlain;
  }

  lemma ExactAt(entries: seq<Entry>, i: nat)
    requires i < |entries|
    ensures (forall text :: Fires(entries, i, text) <==> Ideal(entries[i], text)) <==> Sure(entries, i)
  {
    var e, atoms := entries[i], Atoms(entries[i].pattern);
    RoutedByParts(e);
    PlainOrNot(atoms);
    ExactIsPlain(atoms);
    hide Atoms, PlainlyComplex, StrayEnd, IsPlain, AllExact, Segments, Fires, Ideal, SureLiteral, Fits, IsGlob, IsLiteral;
    if !e.active || PlainlyComplex(atoms) {
      forall text ensures Fires(entries, i, text) <==> Ideal(e, text) {
        NeverFires(entries, i, text);
      }
    } else if AllExact(atoms) {
      LiteralExactly(entries, i);
    } else if StrayEnd(atoms) {
      StrayIsWrong(entries, i);
    } else {
      GlobExactly(entries, i);
    }
  }

  /** A search agrees with what the patterns are meant to say, on every text, if and only if
      every entry is Sure. */
  lemma ExactIffSure(entries: seq<Entry>)
    ensures (forall i, text :: 0 <= i < |entries| ==> (Fires(entries, i, text) <==> Ideal(entries[i], text))) <==>
      (forall i :: 0 <= i < |entries| ==> Sure(entries, i))
  {
    hide Fires, Ideal, Sure;
    forall i | 0 <= i < |entries|
      ensures (forall text :: Fires(entries, i, text) <==> Ideal(entries[i], text)) <==> Sure(entries, i)
    {
      ExactAt(entries, i);
    }
  }

  // ----- whole runs -----

  datatype Op =
    | Add(id: int, pattern: seq<Byte>, icase: bool)
    | Remove(id: int)
    | Compile
    | Search(text: Word, max: int)

  /** What a run leaves behind. */
  datatype State = State(entries: seq<Entry>, compiled: bool)

  /** The operation alters the table of entries. */
  predicate Alters(s: State, op: Op) {
    match op
    case Add(id, _, _) => CanAdd(s.entries, id)
    case Remove(id) => ActiveAt(s.entries, id, 0) < |s.entries|
    case _ => false
  }

  function After(ops: seq<Op>): State {
    if ops == [] then State([], false)
    else
      var s, op := After(ops[..|ops| - 1]), ops[|ops| - 1];
      match op
      case Add(id, pattern, icase) => if Alters(s, op) then State(Added(s.entries, id, pattern, icase), false) else s
      case Remove(id) => if Alters(s, op) then State(Removed(s.entries, id), false) else s
      case Compile => s.(compiled := true)
      case Search(_, _) => s
  }

  /** Over every run, active entries have distinct ids and the table stays within its size. */
  lemma {:induction false} RunsStayValid(ops: seq<Op>)
    ensures ValidEntries(After(ops).entries)
  {
    if ops != [] {
      var s, op := After(ops[..|ops| - 1]), ops[|ops| - 1];
      RunsStayValid(ops[..|ops| - 1]);
      match op {
        case Add(id, pattern, icase) => if CanAdd(s.entries, id) { AddedValid(s.entries, id, pattern, icase); }
        case Remove(id) => RemovedValid(s.entries, id);
        case _ =>
      }
    }
  }

  /** A compile at position k, and nothing altered since. */
  ghost predicate CompiledSince(ops: seq<Op>, k: nat) {
    && k < |ops| && ops[k] == Compile
    && forall j :: k < j < |ops| ==> !Alters(After(ops[..j]), ops[j])
  }

  lemma CompiledSinceGrows(ops: seq<Op>, op: Op, k: nat)
    requires k < |ops|
    ensures CompiledSince(ops + [op], k) <==> CompiledSince(ops, k) && !Alters(After(ops), op)
  {
    hide Alters, After;
    var more := ops + [op];
    assert more[..|ops|] == ops;
    forall j | k < j < |ops| ensures more[..j] == ops[..j] && more[j] == ops[j] {
    }
    if CompiledSince(more, k) {
      assert more[|ops|] == op && !Alters(After(more[..|ops|]), more[|ops|]);
    }
  }

  /** A set is compiled exactly when a compile ran after the last change. */
  lemma {:induction false} CompiledExactly(ops: seq<Op>)
    ensures After(ops).compiled <==> exists k :: CompiledSince(ops, k)
  {
    if ops != [] {
      var n := |ops| - 1;
      var front, op := ops[..n], ops[n];
      assert ops == front + [op];
      assert op == Compile ==> CompiledSince(ops, n);
      CompiledExactly(front);
      forall k: nat | k < n ensures CompiledSince(ops, k) <==> CompiledSince(front, k) && !Alters(After(front), op) {
        CompiledSinceGrows(front, op, k);
      }
      assert After(ops).compiled <==> op == Compile || (After(front).compiled && !Alters(After(front), op));
      hide After, Alters;
    }
  }

  /** What the hits of a search in state s must be. */
  ghost predicate Answer(s: State, text: Word, max: int, hits: seq<Hit>) {
    && (!s.compiled || max <= 0 ==> hits == []) && (max > 0 ==> |hits| <= max)
    && OnlyFired(s.entries, text, hits)
    && (s.compiled && |hits| < max ==> AllFired(s.entries, text, hits))
  }

  /** Any run of operations on a fresh set: each search answers for the operations before it. */
  method Replay(ops: seq<Op>) returns (answers: seq<seq<Hit>>)
    ensures |answers| == |ops|
    ensures forall k :: 0 <= k < |ops| && ops[k].Search? ==> Answer(After(ops[..k]), ops[k].text, ops[k].max, answers[k])
  {
    var ts := new TriggerSet();
    answers := [];
    assert After(ops[..0]) == State([], false);
    hide After, Answer, TriggerSet.Valid;
    for i := 0 to |ops|
      invariant fresh(ts) && fresh(ts.ac) && ts.Valid() && State(ts.entries, ts.compiled) == After(ops[..i]) && |answers| == i
      invariant forall k :: 0 <= k < i && ops[k].Search? ==> Answer(After(ops[..k]), ops[k].text, ops[k].max, answers[k])
    {
      assert ops[..i + 1][..i] == ops[..i];
      var hits := Perform(ts, ops[i], After(ops[..i]), ops[..i + 1]);
      answers := answers + [hits];
    }
    assert ops[..|ops|] == ops;
  }

  method Perform(ts: TriggerSet, op: Op, ghost s: State, ghost done: seq<Op>) returns (hits: seq<Hit>)
    requires ts.Valid() && State(ts.entries, ts.compiled) == s
    requires done != [] && After(done[..|done| - 1]) == s && done[|done| - 1] == op
    modifies ts
    ensures ts.Valid() && State(ts.entries, ts.compiled) == After(done) && (ts.ac == old(ts.ac) || fresh(ts.ac))
    ensures op.Search? ==> Answer(s, op.text, op.max, hits)
  {
    hide OnlyFired, AllFired, Added;
    hits := [];
    match op {
      case Add(id, pattern, icase) =>
        var rc := ts.Add(id, pattern, icase);
      case Remove(id) =>
        var rc := ts.Remove(id);
      case Compile =>
        ts.Compile();
      case Search(text, max) =>
        hits := ts.Search(text, max);
    }
  }

  // ----- inputs on which the matcher and the patterns part -----

  function As(n: nat): Word {
    seq(n, _ => 97)
  }

  lemma OneByte(c: Byte)
    requires 97 <= c <= 98
    ensures Parse([c]) == Parsed([Literal(c)], false, false) && LiteralBytes([Literal(c)]) == [c]
    ensures AllExact(Atoms([c])) && ExactBytes(Atoms([c])) == [c]
    ensures Fold([c], true) == [c] && Fold([c], false) == [c] && Fold([c - 32], true) == [c]
  {
    assert ReadAll(START, [c]) == ReadAll(Read(START, c), []);
    OrdinaryAtoms([c]);
  }

  /** A pattern of ordinary bytes is a literal, and the matcher looks for its first 512 bytes. */
  lemma OrdinaryLiteral(e: Entry)
    requires e.active && forall i :: 0 <= i < |e.pattern| ==> e.pattern[i] != 92 && AtomOf(e.pattern[i]) == Exactly(e.pattern[i])
    ensures IsLiteral(e) && AllExact(Atoms(e.pattern)) && ExactBytes(Atoms(e.pattern)) == e.pattern
    ensures LiteralOf(e) == if |e.pattern| <= MAX_SEGS then e.pattern else e.pattern[..MAX_SEGS]
  {
    OrdinaryAtoms(e.pattern);
    assert AllExact(Atoms(e.pattern));
    RoutedByParts(e);
    LiteralParts(e);
    hide Atoms, Segments, Parse, PlainlyComplex, LiteralOf;
  }

  lemma AsFacts()
    ensures |As(513)| == 513 && |As(512)| == 512 && As(513)[..512] == As(512) && Fold(As(512), false) == As(512)
    ensures forall i :: 0 <= i < 513 ==> As(513)[i] == 97
  {
  }

  lemma LongLiteral()
    ensures var e := Entry(0, As(513), false, true);
      IsLiteral(e) && Key(e) == As(512) && !Ideal(e, As(512)) && Fires([e], 0, As(512))
  {
    var e := Entry(0, As(513), false, true);
    AsFacts();
    hide As;
    OrdinaryLiteral(e);
    assert Key(e) == Fold(LiteralOf(e), false) == As(512);
    LiteralIdeal(e, As(512));
    hide Atoms, Segments, Parse, Ideal, LiteralOf, Occurs, IsLiteral, Fires, Key, ExactBytes;
    TooLongToOccur(Fold(As(513), false), Fold(As(512), false));
    LoneFires(e);
  }

  lemma StrayParts()
    ensures Atoms([97, 36, 98]) == [Exactly(97), End, Exactly(98)] && Intended([97, 36, 98]) == NeedsRegex
  {
    var p := [97, 36, 98];
    assert p[1..] == [36, 98] && p[1..][1..] == [98] && [98][1..] == [];
    assert Atoms([98]) == [Exactly(98)];
    assert Atoms([36, 98]) == [End, Exactly(98)];
    assert Atoms(p) == [Exactly(97), End, Exactly(98)];
    assert Atoms(p)[1] == End;
  }

  lemma StrayParsed()
    ensures Parse([97, 36, 98]) == Parsed([Literal(97), Literal(98), Eol], true, false)
  {
    StrayParts();
    ParseIsTakeAll([97, 36, 98]);
    var atoms := [Exactly(97), End, Exactly(98)];
    hide Parse, Atoms;
    assert atoms[..2] == [Exactly(97), End] && [Exactly(97), End][..1] == [Exactly(97)] && [Exactly(97)][..0] == [];
    assert TakeAll(START, [Exactly(97)]) == Take(START, Exactly(97));
    assert TakeAll(START, [Exactly(97), End]) == Take(Take(START, Exactly(97)), End);
  }

  /** A lone literal entry fires on its own word. */
  lemma LoneFires(e: Entry)
    requires IsLiteral(e) && Key(e) != [] && Fold(Key(e), e.icase) == Key(e)
    ensures Fires([e], 0, Key(e))
  {
    OccursWhole(Key(e), Key(e));
    assert IcaseOf([e], 1, false) == e.icase;
    hide Occurs, Fold, Key, IsLiteral;
  }

  /** The displaced, the empty and the differently folded literal go unreported; a literal of 513
      bytes is reported for a text of 512, in which it cannot occur; "a$b" is matched as "ab$",
      although a `$` inside calls for a regex. */
  lemma LiteralsLost()
    ensures var twice := [Entry(0, [97], false, true), Entry(1, [97], false, true)];
      Ideal(twice[0], [97]) && !Fires(twice, 0, [97])
    ensures var empty := [Entry(0, [], false, true)];
      Ideal(empty[0], [97]) && !Fires(empty, 0, [97])
    ensures var mixed := [Entry(0, [97], true, true), Entry(1, [98], false, true)];
      Ideal(mixed[0], [65]) && !Fires(mixed, 0, [65])
    ensures var long := [Entry(0, As(513), false, true)];
      Fires(long, 0, As(512)) && !Ideal(long[0], As(512))
    ensures var stray := [Entry(0, [97, 36, 98], false, true)];
      Fires(stray, 0, [97, 98]) && !Ideal(stray[0], [97, 98]) && Intended(stray[0].pattern) == NeedsRegex
  {
    LongLiteral();
    StrayFires();
    LiteralsUnreported();
    hide Fires, Ideal, As, Intended;
  }

  lemma LiteralsUnreported()
    ensures var twice := [Entry(0, [97], false, true), Entry(1, [97], false, true)];
      Ideal(twice[0], [97]) && !Fires(twice, 0, [97])
    ensures var empty := [Entry(0, [], false, true)];
      Ideal(empty[0], [97]) && !Fires(empty, 0, [97])
    ensures var mixed := [Entry(0, [97], true, true), Entry(1, [98], false, true)];
      Ideal(mixed[0], [65]) && !Fires(mixed, 0, [65])
  {
    var twice := [Entry(0, [97], false, true), Entry(1, [97], false, true)];
    OneByte(97);
    OneByte(98);
    LiteralIdeal(twice[0], [97]);
    OccursWhole([97], [97]);
    var empty := [Entry(0, [], false, true)];
    LiteralIdeal(empty[0], [97]);
    assert OccursAt([], [97], 0);
    var mixed := [Entry(0, [97], true, true), Entry(1, [98], false, true)];
    LiteralIdeal(mixed[0], [65]);
    OccursWhole([97], [97]);
    OccursWhole([97], [65]);
  }

  lemma StrayFires()
    ensures var stray := [Entry(0, [97, 36, 98], false, true)];
      Fires(stray, 0, [97, 98]) && !Ideal(stray[0], [97, 98]) && Intended(stray[0].pattern) == NeedsRegex
  {
    StrayParts();
    StrayParsed();
    hide Parse, Atoms;
    var stray, segs := [Entry(0, [97, 36, 98], false, true)], [Literal(97), Literal(98), Eol];
    SomeText(Placed(segs), false);
    assert Placed(segs) == [Star, Literal(97), Literal(98), Eol];
    assert Placed(segs)[1..] == segs && segs[1..] == [Literal(98), Eol] && [Literal(98), Eol][1..] == [Eol];
    assert Fill([Literal(98), Eol]) == [98] + Fill([Eol]) == [98];
    assert Fill(segs) == [97] + Fill(segs[1..]) == [97, 98];
    assert Fill(Placed(segs)) == [] + Fill(segs) == [97, 98];
    hide Fill;
    GlobFires(stray, 0, [97, 98]);
  }

  // ----- offsets -----

  /** The first position at which a match of entry i starts. */
  ghost predicate StartsFirst(entries: seq<Entry>, i: nat, text: Word, start: nat)
    requires i < |entries|
  {
    var e, folded := entries[i], Fold(text, AcIcase(entries));
    if IsGlob(e) then
      && start <= |text| && MatchAt(GlobOf(e).segs, 0, text, start, e.icase) && (GlobOf(e).anchored ==> start == 0)
      && forall k :: 0 <= k < start ==> !MatchAt(GlobOf(e).segs, 0, text, k, e.icase)
    else OccursAt(Key(e), folded, start) && forall k :: 0 <= k < start ==> !OccursAt(Key(e), folded, k)
  }

  /** The earliest-ending occurrence is the earliest-starting one. */
  lemma FirstEndStarts(x: Word, text: Word, offset: nat)
    requires FirstEnd(x, text, offset) && x != []
    ensures |x| <= offset + 1 && OccursAt(x, text, offset + 1 - |x|)
    ensures forall k: nat :: OccursAt(x, text, k) ==> offset + 1 - |x| <= k
  {
    var s := offset + 1 - |x|;
    assert text[..offset + 1][s..] == text[s..offset + 1];
    forall k: nat | OccursAt(x, text, k) ensures s <= k {
      var n := k + |x|;
      assert text[..n][k..] == text[k..n];
      assert Suffix(x, text[..n]);
    }
  }

  lemma LiteralOffset(entries: seq<Entry>, i: nat, text: Word, offset: nat)
    requires i < |entries| && IsLiteral(entries[i]) && Fires(entries, i, text) && Located(entries, i, text, offset)
    ensures StartsFirst(entries, i, text, offset) <==> |Key(entries[i])| == 1
  {
    FirstEndStarts(Key(entries[i]), Fold(text, AcIcase(entries)), offset);
  }

  /** What the glob matcher looks for, and how an unanchored one may start anywhere. */
  lemma GlobStarts(entries: seq<Entry>, i: nat, text: Word)
    requires i < |entries| && IsGlob(entries[i])
    ensures var g := GlobOf(entries[i]);
      Fires(entries, i, text) <==> if g.anchored then MatchAt(g.segs, 0, text, 0, g.icase) else MatchFrom(g.segs, 0, text, 0, g.icase)
    ensures WellPlaced(GlobOf(entries[i]).segs)
  {
    var e := entries[i];
    var segs := Parse(e.pattern).segs;
    ParseWell(e.pattern);
    PlacedWell(segs);
    GlobFires(entries, i, text);
    StarInFront(segs, text, e.icase);
    WellBehind(segs);
    hide Parse, MatchAt, MatchFrom, WellPlaced, Fires;
  }

  lemma WellBehind(segs: seq<Seg>)
    requires WellPlaced(Placed(segs))
    ensures WellPlaced(if segs != [] && segs[0] == Bol then segs[1..] else segs)
  {
    var v := Placed(segs);
    if segs == [] || segs[0] != Bol {
      forall i | 0 <= i < |segs| ensures segs[i] != Bol && (segs[i] == Eol ==> i == |segs| - 1) {
        assert segs[i] == v[i + 1];
      }
    }
  }

  lemma GlobOffset(entries: seq<Entry>, i: nat)
    requires i < |entries| && IsGlob(entries[i])
    ensures (forall text :: Fires(entries, i, text) ==> StartsFirst(entries, i, text, 0)) <==>
      GlobOf(entries[i]).anchored || FreeFront(GlobOf(entries[i]).segs)
  {
    var g := GlobOf(entries[i]);
    forall text
      ensures Fires(entries, i, text) <==> if g.anchored then MatchAt(g.segs, 0, text, 0, g.icase) else MatchFrom(g.segs, 0, text, 0, g.icase)
      ensures StartsFirst(entries, i, text, 0) <==> MatchAt(g.segs, 0, text, 0, g.icase)
    {
      GlobStarts(entries, i, text);
    }
    GlobStarts(entries, i, []);
    FrontExactly(g.segs, g.icase);
    hide Fires, StartsFirst, MatchAt, MatchFrom, FreeFront, WellPlaced, IsGlob, GlobOf;
  }

  /** The header promises where a match starts. The offset reported for a literal is that exactly
      when its word has one byte; the offset reported for a glob is, on every text, exactly when
      it is anchored or begins with single-byte wildcards and then a star or nothing. */
  lemma OffsetIsStart(entries: seq<Entry>, i: nat)
    requires i < |entries|
    ensures IsLiteral(entries[i]) ==> forall text, offset: nat :: Fires(entries, i, text) && Located(entries, i, text, offset) ==>
      (StartsFirst(entries, i, text, offset) <==> |Key(entries[i])| == 1)
    ensures IsGlob(entries[i]) ==>
      ((forall text, offset: nat :: Fires(entries, i, text) && Located(entries, i, text, offset) ==> StartsFirst(entries, i, text, offset)) <==>
       GlobOf(entries[i]).anchored || FreeFront(GlobOf(entries[i]).segs))
  {
    if IsLiteral(entries[i]) {
      forall text, offset: nat | Fires(entries, i, text) && Located(entries, i, text, offset)
        ensures StartsFirst(entries, i, text, offset) <==> |Key(entries[i])| == 1
      {
        LiteralOffset(entries, i, text, offset);
      }
    }
    if IsGlob(entries[i]) {
      GlobOffset(entries, i);
      assert forall text, offset: nat :: Located(entries, i, text, offset) <==> offset == 0;
      hide Fires, StartsFirst, Located, FreeFront, GlobOf;
    }
  }

  /** The literal "ab" in the text "ab" starts at 0 and is reported at 1. */
  lemma OffsetWrong()
    ensures var ab := [Entry(0, [97, 98], false, true)];
      Fires(ab, 0, [97, 98]) && Located(ab, 0, [97, 98], 1) && StartsFirst(ab, 0, [97, 98], 0) && !StartsFirst(ab, 0, [97, 98], 1)
  {
    var e, x := Entry(0, [97, 98], false, true), [97, 98];
    OrdinaryLiteral(e);
    assert Fold(x, false) == x;
    assert Key(e) == Fold(LiteralOf(e), false) == x;
    LoneFires(e);
    assert AcIcase([e]) == false;
    hide Parse, LiteralBytes, Fold, Fires, Atoms, Keeps, AcIcase, Key, ExactBytes;
    assert x[..2] == x && x[..1] == [97];
    assert Suffix(x, x[..2]) && !Suffix(x, x[..1]);
    assert FirstEnd(x, x, 1);
    LiteralOffset([e], 0, x, 1);
    assert OccursAt(x, x, 0);
  }

  // ----- a search against what the patterns are meant to say -----

  /** In a compiled state in which every entry is Sure, a search with room to spare reports
      exactly the ids of the entries whose patterns, as they are meant, match the text. */
  lemma SearchIsIdeal(s: State, text: Word, max: int, hits: seq<Hit>, id: int)
    requires s.compiled && Answer(s, text, max, hits) && |hits| < max && forall i :: 0 <= i < |s.entries| ==> Sure(s.entries, i)
    ensures Reported(hits, id) <==> exists i :: 0 <= i < |s.entries| && Ideal(s.entries[i], text) && s.entries[i].id == id
  {
    var entries := s.entries;
    hide Sure, Fires, Ideal, Located;
    ExactIffSure(entries);
    if Reported(hits, id) {
      var k :| 0 <= k < |hits| && hits[k].id == id;
      assert Fired(entries, text, hits[k]);
      var i :| 0 <= i < |entries| && Fires(entries, i, text) && entries[i].id == id && Located(entries, i, text, hits[k].offset);
      assert Ideal(entries[i], text);
    }
    if exists i :: 0 <= i < |entries| && Ideal(entries[i], text) && entries[i].id == id {
      var i :| 0 <= i < |entries| && Ideal(entries[i], text) && entries[i].id == id;
      assert Fires(entries, i, text);
    }
  }
}
