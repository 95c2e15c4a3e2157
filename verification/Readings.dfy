/** What a trigger pattern is meant to say, without the scanner's limit and with `$` as an anchor
    only at the end, and exactly when the scanner of ragel/trigger_match.c finds just that. */
module Readings {
  import opened Bytes
  import opened Glob
  import opened Patterns

  /** The parts of a pattern: a byte, escaped or not; a wildcard; an anchor; anything else. */
  datatype Atom = Exactly(ch: Byte) | Any | Run | Start | End | Complex

  function AtomOf(c: Byte): Atom {
    if c == 36 then End
    else if c == 42 then Run
    else if c == 46 || c == 63 then Any
    else if c == 94 then Start
    else if IsRegexByte(c) then Complex
    else Exactly(c)
  }

  /** A backslash takes the next byte as it is; one with nothing behind it stands for nothing. */
  function Atoms(pattern: seq<Byte>): seq<Atom>
    decreases |pattern|
  {
    if pattern == [] || pattern == [92] then []
    else if pattern[0] == 92 then [Exactly(pattern[1])] + Atoms(pattern[2..])
    else [AtomOf(pattern[0])] + Atoms(pattern[1..])
  }

  /** A literal or a glob: `^` only in front, `$` only at the end, nothing that needs a regex. */
  ghost predicate IsPlain(atoms: seq<Atom>) {
    forall i :: 0 <= i < |atoms| ==>
      atoms[i] != Complex && (atoms[i] == Start ==> i == 0) && (atoms[i] == End ==> i == |atoms| - 1)
  }

  function SegOf(a: Atom): Seg {
    match a
    case Exactly(ch) => Literal(ch)
    case Any => Question
    case Run => Star
    case Start => Bol
    case End => Eol
    case Complex => Question
  }

  /** One segment for each part; stars side by side are one star. */
  function Segments(atoms: seq<Atom>): seq<Seg> {
    if atoms == [] then []
    else
      var n := |atoms| - 1;
      if n > 0 && atoms[n] == Run && atoms[n - 1] == Run then Segments(atoms[..n]) else Segments(atoms[..n]) + [SegOf(atoms[n])]
  }

  predicate AllExact(atoms: seq<Atom>) {
    forall i :: 0 <= i < |atoms| ==> atoms[i].Exactly?
  }

  datatype Reading = NeedsRegex | Plain(segs: seq<Seg>, glob: bool)

  ghost function Intended(pattern: seq<Byte>): Reading {
    var atoms := Atoms(pattern);
    if IsPlain(atoms) then Plain(Segments(atoms), !AllExact(atoms)) else NeedsRegex
  }

  /** What the caller of the scanner takes from its result. */
  function View(p: Parsed): Reading {
    if p.regex then NeedsRegex else Plain(p.segs, p.glob)
  }

  // ----- the scanner, part by part -----

  function Take(s: Scan, a: Atom): Scan {
    match a
    case Exactly(ch) => s.(segs := Push(s.segs, Literal(ch)))
    case Any => s.(segs := Push(s.segs, Question), glob := true)
    case Run => s.(segs := if s.segs != [] && s.segs[|s.segs| - 1] == Star then s.segs else Push(s.segs, Star), glob := true)
    case Start => if s.segs == [] then s.(segs := [Bol], glob := true) else s.(regex := true)
    case End => s.(eol := true, glob := true)
    case Complex => s.(regex := true)
  }

  function TakeAll(s: Scan, atoms: seq<Atom>): Scan {
    if atoms == [] then s else Take(TakeAll(s, atoms[..|atoms| - 1]), atoms[|atoms| - 1])
  }

  lemma {:induction false} TakeFirst(s: Scan, a: Atom, atoms: seq<Atom>)
    ensures TakeAll(s, [a] + atoms) == TakeAll(Take(s, a), atoms)
    decreases |atoms|
  {
    var all := [a] + atoms;
    hide Take;
    if atoms == [] {
      assert all[..0] == [];
    } else {
      var n := |atoms| - 1;
      assert all[..n + 1] == [a] + atoms[..n] && all[n + 1] == atoms[n];
      TakeFirst(s, a, atoms[..n]);
    }
  }

  lemma ReadIsTake(s: Scan, c: Byte)
    requires !s.escaped && c != 92
    ensures Read(s, c) == Take(s, AtomOf(c))
  {
  }

  lemma {:induction false} ScanIsTakeAll(s: Scan, pattern: seq<Byte>)
    requires !s.escaped
    ensures ReadAll(s, pattern).(escaped := false) == TakeAll(s, Atoms(pattern))
    decreases |pattern|
  {
    if pattern == [] {
    } else if pattern == [92] {
      assert ReadAll(s, pattern) == ReadAll(Read(s, 92), []);
    } else if pattern[0] == 92 {
      var c, rest := pattern[1], pattern[2..];
      var s' := Take(s, Exactly(c));
      assert pattern[1..][1..] == rest;
      assert ReadAll(s, pattern) == ReadAll(Read(Read(s, 92), c), rest) == ReadAll(s', rest);
      hide ReadAll, Take;
      ScanIsTakeAll(s', rest);
      TakeFirst(s, Exactly(c), Atoms(rest));
    } else {
      var c, rest := pattern[0], pattern[1..];
      ReadIsTake(s, c);
      var s' := Read(s, c);
      assert !s'.escaped;
      hide Read, Take, AtomOf;
      ScanIsTakeAll(s', rest);
      TakeFirst(s, AtomOf(c), Atoms(rest));
    }
  }

  function Finished(s: Scan): Parsed {
    Parsed(if s.eol then Push(s.segs, Eol) else s.segs, s.glob, s.regex)
  }

  lemma ParseIsTakeAll(pattern: seq<Byte>)
    ensures Parse(pattern) == Finished(TakeAll(START, Atoms(pattern)))
  {
    ScanIsTakeAll(START, pattern);
  }

  // ----- literals and globs -----

  /** The segments that there is room for. */
  function Cut(segs: seq<Seg>): seq<Seg> {
    if |segs| <= MAX_SEGS then segs else segs[..MAX_SEGS]
  }

  lemma CutPush(segs: seq<Seg>, x: Seg)
    ensures Push(Cut(segs), x) == Cut(segs + [x])
  {
  }

  /** Everything in front of an end anchor. */
  ghost predicate IsBody(atoms: seq<Atom>) {
    forall i :: 0 <= i < |atoms| ==> atoms[i] != Complex && atoms[i] != End && (atoms[i] == Start ==> i == 0)
  }

  lemma {:induction false} SegmentsEnd(atoms: seq<Atom>)
    ensures Segments(atoms) == [] <==> atoms == []
    ensures atoms != [] ==> Segments(atoms)[|Segments(atoms)| - 1] == SegOf(atoms[|atoms| - 1])
  {
    if atoms != [] {
      SegmentsEnd(atoms[..|atoms| - 1]);
    }
  }

  lemma StarOrCut(atoms: seq<Atom>, s: Scan)
    requires s.segs == Cut(Segments(atoms))
    ensures Take(s, Run).segs == Cut(Segments(atoms + [Run]))
  {
    SegmentsEnd(atoms);
    var segs := Segments(atoms);
    assert (atoms + [Run])[..|atoms|] == atoms;
    hide Segments;
    CutPush(segs, Star);
    if atoms != [] && atoms[|atoms| - 1] == Run {
      assert SegOf(Run) == Star;
    }
  }

  lemma TakeBody(atoms: seq<Atom>, a: Atom, s: Scan)
    requires s == Scan(Cut(Segments(atoms)), !AllExact(atoms), false, false, false) && IsBody(atoms + [a])
    ensures Take(s, a) == Scan(Cut(Segments(atoms + [a])), !AllExact(atoms + [a]), false, false, false)
  {
    var all := atoms + [a];
    assert all[..|atoms|] == atoms && all[|atoms|] == a;
    assert AllExact(all) <==> AllExact(atoms) && a.Exactly?;
    SegmentsEnd(atoms);
    if a == Run {
      StarOrCut(atoms, s);
    } else {
      assert Segments(all) == Segments(atoms) + [SegOf(a)];
      hide Segments, AllExact;
      CutPush(Segments(atoms), SegOf(a));
      if a == Start {
        assert atoms == [];
      }
    }
  }

  lemma {:induction false} BodyScan(atoms: seq<Atom>)
    requires IsBody(atoms)
    ensures TakeAll(START, atoms) == Scan(Cut(Segments(atoms)), !AllExact(atoms), false, false, false)
    decreases |atoms|
  {
    if atoms != [] {
      var n := |atoms| - 1;
      BodyScan(atoms[..n]);
      assert atoms == atoms[..n] + [atoms[n]];
      TakeBody(atoms[..n], atoms[n], TakeAll(START, atoms[..n]));
    }
  }

  /** For a literal or a glob the scanner finds the segments there is room for. */
  lemma PlainParse(pattern: seq<Byte>)
    requires IsPlain(Atoms(pattern))
    ensures var atoms := Atoms(pattern); Parse(pattern) == Parsed(Cut(Segments(atoms)), !AllExact(atoms), false)
  {
    var atoms := Atoms(pattern);
    ParseIsTakeAll(pattern);
    hide Parse, Atoms, Take;
    if atoms != [] && atoms[|atoms| - 1] == End {
      var n := |atoms| - 1;
      var body := atoms[..n];
      BodyScan(body);
      EndTaken(TakeAll(START, body));
      assert Segments(atoms) == Segments(body) + [Eol];
      assert TakeAll(START, atoms) == Take(TakeAll(START, body), End);
      hide Segments, TakeAll;
      CutPush(Segments(body), Eol);
      assert !AllExact(atoms);
    } else {
      BodyScan(atoms);
    }
  }

  lemma EndTaken(s: Scan)
    ensures Take(s, End) == s.(eol := true, glob := true)
  {
  }

  // ----- patterns that need a regex -----

  /** Something beyond literals and globs, or a `^` behind something other than a `$`. */
  ghost predicate PlainlyComplex(atoms: seq<Atom>) {
    || Complex in atoms
    || exists i, j :: 0 <= j < i < |atoms| && atoms[i] == Start && atoms[j] != End
  }

  ghost predicate NoSegments(atoms: seq<Atom>) {
    forall i :: 0 <= i < |atoms| ==> atoms[i] == End || atoms[i] == Complex
  }

  ghost predicate OnlyEnds(atoms: seq<Atom>) {
    forall i :: 0 <= i < |atoms| ==> atoms[i] == End
  }

  lemma ComplexGrows(atoms: seq<Atom>, a: Atom)
    ensures PlainlyComplex(atoms + [a]) <==> PlainlyComplex(atoms) || a == Complex || (a == Start && !OnlyEnds(atoms))
  {
    var all := atoms + [a];
    assert all[|atoms|] == a;
    if PlainlyComplex(atoms) && Complex !in atoms {
      var i, j :| 0 <= j < i < |atoms| && atoms[i] == Start && atoms[j] != End;
      assert all[i] == Start && all[j] != End;
    }
    if a == Start && !OnlyEnds(atoms) {
      var j :| 0 <= j < |atoms| && atoms[j] != End;
      assert all[j] != End;
    }
  }

  /** What the scanner remembers of the parts so far. */
  ghost predicate Tracks(s: Scan, atoms: seq<Atom>) {
    && (s.regex <==> PlainlyComplex(atoms)) && (s.segs == [] <==> NoSegments(atoms))
    && (End in atoms ==> s.eol && s.glob)
  }

  lemma NoSegmentsGrows(atoms: seq<Atom>, a: Atom)
    ensures NoSegments(atoms + [a]) <==> NoSegments(atoms) && (a == End || a == Complex)
    ensures !PlainlyComplex(atoms) ==> (NoSegments(atoms) <==> OnlyEnds(atoms))
    ensures PlainlyComplex(atoms) || !OnlyEnds(atoms) || NoSegments(atoms)
  {
    var all := atoms + [a];
    assert all[|atoms|] == a && forall i :: 0 <= i < |atoms| ==> all[i] == atoms[i];
  }

  lemma TrackNext(s: Scan, atoms: seq<Atom>, a: Atom)
    requires Tracks(s, atoms)
    ensures Tracks(Take(s, a), atoms + [a])
  {
    ComplexGrows(atoms, a);
    NoSegmentsGrows(atoms, a);
    hide PlainlyComplex, NoSegments, OnlyEnds;
  }

  lemma {:induction false} RegexScan(atoms: seq<Atom>)
    ensures Tracks(TakeAll(START, atoms), atoms)
    decreases |atoms|
  {
    if atoms != [] {
      var n := |atoms| - 1;
      RegexScan(atoms[..n]);
      assert atoms == atoms[..n] + [atoms[n]];
      hide Tracks, Take;
      TrackNext(TakeAll(START, atoms[..n]), atoms[..n], atoms[n]);
    }
  }

  /** The scanner asks for a regex exactly for these; a `$` alone never does. */
  lemma RegexExactly(pattern: seq<Byte>)
    ensures Parse(pattern).regex <==> PlainlyComplex(Atoms(pattern))
    ensures End in Atoms(pattern) ==> Parse(pattern).glob
  {
    ParseIsTakeAll(pattern);
    RegexScan(Atoms(pattern));
  }

  /** A `$` before the end. */
  ghost predicate StrayEnd(atoms: seq<Atom>) {
    exists i :: 0 <= i < |atoms| - 1 && atoms[i] == End
  }

  lemma PlainOrNot(atoms: seq<Atom>)
    ensures IsPlain(atoms) <==> !PlainlyComplex(atoms) && !StrayEnd(atoms)
  {
    if !IsPlain(atoms) && Complex !in atoms && !StrayEnd(atoms) {
      var i :| 0 <= i < |atoms| && (atoms[i] == Start && i != 0);
      assert atoms[0] != End;
    }
  }

  /** The scanner gives the intended reading if and only if the pattern needs a regex in the
      scanner's eyes too, or no `$` stands before the end and there is room for every segment. */
  lemma ReadsExactly(pattern: seq<Byte>)
    ensures View(Parse(pattern)) == Intended(pattern) <==>
      var atoms := Atoms(pattern); PlainlyComplex(atoms) || (!StrayEnd(atoms) && |Segments(atoms)| <= MAX_SEGS)
  {
    var atoms := Atoms(pattern);
    RegexExactly(pattern);
    PlainOrNot(atoms);
    if IsPlain(atoms) {
      PlainParse(pattern);
      assert |Cut(Segments(atoms))| <= MAX_SEGS;
    }
    hide PlainlyComplex, StrayEnd, IsPlain, Segments;
  }

  // ----- literals -----

  function ExactBytes(atoms: seq<Atom>): seq<Byte>
    requires AllExact(atoms)
  {
    seq(|atoms|, i requires 0 <= i < |atoms| => atoms[i].ch)
  }

  lemma {:induction false} ExactSegments(atoms: seq<Atom>)
    requires AllExact(atoms)
    ensures Segments(atoms) == Literals(ExactBytes(atoms))
  {
    if atoms != [] {
      var n := |atoms| - 1;
      ExactSegments(atoms[..n]);
      var w := ExactBytes(atoms);
      assert ExactBytes(atoms[..n]) == w[..n] && w == w[..n] + [w[n]];
      assert Literals(w) == Literals(w[..n]) + [Literal(w[n])];
    }
  }

  /** In a literal or a glob the anchors stand at the ends. */
  lemma {:induction false} PlainSegments(atoms: seq<Atom>)
    requires IsPlain(atoms)
    ensures var segs := Segments(atoms);
      && (forall i :: 0 < i < |segs| ==> segs[i] != Bol)
      && (forall i :: 0 <= i < |segs| - 1 ==> segs[i] != Eol)
      && (segs != [] && segs[|segs| - 1] == Eol ==> atoms != [] && atoms[|atoms| - 1] == End)
    decreases |atoms|
  {
    SegmentsEnd(atoms);
    if atoms != [] {
      var n := |atoms| - 1;
      SegmentsEnd(atoms[..n]);
      PlainSegments(atoms[..n]);
    }
  }

  /** Ordinary bytes stand for themselves. */
  lemma {:induction false} OrdinaryAtoms(w: seq<Byte>)
    requires forall i :: 0 <= i < |w| ==> w[i] != 92 && AtomOf(w[i]) == Exactly(w[i])
    ensures Atoms(w) == seq(|w|, i requires 0 <= i < |w| => Exactly(w[i]))
    decreases |w|
  {
    if w != [] {
      OrdinaryAtoms(w[1..]);
    }
  }
}
