/** What the trigger patterns of ragel/trigger_match.c say, told from the bytes of the pattern and
    of the text alone: no scanner, no segments, no folding, no automaton. */
module Spellings {
  import opened Bytes
  import opened Words
  import opened AhoCorasick
  import opened Glob
  import opened Patterns
  import opened Readings
  import opened Triggers
  import opened TriggerRuns

  // ----- bytes of a pattern -----

  predicate In(c: Byte, chars: string) {
    c as char in chars
  }

  /** What a byte without a backslash in front stands for. */
  lemma AtomTable(c: Byte)
    ensures AtomOf(c) == Complex <==> In(c, "()+[]{|}")
    ensures AtomOf(c) == Any <==> In(c, ".?")
    ensures AtomOf(c) == Run <==> In(c, "*")
    ensures AtomOf(c) == Start <==> In(c, "^")
    ensures AtomOf(c) == End <==> In(c, "$")
    ensures AtomOf(c) == Exactly(c) <==> !In(c, "$*.?^()+[]{|}")
    ensures AtomOf(c).Exactly? ==> AtomOf(c).ch == c
  {
    assert c as char as int == c;
    assert In(c, "$*.?^()+[]{|}") <==> In(c, "()+[]{|}") || In(c, ".?") || In(c, "*") || In(c, "^") || In(c, "$");
  }

  /** In front of a first backslash every byte is a part of its own. */
  lemma {:induction false} AtomsSplit(u: seq<Byte>, v: seq<Byte>)
    requires 92 !in u
    ensures |Atoms(u)| == |u| && Atoms(u + v) == Atoms(u) + Atoms(v)
    ensures forall i :: 0 <= i < |u| ==> Atoms(u)[i] == AtomOf(u[i])
    decreases |u|
  {
    hide AtomOf;
    if u == [] {
      assert u + v == v && Atoms(u) + Atoms(v) == Atoms(v);
    } else {
      var c, rest := u[0], u[1..];
      AtomsSplit(rest, v);
      assert (u + v)[0] == c && (u + v)[1..] == rest + v;
      assert Atoms(u) == [AtomOf(c)] + Atoms(rest);
      assert Atoms(u + v) == [AtomOf(c)] + Atoms(rest + v);
    }
  }

  lemma OneAtom(c: Byte, v: seq<Byte>)
    requires c != 92
    ensures Atoms([c] + v) == [AtomOf(c)] + Atoms(v)
  {
    assert ([c] + v)[0] == c && ([c] + v)[1..] == v;
  }

  lemma EscapedAtom(c: Byte, v: seq<Byte>)
    ensures Atoms([92, c] + v) == [Exactly(c)] + Atoms(v)
  {
    var p := [92, c] + v;
    assert p[0] == 92 && p[1] == c && p[2..] == v;
  }

  /** A pattern of ordinary bytes is a literal, cut off after 512 of them. */
  lemma OrdinaryParse(p: seq<Byte>)
    requires forall i :: 0 <= i < |p| ==> !In(p[i], "$*.?^()+[]{|}\\")
    ensures Parse(p) == Parsed(Literals(if |p| <= 512 then p else p[..512]), false, false)
  {
    forall i | 0 <= i < |p| ensures p[i] != 92 && AtomOf(p[i]) == Exactly(p[i]) {
      AtomTable(p[i]);
      OtherThanEscape(p[i]);
    }
    OrdinaryAtoms(p);
    var atoms := Atoms(p);
    hide Atoms, AtomOf, In, Parse, Segments;
    assert AllExact(atoms) && ExactBytes(atoms) == p;
    ExactIsPlain(atoms);
    ExactSegments(atoms);
    PlainParse(p);
    assert |p| > 512 ==> Literals(p)[..512] == Literals(p[..512]);
  }

  lemma OtherThanEscape(c: Byte)
    requires !In(c, "$*.?^()+[]{|}\\")
    ensures c != 92 && !In(c, "$*.?^()+[]{|}")
  {
    assert 92 as char == '\\' && '\\' in "$*.?^()+[]{|}\\";
    assert In(c, "$*.?^()+[]{|}") ==> In(c, "$*.?^()+[]{|}\\");
  }

  /** One of ()+[]{|} that is not escaped leaves the pattern to a regex, and behind a backslash it
      is a byte like any other. */
  lemma RegexByteTells(u: seq<Byte>, c: Byte, v: seq<Byte>)
    requires 92 !in u && In(c, "()+[]{|}")
    ensures Parse(u + [c] + v).regex && Intended(u + [c] + v) == NeedsRegex
    ensures Atoms(u + [92, c] + v) == Atoms(u) + [Exactly(c)] + Atoms(v)
  {
    AtomTable(c);
    assert c != 92;
    var p, q := u + [c] + v, u + [92, c] + v;
    assert p == u + ([c] + v) && q == u + ([92, c] + v);
    AtomsSplit(u, [c] + v);
    AtomsSplit(u, [92, c] + v);
    OneAtom(c, v);
    EscapedAtom(c, v);
    hide Atoms, In, AtomOf;
    assert Atoms(p)[|u|] == Complex;
    RegexExactly(p);
  }

  /** Nothing else asks for a regex but a `^`. */
  lemma {:induction false} OnlyRegexBytes(p: seq<Byte>)
    requires forall i :: 0 <= i < |p| ==> !In(p[i], "^()+[]{|}")
    ensures !Parse(p).regex
  {
    RegexExactly(p);
    NoComplex(p);
    hide Parse, Atoms;
  }

  lemma {:induction false} NoComplex(p: seq<Byte>)
    requires forall i :: 0 <= i < |p| ==> !In(p[i], "^()+[]{|}")
    ensures Complex !in Atoms(p) && Start !in Atoms(p)
    decreases |p|
  {
    hide AtomOf;
    if p == [] || p == [92] {
    } else if p[0] == 92 {
      NoComplex(p[2..]);
    } else {
      AtomTable(p[0]);
      NoStart(p[0]);
      NoComplex(p[1..]);
    }
  }

  lemma NoStart(c: Byte)
    requires !In(c, "^()+[]{|}")
    ensures !In(c, "^") && !In(c, "()+[]{|}")
  {
    assert In(c, "^") || In(c, "()+[]{|}") ==> In(c, "^()+[]{|}");
  }

  // ----- a text cut into pieces -----

  /** The stretch of the text between two positions is what this part of a pattern says. */
  ghost predicate Fit(a: Atom, text: Word, from: nat, to: nat, icase: bool) {
    && from <= to <= |text|
    && match a
       case Exactly(ch) => to == from + 1 && (text[from] == ch || (icase && SameLetter(ch, text[from])))
       case Any => to == from + 1
       case Run => true
       case Start => from == to == 0
       case End => from == to == |text|
       case Complex => false
  }

  /** The text from the first to the last of these positions, piece by piece. */
  ghost predicate Spells(atoms: seq<Atom>, text: Word, cuts: seq<nat>, icase: bool) {
    && |cuts| == |atoms| + 1 && cuts[|atoms|] <= |text|
    && forall i :: 0 <= i < |atoms| ==> (var next := i + 1; Fit(atoms[i], text, cuts[i], cuts[next], icase))
  }

  ghost predicate Reach(atoms: seq<Atom>, text: Word, from: nat, to: nat, icase: bool) {
    exists cuts :: Spells(atoms, text, cuts, icase) && cuts[0] == from && cuts[|atoms|] == to
  }

  lemma ReachNone(text: Word, from: nat, to: nat, icase: bool)
    ensures Reach([], text, from, to, icase) <==> from == to <= |text|
  {
    if from == to <= |text| {
      assert Spells([], text, [from], icase);
    }
  }

  lemma ReachFirst(a: Atom, rest: seq<Atom>, text: Word, from: nat, to: nat, icase: bool)
    ensures Reach([a] + rest, text, from, to, icase) <==> exists m: nat :: Fit(a, text, from, m, icase) && Reach(rest, text, m, to, icase)
  {
    hide Fit;
    var all := [a] + rest;
    if Reach(all, text, from, to, icase) {
      var cuts :| Spells(all, text, cuts, icase) && cuts[0] == from && cuts[|all|] == to;
      var one := 1;
      assert all[0] == a && Fit(all[0], text, cuts[0], cuts[one], icase);
      forall i | 0 <= i < |rest| ensures var next := i + 1; Fit(rest[i], text, cuts[1..][i], cuts[1..][next], icase) {
        var j, k := i + 1, i + 2;
        assert all[j] == rest[i] && Fit(all[j], text, cuts[j], cuts[k], icase);
      }
      assert Spells(rest, text, cuts[1..], icase);
    }
    if m: nat :| Fit(a, text, from, m, icase) && Reach(rest, text, m, to, icase) {
      var cuts :| Spells(rest, text, cuts, icase) && cuts[0] == m && cuts[|rest|] == to;
      var cuts' := [from] + cuts;
      forall i | 0 <= i < |all| ensures var next := i + 1; Fit(all[i], text, cuts'[i], cuts'[next], icase) {
        if i > 0 {
          var j := i - 1;
          assert Fit(rest[j], text, cuts[j], cuts[i], icase);
        }
      }
      assert Spells(all, text, cuts', icase);
    }
  }

  lemma ReachLast(front: seq<Atom>, a: Atom, text: Word, from: nat, to: nat, icase: bool)
    ensures Reach(front + [a], text, from, to, icase) <==> exists m: nat :: Reach(front, text, from, m, icase) && Fit(a, text, m, to, icase)
  {
    hide Fit;
    var all, n := front + [a], |front|;
    if Reach(all, text, from, to, icase) {
      var cuts :| Spells(all, text, cuts, icase) && cuts[0] == from && cuts[|all|] == to;
      var end := n + 1;
      assert all[n] == a && Fit(all[n], text, cuts[n], cuts[end], icase);
      FitBounds(a, text, cuts[n], to, icase);
      forall i | 0 <= i < n ensures var next := i + 1; Fit(front[i], text, cuts[..end][i], cuts[..end][next], icase) {
        var j := i + 1;
        assert all[i] == front[i] && Fit(all[i], text, cuts[i], cuts[j], icase);
      }
      assert Spells(front, text, cuts[..end], icase);
    }
    if m: nat :| Reach(front, text, from, m, icase) && Fit(a, text, m, to, icase) {
      var cuts :| Spells(front, text, cuts, icase) && cuts[0] == from && cuts[n] == m;
      var cuts' := cuts + [to];
      FitBounds(a, text, m, to, icase);
      forall i | 0 <= i < |all| ensures var next := i + 1; Fit(all[i], text, cuts'[i], cuts'[next], icase) {
        if i < n {
          var j := i + 1;
          assert Fit(front[i], text, cuts[i], cuts[j], icase);
        }
      }
      assert Spells(all, text, cuts', icase);
    }
  }

  lemma FitBounds(a: Atom, text: Word, from: nat, to: nat, icase: bool)
    requires Fit(a, text, from, to, icase)
    ensures from <= to <= |text|
  {
  }

  // ----- the matcher's segments -----

  function PartOf(s: Seg): Atom {
    match s
    case Literal(ch) => Exactly(ch)
    case Star => Run
    case Question => Any
    case Bol => Start
    case Eol => End
  }

  function Parts(segs: seq<Seg>): seq<Atom> {
    seq(|segs|, i requires 0 <= i < |segs| => PartOf(segs[i]))
  }

  lemma PartsFirst(segs: seq<Seg>, si: nat)
    requires si < |segs|
    ensures Parts(segs[si..]) == [PartOf(segs[si])] + Parts(segs[si + 1..])
  {
    assert segs[si..][1..] == segs[si + 1..];
  }

  /** A match of segments is a cut of the text into their pieces. */
  lemma {:induction false} MatchSpells(segs: seq<Seg>, si: nat, text: Word, ti: nat, icase: bool)
    requires si <= |segs| && ti <= |text| && forall i :: si <= i < |segs| ==> segs[i] != Bol
    ensures MatchAt(segs, si, text, ti, icase) <==> exists end: nat :: Reach(Parts(segs[si..]), text, ti, end, icase)
    decreases |segs| - si
  {
    hide Reach, Parts;
    if si == |segs| {
      NoParts(segs);
      ReachNone(text, ti, ti, icase);
    } else {
      var x, next := segs[si], si + 1;
      var rest := Parts(segs[next..]);
      PartsFirst(segs, si);
      forall end: nat ensures Reach(Parts(segs[si..]), text, ti, end, icase) <==> exists m: nat :: Fit(PartOf(x), text, ti, m, icase) && Reach(rest, text, m, end, icase) {
        ReachFirst(PartOf(x), rest, text, ti, end, icase);
      }
      MatchStep(segs, si, text, ti, icase);
      hide MatchAt, Fit;
      if MatchAt(segs, si, text, ti, icase) {
        var m: nat :| m <= |text| && Fit(PartOf(x), text, ti, m, icase) && MatchAt(segs, next, text, m, icase);
        MatchSpells(segs, next, text, m, icase);
        var end: nat :| Reach(rest, text, m, end, icase);
        assert Reach(Parts(segs[si..]), text, ti, end, icase);
      }
      if end: nat :| Reach(Parts(segs[si..]), text, ti, end, icase) {
        var m: nat :| Fit(PartOf(x), text, ti, m, icase) && Reach(rest, text, m, end, icase);
        MatchSpells(segs, next, text, m, icase);
        assert MatchAt(segs, next, text, m, icase);
      }
    }
  }

  lemma NoParts(segs: seq<Seg>)
    ensures Parts(segs[|segs|..]) == []
  {
  }

  lemma MatchStep(segs: seq<Seg>, si: nat, text: Word, ti: nat, icase: bool)
    requires si < |segs| && ti <= |text| && segs[si] != Bol
    ensures var next := si + 1;
      MatchAt(segs, si, text, ti, icase) <==> exists m: nat :: m <= |text| && Fit(PartOf(segs[si]), text, ti, m, icase) && MatchAt(segs, next, text, m, icase)
    ensures forall m: nat :: Fit(PartOf(segs[si]), text, ti, m, icase) ==> m <= |text|
  {
    var next := si + 1;
    match segs[si] {
      case Literal(ch) =>
        if ti < |text| {
          FoldByteExactly(ch, icase, text[ti], icase);
        }
        hide FoldByte;
        assert Fit(Exactly(ch), text, ti, ti + 1, icase) <==> ti < |text| && Alike(ch, icase, text[ti], icase);
      case Question =>
        assert ti < |text| ==> Fit(Any, text, ti, ti + 1, icase);
      case Eol =>
        assert ti == |text| ==> Fit(End, text, ti, ti, icase);
      case Star =>
        assert MatchAt(segs, si, text, ti, icase) <==> MatchFrom(segs, si + 1, text, ti, icase);
        if MatchAt(segs, si, text, ti, icase) {
          var k :| ti <= k <= |text| && MatchAt(segs, next, text, k, icase);
          assert Fit(Run, text, ti, k, icase);
        }
    }
  }

  /** Stars side by side say what one of them says. */
  lemma RunTwice(front: seq<Atom>, text: Word, from: nat, to: nat, icase: bool)
    requires front != [] && front[|front| - 1] == Run
    ensures Reach(front + [Run], text, from, to, icase) <==> Reach(front, text, from, to, icase)
  {
    var n := |front| - 1;
    var before := front[..n];
    assert front == before + [Run];
    hide Reach;
    ReachLast(front, Run, text, from, to, icase);
    forall k: nat ensures Reach(front, text, from, k, icase) <==> exists m: nat :: Reach(before, text, from, m, icase) && Fit(Run, text, m, k, icase) {
      ReachLast(before, Run, text, from, k, icase);
    }
    if Reach(front + [Run], text, from, to, icase) {
      var k: nat :| Reach(front, text, from, k, icase) && Fit(Run, text, k, to, icase);
      var m: nat :| Reach(before, text, from, m, icase) && Fit(Run, text, m, k, icase);
      assert Fit(Run, text, m, to, icase);
    }
    if Reach(front, text, from, to, icase) {
      var m: nat :| Reach(before, text, from, m, icase) && Fit(Run, text, m, to, icase);
      assert Fit(Run, text, to, to, icase);
    }
  }

  lemma PartsLast(segs: seq<Seg>, s: Seg)
    ensures Parts(segs + [s]) == Parts(segs) + [PartOf(s)]
  {
  }

  /** The segments say what the parts say. */
  lemma {:induction false} SegmentsSpell(atoms: seq<Atom>, text: Word, from: nat, to: nat, icase: bool)
    requires Complex !in atoms
    ensures Reach(Parts(Segments(atoms)), text, from, to, icase) <==> Reach(atoms, text, from, to, icase)
    decreases |atoms|
  {
    if atoms == [] {
      assert Parts(Segments(atoms)) == atoms;
    } else {
      var n := |atoms| - 1;
      var front, a := atoms[..n], atoms[n];
      assert atoms == front + [a];
      forall k: nat ensures Reach(Parts(Segments(front)), text, from, k, icase) <==> Reach(front, text, from, k, icase) {
        SegmentsSpell(front, text, from, k, icase);
      }
      hide Reach, Fit, Parts;
      if n > 0 && a == Run && atoms[n - 1] == Run {
        RunTwice(front, text, from, to, icase);
      } else {
        assert Segments(atoms) == Segments(front) + [SegOf(a)] && PartOf(SegOf(a)) == a;
        hide Segments;
        PartsLast(Segments(front), SegOf(a));
        ReachLast(front, a, text, from, to, icase);
        ReachLast(Parts(Segments(front)), a, text, from, to, icase);
      }
    }
  }

  /** Segments match a text if some stretch of it can be cut into their pieces. */
  lemma MeansSpells(segs: seq<Seg>, text: Word, icase: bool, p: Parsed)
    requires p.segs == segs && forall i :: 0 < i < |segs| ==> segs[i] != Bol
    ensures Means(p, text, icase) <==> exists from: nat, to: nat :: Reach(Parts(segs), text, from, to, icase)
  {
    hide Reach, Parts, Fit, MatchAt;
    if segs != [] && segs[0] == Bol {
      var rest := segs[1..];
      MatchSpells(rest, 0, text, 0, icase);
      assert rest[0..] == rest && segs[0..] == segs;
      PartsFirst(segs, 0);
      forall from: nat, to: nat ensures Reach(Parts(segs), text, from, to, icase) <==> from == 0 && Reach(Parts(rest), text, 0, to, icase) {
        ReachFirst(Start, Parts(rest), text, from, to, icase);
        StartFits(text, from, icase);
      }
      assert Means(p, text, icase) <==> MatchAt(rest, 0, text, 0, icase);
      if to: nat :| Reach(Parts(rest), text, 0, to, icase) {
        assert Reach(Parts(segs), text, 0, to, icase);
      }
    } else {
      assert segs[0..] == segs;
      StarInFront(segs, text, icase);
      forall k: nat | k <= |text| ensures MatchAt(segs, 0, text, k, icase) <==> exists to: nat :: Reach(Parts(segs), text, k, to, icase) {
        MatchSpells(segs, 0, text, k, icase);
      }
      forall from: nat, to: nat | Reach(Parts(segs), text, from, to, icase) ensures from <= |text| {
        ReachBounds(Parts(segs), text, from, to, icase);
      }
      if Means(p, text, icase) {
        var k :| 0 <= k <= |text| && MatchAt(segs, 0, text, k, icase);
      }
      if from: nat, to: nat :| Reach(Parts(segs), text, from, to, icase) {
        assert MatchAt(segs, 0, text, from, icase);
      }
    }
  }

  lemma StartFits(text: Word, from: nat, icase: bool)
    ensures forall m: nat :: Fit(Start, text, from, m, icase) <==> from == m == 0
  {
  }

  lemma ReachBounds(atoms: seq<Atom>, text: Word, from: nat, to: nat, icase: bool)
    requires Reach(atoms, text, from, to, icase)
    ensures from <= |text|
  {
    var cuts :| Spells(atoms, text, cuts, icase) && cuts[0] == from && cuts[|atoms|] == to;
    if atoms != [] {
      var one := 1;
      assert Fit(atoms[0], text, cuts[0], cuts[one], icase);
    }
  }

  lemma NoneComplex(atoms: seq<Atom>)
    requires IsPlain(atoms)
    ensures Complex !in atoms && forall i :: 0 < i < |Segments(atoms)| ==> Segments(atoms)[i] != Bol
  {
    PlainSegments(atoms);
    hide Segments;
  }

  /** What an entry is meant to report: an active literal or glob, and some stretch of the text
      can be cut into pieces, one for each part of the pattern. */
  lemma IdealExactly(e: Entry, text: Word)
    ensures Ideal(e, text) <==> e.active && IsPlain(Atoms(e.pattern)) && exists cuts :: Spells(Atoms(e.pattern), text, cuts, e.icase)
  {
    var atoms := Atoms(e.pattern);
    hide Atoms;
    if e.active && IsPlain(atoms) {
      var segs := Segments(atoms);
      NoneComplex(atoms);
      hide IsPlain;
      MeansSpells(segs, text, e.icase, Parsed(segs, !AllExact(atoms), false));
      hide Means, Segments, Parts;
      forall from: nat, to: nat ensures Reach(Parts(segs), text, from, to, e.icase) <==> Reach(atoms, text, from, to, e.icase) {
        SegmentsSpell(atoms, text, from, to, e.icase);
      }
      ReachIsSpells(atoms, text, e.icase);
    }
  }

  lemma ReachIsSpells(atoms: seq<Atom>, text: Word, icase: bool)
    ensures (exists from: nat, to: nat :: Reach(atoms, text, from, to, icase)) <==> exists cuts :: Spells(atoms, text, cuts, icase)
  {
    if cuts :| Spells(atoms, text, cuts, icase) {
      assert Reach(atoms, text, cuts[0], cuts[|atoms|], icase);
    }
  }

  // ----- literals -----

  /** The slice at k says x, byte by byte, under the two flags. */
  ghost predicate SliceSays(x: Word, icase: bool, text: Word, icase': bool, k: nat) {
    k + |x| <= |text| && forall i :: 0 <= i < |x| ==> Alike(x[i], icase, text[k + i], icase')
  }

  /** A literal is reported exactly when it is nonempty, no later literal says the same, and some
      slice of the text is alike, byte by byte; its own flag folds the literal, the automaton's
      flag the text. */
  lemma LiteralFires(entries: seq<Entry>, i: nat, text: Word)
    requires i < |entries| && IsLiteral(entries[i])
    ensures var e := entries[i]; Fires(entries, i, text) <==>
      && LiteralOf(e) != [] && Keeps(entries, |entries|, i)
      && exists k :: SliceSays(LiteralOf(e), e.icase, text, AcIcase(entries), k)
  {
    var e, ac := entries[i], AcIcase(entries);
    var x := LiteralOf(e);
    hide Parse, LiteralBytes, AcIcase, Keeps;
    assert Key(e) == Fold(x, e.icase);
    forall k: nat ensures OccursAt(Fold(x, e.icase), Fold(text, ac), k) <==> SliceSays(x, e.icase, text, ac, k) {
      if k + |x| <= |text| {
        FoldedSlice(x, text, k, e.icase, ac);
        forall j | 0 <= j < |x| ensures FoldByte(x[j], e.icase) == FoldByte(text[k + j], ac) <==> Alike(x[j], e.icase, text[k + j], ac) {
          FoldByteExactly(x[j], e.icase, text[k + j], ac);
        }
      }
    }
    hide Fold, SliceSays, FoldByte, OccursAt;
    if k: nat :| OccursAt(Fold(x, e.icase), Fold(text, ac), k) {
      assert SliceSays(x, e.icase, text, ac, k);
    }
    if k: nat :| SliceSays(x, e.icase, text, ac, k) {
      assert OccursAt(Fold(x, e.icase), Fold(text, ac), k);
    }
  }

  /** Which later literal displaces an earlier one. */
  lemma SameKey(e: Entry, f: Entry)
    ensures var x, y := LiteralOf(e), LiteralOf(f);
      Key(e) == Key(f) <==> |x| == |y| && forall i :: 0 <= i < |x| ==> Alike(x[i], e.icase, y[i], f.icase)
  {
    var x, y := LiteralOf(e), LiteralOf(f);
    hide Parse, LiteralBytes;
    assert Key(e) == Fold(x, e.icase) && Key(f) == Fold(y, f.icase);
    if |x| == |y| {
      forall i | 0 <= i < |x| ensures Key(e)[i] == Key(f)[i] <==> Alike(x[i], e.icase, y[i], f.icase) {
        FoldByteExactly(x[i], e.icase, y[i], f.icase);
      }
    }
  }

  /** The automaton folds the text if the last literal among the entries ignores case. */
  lemma LastFlag(entries: seq<Entry>, i: nat)
    requires i < |entries| && IsLiteral(entries[i]) && forall j :: i < j < |entries| ==> !IsLiteral(entries[j])
    ensures AcIcase(entries) == entries[i].icase
  {
    FlagFrom(entries, i, |entries|);
  }

  lemma {:induction false} FlagFrom(entries: seq<Entry>, i: nat, n: nat)
    requires i < n <= |entries| && IsLiteral(entries[i]) && forall j :: i < j < n ==> !IsLiteral(entries[j])
    ensures IcaseOf(entries, n, false) == entries[i].icase
    decreases n
  {
    hide IsLiteral;
    if i < n - 1 {
      FlagFrom(entries, i, n - 1);
    }
  }
}
