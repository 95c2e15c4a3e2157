/** The pattern parser of ragel/trigger_match.c and what a pattern means. */
module Patterns {
  import opened Bytes
  import opened Words
  import opened AhoCorasick
  import opened Glob

  const MAX_SEGS := 512

  /** The parser's variables: segments, flags, a pending `$`, and whether a backslash was read. */
  datatype Scan = Scan(segs: seq<Seg>, glob: bool, regex: bool, eol: bool, escaped: bool)

  datatype Parsed = Parsed(segs: seq<Seg>, glob: bool, regex: bool)

  function Push(segs: seq<Seg>, s: Seg): (r: seq<Seg>)
    ensures |segs| <= MAX_SEGS ==> |r| <= MAX_SEGS
  {
    if |segs| < MAX_SEGS then segs + [s] else segs
  }

  /** ( ) + [ ] { | } */
  predicate IsRegexByte(c: Byte) {
    c in {40, 41, 43, 91, 93, 123, 124, 125}
  }

  /** One transition of the generated scanner. */
  function Read(s: Scan, c: Byte): Scan {
    if s.escaped then s.(segs := Push(s.segs, Literal(c)), escaped := false)
    else if c == 36 then s.(eol := true, glob := true)
    else if c == 42 then
      s.(segs := if s.segs != [] && s.segs[|s.segs| - 1] == Star then s.segs else Push(s.segs, Star), glob := true)
    else if c == 46 || c == 63 then s.(segs := Push(s.segs, Question), glob := true)
    else if c == 92 then s.(escaped := true)
    else if c == 94 then
      if s.segs == [] then s.(segs := [Bol], glob := true) else s.(regex := true)
    else if IsRegexByte(c) then s.(regex := true)
    else s.(segs := Push(s.segs, Literal(c)))
  }

  function ReadAll(s: Scan, pattern: seq<Byte>): Scan
    decreases |pattern|
  {
    if pattern == [] then s else ReadAll(Read(s, pattern[0]), pattern[1..])
  }

  const START := Scan([], false, false, false, false)

  function Parse(pattern: seq<Byte>): Parsed {
    var s := ReadAll(START, pattern);
    Parsed(if s.eol then Push(s.segs, Eol) else s.segs, s.glob, s.regex)
  }

  /** trigger_parse_pattern */
  method ParsePattern(pattern: seq<Byte>) returns (p: Parsed)
    ensures p == Parse(pattern)
  {
    var s, i := START, 0;
    assert pattern[0..] == pattern;
    while i < |pattern|
      invariant i <= |pattern| && ReadAll(s, pattern[i..]) == ReadAll(START, pattern)
    {
      s := Read(s, pattern[i]);
      i := i + 1;
    }
    p := Parsed(if s.eol then Push(s.segs, Eol) else s.segs, s.glob, s.regex);
  }

  // ----- what the parser guarantees -----

  /** Only `^` gives a Bol, and only in front; without a glob byte every segment is a literal. */
  ghost predicate WellScanned(s: Scan) {
    && |s.segs| <= MAX_SEGS
    && (forall i :: 0 < i < |s.segs| ==> s.segs[i] != Bol)
    && (forall i :: 0 <= i < |s.segs| ==> s.segs[i] != Eol)
    && (forall i :: 0 < i < |s.segs| ==> !(s.segs[i - 1] == Star && s.segs[i] == Star))
    && (!s.glob ==> !s.eol && forall i :: 0 <= i < |s.segs| ==> s.segs[i].Literal?)
  }

  lemma PushWell(s: Scan, x: Seg)
    requires WellScanned(s) && x != Bol && x != Eol && (s.segs != [] && s.segs[|s.segs| - 1] == Star ==> x != Star)
    requires !s.glob ==> x.Literal?
    ensures WellScanned(s.(segs := Push(s.segs, x)))
  {
  }

  lemma ReadWell(s: Scan, c: Byte)
    requires WellScanned(s)
    ensures WellScanned(Read(s, c))
  {
    if s.escaped {
      PushWell(s, Literal(c));
    } else if c == 42 {
      if s.segs == [] || s.segs[|s.segs| - 1] != Star {
        PushWell(s.(glob := true), Star);
      }
    } else if c == 46 || c == 63 {
      PushWell(s.(glob := true), Question);
    } else if c != 36 && c != 92 && c != 94 && !IsRegexByte(c) {
      PushWell(s, Literal(c));
    }
    hide Push;
  }

  lemma {:induction false} ReadAllWell(s: Scan, pattern: seq<Byte>)
    requires WellScanned(s)
    ensures WellScanned(ReadAll(s, pattern))
    decreases |pattern|
  {
    if pattern != [] {
      ReadWell(s, pattern[0]);
      hide Read, WellScanned;
      ReadAllWell(Read(s, pattern[0]), pattern[1..]);
    }
  }

  lemma ParseWell(pattern: seq<Byte>)
    ensures var p := Parse(pattern);
      && |p.segs| <= MAX_SEGS && (forall i :: 0 < i < |p.segs| ==> p.segs[i] != Bol)
      && (forall i :: 0 <= i < |p.segs| - 1 ==> p.segs[i] != Eol)
      && (!p.glob ==> forall i :: 0 <= i < |p.segs| ==> p.segs[i].Literal?)
  {
    ReadAllWell(START, pattern);
  }

  /** A backslash before every byte. */
  function Escape(literal: Word): seq<Byte> {
    if literal == [] then [] else [92, literal[0]] + Escape(literal[1..])
  }

  function Literals(literal: Word): seq<Seg> {
    seq(|literal|, i requires 0 <= i < |literal| => Literal(literal[i]))
  }

  lemma ReadEscaped(s: Scan, c: Byte, rest: seq<Byte>)
    requires !s.escaped && |s.segs| < MAX_SEGS
    ensures ReadAll(s, [92, c] + rest) == ReadAll(s.(segs := s.segs + [Literal(c)]), rest)
  {
    var all, tail, mid := [92, c] + rest, [c] + rest, s.(escaped := true);
    assert all[0] == 92 && all[1..] == tail && tail[0] == c && tail[1..] == rest;
    assert Read(s, 92) == mid && Read(mid, c) == s.(segs := s.segs + [Literal(c)]);
    hide Read;
    assert ReadAll(s, all) == ReadAll(Read(s, all[0]), all[1..]);
    assert ReadAll(mid, tail) == ReadAll(Read(mid, tail[0]), tail[1..]);
  }

  lemma {:induction false} EscapeReads(s: Scan, literal: Word)
    requires !s.escaped && |s.segs| + |literal| <= MAX_SEGS
    ensures ReadAll(s, Escape(literal)) == s.(segs := s.segs + Literals(literal))
    decreases |literal|
  {
    if literal == [] {
      assert s.segs + [] == s.segs;
    } else {
      var c, rest := literal[0], Escape(literal[1..]);
      var s' := s.(segs := s.segs + [Literal(c)]);
      ReadEscaped(s, c, rest);
      hide ReadAll;
      EscapeReads(s', literal[1..]);
      assert s.segs + Literals(literal) == s'.segs + Literals(literal[1..]);
    }
  }

  /** Any text can be written as a pattern that means exactly that text. */
  lemma EscapeRoundTrip(literal: Word)
    requires |literal| <= MAX_SEGS
    ensures Parse(Escape(literal)) == Parsed(Literals(literal), false, false)
  {
    EscapeReads(START, literal);
    assert [] + Literals(literal) == Literals(literal);
  }

  // ----- what a pattern means -----

  /** A pattern matches a text: anywhere, or at its start if it begins with `^`. */
  ghost predicate Means(p: Parsed, text: Word, icase: bool) {
    if p.segs != [] && p.segs[0] == Bol then MatchAt(p.segs[1..], 0, text, 0, icase)
    else MatchAt([Star] + p.segs, 0, text, 0, icase)
  }

  ghost predicate OccursAt(x: Word, text: Word, k: nat) {
    k + |x| <= |text| && text[k..k + |x|] == x
  }

  ghost predicate Occurs(x: Word, text: Word) {
    exists k :: OccursAt(x, text, k)
  }

  lemma {:induction false} LiteralsMatch(x: Word, si: nat, text: Word, ti: nat, icase: bool)
    requires si <= |x| && ti <= |text|
    ensures MatchAt(Literals(x), si, text, ti, icase) <==>
      ti + |x| - si <= |text| && forall i :: si <= i < |x| ==> FoldByte(x[i], icase) == FoldByte(text[ti + i - si], icase)
    decreases |x| - si
  {
    if si < |x| {
      if ti < |text| {
        LiteralsMatch(x, si + 1, text, ti + 1, icase);
      }
    }
  }

  lemma FoldedSlice(x: Word, text: Word, k: nat, icase: bool, icase': bool)
    requires k + |x| <= |text|
    ensures Fold(text, icase')[k..k + |x|] == Fold(x, icase) <==>
      forall i :: 0 <= i < |x| ==> FoldByte(x[i], icase) == FoldByte(text[k + i], icase')
  {
    var u, v := Fold(text, icase')[k..k + |x|], Fold(x, icase);
    assert forall i :: 0 <= i < |x| ==> u[i] == FoldByte(text[k + i], icase') && v[i] == FoldByte(x[i], icase);
  }

  /** A literal pattern matches a text exactly when the folded literal occurs in the folded text. */
  lemma LiteralMeans(x: Word, text: Word, icase: bool)
    ensures Means(Parsed(Literals(x), false, false), text, icase) <==> Occurs(Fold(x, icase), Fold(text, icase))
  {
    var segs, w, t := Literals(x), Fold(x, icase), Fold(text, icase);
    assert x != [] ==> segs[0] == Literal(x[0]);
    StarInFront(segs, text, icase);
    forall k: nat | k <= |text| ensures MatchAt(segs, 0, text, k, icase) <==> OccursAt(w, t, k) {
      LiteralsMatch(x, 0, text, k, icase);
      if k + |x| <= |text| {
        FoldedSlice(x, text, k, icase, icase);
      }
    }
    if MatchFrom(segs, 0, text, 0, icase) {
      var k :| 0 <= k <= |text| && MatchAt(segs, 0, text, k, icase);
      assert OccursAt(w, t, k);
    }
    if Occurs(w, t) {
      var k :| OccursAt(w, t, k);
      assert MatchAt(segs, 0, text, k, icase);
    }
  }
}
