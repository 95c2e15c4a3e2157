/** The extent of a percent substitution, which parser/mux_parse.h and parser/stream_passes.cpp
    gather by the same rules. Both MUX profiles gather alike; only Penn differs. */
module Substitutions {
  function Upper(c: char): char {
    if 'a' <= c <= 'z' then c - 'a' + 'A' else c
  }

  predicate IsAlpha(c: char) {
    'A' <= Upper(c) <= 'Z'
  }

  predicate IsDigit(c: char) {
    '0' <= c <= '9'
  }

  /** The first position from i on that holds c, or the end. */
  function Find(s: string, i: nat, c: char): (e: nat)
    requires i <= |s|
    ensures i <= e <= |s| && (e < |s| ==> s[e] == c) && forall k :: i <= k < e ==> s[k] != c
    decreases |s| - i
  {
    if i == |s| || s[i] == c then i else Find(s, i + 1, c)
  }

  /** Past the `>` that closes the `<` at i, or the end. */
  function AngleEnd(s: string, i: nat): (e: nat)
    requires i < |s|
    ensures i < e <= |s|
  {
    var e := Find(s, i + 1, '>');
    if e < |s| then e + 1 else e
  }

  /** One more character if it is there and wanted. */
  function Skip(s: string, i: nat, wanted: bool): nat {
    if i < |s| && wanted then i + 1 else i
  }

  /** An angle-bracketed name, or one character, or nothing at the end. */
  function NameEnd(s: string, i: nat): (e: nat)
    requires i <= |s|
    ensures i <= e <= |s|
  {
    if i < |s| && s[i] == '<' then AngleEnd(s, i) else Skip(s, i, true)
  }

  /** Where the substitution ends whose `%` stands before position i. */
  function UnitEnd(s: string, i: nat, penn: bool): (e: nat)
    requires i <= |s|
    ensures i <= e <= |s| && (i < |s| ==> i < e)
  {
    if i == |s| then i
    else
      var c, u, next := s[i], Upper(s[i]), i + 1;
      var more := next < |s|;
      if penn && c == ' ' then next
      else if u == 'Q' then NameEnd(s, next)
      else if u == 'V' || (penn && (u == 'W' || u == 'X')) then Skip(s, next, more && IsAlpha(s[next]))
      else if (u == 'C' || u == 'X') && !penn then NameEnd(s, next)
      else if c == '=' then if more && s[next] == '<' then AngleEnd(s, next) else next
      else if u == 'I' || (penn && c == '$') then Skip(s, next, more && (IsDigit(s[next]) || (penn && Upper(s[next]) == 'L')))
      else next
  }

  // ----- the substitutions, without the gatherer -----

  /** An angle bracket and anything up to the first closing one, or up to the end of the text. */
  predicate IsAngled(t: string) {
    t != "" && t[0] == '<' && forall j :: 1 <= j < |t| - 1 ==> t[j] != '>'
  }

  predicate IsName(t: string) {
    |t| == 1 || IsAngled(t)
  }

  predicate IsLetter(t: string) {
    |t| == 1 && ('a' <= t[0] <= 'z' || 'A' <= t[0] <= 'Z')
  }

  predicate IsDepth(t: string, penn: bool) {
    |t| == 1 && ('0' <= t[0] <= '9' || (penn && t[0] in "lL"))
  }

  /** The whole text is one substitution: a lone percent sign, a percent sign and any one
      character, or one of the longer forms. */
  predicate IsUnit(t: string, penn: bool) {
    && t != "" && t[0] == '%'
    && (|t| > 2 ==>
          || (t[1] in "qQ" && IsName(t[2..]))
          || (t[1] in "vV" && IsLetter(t[2..]))
          || (t[1] == '=' && IsAngled(t[2..]))
          || (t[1] in "iI" && IsDepth(t[2..], penn))
          || (!penn && t[1] in "cCxX" && IsName(t[2..]))
          || (penn && t[1] in "wWxX" && IsLetter(t[2..]))
          || (penn && t[1] == '$' && IsDepth(t[2..], penn)))
  }

  /** Of the substitutions that start the text at i the one that ends at e is the longest. */
  ghost predicate Longest(s: string, i: nat, e: nat, penn: bool)
    requires i <= |s|
  {
    i <= e <= |s| && IsUnit("%" + s[i..e], penn) && forall j :: e < j <= |s| ==> !IsUnit("%" + s[i..j], penn)
  }

  lemma AngledUpTo(s: string, i: nat, j: nat)
    requires i < j <= |s|
    ensures IsAngled(s[i..j]) <==> s[i] == '<' && j <= AngleEnd(s, i)
  {
    var t := s[i..j];
    assert forall k :: 0 <= k < |t| ==> t[k] == s[i + k];
    var f := Find(s, i + 1, '>');
    if f < j {
      assert t[f - i] == '>';
    }
  }

  lemma NamedUpTo(s: string, i: nat, j: nat)
    requires i < j <= |s|
    ensures IsName(s[i..j]) <==> j <= NameEnd(s, i) && (s[i] == '<' || j == i + 1)
  {
    AngledUpTo(s, i, j);
    hide IsAngled, AngleEnd;
  }

  lemma UpperIs(c: char)
    ensures Upper(c) == 'Q' <==> c in "qQ"
    ensures Upper(c) == 'V' <==> c in "vV"
    ensures Upper(c) == 'W' <==> c in "wW"
    ensures Upper(c) == 'X' <==> c in "xX"
    ensures Upper(c) == 'C' <==> c in "cC"
    ensures Upper(c) == 'I' <==> c in "iI"
    ensures Upper(c) == 'L' <==> c in "lL"
    ensures IsAlpha(c) <==> 'a' <= c <= 'z' || 'A' <= c <= 'Z'
  {
  }

  lemma UnitUpTo(s: string, i: nat, j: nat, penn: bool)
    requires i + 1 < j <= |s|
    ensures var c, t := s[i], s[i + 1..j];
      IsUnit("%" + s[i..j], penn) <==>
        || (c in "qQ" && IsName(t)) || (c in "vV" && IsLetter(t)) || (c == '=' && IsAngled(t)) || (c in "iI" && IsDepth(t, penn))
        || (!penn && c in "cCxX" && IsName(t)) || (penn && c in "wWxX" && IsLetter(t)) || (penn && c == '$' && IsDepth(t, penn))
  {
    var u := "%" + s[i..j];
    assert u[1] == s[i] && u[2..] == s[i + 1..j];
    hide IsName, IsLetter, IsAngled, IsDepth;
  }

  /** What is gathered is the longest substitution that starts there. */
  lemma UnitIsLongest(s: string, i: nat, penn: bool)
    requires i <= |s|
    ensures Longest(s, i, UnitEnd(s, i, penn), penn)
  {
    var e := UnitEnd(s, i, penn);
    if i < |s| {
      UpperIs(s[i]);
      if i + 1 < |s| {
        UpperIs(s[i + 1]);
      }
      forall j | i + 1 < j <= |s| ensures IsUnit("%" + s[i..j], penn) ==> j <= e
        ensures j == e ==> IsUnit("%" + s[i..j], penn)
      {
        UnitUpTo(s, i, j, penn);
        NamedUpTo(s, i + 1, j);
        AngledUpTo(s, i + 1, j);
        hide IsAngled, IsName, AngleEnd;
      }
    }
  }

  /** gather_angle */
  method GatherAngle(s: string, i: nat) returns (e: nat, out: string)
    requires i < |s|
    ensures e == AngleEnd(s, i) && out == s[i..e]
  {
    e, out := i + 1, [s[i]];
    while e < |s| && s[e] != '>'
      invariant i < e <= |s| && out == s[i..e] && Find(s, i + 1, '>') == Find(s, e, '>')
    {
      e, out := e + 1, out + [s[e]];
    }
    if e < |s| {
      e, out := e + 1, out + [s[e]];
    }
  }

  /** gather_pct and gather_percent_unit: the substitution is copied character by character, and
      nothing but the extent depends on the profile. */
  method GatherPercent(s: string, i: nat, penn: bool) returns (e: nat, unit: string)
    requires i <= |s|
    ensures e == UnitEnd(s, i, penn) && unit == "%" + s[i..e] && Longest(s, i, e, penn)
  {
    UnitIsLongest(s, i, penn);
    hide Longest;
    e, unit := i, "%";
    if e < |s| {
      var rest;
      e, rest := GatherRest(s, i, penn);
      hide UnitEnd;
      unit := unit + [s[i]] + rest;
    }
  }

  /** The part after the character that selects the substitution. */
  method GatherRest(s: string, i: nat, penn: bool) returns (e: nat, rest: string)
    requires i < |s|
    ensures e == UnitEnd(s, i, penn) && rest == s[i + 1..e]
  {
    hide NameEnd, AngleEnd;
    var c, u := s[i], Upper(s[i]);
    e, rest := i + 1, "";
    if penn && c == ' ' {
      return;
    }
    if IsDigit(c) {
    } else if u == 'Q' {
      e, rest := GatherName(s, e);
    } else if u == 'V' || (u == 'W' && penn) {
      e, rest := GatherIf(s, e, e < |s| && IsAlpha(s[e]));
    } else if u == 'C' || u == 'X' {
      if penn {
        e, rest := GatherIf(s, e, u == 'X' && e < |s| && IsAlpha(s[e]));
      } else {
        e, rest := GatherName(s, e);
      }
    } else if c == '=' {
      if e < |s| && s[e] == '<' {
        e, rest := GatherAngle(s, e);
      }
    } else if u == 'I' {
      e, rest := GatherIf(s, e, e < |s| && (IsDigit(s[e]) || (penn && Upper(s[e]) == 'L')));
    } else if c == '$' && penn {
      e, rest := GatherIf(s, e, e < |s| && (IsDigit(s[e]) || Upper(s[e]) == 'L'));
    }
  }

  method GatherIf(s: string, i: nat, wanted: bool) returns (e: nat, out: string)
    requires i <= |s|
    ensures e == Skip(s, i, wanted) && out == s[i..e]
  {
    e, out := i, "";
    if e < |s| && wanted {
      e, out := e + 1, [s[e]];
    }
  }

  method GatherName(s: string, i: nat) returns (e: nat, out: string)
    requires i <= |s|
    ensures e == NameEnd(s, i) && out == s[i..e]
  {
    if i < |s| && s[i] == '<' {
      e, out := GatherAngle(s, i);
    } else {
      e, out := GatherIf(s, i, true);
    }
  }
}
