/** What a pass of parser/stream_passes.cpp writes, rule by rule: each unit in front of a text
    gives its own characters, and the rest of the text is rewritten as if it stood alone. */
module PassRules {
  import opened Substitutions
  import opened StreamPasses
  import opened Sequences

  lemma LongestUnique(s: string, i: nat, e: nat, f: nat, penn: bool)
    requires i <= |s| && Longest(s, i, e, penn) && Longest(s, i, f, penn)
    ensures e == f
  {
  }

  // ----- a text behind another -----

  lemma SliceBehind(u: string, t: string, j: nat, k: nat)
    requires j <= k <= |t|
    ensures (u + t)[|u| + j..|u| + k] == t[j..k]
  {
  }

  lemma UnitBehind(u: string, t: string, k: nat, penn: bool)
    requires k <= |t|
    ensures UnitEnd(u + t, |u| + k, penn) == |u| + UnitEnd(t, k, penn)
  {
    hide UnitEnd, IsUnit;
    var s, i, e := u + t, |u| + k, |u| + UnitEnd(t, k, penn);
    UnitIsLongest(t, k, penn);
    UnitIsLongest(s, i, penn);
    SliceBehind(u, t, k, e - |u|);
    forall j | e < j <= |s| ensures !IsUnit("%" + s[i..j], penn) {
      SliceBehind(u, t, k, j - |u|);
      assert !IsUnit("%" + t[k..j - |u|], penn);
    }
    assert Longest(s, i, e, penn);
    LongestUnique(s, i, e, UnitEnd(s, i, penn), penn);
  }

  lemma PieceBehind(u: string, t: string, k: nat, penn: bool, eval: bool)
    requires k < |t|
    ensures Next(u + t, |u| + k, penn) == |u| + Next(t, k, penn)
    ensures Piece(u + t, |u| + k, penn, eval) == Piece(t, k, penn, eval)
  {
    hide UnitEnd, Evaluate;
    assert (u + t)[|u| + k] == t[k];
    UnitBehind(u, t, k + 1, penn);
    SliceBehind(u, t, k, Next(t, k, penn));
    SliceBehind(u, t, k + 1, EscapeEnd(t, k));
  }

  lemma {:induction false} PassBehind(u: string, t: string, k: nat, penn: bool, eval: bool)
    requires k <= |t|
    ensures Pass(u + t, |u| + k, penn, eval) == Pass(t, k, penn, eval)
    decreases |t| - k
  {
    hide Next, Piece;
    if k < |t| {
      PieceBehind(u, t, k, penn, eval);
      PassBehind(u, t, Next(t, k, penn), penn, eval);
      PassFirst(t, k, penn, eval);
      PassFirst(u + t, |u| + k, penn, eval);
    }
  }

  // ----- the unit in front -----

  /** u is the first unit of u + t: an escape, the longest substitution, or a plain character. */
  ghost predicate Leads(u: string, t: string, penn: bool) {
    && u != ""
    && if u[0] == '\\' then |u| == 2 || (|u| == 1 && t == "")
       else if u[0] == '%' then IsUnit(u, penn) && forall k :: 0 < k <= |t| ==> !IsUnit(u + t[..k], penn)
       else |u| == 1
  }

  lemma LeadEnds(u: string, t: string, penn: bool)
    requires Leads(u, t, penn)
    ensures Next(u + t, 0, penn) == |u|
  {
    var s := u + t;
    assert s[0] == u[0];
    if u[0] == '%' {
      UnitIsLongest(s, 1, penn);
      hide UnitEnd, IsUnit;
      assert u == "%" + s[1..|u|];
      forall j | |u| < j <= |s| ensures !IsUnit("%" + s[1..j], penn) {
        assert "%" + s[1..j] == u + t[..j - |u|];
      }
      assert Longest(s, 1, |u|, penn);
      LongestUnique(s, 1, |u|, UnitEnd(s, 1, penn), penn);
    }
  }

  /** The piece written for the first unit, and then the rest on its own. */
  lemma PassLead(u: string, t: string, penn: bool, eval: bool)
    requires Leads(u, t, penn)
    ensures Pass(u + t, 0, penn, eval) ==
      (if u[0] == '\\' then u[1..] else if u[0] == '%' then Evaluate(u, penn, eval) else u) + Pass(t, 0, penn, eval)
  {
    hide Piece, Next, Evaluate, Pass, IsUnit;
    LeadEnds(u, t, penn);
    LeadPiece(u, t, penn, eval);
    PassFirst(u + t, 0, penn, eval);
    PassBehind(u, t, 0, penn, eval);
  }

  lemma LeadPiece(u: string, t: string, penn: bool, eval: bool)
    requires u != "" && Next(u + t, 0, penn) == |u|
    ensures Piece(u + t, 0, penn, eval) == if u[0] == '\\' then u[1..] else if u[0] == '%' then Evaluate(u, penn, eval) else [u[0]]
  {
    hide UnitEnd, Evaluate;
    var s := u + t;
    assert s[..|u|] == u && s[0..|u|] == u && s[1..|u|] == u[1..] && s[0] == u[0];
  }

  /** A code of a percent sign and one character that no longer form starts with. */
  lemma CodeLeads(c: char, t: string, penn: bool)
    requires c in "%bBtTrR "
    ensures Leads(['%', c], t, penn)
  {
    var u := ['%', c];
    forall k | 0 < k <= |t| ensures !IsUnit(u + t[..k], penn) {
      var v := u + t[..k];
      assert v[1] == c;
    }
  }

  lemma CodePass(c: char, t: string, penn: bool, out: string)
    requires c in "%bBtTrR " && Evaluate(['%', c], penn, true) == out
    ensures Pass(['%', c] + t, 0, penn, true) == out + Pass(t, 0, penn, true)
  {
    CodeLeads(c, t, penn);
    PassLead(['%', c], t, penn, true);
    hide Pass;
  }

  lemma CodeMeans(penn: bool)
    ensures Evaluate(['%', '%'], penn, true) == "%"
    ensures Evaluate(['%', 'b'], penn, true) == Evaluate(['%', 'B'], penn, true) == " "
    ensures Evaluate(['%', 't'], penn, true) == Evaluate(['%', 'T'], penn, true) == "\t"
    ensures Evaluate(['%', 'r'], penn, true) == Evaluate(['%', 'R'], penn, true) == if penn then "\n" else "\r\n"
    ensures Evaluate(['%', ' '], penn, true) == if penn then "% " else " "
  {
  }

  /** The codes that an evaluating pass knows, in front of any text. */
  lemma EvalCodes(t: string, penn: bool)
    ensures var rest := Pass(t, 0, penn, true);
      && Pass("%%" + t, 0, penn, true) == "%" + rest
      && Pass("%b" + t, 0, penn, true) == Pass("%B" + t, 0, penn, true) == " " + rest
      && Pass("%t" + t, 0, penn, true) == Pass("%T" + t, 0, penn, true) == "\t" + rest
      && Pass("%r" + t, 0, penn, true) == Pass("%R" + t, 0, penn, true) == (if penn then "\n" else "\r\n") + rest
      && Pass("% " + t, 0, penn, true) == (if penn then "% " else " ") + rest
  {
    hide Pass, Evaluate;
    CodeMeans(penn);
    CodePass('%', t, penn, "%");
    CodePass('b', t, penn, " ");
    CodePass('B', t, penn, " ");
    CodePass('t', t, penn, "\t");
    CodePass('T', t, penn, "\t");
    CodePass('r', t, penn, if penn then "\n" else "\r\n");
    CodePass('R', t, penn, if penn then "\n" else "\r\n");
    CodePass(' ', t, penn, if penn then "% " else " ");
  }

  /** Any other substitution gives the character that selects it, and a lone percent sign
      itself. */
  lemma EvalOthers(u: string, t: string, penn: bool)
    requires Leads(u, t, penn) && u[0] == '%' && u !in ["%%", "%b", "%B", "%t", "%T", "%r", "%R", "% "]
    ensures Pass(u + t, 0, penn, true) == (if |u| >= 2 then [u[1]] else "%") + Pass(t, 0, penn, true)
  {
    hide Pass, IsUnit, Leads;
    PassLead(u, t, penn, true);
  }

  /** A pass without evaluation keeps every substitution; either pass drops the backslash of an
      escape and keeps what it escapes. */
  lemma KeptOrEscaped(u: string, t: string, penn: bool, eval: bool)
    requires Leads(u, t, penn)
    ensures u[0] == '%' ==> Pass(u + t, 0, penn, false) == u + Pass(t, 0, penn, false)
    ensures u[0] == '\\' ==> Pass(u + t, 0, penn, eval) == u[1..] + Pass(t, 0, penn, eval)
    ensures u[0] != '%' && u[0] != '\\' ==> Pass(u + t, 0, penn, eval) == u + Pass(t, 0, penn, eval)
  {
    PassLead(u, t, penn, false);
    PassLead(u, t, penn, eval);
    hide Pass, IsUnit;
  }

  /** Every text that is not empty has a first unit, so the rules say what a pass makes of it. */
  lemma SomeLead(s: string, penn: bool) returns (u: string, t: string)
    requires s != ""
    ensures s == u + t && Leads(u, t, penn)
  {
    var e := Next(s, 0, penn);
    u, t := s[..e], s[e..];
    assert s == u + t && u[0] == s[0];
    if s[0] == '%' {
      UnitIsLongest(s, 1, penn);
      hide UnitEnd, IsUnit;
      assert u == "%" + s[1..e];
      forall k | 0 < k <= |t| ensures !IsUnit(u + t[..k], penn) {
        assert u + t[..k] == "%" + s[1..e + k];
      }
    }
  }

  /** A text without percent sign and backslash is left as it is. */
  lemma {:induction false} PlainStays(s: string, penn: bool, eval: bool)
    requires '%' !in s && '\\' !in s
    ensures Pass(s, 0, penn, eval) == s
  {
    hide Evaluate;
    if s != "" {
      var u, t := s[..1], s[1..];
      assert s == u + t;
      PlainStays(t, penn, eval);
      assert Leads(u, t, penn);
      PassLead(u, t, penn, eval);
    }
  }

  // ----- frozen units -----

  /** The unit stands at the front of the text: an escape, the longest substitution, or all the
      plain text up to the next of them. */
  ghost predicate IsFront(u: Unit, s: string, penn: bool) {
    && u.text != "" && u.text <= s
    && match u
       case Text(text) =>
         && (forall j :: 0 <= j < |text| ==> text[j] != '%' && text[j] != '\\')
         && (|text| < |s| ==> s[|text|] == '%' || s[|text|] == '\\')
       case Escape(text) => text[0] == '\\' && Leads(text, s[|text|..], penn)
       case Percent(text) => text[0] == '%' && Leads(text, s[|text|..], penn)
  }

  ghost predicate Fronts(units: seq<Unit>, s: string, penn: bool) {
    if units == [] then s == "" else IsFront(units[0], s, penn) && Fronts(units[1..], s[|units[0].text|..], penn)
  }

  lemma FrontExactly(s: string, i: nat, penn: bool, u: Unit)
    requires i < |s|
    ensures IsFront(u, s[i..], penn) <==> u == UnitAt(s, i, penn)
    ensures IsFront(u, s[i..], penn) ==> |u.text| <= |s| - i
    ensures u == UnitAt(s, i, penn) ==> s[i..][|u.text|..] == s[UnitNext(s, i, penn)..]
  {
    hide UnitEnd, IsUnit, IsFront, UnitNext, TextEnd;
    var e, t := UnitNext(s, i, penn), s[i..];
    assert t[..e - i] == s[i..e] && t[e - i..] == s[e..] && t[0] == s[i];
    if t[0] == '%' || t[0] == '\\' {
      CodeNext(s, i, penn);
      CodeFront(u, t, penn);
    } else {
      TextNext(s, i, penn);
      TextFront(u, t, e - i, penn);
    }
  }

  lemma CodeNext(s: string, i: nat, penn: bool)
    requires i < |s| && (s[i] == '%' || s[i] == '\\')
    ensures UnitNext(s, i, penn) == i + Next(s[i..], 0, penn)
  {
    hide Next;
    NextAlone(s, i, penn);
  }

  lemma TextNext(s: string, i: nat, penn: bool)
    requires i < |s| && s[i] != '%' && s[i] != '\\'
    ensures var n, t := UnitNext(s, i, penn) - i, s[i..];
      && (forall j :: 0 <= j < n ==> t[j] != '%' && t[j] != '\\') && (n < |t| ==> t[n] == '%' || t[n] == '\\')
  {
    assert forall j :: 0 <= j < |s[i..]| ==> s[i..][j] == s[i + j];
  }

  lemma CodeFront(u: Unit, t: string, penn: bool)
    requires t != "" && (t[0] == '%' || t[0] == '\\')
    ensures IsFront(u, t, penn) <==>
      var text := t[..Next(t, 0, penn)]; u == if t[0] == '\\' then Escape(text) else Percent(text)
  {
    hide Leads, Next;
    NextLeads(t, penn);
    if IsFront(u, t, penn) {
      assert t == u.text + t[|u.text|..] && u.text[0] == t[0];
      if !u.Text? {
        LeadEnds(u.text, t[|u.text|..], penn);
      }
    }
  }

  lemma TextFront(u: Unit, t: string, n: nat, penn: bool)
    requires 0 < n <= |t| && (forall j :: 0 <= j < n ==> t[j] != '%' && t[j] != '\\') && (n < |t| ==> t[n] == '%' || t[n] == '\\')
    ensures IsFront(u, t, penn) <==> u == Text(t[..n])
  {
    hide Leads;
    if IsFront(u, t, penn) {
      assert u.text[0] == t[0] && u.text == t[..|u.text|];
    }
  }

  lemma NextAlone(s: string, i: nat, penn: bool)
    requires i < |s|
    ensures Next(s, i, penn) == i + Next(s[i..], 0, penn)
  {
    assert s == s[..i] + s[i..];
    PieceBehind(s[..i], s[i..], 0, penn, false);
  }

  lemma NextLeads(s: string, penn: bool)
    requires s != "" && (s[0] == '%' || s[0] == '\\')
    ensures Leads(s[..Next(s, 0, penn)], s[Next(s, 0, penn)..], penn)
  {
    var u, t := SomeLead(s, penn);
    LeadEnds(u, t, penn);
    assert s[..|u|] == u && s[|u|..] == t;
  }

  /** Freezing finds exactly these units, from left to right. */
  lemma {:induction false} FreezeExactly(s: string, i: nat, penn: bool, units: seq<Unit>)
    requires i <= |s|
    ensures Fronts(units, s[i..], penn) <==> units == Freeze(s, i, penn)
    decreases |s| - i
  {
    hide IsFront, UnitAt, UnitNext;
    if i == |s| {
      if units != [] {
        NoFront(units[0], penn);
      }
    } else if units != [] {
      var e, u := UnitNext(s, i, penn), UnitAt(s, i, penn);
      FrontExactly(s, i, penn, units[0]);
      FreezeExactly(s, e, penn, units[1..]);
      assert Freeze(s, i, penn) == [u] + Freeze(s, e, penn);
      assert Fronts(units, s[i..], penn) <==>
        IsFront(units[0], s[i..], penn) && Fronts(units[1..], s[i..][|units[0].text|..], penn);
      hide Freeze, Fronts;
      HeadAndTail(units, u, Freeze(s, e, penn));
    } else {
      assert s[i..] != "";
    }
  }

  lemma NoFront(u: Unit, penn: bool)
    ensures !IsFront(u, "", penn)
  {
  }
}
