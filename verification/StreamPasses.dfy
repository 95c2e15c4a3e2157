/** The evaluation passes of parser/stream_passes.cpp: the streaming pass, the pass over frozen
    units, and pipelines of either. */
module StreamPasses {
  import opened Substitutions

  datatype Unit = Text(text: string) | Escape(text: string) | Percent(text: string)

  // ----- one pass over the characters -----

  /** evaluate_percent */
  function Evaluate(unit: string, penn: bool, eval: bool): string {
    if !eval then unit
    else if unit == "%%" then "%"
    else if unit == "%b" || unit == "%B" then " "
    else if unit == "%t" || unit == "%T" then "\t"
    else if unit == "%r" || unit == "%R" then if penn then "\n" else "\r\n"
    else if penn && unit == "% " then "% "
    else if |unit| >= 2 then [unit[1]]
    else "%"
  }

  function EscapeEnd(s: string, i: nat): nat {
    if i + 1 < |s| then i + 2 else i + 1
  }

  /** Where the next step of a pass starts. */
  function Next(s: string, i: nat, penn: bool): (e: nat)
    requires i < |s|
    ensures i < e <= |s|
  {
    if s[i] == '\\' then EscapeEnd(s, i) else if s[i] == '%' then UnitEnd(s, i + 1, penn) else i + 1
  }

  /** What one step of a pass writes. */
  function Piece(s: string, i: nat, penn: bool, eval: bool): string
    requires i < |s|
  {
    if s[i] == '\\' then s[i + 1..EscapeEnd(s, i)]
    else if s[i] == '%' then Evaluate(s[i..UnitEnd(s, i + 1, penn)], penn, eval)
    else [s[i]]
  }

  /** What a pass makes of the characters from i on. */
  function Pass(s: string, i: nat, penn: bool, eval: bool): string
    requires i <= |s|
    decreases |s| - i
  {
    if i == |s| then "" else Piece(s, i, penn, eval) + Pass(s, Next(s, i, penn), penn, eval)
  }

  lemma PassFirst(s: string, i: nat, penn: bool, eval: bool)
    requires i < |s|
    ensures Pass(s, i, penn, eval) == Piece(s, i, penn, eval) + Pass(s, Next(s, i, penn), penn, eval)
  {
    hide Piece, Next;
  }

  lemma PassNext(s: string, i: nat, penn: bool, eval: bool, out: string)
    requires i < |s|
    ensures out + Pass(s, i, penn, eval) == (out + Piece(s, i, penn, eval)) + Pass(s, Next(s, i, penn), penn, eval)
  {
    hide Piece, Next;
  }

  /** run_stream_pass */
  method RunStreamPass(s: string, penn: bool, eval: bool) returns (out: string)
    ensures out == Pass(s, 0, penn, eval)
  {
    out := "";
    var i := 0;
    while i < |s|
      invariant i <= |s| && out + Pass(s, i, penn, eval) == Pass(s, 0, penn, eval)
    {
      PassNext(s, i, penn, eval, out);
      hide *;
      var e, piece := StreamStep(s, i, penn, eval);
      out, i := out + piece, e;
    }
  }

  /** One turn of its loop. */
  method StreamStep(s: string, i: nat, penn: bool, eval: bool) returns (e: nat, piece: string)
    requires i < |s|
    ensures e == Next(s, i, penn) && piece == Piece(s, i, penn, eval)
  {
    if s[i] == '\\' {
      e, piece := i + 1, "";
      if e < |s| {
        piece, e := [s[e]], e + 1;
      }
    } else if s[i] == '%' {
      var unit;
      e, unit := GatherPercent(s, i + 1, penn);
      assert unit == s[i..e];
      piece := Evaluate(unit, penn, eval);
    } else {
      e, piece := i + 1, [s[i]];
    }
  }

  // ----- units -----

  /** The end of the plain text that starts at i. */
  function TextEnd(s: string, i: nat): (e: nat)
    requires i <= |s|
    ensures i <= e <= |s| && (forall k :: i <= k < e ==> s[k] != '\\' && s[k] != '%')
    ensures e < |s| ==> s[e] == '\\' || s[e] == '%'
    decreases |s| - i
  {
    if i == |s| || s[i] == '\\' || s[i] == '%' then i else TextEnd(s, i + 1)
  }

  /** The unit at i. */
  function UnitAt(s: string, i: nat, penn: bool): Unit
    requires i < |s|
  {
    var text := s[i..UnitNext(s, i, penn)];
    if s[i] == '\\' then Escape(text) else if s[i] == '%' then Percent(text) else Text(text)
  }

  function UnitNext(s: string, i: nat, penn: bool): (e: nat)
    requires i < |s|
    ensures i < e <= |s|
  {
    if s[i] == '\\' || s[i] == '%' then Next(s, i, penn) else TextEnd(s, i + 1)
  }

  /** The units from i on. */
  function Freeze(s: string, i: nat, penn: bool): seq<Unit>
    requires i <= |s|
    decreases |s| - i
  {
    if i == |s| then [] else [UnitAt(s, i, penn)] + Freeze(s, UnitNext(s, i, penn), penn)
  }

  lemma FreezeNext(s: string, i: nat, penn: bool, units: seq<Unit>)
    requires i < |s|
    ensures units + Freeze(s, i, penn) == (units + [UnitAt(s, i, penn)]) + Freeze(s, UnitNext(s, i, penn), penn)
  {
    hide UnitAt, UnitNext;
  }

  /** freeze_units */
  method FreezeUnits(s: string, penn: bool) returns (units: seq<Unit>)
    ensures units == Freeze(s, 0, penn)
  {
    units := [];
    var i := 0;
    while i < |s|
      invariant i <= |s| && units + Freeze(s, i, penn) == Freeze(s, 0, penn)
    {
      FreezeNext(s, i, penn, units);
      hide *;
      var e, unit := FreezeStep(s, i, penn);
      units, i := units + [unit], e;
    }
  }

  /** One turn of its loop. */
  method FreezeStep(s: string, i: nat, penn: bool) returns (e: nat, unit: Unit)
    requires i < |s|
    ensures e == UnitNext(s, i, penn) && unit == UnitAt(s, i, penn)
  {
    var text;
    if s[i] == '\\' {
      e, text := i + 1, [s[i]];
      if e < |s| {
        text, e := text + [s[e]], e + 1;
      }
      unit := Escape(text);
    } else if s[i] == '%' {
      e, text := GatherPercent(s, i + 1, penn);
      assert text == s[i..e];
      unit := Percent(text);
    } else {
      e, text := GatherText(s, i);
      unit := Text(text);
    }
  }

  method GatherText(s: string, i: nat) returns (e: nat, text: string)
    requires i < |s| && s[i] != '\\' && s[i] != '%'
    ensures e == TextEnd(s, i + 1) && text == s[i..e]
  {
    e, text := i, "";
    while e < |s| && s[e] != '\\' && s[e] != '%'
      invariant i <= e <= |s| && text == s[i..e] && TextEnd(s, e) == TextEnd(s, i)
    {
      e, text := e + 1, text + [s[e]];
    }
  }

  function Out(u: Unit, penn: bool, eval: bool): string {
    match u
    case Text(text) => text
    case Escape(text) => if |text| >= 2 then [text[1]] else ""
    case Percent(text) => Evaluate(text, penn, eval)
  }

  function OutAll(units: seq<Unit>, penn: bool, eval: bool): string {
    if units == [] then "" else Out(units[0], penn, eval) + OutAll(units[1..], penn, eval)
  }

  lemma OutNext(units: seq<Unit>, k: nat, penn: bool, eval: bool, out: string)
    requires k < |units|
    ensures out + OutAll(units[k..], penn, eval) == (out + Out(units[k], penn, eval)) + OutAll(units[k + 1..], penn, eval)
  {
    hide Out;
  }

  /** run_frozen_pass */
  method RunFrozenPass(units: seq<Unit>, penn: bool, eval: bool) returns (out: string)
    ensures out == OutAll(units, penn, eval)
  {
    out := "";
    assert units[0..] == units;
    for k := 0 to |units|
      invariant out + OutAll(units[k..], penn, eval) == OutAll(units, penn, eval)
    {
      OutNext(units, k, penn, eval, out);
      hide OutAll, Evaluate;
      match units[k] {
        case Text(text) => out := out + text;
        case Escape(text) => if |text| >= 2 { out := out + [text[1]]; } else { out := out + ""; }
        case Percent(text) => out := out + Evaluate(text, penn, eval);
      }
    }
  }

  function Texts(units: seq<Unit>): string {
    if units == [] then "" else units[0].text + Texts(units[1..])
  }

  /** Freezing only cuts the text up. */
  lemma {:induction false} FreezeLossless(s: string, i: nat, penn: bool)
    requires i <= |s|
    ensures Texts(Freeze(s, i, penn)) == s[i..]
    decreases |s| - i
  {
    if i < |s| {
      var e := UnitNext(s, i, penn);
      FreezeLossless(s, e, penn);
      assert UnitAt(s, i, penn).text == s[i..e];
      hide UnitNext, UnitAt;
      assert s[i..] == s[i..e] + s[e..];
    }
  }

  lemma PassPlain(s: string, i: nat, penn: bool, eval: bool)
    requires i < |s| && s[i] != '\\' && s[i] != '%'
    ensures Pass(s, i, penn, eval) == [s[i]] + Pass(s, i + 1, penn, eval)
  {
  }

  lemma FirstOff(s: string, i: nat, e: nat, rest: string)
    requires i < e <= |s|
    ensures s[i..e] + rest == [s[i]] + (s[i + 1..e] + rest)
  {
    assert s[i..e] == [s[i]] + s[i + 1..e];
  }

  lemma {:induction false} PassText(s: string, i: nat, penn: bool, eval: bool)
    requires i <= |s|
    ensures Pass(s, i, penn, eval) == s[i..TextEnd(s, i)] + Pass(s, TextEnd(s, i), penn, eval)
    decreases |s| - i
  {
    var e := TextEnd(s, i);
    hide Pass;
    if i < e {
      PassPlain(s, i, penn, eval);
      PassText(s, i + 1, penn, eval);
      FirstOff(s, i, e, Pass(s, e, penn, eval));
    } else {
      assert s[i..e] == "";
    }
  }

  /** One unit is what the streaming pass makes of the same stretch. */
  lemma UnitAgrees(s: string, i: nat, penn: bool, eval: bool)
    requires i < |s|
    ensures Pass(s, i, penn, eval) == Out(UnitAt(s, i, penn), penn, eval) + Pass(s, UnitNext(s, i, penn), penn, eval)
  {
    if s[i] == '\\' {
      assert Out(UnitAt(s, i, penn), penn, eval) == Piece(s, i, penn, eval);
    } else if s[i] == '%' {
      assert Out(UnitAt(s, i, penn), penn, eval) == Piece(s, i, penn, eval);
    } else {
      PassText(s, i, penn, eval);
    }
  }

  /** The streaming pass and the pass over units agree. */
  lemma {:induction false} FreezeAgrees(s: string, i: nat, penn: bool, eval: bool)
    requires i <= |s|
    ensures OutAll(Freeze(s, i, penn), penn, eval) == Pass(s, i, penn, eval)
    decreases |s| - i
  {
    if i < |s| {
      UnitAgrees(s, i, penn, eval);
      FreezeAgrees(s, UnitNext(s, i, penn), penn, eval);
      hide Pass, UnitAt, UnitNext, Out;
    }
  }

  // ----- pipelines -----

  /** The text after the first n passes; true stands for eval. */
  function Pipeline(s: string, passes: seq<bool>, n: nat, penn: bool): string
    requires n <= |passes|
  {
    if n == 0 then s else Pass(Pipeline(s, passes, n - 1, penn), 0, penn, passes[n - 1])
  }

  /** The stream model: the text after each pass. */
  method StreamModel(s: string, passes: seq<bool>, penn: bool) returns (after: seq<string>)
    ensures |after| == |passes| && forall k :: 0 <= k < |after| ==> after[k] == Pipeline(s, passes, k + 1, penn)
  {
    hide Pass, Freeze, OutAll;
    after := [];
    var current := s;
    for i := 0 to |passes|
      invariant current == Pipeline(s, passes, i, penn) && |after| == i
      invariant forall k :: 0 <= k < |after| ==> after[k] == Pipeline(s, passes, k + 1, penn)
    {
      current := RunStreamPass(current, penn, passes[i]);
      after := after + [current];
    }
  }

  /** The refrozen model, which cuts the text into units anew before each pass: the very same
      texts as the stream model. */
  method RefrozenModel(s: string, passes: seq<bool>, penn: bool) returns (after: seq<string>)
    ensures |after| == |passes| && forall k :: 0 <= k < |after| ==> after[k] == Pipeline(s, passes, k + 1, penn)
  {
    hide Pass, Freeze, OutAll;
    after := [];
    var current := s;
    for i := 0 to |passes|
      invariant current == Pipeline(s, passes, i, penn) && |after| == i
      invariant forall k :: 0 <= k < |after| ==> after[k] == Pipeline(s, passes, k + 1, penn)
    {
      FreezeAgrees(current, 0, penn, passes[i]);
      var units := FreezeUnits(current, penn);
      current := RunFrozenPass(units, penn, passes[i]);
      after := after + [current];
    }
  }

  // ----- passes shrink -----

  function Percents(s: string): nat {
    if s == "" then 0 else (if s[0] == '%' then 1 else 0) + Percents(s[1..])
  }

  function Weight(s: string): nat {
    |s| + Percents(s)
  }

  lemma {:induction false} WeightAdds(s: string, t: string)
    ensures Weight(s + t) == Weight(s) + Weight(t)
  {
    if s == "" {
      assert s + t == t;
    } else {
      WeightAdds(s[1..], t);
      assert (s + t)[1..] == s[1..] + t;
    }
  }

  /** x may stand for y: not longer, not heavier, and lighter unless it is the same. */
  ghost predicate Shrinks(x: string, y: string, eval: bool) {
    && |x| <= |y| && Weight(x) <= Weight(y)
    && (x == y || Weight(x) < Weight(y))
    && (!eval ==> x == y || |x| < |y|)
  }

  lemma ShrinksTogether(x: string, y: string, x': string, y': string, eval: bool)
    requires Shrinks(x, y, eval) && Shrinks(x', y', eval)
    ensures Shrinks(x + x', y + y', eval)
  {
    WeightAdds(x, x');
    WeightAdds(y, y');
  }

  lemma WeightTwo(s: string)
    requires |s| >= 2 && s[0] == '%'
    ensures Weight(s) >= |s| + 1 >= 3
    ensures forall c: char :: Weight([c]) <= 2
    ensures Weight("\r\n") == 2
  {
    assert "\r\n"[1..] == "\n" && "\n"[1..] == "";
    forall c: char ensures Weight([c]) <= 2 {
      assert [c][1..] == "" && Percents("") == 0;
    }
  }

  lemma EvaluateShrinks(unit: string, penn: bool, eval: bool)
    requires unit != "" && unit[0] == '%'
    ensures Shrinks(Evaluate(unit, penn, eval), unit, eval)
  {
    if |unit| >= 2 {
      WeightTwo(unit);
    } else {
      assert unit == "%";
    }
  }

  lemma PieceShrinks(s: string, i: nat, penn: bool, eval: bool)
    requires i < |s|
    ensures Shrinks(Piece(s, i, penn, eval), s[i..Next(s, i, penn)], eval)
  {
    var e := Next(s, i, penn);
    if s[i] == '\\' {
      WeightAdds([s[i]], s[i + 1..e]);
      assert s[i..e] == [s[i]] + s[i + 1..e];
    } else if s[i] == '%' {
      EvaluateShrinks(s[i..e], penn, eval);
    } else {
      assert s[i..e] == [s[i]];
    }
  }

  lemma PassEnds(s: string, penn: bool, eval: bool)
    ensures Shrinks(Pass(s, |s|, penn, eval), s[|s|..], eval)
  {
  }

  /** No pass makes the text longer; a pass that changes it makes it lighter, and shorter if it
      does not evaluate. */
  lemma {:induction false} PassShrinks(s: string, i: nat, penn: bool, eval: bool)
    requires i <= |s|
    ensures Shrinks(Pass(s, i, penn, eval), s[i..], eval)
    decreases |s| - i
  {
    hide Piece, Pass, Shrinks, Weight, Next;
    if i == |s| {
      PassEnds(s, penn, eval);
    } else {
      var e := Next(s, i, penn);
      PieceShrinks(s, i, penn, eval);
      PassShrinks(s, e, penn, eval);
      PassFirst(s, i, penn, eval);
      assert s[i..] == s[i..e] + s[e..];
      ShrinksTogether(Piece(s, i, penn, eval), s[i..e], Pass(s, e, penn, eval), s[e..], eval);
    }
  }

  lemma {:induction false} PipelineShrinks(s: string, passes: seq<bool>, n: nat, penn: bool)
    requires n <= |passes|
    ensures |Pipeline(s, passes, n, penn)| <= |s|
  {
    hide Pass, Weight;
    if n > 0 {
      var t := Pipeline(s, passes, n - 1, penn);
      PipelineShrinks(s, passes, n - 1, penn);
      PassShrinks(t, 0, penn, passes[n - 1]);
      assert t[0..] == t;
    }
  }

  /** n passes of one kind. */
  function Repeat(s: string, n: nat, penn: bool, eval: bool): string
    decreases n
  {
    if n == 0 then s else Repeat(Pass(s, 0, penn, eval), n - 1, penn, eval)
  }

  lemma {:induction false} RepeatFixed(s: string, n: nat, penn: bool, eval: bool)
    requires Pass(s, 0, penn, eval) == s
    ensures Repeat(s, n, penn, eval) == s
  {
    if n > 0 {
      RepeatFixed(s, n - 1, penn, eval);
    }
  }

  /** Repeating one kind of pass settles: within the weight of the text, and without evaluation
      within its length. */
  lemma {:induction false} RepeatSettles(s: string, n: nat, penn: bool, eval: bool)
    requires n >= if eval then Weight(s) else |s|
    ensures var t := Repeat(s, n, penn, eval); Pass(t, 0, penn, eval) == t
    decreases n
  {
    PassShrinks(s, 0, penn, eval);
    assert s[0..] == s;
    var t := Pass(s, 0, penn, eval);
    if t == s {
      RepeatFixed(s, n, penn, eval);
    } else {
      RepeatSettles(t, n - 1, penn, eval);
    }
  }

  function Escapes(units: seq<Unit>): nat {
    if units == [] then 0 else (if units[0].Escape? then 1 else 0) + Escapes(units[1..])
  }

  lemma EscapesFirst(u: Unit, rest: seq<Unit>)
    ensures Escapes([u] + rest) == (if u.Escape? then 1 else 0) + Escapes(rest)
  {
    assert ([u] + rest)[1..] == rest;
  }

  lemma UnitDrops(s: string, i: nat, penn: bool)
    requires i < |s|
    ensures |Out(UnitAt(s, i, penn), penn, false)| + (if UnitAt(s, i, penn).Escape? then 1 else 0) == UnitNext(s, i, penn) - i
  {
    hide TextEnd, UnitEnd;
  }

  /** A pass without evaluation drops one character for each escape and nothing else, so it
      leaves a text alone exactly when nothing in it is escaped. */
  lemma {:induction false} NoevalDrops(s: string, i: nat, penn: bool)
    requires i <= |s|
    ensures |Pass(s, i, penn, false)| + Escapes(Freeze(s, i, penn)) == |s| - i
    ensures Pass(s, i, penn, false) == s[i..] <==> Escapes(Freeze(s, i, penn)) == 0
    decreases |s| - i
  {
    if i < |s| {
      hide Weight, UnitNext, UnitAt, Out, Pass, Escapes;
      PassShrinks(s, i, penn, false);
      var next := UnitNext(s, i, penn);
      NoevalDrops(s, next, penn);
      UnitAgrees(s, i, penn, false);
      UnitDrops(s, i, penn);
      assert Freeze(s, i, penn) == [UnitAt(s, i, penn)] + Freeze(s, next, penn);
      EscapesFirst(UnitAt(s, i, penn), Freeze(s, next, penn));
    }
  }
}
