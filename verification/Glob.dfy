/** The backtracking glob matcher of ragel/trigger_match.c: glob_match_at and glob_search. */
module Glob {
  import opened Bytes
  import opened AhoCorasick

  datatype Seg = Literal(ch: Byte) | Star | Question | Bol | Eol

  /** The segments from si on match the text from ti on, in the plain sense: a star stands for
      any stretch, and the match need not reach the end of the text. */
  ghost predicate MatchAt(segs: seq<Seg>, si: nat, text: seq<Byte>, ti: nat, icase: bool)
    requires si <= |segs| && ti <= |text|
    decreases |segs| - si
  {
    if si == |segs| then true
    else
      match segs[si]
      case Star => (var next := si + 1; exists k :: ti <= k <= |text| && MatchAt(segs, next, text, k, icase))
      case Eol => ti == |text| && MatchAt(segs, si + 1, text, ti, icase)
      case Literal(ch) =>
        ti < |text| && FoldByte(ch, icase) == FoldByte(text[ti], icase) && MatchAt(segs, si + 1, text, ti + 1, icase)
      case Question => ti < |text| && MatchAt(segs, si + 1, text, ti + 1, icase)
      case Bol => false
  }

  /** Some match of the segments from si on starts at ti or later. */
  ghost predicate MatchFrom(segs: seq<Seg>, si: nat, text: seq<Byte>, ti: nat, icase: bool)
    requires si <= |segs|
  {
    exists k :: ti <= k <= |text| && MatchAt(segs, si, text, k, icase)
  }

  /** Segments a to b without a star always consume the same number of bytes. */
  function Width(segs: seq<Seg>, a: nat, b: nat): nat
    requires a <= b <= |segs|
    decreases b - a
  {
    if a == b then 0 else (if segs[a].Literal? || segs[a].Question? then 1 else 0) + Width(segs, a + 1, b)
  }

  ghost predicate NoStar(segs: seq<Seg>, a: nat, b: nat)
    requires a <= b <= |segs|
  {
    forall i :: a <= i < b ==> segs[i] != Star
  }

  lemma {:induction false} WidthNext(segs: seq<Seg>, a: nat, b: nat)
    requires a <= b < |segs|
    ensures Width(segs, a, b + 1) == Width(segs, a, b) + if segs[b].Literal? || segs[b].Question? then 1 else 0
    decreases b - a
  {
    if a < b {
      WidthNext(segs, a + 1, b);
    }
  }

  /** A match that starts with a star-free stretch goes on right behind it. */
  lemma {:induction false} BehindBlock(segs: seq<Seg>, a: nat, b: nat, text: seq<Byte>, k: nat, icase: bool)
    requires a <= b <= |segs| && k <= |text| && NoStar(segs, a, b) && MatchAt(segs, a, text, k, icase)
    ensures k + Width(segs, a, b) <= |text| && MatchAt(segs, b, text, k + Width(segs, a, b), icase)
    decreases b - a
  {
    if a < b {
      BehindBlock(segs, a + 1, b, text, if segs[a].Literal? || segs[a].Question? then k + 1 else k, icase);
    }
  }

  /** Keeping only the last star loses no match: whatever an earlier star could still reach by
      starting later, the new star reaches from here. */
  lemma LastStarSuffices(segs: seq<Seg>, saved: nat, si: nat, text: seq<Byte>, savedTi: nat, ti: nat, icase: bool)
    requires saved <= si < |segs| && segs[si] == Star && NoStar(segs, saved, si)
    requires savedTi <= |text| && ti <= |text| && ti == savedTi + Width(segs, saved, si)
    requires MatchFrom(segs, saved, text, savedTi + 1, icase)
    ensures MatchAt(segs, si, text, ti, icase)
  {
    var k :| savedTi + 1 <= k <= |text| && MatchAt(segs, saved, text, k, icase);
    BehindBlock(segs, saved, si, text, k, icase);
    var j :| k + Width(segs, saved, si) <= j <= |text| && MatchAt(segs, si + 1, text, j, icase);
  }

  lemma FromSplit(segs: seq<Seg>, si: nat, text: seq<Byte>, ti: nat, icase: bool)
    requires si <= |segs| && ti <= |text|
    ensures MatchFrom(segs, si, text, ti, icase) <==> MatchAt(segs, si, text, ti, icase) || MatchFrom(segs, si, text, ti + 1, icase)
  {
  }

  /** The loop's state: where it is, and where the last star can be resumed. */
  ghost predicate Resumable(segs: seq<Seg>, text: seq<Byte>, si: int, ti: int, saveSi: int, saveTi: int) {
    && 0 <= si <= |segs| && 0 <= ti <= |text| && -1 <= saveSi <= si && 0 <= saveTi <= ti
    && (saveSi >= 0 ==> NoStar(segs, saveSi, si) && ti == saveTi + Width(segs, saveSi, si))
  }

  /** What is still open: going on from here, or resuming the last star later. */
  ghost predicate Open(segs: seq<Seg>, text: seq<Byte>, si: int, ti: int, saveSi: int, saveTi: int, icase: bool)
    requires Resumable(segs, text, si, ti, saveSi, saveTi)
  {
    MatchAt(segs, si, text, ti, icase) || (saveSi >= 0 && MatchFrom(segs, saveSi, text, saveTi + 1, icase))
  }

  lemma StarStep(segs: seq<Seg>, text: seq<Byte>, si: int, ti: int, saveSi: int, saveTi: int, icase: bool)
    requires Resumable(segs, text, si, ti, saveSi, saveTi) && si < |segs| && segs[si] == Star
    ensures Resumable(segs, text, si + 1, ti, si + 1, ti)
    ensures Open(segs, text, si, ti, saveSi, saveTi, icase) <==> Open(segs, text, si + 1, ti, si + 1, ti, icase)
  {
    if saveSi >= 0 && MatchFrom(segs, saveSi, text, saveTi + 1, icase) {
      LastStarSuffices(segs, saveSi, si, text, saveTi, ti, icase);
    }
    assert MatchAt(segs, si, text, ti, icase) <==> MatchFrom(segs, si + 1, text, ti, icase);
    FromSplit(segs, si + 1, text, ti, icase);
  }

  lemma AdvanceStep(segs: seq<Seg>, text: seq<Byte>, si: int, ti: int, saveSi: int, saveTi: int)
    requires Resumable(segs, text, si, ti, saveSi, saveTi) && si < |segs| && segs[si] != Star
    requires segs[si].Literal? || segs[si].Question? ==> ti < |text|
    ensures Resumable(segs, text, si + 1, if segs[si].Literal? || segs[si].Question? then ti + 1 else ti, saveSi, saveTi)
  {
    if saveSi >= 0 {
      WidthNext(segs, saveSi, si);
    }
  }

  /** glob_match_at on the text from `start` on. */
  method GlobMatchAt(segs: seq<Seg>, text: seq<Byte>, start: nat, icase: bool) returns (matches: bool)
    requires start <= |text|
    ensures matches <==> MatchAt(segs, 0, text, start, icase)
  {
    var si, ti, saveSi, saveTi := 0, start, -1, 0;
    while true
      invariant Resumable(segs, text, si, ti, saveSi, saveTi)
      invariant Open(segs, text, si, ti, saveSi, saveTi, icase) <==> MatchAt(segs, 0, text, start, icase)
      decreases |segs| - saveSi, |text| - saveTi, |segs| - si
    {
      if si == |segs| {
        return true;
      }
      match segs[si] {
        case Star =>
          StarStep(segs, text, si, ti, saveSi, saveTi, icase);
          saveSi, saveTi, si := si + 1, ti, si + 1;
          continue;
        case Eol =>
          if ti == |text| {
            AdvanceStep(segs, text, si, ti, saveSi, saveTi);
            si := si + 1;
            continue;
          }
        case Literal(ch) =>
          if ti < |text| && FoldByte(ch, icase) == FoldByte(text[ti], icase) {
            AdvanceStep(segs, text, si, ti, saveSi, saveTi);
            si, ti := si + 1, ti + 1;
            continue;
          }
        case Question =>
          if ti < |text| {
            AdvanceStep(segs, text, si, ti, saveSi, saveTi);
            si, ti := si + 1, ti + 1;
            continue;
          }
        case Bol =>
      }
      assert !MatchAt(segs, si, text, ti, icase);
      if saveSi >= 0 && saveTi < |text| {
        FromSplit(segs, saveSi, text, saveTi + 1, icase);
        saveTi := saveTi + 1;
        si, ti := saveSi, saveTi;
        continue;
      }
      return false;
    }
  }

  /** A segment in front shifts the others. */
  lemma {:induction false} InFront(x: Seg, segs: seq<Seg>, si: nat, text: seq<Byte>, ti: nat, icase: bool)
    requires si <= |segs| && ti <= |text|
    ensures MatchAt([x] + segs, si + 1, text, ti, icase) <==> MatchAt(segs, si, text, ti, icase)
    decreases |segs| - si
  {
    if si < |segs| {
      var all, next, next' := [x] + segs, si + 1, si + 2;
      assert all[si + 1] == segs[si];
      forall k | ti <= k <= |text|
        ensures MatchAt(all, next', text, k, icase) <==> MatchAt(segs, next, text, k, icase)
      {
        InFront(x, segs, next, text, k, icase);
      }
    }
  }

  /** A star in front lets the match start anywhere. */
  lemma StarInFront(segs: seq<Seg>, text: seq<Byte>, icase: bool)
    ensures MatchAt([Star] + segs, 0, text, 0, icase) <==> MatchFrom(segs, 0, text, 0, icase)
  {
    var all, next := [Star] + segs, 1;
    forall k | 0 <= k <= |text| ensures MatchAt(all, next, text, k, icase) <==> MatchAt(segs, 0, text, k, icase) {
      InFront(Star, segs, 0, text, k, icase);
    }
  }

  /** glob_search: at the start only, or anywhere; the latter is a star in front. */
  method GlobSearch(segs: seq<Seg>, anchored: bool, text: seq<Byte>, icase: bool) returns (found: bool)
    ensures found <==> MatchAt(if anchored then segs else [Star] + segs, 0, text, 0, icase)
  {
    if anchored {
      found := GlobMatchAt(segs, text, 0, icase);
      return;
    }
    StarInFront(segs, text, icase);
    for start := 0 to |text| + 1
      invariant forall k :: 0 <= k < start ==> !MatchAt(segs, 0, text, k, icase)
    {
      found := GlobMatchAt(segs, text, start, icase);
      if found {
        return;
      }
    }
    found := false;
  }
}
