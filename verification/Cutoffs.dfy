/** What a pattern loses when its last segments are dropped: exactly when a cut-off glob still
    matches the same texts (ragel/trigger_match.c keeps 512 segments). */
module Cutoffs {
  import opened Bytes
  import opened Words
  import opened AhoCorasick
  import opened Glob
  import opened Patterns

  /** The segments as they are matched from position 0: a star in front unless `^` is there. */
  function Placed(segs: seq<Seg>): seq<Seg> {
    if segs != [] && segs[0] == Bol then segs[1..] else [Star] + segs
  }

  ghost predicate Matches(segs: seq<Seg>, text: Word, icase: bool) {
    MatchAt(segs, 0, text, 0, icase)
  }

  lemma MeansPlaced(p: Parsed, text: Word, icase: bool)
    ensures Means(p, text, icase) <==> Matches(Placed(p.segs), text, icase)
  {
  }

  /** No start anchor, and an end anchor only at the end. */
  ghost predicate WellPlaced(v: seq<Seg>) {
    forall i :: 0 <= i < |v| ==> v[i] != Bol && (v[i] == Eol ==> i == |v| - 1)
  }

  /** Some star has only single-byte wildcards behind it. */
  ghost predicate StarTail(v: seq<Seg>) {
    exists s :: 0 <= s < |v| && v[s] == Star && AllQuestions(v, s + 1)
  }

  ghost predicate AllQuestions(v: seq<Seg>, from: nat) {
    forall j :: from <= j < |v| ==> v[j] == Question
  }

  /** The segments from n on add nothing: stars, and an end anchor that a star in front of it
      can always reach. */
  ghost predicate Idle(v: seq<Seg>, n: nat) {
    && (forall i :: n <= i < |v| ==> v[i] == Star || v[i] == Eol)
    && (v != [] && v[|v| - 1] == Eol ==> StarTail(v[..|v| - 1]))
  }

  // ----- fewer segments match more -----

  lemma {:induction false} PrefixMatches(v: seq<Seg>, n: nat, si: nat, text: Word, ti: nat, icase: bool)
    requires si <= n <= |v| && ti <= |text| && MatchAt(v, si, text, ti, icase)
    ensures MatchAt(v[..n], si, text, ti, icase)
    decreases n - si
  {
    if si < n {
      var next := si + 1;
      assert v[..n][si] == v[si];
      match v[si] {
        case Star =>
          var k :| ti <= k <= |text| && MatchAt(v, next, text, k, icase);
          PrefixMatches(v, n, next, text, k, icase);
        case Eol => PrefixMatches(v, n, next, text, ti, icase);
        case Literal(_) => PrefixMatches(v, n, next, text, ti + 1, icase);
        case Question => PrefixMatches(v, n, next, text, ti + 1, icase);
        case Bol =>
      }
    }
  }

  // ----- idle segments -----

  lemma {:induction false} StarAppended(v: seq<Seg>, si: nat, text: Word, ti: nat, icase: bool)
    requires si <= |v| && ti <= |text| && MatchAt(v, si, text, ti, icase)
    ensures MatchAt(v + [Star], si, text, ti, icase)
    decreases |v| - si
  {
    var all, next := v + [Star], si + 1;
    if si == |v| {
      assert all[si] == Star;
      assert MatchAt(all, next, text, ti, icase);
    } else {
      assert all[si] == v[si];
      match v[si] {
        case Star =>
          var k :| ti <= k <= |text| && MatchAt(v, next, text, k, icase);
          StarAppended(v, next, text, k, icase);
        case Eol => StarAppended(v, next, text, ti, icase);
        case Literal(_) => StarAppended(v, next, text, ti + 1, icase);
        case Question => StarAppended(v, next, text, ti + 1, icase);
        case Bol =>
      }
    }
  }

  lemma {:induction false} StarsAppended(v: seq<Seg>, n: nat, m: nat, text: Word, icase: bool)
    requires n <= m <= |v| && (forall i :: n <= i < m ==> v[i] == Star) && Matches(v[..n], text, icase)
    ensures Matches(v[..m], text, icase)
    decreases m
  {
    if n < m {
      StarsAppended(v, n, m - 1, text, icase);
      StarAppended(v[..m - 1], 0, text, 0, icase);
      assert v[..m] == v[..m - 1] + [Star];
    }
  }

  /** Wildcards to the end of the pattern need just their number of bytes, and with an end
      anchor behind them start that many bytes before the end. */
  lemma {:induction false} QuestionsMatch(v: seq<Seg>, j: nat, text: Word, ti: nat, icase: bool)
    requires j <= |v| && AllQuestions(v, j) && ti <= |text|
    ensures MatchAt(v, j, text, ti, icase) <==> ti + |v| - j <= |text|
    ensures MatchAt(v + [Eol], j, text, ti, icase) <==> ti + |v| - j == |text|
    decreases |v| - j
  {
    var all := v + [Eol];
    if j < |v| {
      assert all[j] == Question;
      if ti < |text| {
        QuestionsMatch(v, j + 1, text, ti + 1, icase);
      }
    } else {
      assert all[j] == Eol;
      assert MatchAt(all, j + 1, text, ti, icase);
    }
  }

  lemma {:induction false} TailReachesEnd(v: seq<Seg>, s: nat, si: nat, text: Word, ti: nat, icase: bool)
    requires si <= s < |v| && v[s] == Star && AllQuestions(v, s + 1) && ti <= |text| && MatchAt(v, si, text, ti, icase)
    ensures MatchAt(v + [Eol], si, text, ti, icase)
    decreases s - si
  {
    var all, next := v + [Eol], si + 1;
    assert all[si] == v[si];
    if si == s {
      var k :| ti <= k <= |text| && MatchAt(v, next, text, k, icase);
      QuestionsMatch(v, next, text, k, icase);
      var last := |text| - (|v| - next);
      QuestionsMatch(v, next, text, last, icase);
      assert MatchAt(all, next, text, last, icase);
    } else {
      match v[si] {
        case Star =>
          var k :| ti <= k <= |text| && MatchAt(v, next, text, k, icase);
          TailReachesEnd(v, s, next, text, k, icase);
          assert MatchAt(all, next, text, k, icase);
        case Eol => TailReachesEnd(v, s, next, text, ti, icase);
        case Literal(_) => TailReachesEnd(v, s, next, text, ti + 1, icase);
        case Question => TailReachesEnd(v, s, next, text, ti + 1, icase);
        case Bol =>
      }
    }
  }

  lemma IdleSame(v: seq<Seg>, n: nat, text: Word, icase: bool)
    requires WellPlaced(v) && n <= |v| && Idle(v, n)
    ensures Matches(v[..n], text, icase) <==> Matches(v, text, icase)
  {
    if Matches(v, text, icase) {
      PrefixMatches(v, n, 0, text, 0, icase);
    }
    if Matches(v[..n], text, icase) {
      if n < |v| && v[|v| - 1] == Eol {
        var m := |v| - 1;
        StarsAppended(v, n, m, text, icase);
        var s :| 0 <= s < m && v[..m][s] == Star && AllQuestions(v[..m], s + 1);
        TailReachesEnd(v[..m], s, 0, text, 0, icase);
        assert v == v[..m] + [Eol];
      } else {
        StarsAppended(v, n, |v|, text, icase);
        assert v[..|v|] == v;
      }
    }
  }

  // ----- texts that tell -----

  /** A shortest text that the segments match: nothing for a star. */
  function Fill(v: seq<Seg>): Word {
    if v == [] then []
    else (if v[0].Literal? then [v[0].ch] else if v[0].Question? then [97] else []) + Fill(v[1..])
  }

  lemma {:induction false} FillMatches(v: seq<Seg>, si: nat, before: Word, after: Word, icase: bool)
    requires si <= |v| && WellPlaced(v) && (after == [] || Eol !in v)
    ensures MatchAt(v, si, before + Fill(v[si..]) + after, |before|, icase)
    decreases |v| - si
  {
    var text, next := before + Fill(v[si..]) + after, si + 1;
    if si < |v| {
      var tail := v[si..];
      assert tail[0] == v[si] && tail[1..] == v[next..];
      if v[si] == Star {
        FillMatches(v, next, before, after, icase);
        assert text == before + Fill(v[next..]) + after;
        assert MatchAt(v, next, text, |before|, icase);
      } else if v[si] == Eol {
        assert v[next..] == [];
        assert text == before;
      } else if v[si] != Bol {
        var c := if v[si].Literal? then v[si].ch else 97;
        FillMatches(v, next, before + [c], after, icase);
        assert text == (before + [c]) + Fill(v[next..]) + after;
        assert text[|before|] == c;
      }
    }
  }

  /** Every pattern matches some text. */
  lemma SomeText(v: seq<Seg>, icase: bool)
    requires WellPlaced(v)
    ensures Matches(v, Fill(v), icase)
  {
    FillMatches(v, 0, [], [], icase);
    assert v[0..] == v && [] + Fill(v) + [] == Fill(v);
  }

  lemma {:induction false} FillWidth(v: seq<Seg>, n: nat)
    requires n <= |v|
    ensures |Fill(v[n..])| == Width(v, n, |v|)
    decreases |v| - n
  {
    if n < |v| {
      FillWidth(v, n + 1);
      assert v[n..][1..] == v[n + 1..];
    }
  }

  lemma {:induction false} NeedsWidth(v: seq<Seg>, si: nat, text: Word, ti: nat, icase: bool)
    requires si <= |v| && ti <= |text| && MatchAt(v, si, text, ti, icase)
    ensures ti + Width(v, si, |v|) <= |text|
    decreases |v| - si
  {
    if si < |v| {
      var next := si + 1;
      match v[si] {
        case Star =>
          var k :| ti <= k <= |text| && MatchAt(v, next, text, k, icase);
          NeedsWidth(v, next, text, k, icase);
        case Eol => NeedsWidth(v, next, text, ti, icase);
        case Literal(_) => NeedsWidth(v, next, text, ti + 1, icase);
        case Question => NeedsWidth(v, next, text, ti + 1, icase);
        case Bol =>
      }
    }
  }

  lemma {:induction false} WidthSplit(v: seq<Seg>, a: nat, n: nat)
    requires a <= n <= |v|
    ensures Width(v, a, |v|) == Width(v[..n], a, n) + Width(v, n, |v|)
    decreases n - a
  {
    if a < n {
      WidthSplit(v, a + 1, n);
    }
  }

  lemma {:induction false} WidthPositive(v: seq<Seg>, n: nat, i: nat)
    requires n <= i < |v| && (v[i].Literal? || v[i].Question?)
    ensures Width(v, n, |v|) > 0
    decreases i - n
  {
    if n < i {
      WidthPositive(v, n + 1, i);
    }
  }

  /** A dropped byte or wildcard: the shortest text of the rest is too short for the whole. */
  lemma DroppedTells(v: seq<Seg>, n: nat, i: nat, icase: bool)
    requires WellPlaced(v) && n <= i < |v| && (v[i].Literal? || v[i].Question?)
    ensures Matches(v[..n], Fill(v[..n]), icase) && !Matches(v, Fill(v[..n]), icase)
  {
    var kept := v[..n];
    SomeText(kept, icase);
    FillWidth(kept, 0);
    assert kept[0..] == kept;
    WidthSplit(v, 0, n);
    WidthPositive(v, n, i);
    if Matches(v, Fill(kept), icase) {
      NeedsWidth(v, 0, Fill(kept), 0, icase);
    }
  }

  /** With an end anchor, the last byte in front of trailing wildcards has its place. */
  lemma {:induction false} LastLiteral(v: seq<Seg>, l: nat, si: nat, text: Word, ti: nat, icase: bool)
    requires si <= l < |v| && v[l].Literal? && AllQuestions(v, l + 1) && ti <= |text|
    requires MatchAt(v + [Eol], si, text, ti, icase)
    ensures |v| - l <= |text| && FoldByte(text[|text| - (|v| - l)], icase) == FoldByte(v[l].ch, icase)
    decreases l - si
  {
    var all, next := v + [Eol], si + 1;
    assert all[si] == v[si];
    if si == l {
      QuestionsMatch(v, next, text, ti + 1, icase);
    } else {
      match v[si] {
        case Star =>
          var k :| ti <= k <= |text| && MatchAt(all, next, text, k, icase);
          LastLiteral(v, l, next, text, k, icase);
        case Eol => LastLiteral(v, l, next, text, ti, icase);
        case Literal(_) => LastLiteral(v, l, next, text, ti + 1, icase);
        case Question => LastLiteral(v, l, next, text, ti + 1, icase);
        case Bol =>
      }
    }
  }

  /** Where the trailing wildcards begin. */
  lemma {:induction false} TrailingFrom(v: seq<Seg>) returns (j: nat)
    ensures j <= |v| && AllQuestions(v, j) && (j > 0 ==> v[j - 1] != Question)
  {
    j := |v|;
    while j > 0 && v[j - 1] == Question
      invariant j <= |v| && AllQuestions(v, j)
    {
      j := j - 1;
    }
  }

  function OtherByte(c: Byte, icase: bool): (d: Byte)
    ensures FoldByte(d, icase) != FoldByte(c, icase)
  {
    if FoldByte(c, icase) == 48 then 49 else 48
  }

  /** A dropped end anchor that no star can reach: bytes behind the match tell. */
  lemma AnchorTells(v: seq<Seg>, icase: bool) returns (text: Word)
    requires WellPlaced(v) && Eol !in v && !StarTail(v)
    ensures Matches(v, text, icase) && !Matches(v + [Eol], text, icase)
  {
    var j := TrailingFrom(v);
    if j == 0 {
      text := Fill(v) + [48];
      FillWidth(v, 0);
      QuestionsMatch(v, 0, text, 0, icase);
      FillMatches(v, 0, [], [48], icase);
      assert v[0..] == v && [] + Fill(v) + [48] == text;
      NeedsWidth(v, 0, text, 0, icase);
      AllWide(v, 0);
    } else {
      var l := j - 1;
      assert v[l] in v && v[l] != Star && v[l].Literal?;
      var after := seq(|v| - l, _ => OtherByte(v[l].ch, icase));
      text := Fill(v) + after;
      FillMatches(v, 0, [], after, icase);
      assert v[0..] == v && [] + Fill(v) + after == text;
      assert text[|text| - (|v| - l)] == after[0];
      if Matches(v + [Eol], text, icase) {
        LastLiteral(v, l, 0, text, 0, icase);
      }
    }
  }

  lemma {:induction false} AllWide(v: seq<Seg>, n: nat)
    requires n <= |v| && AllQuestions(v, n)
    ensures Width(v, n, |v|) == |v| - n
    decreases |v| - n
  {
    if n < |v| {
      AllWide(v, n + 1);
    }
  }

  lemma EndsInStar(v: seq<Seg>)
    ensures v != [] && v[|v| - 1] == Star ==> StarTail(v)
  {
    assert AllQuestions(v, |v|);
  }

  /** Unless they are idle, some text shows that segments are missing. */
  lemma NotIdleTells(v: seq<Seg>, n: nat, icase: bool) returns (text: Word)
    requires WellPlaced(v) && n < |v| && !Idle(v, n)
    ensures Matches(v[..n], text, icase) && !Matches(v, text, icase)
  {
    if i :| n <= i < |v| && v[i] != Star && v[i] != Eol {
      assert v[i] != Bol;
      DroppedTells(v, n, i, icase);
      text := Fill(v[..n]);
    } else {
      var m := |v| - 1;
      assert v[m] == Eol && !StarTail(v[..m]);
      EndsInStar(v[..m]);
      assert v == v[..m] + [Eol];
      text := AnchorTells(v[..m], icase);
    }
  }

  /** Dropping the segments from n on changes no match if and only if they are idle. */
  lemma IdleExactly(v: seq<Seg>, n: nat, icase: bool)
    requires WellPlaced(v) && n < |v|
    ensures (forall text :: Matches(v[..n], text, icase) <==> Matches(v, text, icase)) <==> Idle(v, n)
  {
    if Idle(v, n) {
      forall text ensures Matches(v[..n], text, icase) <==> Matches(v, text, icase) {
        IdleSame(v, n, text, icase);
      }
    } else {
      var text := NotIdleTells(v, n, icase);
    }
  }

  // ----- patterns that match at the front whenever they match -----

  /** Single-byte wildcards in front, then a star or nothing. */
  ghost predicate FreeFront(v: seq<Seg>) {
    exists j: nat :: FreeUpTo(v, j)
  }

  ghost predicate FreeUpTo(v: seq<Seg>, j: nat) {
    j <= |v| && (forall i :: 0 <= i < j ==> v[i] == Question) && (j == |v| || v[j] == Star)
  }

  lemma {:induction false} FreeShift(v: seq<Seg>, j: nat, si: nat, text: Word, ti: nat, k: nat, icase: bool)
    requires FreeUpTo(v, j) && si <= j && ti <= k <= |text| && MatchAt(v, si, text, k, icase)
    ensures MatchAt(v, si, text, ti, icase)
    decreases j - si
  {
    var next := si + 1;
    if si < j {
      FreeShift(v, j, next, text, ti + 1, k + 1, icase);
    } else if si < |v| {
      var l :| k <= l <= |text| && MatchAt(v, next, text, l, icase);
    }
  }

  /** Behind wildcards the match goes on after as many bytes. */
  lemma {:induction false} BehindQuestions(v: seq<Seg>, j: nat, si: nat, text: Word, ti: nat, icase: bool)
    requires si <= j <= |v| && (forall i :: si <= i < j ==> v[i] == Question) && ti <= |text| && MatchAt(v, si, text, ti, icase)
    ensures ti + (j - si) <= |text| && MatchAt(v, j, text, ti + (j - si), icase)
    decreases j - si
  {
    if si < j {
      BehindQuestions(v, j, si + 1, text, ti + 1, icase);
    }
  }

  lemma LeadingQuestions(v: seq<Seg>) returns (j: nat)
    ensures j <= |v| && (forall i :: 0 <= i < j ==> v[i] == Question) && (j < |v| ==> v[j] != Question)
  {
    j := 0;
    while j < |v| && v[j] == Question
      invariant j <= |v| && forall i :: 0 <= i < j ==> v[i] == Question
    {
      j := j + 1;
    }
  }

  /** Otherwise some text is matched, but not from its start. */
  lemma LaterOnly(v: seq<Seg>, icase: bool) returns (text: Word)
    requires WellPlaced(v) && !FreeFront(v)
    ensures MatchFrom(v, 0, text, 0, icase) && !MatchAt(v, 0, text, 0, icase)
  {
    var j := LeadingQuestions(v);
    assert !FreeUpTo(v, j);
    var d := if v[j].Literal? then OtherByte(v[j].ch, icase) else 48;
    var before := seq(j + 1, _ => d);
    text := before + Fill(v);
    FillMatches(v, 0, before, [], icase);
    assert v[0..] == v && before + Fill(v) + [] == text;
    assert text[j] == d;
    if MatchAt(v, 0, text, 0, icase) {
      BehindQuestions(v, j, 0, text, 0, icase);
    }
  }

  /** A pattern matches at the front of every text it matches anywhere if and only if its front
      is free. */
  lemma FrontExactly(v: seq<Seg>, icase: bool)
    requires WellPlaced(v)
    ensures (forall text :: MatchFrom(v, 0, text, 0, icase) ==> MatchAt(v, 0, text, 0, icase)) <==> FreeFront(v)
  {
    if FreeFront(v) {
      var j :| FreeUpTo(v, j);
      forall text | MatchFrom(v, 0, text, 0, icase) ensures MatchAt(v, 0, text, 0, icase) {
        var k :| 0 <= k <= |text| && MatchAt(v, 0, text, k, icase);
        FreeShift(v, j, 0, text, 0, k, icase);
      }
    } else {
      var text := LaterOnly(v, icase);
    }
  }
}
