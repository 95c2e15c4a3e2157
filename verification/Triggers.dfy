/** The trigger set of ragel/trigger_match.c: add, remove, compile and search, and what a
    search reports over every run of them. */
module Triggers {
  import opened Bytes
  import opened Words
  import opened AhoCorasick
  import opened AhoBuild
  import opened AhoSearch
  import opened Glob
  import opened Patterns

  datatype Entry = Entry(id: int, pattern: seq<Byte>, icase: bool, active: bool)

  datatype GlobPattern = GlobPattern(id: int, icase: bool, segs: seq<Seg>, anchored: bool)

  // ----- which entry does what -----

  predicate IsLiteral(e: Entry) {
    e.active && !Parse(e.pattern).regex && !Parse(e.pattern).glob
  }

  predicate IsGlob(e: Entry) {
    e.active && !Parse(e.pattern).regex && Parse(e.pattern).glob
  }

  /** The bytes of a literal pattern. */
  function LiteralBytes(segs: seq<Seg>): Word {
    if segs == [] then []
    else (if segs[0].Literal? then [segs[0].ch] else []) + LiteralBytes(segs[1..])
  }

  /** The word an entry becomes: its literal, folded if the entry ignores case. */
  function Key(e: Entry): Word {
    Fold(LiteralBytes(Parse(e.pattern).segs), e.icase)
  }

  function GlobOf(e: Entry): GlobPattern {
    var segs := Parse(e.pattern).segs;
    if segs != [] && segs[0] == Bol then GlobPattern(e.id, e.icase, segs[1..], true)
    else GlobPattern(e.id, e.icase, segs, false)
  }

  // ----- what compiling the first n entries yields -----

  function DictOf(entries: seq<Entry>, n: nat): map<Word, int>
    requires n <= |entries|
  {
    if n == 0 then map[]
    else
      var d, e := DictOf(entries, n - 1), entries[n - 1];
      if IsLiteral(e) then d[Key(e) := e.id] else d
  }

  /** ts->ac_icase: the flag of the last literal. */
  function IcaseOf(entries: seq<Entry>, n: nat, icase: bool): bool
    requires n <= |entries|
  {
    if n == 0 then icase
    else if IsLiteral(entries[n - 1]) then entries[n - 1].icase
    else IcaseOf(entries, n - 1, icase)
  }

  function LiteralCount(entries: seq<Entry>, n: nat): nat
    requires n <= |entries|
  {
    if n == 0 then 0 else LiteralCount(entries, n - 1) + if IsLiteral(entries[n - 1]) then 1 else 0
  }

  function GlobsOf(entries: seq<Entry>, n: nat): seq<GlobPattern>
    requires n <= |entries|
  {
    if n == 0 then [] else GlobsOf(entries, n - 1) + if IsGlob(entries[n - 1]) then [GlobOf(entries[n - 1])] else []
  }

  /** What one more entry adds. */
  lemma CollectNext(entries: seq<Entry>, n: nat, icase: bool)
    requires n < |entries|
    ensures var e, p := entries[n], Parse(entries[n].pattern);
      if e.active && !p.regex && !p.glob then
        && DictOf(entries, n + 1) == DictOf(entries, n)[Fold(LiteralBytes(p.segs), e.icase) := e.id]
        && IcaseOf(entries, n + 1, icase) == e.icase && LiteralCount(entries, n + 1) == LiteralCount(entries, n) + 1
        && GlobsOf(entries, n + 1) == GlobsOf(entries, n)
      else
        && DictOf(entries, n + 1) == DictOf(entries, n) && IcaseOf(entries, n + 1, icase) == IcaseOf(entries, n, icase)
        && LiteralCount(entries, n + 1) == LiteralCount(entries, n)
        && GlobsOf(entries, n + 1) == GlobsOf(entries, n) + if e.active && !p.regex then [GlobOf(e)] else []
  {
    hide Parse, LiteralBytes, Fold;
  }

  /** Entry i is the last literal with its word, so the word carries its id. */
  ghost predicate Keeps(entries: seq<Entry>, n: nat, i: nat)
    requires n <= |entries|
  {
    i < n && IsLiteral(entries[i]) && forall j :: i < j < n && IsLiteral(entries[j]) ==> Key(entries[j]) != Key(entries[i])
  }

  lemma {:induction false} KeepsIsDict(entries: seq<Entry>, n: nat, i: nat)
    requires n <= |entries| && Keeps(entries, n, i)
    ensures Key(entries[i]) in DictOf(entries, n) && DictOf(entries, n)[Key(entries[i])] == entries[i].id
    decreases n
  {
    if i < n - 1 {
      KeepsIsDict(entries, n - 1, i);
    }
  }

  lemma {:induction false} DictIsKept(entries: seq<Entry>, n: nat, x: Word) returns (i: nat)
    requires n <= |entries| && x in DictOf(entries, n)
    ensures Keeps(entries, n, i) && Key(entries[i]) == x
    decreases n
  {
    if IsLiteral(entries[n - 1]) && Key(entries[n - 1]) == x {
      i := n - 1;
    } else {
      i := DictIsKept(entries, n - 1, x);
    }
  }

  lemma {:induction false} GlobsMembers(entries: seq<Entry>, n: nat, g: GlobPattern) returns (i: nat)
    requires n <= |entries| && g in GlobsOf(entries, n)
    ensures i < n && IsGlob(entries[i]) && GlobOf(entries[i]) == g
    decreases n
  {
    if IsGlob(entries[n - 1]) && g == GlobOf(entries[n - 1]) {
      i := n - 1;
    } else {
      i := GlobsMembers(entries, n - 1, g);
    }
  }

  lemma {:induction false} GlobsComplete(entries: seq<Entry>, n: nat, i: nat)
    requires n <= |entries| && i < n && IsGlob(entries[i])
    ensures GlobOf(entries[i]) in GlobsOf(entries, n)
    decreases n
  {
    if i < n - 1 {
      GlobsComplete(entries, n - 1, i);
    }
  }

  /** No two active entries share an id. */
  ghost predicate ActiveDistinct(entries: seq<Entry>) {
    forall i, j :: 0 <= i < j < |entries| && entries[i].active && entries[j].active ==> entries[i].id != entries[j].id
  }

  lemma {:induction false} GlobIdsDistinct(entries: seq<Entry>, n: nat)
    requires n <= |entries| && ActiveDistinct(entries)
    ensures forall a, b :: 0 <= a < b < |GlobsOf(entries, n)| ==> GlobsOf(entries, n)[a].id != GlobsOf(entries, n)[b].id
    decreases n
  {
    if n > 0 {
      GlobIdsDistinct(entries, n - 1);
      var gs := GlobsOf(entries, n - 1);
      forall a | 0 <= a < |gs| && IsGlob(entries[n - 1]) ensures gs[a].id != GlobOf(entries[n - 1]).id {
        var i := GlobsMembers(entries, n - 1, gs[a]);
      }
    }
  }

  // ----- what a search must report -----

  /** The case flag of the automaton. */
  function AcIcase(entries: seq<Entry>): bool {
    IcaseOf(entries, |entries|, false)
  }

  lemma {:induction false} IcaseSettled(entries: seq<Entry>, n: nat, icase: bool)
    requires n <= |entries| && LiteralCount(entries, n) > 0
    ensures IcaseOf(entries, n, icase) == IcaseOf(entries, n, false)
  {
    if !IsLiteral(entries[n - 1]) {
      IcaseSettled(entries, n - 1, icase);
    }
  }

  /** Entry i makes a search of this text report its id: a glob that matches, or a nonempty
      literal that no later literal displaces and whose word occurs in the text as folded for
      the automaton. */
  ghost predicate Fires(entries: seq<Entry>, i: nat, text: Word)
    requires i < |entries|
  {
    var e := entries[i];
    || (IsGlob(e) && Means(Parse(e.pattern), text, e.icase))
    || (Keeps(entries, |entries|, i) && Key(e) != [] && Occurs(Key(e), Fold(text, AcIcase(entries))))
  }

  /** offset is the last byte of the earliest-ending occurrence of x. */
  ghost predicate FirstEnd(x: Word, text: Word, offset: nat) {
    offset < |text| && Suffix(x, text[..offset + 1]) && forall n :: 0 < n <= offset ==> !Suffix(x, text[..n])
  }

  /** The offset reported with entry i: 0 for a glob, the end of the first occurrence otherwise. */
  ghost predicate Located(entries: seq<Entry>, i: nat, text: Word, offset: nat)
    requires i < |entries|
  {
    if IsGlob(entries[i]) then offset == 0 else FirstEnd(Key(entries[i]), Fold(text, AcIcase(entries)), offset)
  }

  ghost predicate Fired(entries: seq<Entry>, text: Word, h: Hit) {
    exists i :: 0 <= i < |entries| && Fires(entries, i, text) && entries[i].id == h.id && Located(entries, i, text, h.offset)
  }

  /** Every hit is an entry that fires, and no id is reported twice. */
  ghost predicate OnlyFired(entries: seq<Entry>, text: Word, hits: seq<Hit>) {
    && (forall k :: 0 <= k < |hits| ==> Fired(entries, text, hits[k]))
    && (forall j, k :: 0 <= j < k < |hits| ==> hits[j].id != hits[k].id)
  }

  ghost predicate AllFired(entries: seq<Entry>, text: Word, hits: seq<Hit>) {
    forall i :: 0 <= i < |entries| && Fires(entries, i, text) ==> Reported(hits, entries[i].id)
  }

  // ----- the automaton's part -----

  lemma EndsIsOccurs(x: Word, text: Word, i: nat)
    requires i < |text| && Suffix(x, text[..i + 1])
    ensures Occurs(x, text)
  {
    var k := i + 1 - |x|;
    assert text[..i + 1][k..] == text[k..i + 1];
    assert OccursAt(x, text, k);
  }

  lemma OccursEnds(x: Word, text: Word) returns (i: nat)
    requires Occurs(x, text) && x != []
    ensures i < |text| && Suffix(x, text[..i + 1])
  {
    var k: nat :| OccursAt(x, text, k);
    i := k + |x| - 1;
    assert text[..i + 1][k..] == text[k..i + 1];
  }

  /** The word that a hit stands for does not end earlier. */
  lemma EarliestWord(dict: map<Word, int>, text: Word, id: int, offset: nat) returns (x: Word)
    requires offset < |text| && Earliest(dict, text, id, offset)
    ensures x in dict && dict[x] == id && x != [] && FirstEnd(x, text, offset)
  {
    x :| Ends(Nonempty(dict), text[..offset + 1], x) && dict[x] == id;
    forall n | 0 < n <= offset ensures !Suffix(x, text[..n]) {
      var j := n - 1;
      assert !EndsAt(dict, text, id, j);
    }
  }

  lemma AcHitFires(entries: seq<Entry>, text: Word, h: Hit) returns (e: nat)
    requires h.offset < |text| && Earliest(DictOf(entries, |entries|), Fold(text, AcIcase(entries)), h.id, h.offset)
    ensures e < |entries| && Fires(entries, e, text) && IsLiteral(entries[e]) && entries[e].id == h.id
    ensures Located(entries, e, text, h.offset)
  {
    hide DictOf, Keeps, Occurs, Fold;
    var dict, folded := DictOf(entries, |entries|), Fold(text, AcIcase(entries));
    var x := EarliestWord(dict, folded, h.id, h.offset);
    EndsIsOccurs(x, folded, h.offset);
    e := DictIsKept(entries, |entries|, x);
    KeepsIsDict(entries, |entries|, e);
  }

  lemma LiteralIsHit(entries: seq<Entry>, text: Word, e: nat) returns (i: nat)
    requires e < |entries| && Fires(entries, e, text) && IsLiteral(entries[e])
    ensures i < |text| && EndsAt(DictOf(entries, |entries|), Fold(text, AcIcase(entries)), entries[e].id, i)
  {
    KeepsIsDict(entries, |entries|, e);
    i := OccursEnds(Key(entries[e]), Fold(text, AcIcase(entries)));
    assert Ends(Nonempty(DictOf(entries, |entries|)), Fold(text, AcIcase(entries))[..i + 1], Key(entries[e]));
  }

  /** After the automaton's part: the hits are literals that fire, and with room to spare no such
      literal is missing. */
  ghost predicate LiteralsDone(entries: seq<Entry>, text: Word, hits: seq<Hit>, max: int) {
    && OnlyFired(entries, text, hits) && |hits| <= max
    && (forall k, i :: 0 <= k < |hits| && 0 <= i < |entries| && IsGlob(entries[i]) ==> hits[k].id != entries[i].id)
    && (|hits| < max ==> forall i :: 0 <= i < |entries| && IsLiteral(entries[i]) && Fires(entries, i, text) ==> Reported(hits, entries[i].id))
  }

  lemma SearchedLiterals(entries: seq<Entry>, text: Word, hits: seq<Hit>, max: nat)
    requires ActiveDistinct(entries) && |hits| <= max
    requires Sound(DictOf(entries, |entries|), Fold(text, AcIcase(entries)), hits)
    requires |hits| < max ==> CompleteTo(DictOf(entries, |entries|), Fold(text, AcIcase(entries)), hits, |text|)
    ensures LiteralsDone(entries, text, hits, max)
  {
    var dict, folded := DictOf(entries, |entries|), Fold(text, AcIcase(entries));
    forall k | 0 <= k < |hits|
      ensures Fired(entries, text, hits[k])
      ensures forall i :: 0 <= i < |entries| && IsGlob(entries[i]) ==> hits[k].id != entries[i].id
    {
      assert Earliest(dict, folded, hits[k].id, hits[k].offset);
      var e := AcHitFires(entries, text, hits[k]);
    }
    if |hits| < max {
      forall i | 0 <= i < |entries| && IsLiteral(entries[i]) && Fires(entries, i, text) ensures Reported(hits, entries[i].id) {
        var j := LiteralIsHit(entries, text, i);
      }
    }
  }

  lemma NoLiterals(entries: seq<Entry>, text: Word, max: nat)
    requires LiteralCount(entries, |entries|) == 0
    ensures LiteralsDone(entries, text, [], max)
  {
    forall i | 0 <= i < |entries| ensures !IsLiteral(entries[i]) {
      NoLiteralAt(entries, |entries|, i);
    }
  }

  lemma {:induction false} NoLiteralAt(entries: seq<Entry>, n: nat, i: nat)
    requires i < n <= |entries| && LiteralCount(entries, n) == 0
    ensures !IsLiteral(entries[i])
    decreases n
  {
    if i < n - 1 {
      NoLiteralAt(entries, n - 1, i);
    }
  }

  // ----- the globs' part -----

  /** The globs before position g have been tried. */
  ghost predicate GlobsDone(entries: seq<Entry>, globs: seq<GlobPattern>, g: nat, text: Word, hits: seq<Hit>, max: int)
    requires g <= |globs|
  {
    && OnlyFired(entries, text, hits) && |hits| <= max
    && (forall k, a :: 0 <= k < |hits| && g <= a < |globs| ==> hits[k].id != globs[a].id)
    && (|hits| < max ==> forall i :: 0 <= i < |entries| && IsLiteral(entries[i]) && Fires(entries, i, text) ==> Reported(hits, entries[i].id))
    && (|hits| < max ==> forall a :: 0 <= a < g && GlobMatches(globs[a], text) ==> Reported(hits, globs[a].id))
  }

  ghost predicate GlobMatches(g: GlobPattern, text: Word) {
    MatchAt(if g.anchored then g.segs else [Star] + g.segs, 0, text, 0, g.icase)
  }

  lemma GlobMeans(e: Entry, text: Word)
    ensures GlobMatches(GlobOf(e), text) <==> Means(Parse(e.pattern), text, e.icase)
  {
  }

  lemma GlobsStart(entries: seq<Entry>, text: Word, hits: seq<Hit>, max: int)
    requires LiteralsDone(entries, text, hits, max)
    ensures GlobsDone(entries, GlobsOf(entries, |entries|), 0, text, hits, max)
  {
    var globs := GlobsOf(entries, |entries|);
    forall k, a | 0 <= k < |hits| && 0 <= a < |globs| ensures hits[k].id != globs[a].id {
      var i := GlobsMembers(entries, |entries|, globs[a]);
    }
  }

  lemma GlobsBounds(entries: seq<Entry>, globs: seq<GlobPattern>, g: nat, text: Word, hits: seq<Hit>, max: int)
    requires g <= |globs| && GlobsDone(entries, globs, g, text, hits, max)
    ensures |hits| <= max && OnlyFired(entries, text, hits)
  {
  }

  lemma GlobFired(entries: seq<Entry>, g: nat, text: Word)
    requires g < |GlobsOf(entries, |entries|)| && GlobMatches(GlobsOf(entries, |entries|)[g], text)
    ensures Fired(entries, text, Hit(GlobsOf(entries, |entries|)[g].id, 0))
  {
    hide GlobMatches;
    var globs := GlobsOf(entries, |entries|);
    var i := GlobsMembers(entries, |entries|, globs[g]);
    GlobMeans(entries[i], text);
    assert Fires(entries, i, text) && Located(entries, i, text, 0);
  }

  lemma GlobTried(entries: seq<Entry>, g: nat, text: Word, hits: seq<Hit>, max: int, found: bool)
    requires ActiveDistinct(entries) && g < |GlobsOf(entries, |entries|)| && |hits| < max
    requires GlobsDone(entries, GlobsOf(entries, |entries|), g, text, hits, max)
    requires found <==> GlobMatches(GlobsOf(entries, |entries|)[g], text)
    ensures var globs := GlobsOf(entries, |entries|);
      GlobsDone(entries, globs, g + 1, text, if found then hits + [Hit(globs[g].id, 0)] else hits, max)
  {
    hide Fires, Fired, GlobMatches, GlobsOf, Reported;
    var globs := GlobsOf(entries, |entries|);
    if found {
      var h := Hit(globs[g].id, 0);
      GlobFired(entries, g, text);
      GlobIdsDistinct(entries, |entries|);
      forall id ensures Reported(hits + [h], id) <==> Reported(hits, id) || id == h.id {
        ReportedAppend(hits, h, id);
      }
    }
  }

  lemma GlobsFinish(entries: seq<Entry>, text: Word, hits: seq<Hit>, max: int)
    requires GlobsDone(entries, GlobsOf(entries, |entries|), |GlobsOf(entries, |entries|)|, text, hits, max)
    ensures |hits| < max ==> AllFired(entries, text, hits)
  {
    if |hits| < max {
      forall i | 0 <= i < |entries| && Fires(entries, i, text) ensures Reported(hits, entries[i].id) {
        if IsGlob(entries[i]) {
          GlobsComplete(entries, |entries|, i);
          GlobMeans(entries[i], text);
        }
      }
    }
  }

  // ----- the set -----

  /** The position of the active entry with this id, or the number of entries. */
  function ActiveAt(entries: seq<Entry>, id: int, from: nat): (i: nat)
    requires from <= |entries|
    ensures i <= |entries|
    ensures i < |entries| ==> from <= i && entries[i].id == id && entries[i].active
    ensures forall j :: from <= j < i ==> !(entries[j].id == id && entries[j].active)
    decreases |entries| - from
  {
    if from == |entries| then from
    else if entries[from].id == id && entries[from].active then from
    else ActiveAt(entries, id, from + 1)
  }

  /** The table after trigger_set_add: an active entry with the id is replaced in place, else a
      new one is appended. Slots of removed entries are not used again. */
  function Added(entries: seq<Entry>, id: int, pattern: seq<Byte>, icase: bool): seq<Entry> {
    var i := ActiveAt(entries, id, 0);
    if i < |entries| then entries[i := Entry(id, pattern, icase, true)]
    else entries + [Entry(id, pattern, icase, true)]
  }

  predicate CanAdd(entries: seq<Entry>, id: int) {
    0 <= id < TRIGGER_MAX && (ActiveAt(entries, id, 0) < |entries| || |entries| < TRIGGER_MAX)
  }

  function Removed(entries: seq<Entry>, id: int): seq<Entry> {
    var i := ActiveAt(entries, id, 0);
    if i < |entries| then entries[i := entries[i].(active := false)] else entries
  }

  ghost predicate ValidEntries(entries: seq<Entry>) {
    && |entries| <= TRIGGER_MAX && ActiveDistinct(entries)
    && forall i :: 0 <= i < |entries| ==> 0 <= entries[i].id < TRIGGER_MAX
  }

  lemma AddedValid(entries: seq<Entry>, id: int, pattern: seq<Byte>, icase: bool)
    requires ValidEntries(entries) && CanAdd(entries, id)
    ensures ValidEntries(Added(entries, id, pattern, icase))
  {
  }

  lemma RemovedValid(entries: seq<Entry>, id: int)
    requires ValidEntries(entries)
    ensures ValidEntries(Removed(entries, id))
  {
  }

  lemma {:induction false} DictIds(entries: seq<Entry>, n: nat)
    requires n <= |entries| && ValidEntries(entries)
    ensures Ids(DictOf(entries, n))
  {
    if n > 0 {
      DictIds(entries, n - 1);
    }
  }

  class TriggerSet {
    var entries: seq<Entry>
    var ac: Machine
    var acIcase: bool
    var acCount: nat
    var globs: seq<GlobPattern>
    var compiled: bool

    ghost predicate Valid()
      reads this, ac
    {
      ValidEntries(entries) && (compiled ==> Compiled())
    }

    /** The compiled parts belong to the entries as they are now. */
    ghost predicate Compiled()
      reads this, ac
    {
      && acCount == LiteralCount(entries, |entries|) && globs == GlobsOf(entries, |entries|)
      && (acCount > 0 ==> ac.IsAutomaton() && ac.dict == DictOf(entries, |entries|) && acIcase == AcIcase(entries))
    }

    constructor ()
      ensures Valid() && fresh(ac) && entries == [] && !compiled
    {
      entries, acIcase, acCount, globs, compiled := [], false, 0, [], false;
      ac := new Machine();
    }

    /** The linear search shared by add and remove. */
    method FindActive(id: int) returns (i: nat)
      ensures i == ActiveAt(entries, id, 0)
    {
      i := 0;
      while i < |entries| && !(entries[i].id == id && entries[i].active)
        invariant i <= |entries| && ActiveAt(entries, id, 0) == ActiveAt(entries, id, i)
      {
        i := i + 1;
      }
    }

    /** trigger_set_add: -1 and no change for a bad id or a full table. */
    method Add(id: int, pattern: seq<Byte>, icase: bool) returns (rc: int)
      requires Valid()
      modifies this
      ensures Valid() && ac == old(ac)
      ensures if CanAdd(old(entries), id) then rc == 0 && entries == Added(old(entries), id, pattern, icase) && !compiled
              else rc == -1 && entries == old(entries) && compiled == old(compiled)
    {
      if id < 0 || id >= TRIGGER_MAX {
        return -1;
      }
      var i := FindActive(id);
      if i < |entries| {
        AddedValid(entries, id, pattern, icase);
        entries := entries[i := Entry(id, pattern, icase, true)];
      } else if |entries| >= TRIGGER_MAX {
        return -1;
      } else {
        AddedValid(entries, id, pattern, icase);
        entries := entries + [Entry(id, pattern, icase, true)];
      }
      compiled := false;
      return 0;
    }

    /** trigger_set_remove */
    method Remove(id: int) returns (rc: int)
      requires Valid()
      modifies this
      ensures Valid() && ac == old(ac) && entries == Removed(old(entries), id)
      ensures rc == if ActiveAt(old(entries), id, 0) < |old(entries)| then 0 else -1
      ensures compiled == (old(compiled) && rc == -1)
    {
      var i := FindActive(id);
      if i == |entries| {
        return -1;
      }
      RemovedValid(entries, id);
      entries := entries[i := entries[i].(active := false)];
      compiled := false;
      return 0;
    }

    /** The compiled parts so far belong to the first n entries. */
    ghost predicate Collected(n: nat, was: bool)
      reads this, ac
      requires n <= |entries|
    {
      && ac.IsTrie() && ac.dict == DictOf(entries, n) && acIcase == IcaseOf(entries, n, was)
      && acCount == LiteralCount(entries, n) && globs == GlobsOf(entries, n)
    }

    /** A literal becomes a word of the automaton. */
    method CompileLiteral(e: Entry, segs: seq<Seg>)
      requires ac.IsTrie() && e.id >= 0
      modifies this`acIcase, this`acCount, ac
      ensures ac.IsTrie() && ac.dict == old(ac.dict)[Fold(LiteralBytes(segs), e.icase) := e.id]
      ensures acIcase == e.icase && acCount == old(acCount) + 1
    {
      hide *;
      var literal := CollectLiterals(segs);
      ac.Insert(literal, e.id, e.icase);
      acIcase := e.icase;
      acCount := acCount + 1;
    }

    /** One entry goes to the automaton, to the list of globs, or nowhere. */
    method CompileEntry(i: nat, ghost was: bool)
      requires i < |entries| && entries[i].id >= 0 && Collected(i, was)
      modifies this`acIcase, this`acCount, this`globs, ac
      ensures Collected(i + 1, was)
    {
      var e := entries[i];
      CollectNext(entries, i, was);
      hide *;
      if e.active {
        var p := ParsePattern(e.pattern);
        if !p.regex {
          if !p.glob {
            CompileLiteral(e, p.segs);
          } else {
            globs := globs + [GlobOf(e)];
          }
        }
      }
    }

    /** Tear down the previous compilation and collect every entry. */
    method CollectAll()
      requires forall i :: 0 <= i < |entries| ==> entries[i].id >= 0
      modifies this`ac, this`acIcase, this`acCount, this`globs
      ensures fresh(ac) && Collected(|entries|, old(acIcase))
    {
      ghost var was := acIcase;
      StartOver();
      var i := 0;
      while i < |entries|
        invariant i <= |entries| && fresh(ac) && Collected(i, was)
      {
        hide *;
        CompileEntry(i, was);
        i := i + 1;
      }
    }

    /** Nothing is left of an earlier compilation; the automaton has its root only. */
    method StartOver()
      modifies this`ac, this`acCount, this`globs
      ensures fresh(ac) && Collected(0, acIcase)
    {
      ac := new Machine();
      globs, acCount := [], 0;
      hide Trie, Labelled, Unlinked;
    }

    /** trigger_set_compile */
    method Compile()
      requires Valid()
      modifies this
      ensures Valid() && entries == old(entries) && compiled && fresh(ac)
    {
      hide DictOf, IcaseOf, LiteralCount, GlobsOf, Trie, Labelled, Unlinked, Automaton;
      CollectAll();
      if acCount > 0 {
        IcaseSettled(entries, |entries|, old(acIcase));
        var _ := Build(ac);
      }
      compiled := true;
    }

    /** trigger_set_search: nothing unless compiled since the last change. */
    method Search(text: Word, max: int) returns (hits: seq<Hit>)
      requires Valid()
      ensures !compiled || max <= 0 ==> hits == []
      ensures OnlyFired(entries, text, hits) && (max > 0 ==> |hits| <= max)
      ensures compiled && |hits| < max ==> AllFired(entries, text, hits)
    {
      hide AllFired, LiteralCount, GlobsOf, DictOf, IcaseOf, Automaton, Fired, LiteralsDone, GlobsDone, ActiveDistinct;
      hits := [];
      if !compiled || max <= 0 {
        return;
      }
      hits := SearchLiterals(text, max);
      GlobsStart(entries, text, hits, max);
      GlobsBounds(entries, GlobsOf(entries, |entries|), 0, text, hits, max);
      var g := 0;
      while g < |globs| && |hits| < max
        invariant g <= |globs| && |hits| <= max && OnlyFired(entries, text, hits)
        invariant |hits| <= max ==> GlobsDone(entries, GlobsOf(entries, |entries|), g, text, hits, max)
      {
        var found := GlobSearch(globs[g].segs, globs[g].anchored, text, globs[g].icase);
        GlobTried(entries, g, text, hits, max, found);
        if found {
          hits := hits + [Hit(globs[g].id, 0)];
        }
        g := g + 1;
        GlobsBounds(entries, GlobsOf(entries, |entries|), g, text, hits, max);
      }
      if |hits| < max {
        GlobsFinish(entries, text, hits, max);
      }
    }

    /** The automaton's part, if there is a literal at all. */
    method SearchLiterals(text: Word, max: nat) returns (hits: seq<Hit>)
      requires Valid() && compiled && max > 0
      ensures LiteralsDone(entries, text, hits, max)
    {
      hide LiteralCount, GlobsOf, DictOf, IcaseOf, Fold, Sound, CompleteTo, NonePassed, Automaton, LiteralsDone, Ids;
      hits := [];
      if acCount > 0 {
        DictIds(entries, |entries|);
        hits := AhoSearch.Search(ac, text, acIcase, max);
        SearchedLiterals(entries, text, hits, max);
      } else {
        NoLiterals(entries, text, max);
      }
    }
  }

  /** The copy of the literal bytes into `lit`. */
  method CollectLiterals(segs: seq<Seg>) returns (literal: Word)
    ensures literal == LiteralBytes(segs)
  {
    literal := [];
    var j := 0;
    assert segs[0..] == segs;
    while j < |segs|
      invariant j <= |segs| && literal + LiteralBytes(segs[j..]) == LiteralBytes(segs)
    {
      if segs[j].Literal? {
        literal := literal + [segs[j].ch];
      }
      j := j + 1;
    }
  }
}
