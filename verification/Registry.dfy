/** Runs of the trigger set of ragel/trigger_match.c against the plain idea of it: a book that
    holds one rule for each id, and counts the slots that were used up. */
module Registry {
  import opened Bytes
  import opened Words
  import opened AhoSearch
  import opened Patterns
  import opened Readings
  import opened Triggers
  import opened TriggerRuns
  import opened Spellings

  datatype Rule = Rule(pattern: seq<Byte>, icase: bool)

  datatype Book = Book(rules: map<int, Rule>, slots: nat)

  /** A new id takes one of 256 slots for good; an id that has a rule keeps its slot. */
  function Keeping(b: Book, op: Op): Book {
    match op
    case Add(id, pattern, icase) =>
      if Takes(b, id) then Book(b.rules[id := Rule(pattern, icase)], if id in b.rules then b.slots else b.slots + 1) else b
    case Remove(id) => b.(rules := b.rules - {id})
    case _ => b
  }

  predicate Takes(b: Book, id: int) {
    0 <= id < 256 && (id in b.rules || b.slots < 256)
  }

  function BookOf(ops: seq<Op>): Book {
    if ops == [] then Book(map[], 0) else Keeping(BookOf(ops[..|ops| - 1]), ops[|ops| - 1])
  }

  /** The active entries are the rules. */
  ghost predicate Shows(entries: seq<Entry>, b: Book) {
    && |entries| == b.slots
    && (forall i :: 0 <= i < |entries| && entries[i].active ==>
          entries[i].id in b.rules && b.rules[entries[i].id] == Rule(entries[i].pattern, entries[i].icase))
    && (forall id :: id in b.rules ==> Present(entries, id))
  }

  ghost predicate Present(entries: seq<Entry>, id: int) {
    exists i :: 0 <= i < |entries| && IsAt(entries, i, id)
  }

  ghost predicate IsAt(entries: seq<Entry>, i: nat, id: int)
    requires i < |entries|
  {
    entries[i].active && entries[i].id == id
  }

  lemma ActiveIsRule(entries: seq<Entry>, b: Book, id: int)
    requires Shows(entries, b)
    ensures ActiveAt(entries, id, 0) < |entries| <==> id in b.rules
  {
    var k := ActiveAt(entries, id, 0);
    if k < |entries| {
      assert IsAt(entries, k, id);
    }
    if id in b.rules {
      var i :| 0 <= i < |entries| && IsAt(entries, i, id);
    }
  }

  lemma AddShows(entries: seq<Entry>, b: Book, id: int, pattern: seq<Byte>, icase: bool)
    requires Shows(entries, b) && ActiveDistinct(entries) && CanAdd(entries, id)
    ensures Shows(Added(entries, id, pattern, icase), Book(b.rules[id := Rule(pattern, icase)], if id in b.rules then b.slots else b.slots + 1))
  {
    ActiveIsRule(entries, b, id);
    var k, after, rules := ActiveAt(entries, id, 0), Added(entries, id, pattern, icase), b.rules[id := Rule(pattern, icase)];
    forall x | x in rules ensures Present(after, x) {
      if x == id {
        assert IsAt(after, k, id);
      } else {
        var i :| 0 <= i < |entries| && IsAt(entries, i, x);
        assert IsAt(after, i, x);
      }
    }
  }

  lemma RemoveShows(entries: seq<Entry>, b: Book, id: int)
    requires Shows(entries, b) && ActiveDistinct(entries)
    ensures Shows(Removed(entries, id), b.(rules := b.rules - {id}))
  {
    ActiveIsRule(entries, b, id);
    var k, after := ActiveAt(entries, id, 0), Removed(entries, id);
    forall x | x in b.rules - {id} ensures Present(after, x) {
      var i :| 0 <= i < |entries| && IsAt(entries, i, x);
      assert IsAt(after, i, x);
    }
  }

  /** The operation alters the table exactly when it alters the book, or writes a rule anew. */
  predicate Accepted(b: Book, op: Op) {
    match op
    case Add(id, _, _) => Takes(b, id)
    case Remove(id) => id in b.rules
    case _ => false
  }

  lemma AltersShown(s: State, b: Book, op: Op)
    requires Shows(s.entries, b)
    ensures Alters(s, op) <==> Accepted(b, op)
    ensures !Accepted(b, op) ==> Keeping(b, op) == b
  {
    match op {
      case Add(id, _, _) => ActiveIsRule(s.entries, b, id);
      case Remove(id) =>
        ActiveIsRule(s.entries, b, id);
        assert id !in b.rules ==> b.rules - {id} == b.rules;
      case _ =>
    }
  }

  /** Over every run the active entries are the book's rules: an added rule is there with its
      pattern and flag, a removed one is gone, and no operation touches another's. */
  lemma {:induction false} RunShowsBook(ops: seq<Op>)
    ensures Shows(After(ops).entries, BookOf(ops))
  {
    if ops != [] {
      var front, op := ops[..|ops| - 1], ops[|ops| - 1];
      var s, b := After(front), BookOf(front);
      RunShowsBook(front);
      RunsStayValid(front);
      AltersShown(s, b, op);
      hide Shows, Added, Removed, Alters;
      match op {
        case Add(id, pattern, icase) => if Accepted(b, op) { CanAddIs(s, op); AddShows(s.entries, b, id, pattern, icase); }
        case Remove(id) => RemoveShows(s.entries, b, id);
        case _ =>
      }
    }
  }

  lemma CanAddIs(s: State, op: Op)
    requires op.Add?
    ensures Alters(s, op) <==> CanAdd(s.entries, op.id)
  {
  }

  lemma AltersExactly(ops: seq<Op>, op: Op)
    ensures Alters(After(ops), op) <==> Accepted(BookOf(ops), op)
  {
    RunShowsBook(ops);
    AltersShown(After(ops), BookOf(ops), op);
  }

  /** In the table one accepted add writes a single slot: that of the id, or a new one behind all
      others. */
  lemma AddWrites(ops: seq<Op>, id: int, pattern: seq<Byte>, icase: bool) returns (k: nat)
    requires Takes(BookOf(ops), id)
    ensures var before, after := After(ops).entries, After(ops + [Add(id, pattern, icase)]).entries;
      && k < |after| && after[k] == Entry(id, pattern, icase, true)
      && (if id in BookOf(ops).rules then |after| == |before| && before[k].active && before[k].id == id
          else |after| == |before| + 1 && k == |before|)
      && forall i :: 0 <= i < |before| && i != k ==> after[i] == before[i]
  {
    var op := Add(id, pattern, icase);
    RunShowsBook(ops);
    AltersExactly(ops, op);
    assert (ops + [op])[..|ops|] == ops;
    ActiveIsRule(After(ops).entries, BookOf(ops), id);
    k := ActiveAt(After(ops).entries, id, 0);
    hide Shows, Takes;
  }

  /** One remove ends the entry with the id, and nothing else changes. */
  lemma RemoveEnds(ops: seq<Op>, id: int)
    ensures var before, after := After(ops).entries, After(ops + [Remove(id)]).entries;
      && |after| == |before|
      && forall i :: 0 <= i < |before| ==>
           after[i] == if before[i].active && before[i].id == id then Entry(id, before[i].pattern, before[i].icase, false) else before[i]
  {
    assert (ops + [Remove(id)])[..|ops|] == ops;
    RunsStayValid(ops);
  }

  /** Whatever a search reports has a rule. */
  lemma OnlyRules(ops: seq<Op>, text: Word, max: int, hits: seq<Hit>, id: int)
    requires Answer(After(ops), text, max, hits) && Reported(hits, id)
    ensures id in BookOf(ops).rules
  {
    RunShowsBook(ops);
    var entries := After(ops).entries;
    hide After;
    var k :| 0 <= k < |hits| && hits[k].id == id;
    assert Fired(entries, text, hits[k]);
    var i :| 0 <= i < |entries| && Fires(entries, i, text) && entries[i].id == id && Located(entries, i, text, hits[k].offset);
    FiresActive(entries, i, text);
    hide Shows;
  }

  lemma FiresActive(entries: seq<Entry>, i: nat, text: Word)
    requires i < |entries| && Fires(entries, i, text)
    ensures entries[i].active
  {
    hide Parse;
  }

  /** The rule for the id says that some stretch of the text can be cut into its pieces. */
  ghost predicate RuleMatches(b: Book, id: int, text: Word) {
    && id in b.rules && IsPlain(Atoms(b.rules[id].pattern))
    && exists cuts :: Spells(Atoms(b.rules[id].pattern), text, cuts, b.rules[id].icase)
  }

  /** After any run that ended compiled, when every entry can be trusted, a search with room to
      spare reports exactly the ids whose rules match. */
  lemma RunIsIdeal(ops: seq<Op>, text: Word, max: int, hits: seq<Hit>, id: int)
    requires After(ops).compiled && Answer(After(ops), text, max, hits) && |hits| < max
    requires forall i :: 0 <= i < |After(ops).entries| ==> Sure(After(ops).entries, i)
    ensures Reported(hits, id) <==> RuleMatches(BookOf(ops), id, text)
  {
    var s, b := After(ops), BookOf(ops);
    RunShowsBook(ops);
    SearchIsIdeal(s, text, max, hits, id);
    hide After, BookOf, Answer, Sure, Reported, Atoms, IsPlain, Ideal;
    forall i | 0 <= i < |s.entries| && s.entries[i].id == id && s.entries[i].active
      ensures Ideal(s.entries[i], text) <==> RuleMatches(b, id, text)
    {
      IdealExactly(s.entries[i], text);
    }
    forall i | 0 <= i < |s.entries| && Ideal(s.entries[i], text) ensures s.entries[i].active {
      IdealExactly(s.entries[i], text);
    }
    if RuleMatches(b, id, text) {
      var i :| 0 <= i < |s.entries| && IsAt(s.entries, i, id);
      assert Ideal(s.entries[i], text);
    }
  }
}
