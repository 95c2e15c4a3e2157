/** The case-mapping tables: utf/strings.cpp builds them with the default flag, the co_dfa
    functions of utf/unicode_tables_c_postamble.h look a code point up, and mux/lib/color_ops.c
    applies what they return. An entry is a replacement text, or bytes to XOR with the source
    when both have the same length. */
module CaseMaps {
  import opened Counting
  import opened Bytes
  import opened Trie
  import opened RunLength
  import opened Tables
  import opened Passes
  import opened Compiler
  import opened StateMachines
  import opened Utf
  import opened Transcoding

  const TABLESIZE := 40000
  const MAX_POINTS := 10

  // ----- bytewise exclusive or -----

  /** The lowest bit of a ^ b. */
  function Odd(a: nat, b: nat): (bit: nat)
    ensures bit < 2
  {
    if a % 2 == b % 2 then 0 else 1
  }

  /** The low n bits of a ^ b. */
  function XorBits(a: nat, b: nat, n: nat): (r: nat)
  {
    if n == 0 then 0 else Odd(a, b) + 2 * XorBits(a / 2, b / 2, n - 1)
  }

  lemma LowBit(bit: nat, rest: nat)
    requires bit < 2
    ensures (bit + 2 * rest) / 2 == rest && (bit + 2 * rest) % 2 == bit
  {
  }

  lemma {:induction false} XorInvolution(a: nat, b: nat, n: nat)
    requires b < Pow2(n)
    ensures XorBits(a, b, n) < Pow2(n) && XorBits(a, XorBits(a, b, n), n) == b
  {
    if n > 0 {
      XorInvolution(a / 2, b / 2, n - 1);
      var bit, rest := Odd(a, b), XorBits(a / 2, b / 2, n - 1);
      LowBit(bit, rest);
      assert XorBits(a, bit + 2 * rest, n) == Odd(a, bit + 2 * rest) + 2 * (b / 2);
    }
  }

  /** Bit k of a number. */
  function BitOf(a: nat, k: nat): nat
    decreases k
  {
    if k == 0 then a % 2 else BitOf(a / 2, k - 1)
  }

  /** A bit is set exactly where one of the two numbers has it and the other has not. */
  lemma {:induction false} XorBitwise(a: nat, b: nat, n: nat, k: nat)
    ensures BitOf(XorBits(a, b, n), k) == if k < n && BitOf(a, k) + BitOf(b, k) == 1 then 1 else 0
    decreases n
  {
    if n == 0 {
      ZeroBits(k);
    } else {
      LowBit(Odd(a, b), XorBits(a / 2, b / 2, n - 1));
      if k > 0 {
        XorBitwise(a / 2, b / 2, n - 1, k - 1);
      }
    }
  }

  lemma {:induction false} ZeroBits(k: nat)
    ensures BitOf(0, k) == 0
  {
    if k > 0 {
      ZeroBits(k - 1);
    }
  }

  /** Exclusive or with nothing keeps a number, and with itself leaves nothing. */
  lemma {:induction false} XorSelf(a: nat, n: nat)
    requires a < Pow2(n)
    ensures XorBits(a, 0, n) == a && XorBits(a, a, n) == 0
  {
    if n > 0 {
      XorSelf(a / 2, n - 1);
    }
  }

  function Xor(a: Byte, b: Byte): Byte {
    XorInvolution(a, b, 8);
    assert Pow2(8) == 256;
    XorBits(a, b, 8)
  }

  /** The two cases of a letter differ in one bit. */
  lemma XorOfCases()
    ensures Xor(65, 97) == 32 && Xor(97, 65) == 32
  {
    assert XorBits(1, 1, 2) == 0 && XorBits(4, 6, 4) == 2 && XorBits(6, 4, 4) == 2;
    assert XorBits(16, 24, 6) == 8 && XorBits(24, 16, 6) == 8;
    assert XorBits(65, 97, 8) == 2 * XorBits(32, 48, 7) == 4 * XorBits(16, 24, 6);
    assert XorBits(97, 65, 8) == 2 * XorBits(48, 32, 7) == 4 * XorBits(24, 16, 6);
  }

  lemma XorUndoes(a: Byte, b: Byte)
    ensures Xor(a, Xor(a, b)) == b
  {
    assert Pow2(8) == 256;
    XorInvolution(a, b, 8);
  }

  function XorBytes(a: seq<Byte>, b: seq<Byte>): (r: seq<Byte>)
    requires |a| == |b|
    ensures |r| == |a|
  {
    seq(|a|, i requires 0 <= i < |a| => Xor(a[i], b[i]))
  }

  lemma XorBytesUndoes(a: seq<Byte>, b: seq<Byte>)
    requires |a| == |b|
    ensures XorBytes(a, XorBytes(a, b)) == b
  {
    forall i | 0 <= i < |a| ensures XorBytes(a, XorBytes(a, b))[i] == b[i] {
      XorUndoes(a[i], b[i]);
    }
  }

  // ----- the input -----

  /** One line of the input file: a code point and the code points it maps to. */
  datatype Mapping = Mapping(cp: int, mapped: seq<int>) {
    /** Both sides can be converted, so the line is loaded. */
    ghost predicate Counts() {
      0 <= cp <= UNI_MAX_LEGAL_UTF32 && AllLegal(mapped)
    }
  }

  ghost predicate AllLegal(points: seq<int>) {
    forall i :: 0 <= i < |points| ==> 0 <= points[i] <= UNI_MAX_LEGAL_UTF32
  }

  function EncodeAll(points: seq<CodePoint>): seq<Byte> {
    if points == [] then [] else Encode(points[0]) + EncodeAll(points[1..])
  }

  const LENIENT := Converter(Utf32To8, false)

  /** With room for four bytes a character, lenient conversion succeeds exactly on legal code
      points, and then writes their encodings. */
  lemma {:induction false} LenientConverts(points: seq<int>, room: nat)
    requires 4 * |points| <= room
    ensures var r := Convert(LENIENT, points, Units(room));
      && (r.Result() == Ok <==> AllLegal(points))
      && r.status == Ok && (AllLegal(points) ==> r.out == EncodeAll(points))
    decreases |points|
  {
    if points != [] {
      var s := Next(LENIENT, points);
      assert 1 <= |s.units| <= 4 && s.take == 1;
      LenientConverts(points[1..], room - |s.units|);
      assert AllLegal(points) <==> 0 <= points[0] <= UNI_MAX_LEGAL_UTF32 && AllLegal(points[1..]);
    }
  }

  // ----- the output tables -----

  /** The linear search with memcmp. */
  method Find(table: seq<seq<Byte>>, s: seq<Byte>) returns (i: nat)
    ensures i <= |table| && (i < |table| ==> table[i] == s) && (i == |table| ==> s !in table)
  {
    i := 0;
    while i < |table|
      invariant i <= |table| && forall x :: 0 <= x < i ==> table[x] != s
    {
      if table[i] == s {
        return;
      }
      i := i + 1;
    }
  }

  /** aLiteralTable and aXorTable. */
  datatype Outputs = Outputs(literals: seq<seq<Byte>>, xors: seq<seq<Byte>>) {
    function Size(): nat {
      |literals| + |xors|
    }

    /** What an accepting state stands for: 0 is the default, then the literals, then the XORs. */
    function Apply(state: nat, source: seq<Byte>): seq<Byte>
      requires state <= Size()
    {
      if state == 0 then source
      else
        var desc := (literals + xors)[state - 1];
        if state < |literals| + 1 then desc
        else if |desc| != |source| then source
        else XorBytes(source, desc)
    }

    /** The table row that turns source into image is there. */
    ghost predicate Covers(source: seq<Byte>, image: seq<Byte>) {
      if |source| != |image| then image in literals else XorBytes(source, image) in xors
    }
  }

  /** One line of BuildOutputTable: add the literal or the XOR unless it is there already. */
  method AddOutput(o: Outputs, source: seq<Byte>, image: seq<Byte>) returns (o': Outputs)
    ensures o'.Covers(source, image) && o.literals <= o'.literals && o.xors <= o'.xors
    ensures o'.Size() <= o.Size() + 1
  {
    o' := o;
    if |source| != |image| {
      var i := Find(o.literals, image);
      if i == |o.literals| {
        o' := o.(literals := o.literals + [image]);
      }
    } else {
      var x := XorBytes(source, image);
      var i := Find(o.xors, x);
      if i == |o.xors| {
        o' := o.(xors := o.xors + [x]);
      }
    }
  }

  /** The accepting state LoadStrings records: found in the tables, and it makes the runtime
      rule reproduce the image. */
  method ChooseState(o: Outputs, source: seq<Byte>, image: seq<Byte>) returns (state: nat)
    requires o.Covers(source, image)
    ensures 0 < state <= o.Size() && o.Apply(state, source) == image
  {
    if |source| != |image| {
      var i := Find(o.literals, image);
      state := 1 + i;
    } else {
      var x := XorBytes(source, image);
      var i := Find(o.xors, x);
      state := 1 + |o.literals| + i;
      XorBytesUndoes(source, image);
    }
  }

  method ConvertLine(m: Mapping) returns (ok: bool, source: seq<Byte>, image: seq<Byte>)
    requires |m.mapped| <= MAX_POINTS
    ensures ok <==> m.Counts()
    ensures ok ==> source == Encode(m.cp) && image == EncodeAll(m.mapped)
  {
    source, image := [], [];
    LenientConverts([m.cp], 4);
    LenientConverts(m.mapped, 49);
    assert AllLegal([m.cp]) <==> 0 <= m.cp <= UNI_MAX_LEGAL_UTF32;
    assert AllLegal([m.cp]) ==> EncodeAll([m.cp]) == Encode(m.cp);
    var r1, _, a := Transcode(LENIENT, [m.cp], 4);
    var r2, _, b := Transcode(LENIENT, m.mapped, 49);
    ok := r1 == Ok && r2 == Ok;
    if ok {
      source, image := a, b;
    }
  }

  /** Every line that counts has its row. */
  ghost predicate AllCovered(maps: seq<Mapping>, o: Outputs) {
    forall i :: 0 <= i < |maps| && maps[i].Counts() ==> o.Covers(Encode(maps[i].cp), EncodeAll(maps[i].mapped))
  }

  method BuildOutputTable(maps: seq<Mapping>) returns (ok: bool, o: Outputs)
    requires forall i :: 0 <= i < |maps| ==> |maps[i].mapped| <= MAX_POINTS
    ensures ok ==> AllCovered(maps, o) && o.Size() <= |maps|
    ensures !ok ==> 40000 <= |maps|
  {
    o := Outputs([], []);
    for i := 0 to |maps|
      invariant AllCovered(maps[..i], o) && o.Size() <= i
    {
      var converts, source, image := ConvertLine(maps[i]);
      ghost var before := o;
      if converts {
        o := AddOutput(o, source, image);
        if TABLESIZE <= |o.literals| || TABLESIZE <= |o.xors| {
          return false, o;
        }
      }
      forall x | 0 <= x < i + 1 && maps[x].Counts() ensures o.Covers(Encode(maps[x].cp), EncodeAll(maps[x].mapped)) {
        if x < i {
          assert maps[x] == maps[..i][x];
          CoversGrows(before, o, Encode(maps[x].cp), EncodeAll(maps[x].mapped));
        }
      }
    }
    assert maps[..|maps|] == maps;
    ok := true;
  }

  lemma CoversGrows(o: Outputs, o': Outputs, source: seq<Byte>, image: seq<Byte>)
    requires o.Covers(source, image) && o.literals <= o'.literals && o.xors <= o'.xors
    ensures o'.Covers(source, image)
  {
    if |source| != |image| {
      var i :| 0 <= i < |o.literals| && o.literals[i] == image;
      assert o'.literals[i] == image;
    } else {
      var i :| 0 <= i < |o.xors| && o.xors[i] == XorBytes(source, image);
      assert o'.xors[i] == XorBytes(source, image);
    }
  }

  /** The entry recorded for a line. */
  ghost predicate EntryFor(m: Mapping, e: Entry, o: Outputs) {
    && m.Counts() && e.key == Encode(m.cp) && 0 < e.value <= o.Size()
    && o.Apply(e.value, Encode(m.cp)) == EncodeAll(m.mapped)
  }

  /** entries[x] is recorded for line pos[x], and no line that counts is skipped. */
  ghost predicate EntriesFor(maps: seq<Mapping>, n: nat, pos: seq<nat>, entries: seq<Entry>, o: Outputs) {
    && n <= |maps| && |pos| == |entries|
    && (forall x :: 0 <= x < |pos| ==> pos[x] < n && EntryFor(maps[pos[x]], entries[x], o))
    && (forall x, y :: 0 <= x < y < |pos| ==> pos[x] < pos[y])
    && (forall i :: 0 <= i < n && maps[i].Counts() ==> i in pos)
  }

  lemma EntriesGrow(maps: seq<Mapping>, i: nat, pos: seq<nat>, entries: seq<Entry>, o: Outputs, e: Entry)
    requires EntriesFor(maps, i, pos, entries, o) && i < |maps|
    requires maps[i].Counts() ==> EntryFor(maps[i], e, o)
    ensures if maps[i].Counts() then EntriesFor(maps, i + 1, pos + [i], entries + [e], o) else EntriesFor(maps, i + 1, pos, entries, o)
  {
    assert (pos + [i])[|pos|] == i;
  }

  method LoadStrings(maps: seq<Mapping>, o: Outputs) returns (entries: seq<Entry>)
    requires forall i :: 0 <= i < |maps| ==> |maps[i].mapped| <= MAX_POINTS
    requires AllCovered(maps, o)
    ensures exists pos :: EntriesFor(maps, |maps|, pos, entries, o)
  {
    entries := [];
    ghost var pos: seq<nat> := [];
    assert EntriesFor(maps, 0, pos, entries, o);
    hide EntriesFor;
    for i := 0 to |maps|
      invariant EntriesFor(maps, i, pos, entries, o)
    {
      var converts, source, image := ConvertLine(maps[i]);
      var state := 0;
      if converts {
        state := ChooseState(o, source, image);
      }
      EntriesGrow(maps, i, pos, entries, o, Entry(source, state));
      if converts {
        entries, pos := entries + [Entry(source, state)], pos + [i];
      }
    }
  }

  /** Some code point is mapped twice. */
  ghost predicate Repeats(maps: seq<Mapping>) {
    exists i, j :: 0 <= i < j < |maps| && maps[i].Counts() && maps[j].Counts() && maps[i].cp == maps[j].cp
  }

  lemma MapsPrefixFree(maps: seq<Mapping>, pos: seq<nat>, entries: seq<Entry>, o: Outputs)
    requires EntriesFor(maps, |maps|, pos, entries, o)
    ensures !Repeats(maps) ==> PrefixFree(entries)
  {
    if !Repeats(maps) {
      forall x, y | 0 <= x < y < |entries| ensures !(entries[x].key <= entries[y].key) && !(entries[y].key <= entries[x].key) {
        var l, m := maps[pos[x]], maps[pos[y]];
        assert EntryFor(l, entries[x], o) && EntryFor(m, entries[y], o) && l.cp != m.cp;
        EncodingsIncomparable(l.cp, m.cp, Encode(m.cp));
        EncodingsIncomparable(m.cp, l.cp, Encode(l.cp));
      }
    }
  }

  /** An encoding is comparable with a text only if the text starts with the same code point,
      or is cut off inside it. */
  lemma EncodingsIncomparable(a: CodePoint, b: CodePoint, s: seq<Byte>)
    requires a != b && Encode(b) <= s
    ensures !(Encode(a) <= s) && !(s <= Encode(a))
  {
    hide Encode;
    var rest := s[|Encode(b)|..];
    assert s == Encode(b) + rest;
    if Encode(a) <= s {
      assert s == Encode(a) + s[|Encode(a)|..];
      EncodePrefixFree(a, b, s[|Encode(a)|..], rest);
    } else if s <= Encode(a) {
      assert Encode(a) == Encode(a) + [] == s + Encode(a)[|s|..] == Encode(b) + (rest + Encode(a)[|s|..]);
      EncodePrefixFree(a, b, [], rest + Encode(a)[|s|..]);
    }
  }

  // ----- the table's answers -----

  ghost predicate Mapped(maps: seq<Mapping>, cp: CodePoint) {
    exists m :: m in maps && m.Counts() && m.cp == cp
  }

  /** The accepting state for a text gives this image of its first code point. */
  ghost predicate Gives(t: Tables, o: Outputs, s: seq<Byte>, cp: CodePoint, image: seq<Byte>)
    requires WellFormed(t)
  {
    var state := TableRun(t, 0, s);
    t.acceptStart <= state <= t.acceptStart + o.Size() && o.Apply(state - t.acceptStart, Encode(cp)) == image
  }

  /** Exact for every code point, whatever text follows it: a mapped one gives its mapped
      text, any other one stands for itself. */
  ghost predicate MapsExactly(t: Tables, o: Outputs, maps: seq<Mapping>) {
    && WellFormed(t)
    && (forall m, s: seq<Byte> :: m in maps && m.Counts() && Encode(m.cp) <= s ==> Gives(t, o, s, m.cp, EncodeAll(m.mapped)))
    && (forall cp: CodePoint, s: seq<Byte> :: !Mapped(maps, cp) && Encode(cp) <= s ==> Gives(t, o, s, cp, Encode(cp)))
  }

  lemma MappedGives(t: Tables, maps: seq<Mapping>, pos: seq<nat>, entries: seq<Entry>, o: Outputs, m: Mapping, s: seq<Byte>)
    requires EntriesFor(maps, |maps|, pos, entries, o) && Recognises(t, entries, Some(0))
    requires m in maps && m.Counts() && Encode(m.cp) <= s
    ensures Gives(t, o, s, m.cp, EncodeAll(m.mapped))
  {
    hide TableRun, WellFormed, Encode;
    var i :| 0 <= i < |maps| && maps[i] == m;
    var x :| 0 <= x < |pos| && pos[x] == i;
    var e := entries[x];
    assert EntryFor(m, e, o) && e.key != [];
    assert Known(entries, e) && e.key <= s;
  }

  lemma UnmappedGives(t: Tables, maps: seq<Mapping>, pos: seq<nat>, entries: seq<Entry>, o: Outputs, cp: CodePoint, s: seq<Byte>)
    requires EntriesFor(maps, |maps|, pos, entries, o) && Recognises(t, entries, Some(0))
    requires !Mapped(maps, cp) && Encode(cp) <= s
    ensures Gives(t, o, s, cp, Encode(cp))
  {
    hide Encode, TableRun, WellFormed, EncodeAll;
    forall e | Known(entries, e) ensures !(e.key <= s) && !(s <= e.key) {
      var x :| 0 <= x < |entries| && entries[x] == e;
      var m := maps[pos[x]];
      assert EntryFor(m, e, o) && m.cp != cp;
      EncodingsIncomparable(m.cp, cp, s);
    }
    assert !Decided(entries, s) && !Undecided(entries, s);
  }

  /** BuildAndOutputTable with the default flag. */
  method BuildCaseTable(maps: seq<Mapping>) returns (r: Outcome, o: Outputs)
    requires forall i :: 0 <= i < |maps| ==> |maps[i].mapped| <= MAX_POINTS
    ensures r.Compiled? ==> MapsExactly(r.tables, o, maps)
    ensures r.Compiled? && (exists m :: m in maps && m.Counts()) ==> FitsWidths(r.tables)
    ensures r == Failed(AlreadyRecorded) ==> Repeats(maps)
    ensures r == Failed(OutputsFull) ==> 40000 <= |maps|
    ensures r == Failed(StateLimit) ==> 65536 <= 1 + 4 * |maps|
    ensures r == Failed(BlobOverflow) ==> NoneCounts(maps)
    ensures NoneCounts(maps) ==> r == Failed(BlobOverflow) || r == Failed(OutputsFull)
    ensures r == Failed(BadValue) || r == Failed(WildPointer) ==> 65536 <= |maps|
  {
    hide *;
    var ok;
    ok, o := BuildOutputTable(maps);
    if !ok {
      return Failed(OutputsFull), o;
    }
    var entries := LoadStrings(maps, o);
    ghost var pos :| EntriesFor(maps, |maps|, pos, entries, o);
    EntriesFit(maps, pos, entries, o);
    ghost var final;
    r, final := Compile(entries, Some(0), DRIVER_PASSES);
    if r.Compiled? {
      RecognisesMapsExactly(r.tables, maps, pos, entries, o);
    } else if r == Failed(BlobOverflow) {
      NothingMapped(maps, pos, entries, o);
    }
  }

  /** No line can be converted. */
  ghost predicate NoneCounts(maps: seq<Mapping>) {
    forall m :: m in maps ==> !m.Counts()
  }

  lemma SomeCounts(maps: seq<Mapping>, pos: seq<nat>, entries: seq<Entry>, o: Outputs)
    requires EntriesFor(maps, |maps|, pos, entries, o)
    ensures entries != [] ==> !NoneCounts(maps)
  {
    if entries != [] {
      var m := maps[pos[0]];
      assert EntryFor(m, entries[0], o) && m in maps;
    }
  }

  /** What the compiler asks of the entries, and how many prefixes they can have. */
  lemma EntriesFit(maps: seq<Mapping>, pos: seq<nat>, entries: seq<Entry>, o: Outputs)
    requires EntriesFor(maps, |maps|, pos, entries, o) && o.Size() <= |maps|
    ensures forall e :: e in entries ==> e.value <= |maps|
    ensures NoneCounts(maps) ==> Compilable(entries, Some(0)) && WithinReach(entries, DRIVER_PASSES) && OneAnswerFor(entries, Some(0))
    ensures !Repeats(maps) ==> PrefixFree(entries)
    ensures (exists m :: m in maps && m.Counts()) ==> exists e :: e in entries && 0 <= e.value
    ensures |Prefixes(entries)| <= 1 + 4 * |maps| && DefaultFits(Some(0))
  {
    MapsPrefixFree(maps, pos, entries, o);
    SomeEntry(maps, pos, entries, o);
    PositionsFit(pos, |maps|);
    hide Repeats, Prefixes, Outputs.Apply, Encode, EncodeAll;
    forall i | 0 <= i < |entries| ensures |entries[i].key| <= 4 && entries[i].value <= |maps| && maps[pos[i]].Counts() {
      assert EntryFor(maps[pos[i]], entries[i], o);
    }
    SomeCounts(maps, pos, entries, o);
    FewPrefixes(entries, 4);
  }

  /** There are no more increasing positions than lines. */
  lemma {:induction false} PositionsFit(pos: seq<nat>, n: nat)
    requires forall x :: 0 <= x < |pos| ==> pos[x] < n
    requires forall x, y :: 0 <= x < y < |pos| ==> pos[x] < pos[y]
    ensures |pos| <= n
    decreases |pos|
  {
    if pos != [] {
      PositionsFit(pos[..|pos| - 1], pos[|pos| - 1]);
    }
  }

  lemma EntryStarts(maps: seq<Mapping>, pos: seq<nat>, entries: seq<Entry>, o: Outputs, e: Entry)
    requires EntriesFor(maps, |maps|, pos, entries, o) && Known(entries, e)
    ensures e.value != 0 && e.key[0] < 0xFF
  {
    var x :| 0 <= x < |entries| && entries[x] == e;
    assert EntryFor(maps[pos[x]], e, o);
    EncodeFirst(maps[pos[x]].cp);
    hide Encode, EncodeAll, Outputs.Apply;
  }

  /** The default 0 is never the state of a line, so a table with one answer has no entries. */
  lemma NoneKnown(maps: seq<Mapping>, pos: seq<nat>, entries: seq<Entry>, o: Outputs)
    requires EntriesFor(maps, |maps|, pos, entries, o) && OneAnswer(entries, 0, true)
    ensures forall e :: !Known(entries, e)
  {
    var s: seq<Byte> := [0xFF];
    forall e | Known(entries, e) ensures !(e.key <= s) && !(s <= e.key) && e.value != 0 {
      EntryStarts(maps, pos, entries, o, e);
    }
    hide EntriesFor, Known;
    assert !Decided(entries, s) && !Undecided(entries, s);
  }

  lemma CountedKnown(maps: seq<Mapping>, pos: seq<nat>, entries: seq<Entry>, o: Outputs, m: Mapping)
    requires EntriesFor(maps, |maps|, pos, entries, o) && m in maps && m.Counts()
    ensures exists e :: Known(entries, e)
  {
    var i :| 0 <= i < |maps| && maps[i] == m;
    var x :| 0 <= x < |pos| && pos[x] == i;
    assert EntryFor(maps[pos[x]], entries[x], o);
    assert Known(entries, entries[x]);
  }

  lemma NothingMapped(maps: seq<Mapping>, pos: seq<nat>, entries: seq<Entry>, o: Outputs)
    requires EntriesFor(maps, |maps|, pos, entries, o) && OneAnswerFor(entries, Some(0))
    ensures NoneCounts(maps)
  {
    hide EntriesFor, Known;
    forall m | m in maps && m.Counts() ensures exists e :: Known(entries, e) {
      CountedKnown(maps, pos, entries, o, m);
    }
    NoneKnown(maps, pos, entries, o);
  }

  lemma SomeEntry(maps: seq<Mapping>, pos: seq<nat>, entries: seq<Entry>, o: Outputs)
    requires EntriesFor(maps, |maps|, pos, entries, o)
    ensures (exists m :: m in maps && m.Counts()) ==> exists e :: e in entries && 0 <= e.value
  {
    if m :| m in maps && m.Counts() {
      var i :| 0 <= i < |maps| && maps[i] == m;
      assert i in pos;
      assert entries[0] in entries;
    }
  }

  lemma RecognisesMapsExactly(t: Tables, maps: seq<Mapping>, pos: seq<nat>, entries: seq<Entry>, o: Outputs)
    requires EntriesFor(maps, |maps|, pos, entries, o) && Recognises(t, entries, Some(0))
    ensures MapsExactly(t, o, maps)
  {
    assert WellFormed(t);
    hide EntriesFor, Recognises, Gives, WellFormed, Encode;
    forall m, s: seq<Byte> | m in maps && m.Counts() && Encode(m.cp) <= s ensures Gives(t, o, s, m.cp, EncodeAll(m.mapped)) {
      MappedGives(t, maps, pos, entries, o, m, s);
    }
    forall cp: CodePoint, s: seq<Byte> | !Mapped(maps, cp) && Encode(cp) <= s ensures Gives(t, o, s, cp, Encode(cp)) {
      UnmappedGives(t, maps, pos, entries, o, cp, s);
    }
  }

  /** The co_dfa functions and their callers: no description means no change, a description
      from XOR_START on is XORed with the source if the lengths agree, any other replaces it. */
  method MapCodePoint(t: Tables, o: Outputs, maps: seq<Mapping>, cp: CodePoint, text: seq<Byte>) returns (out: seq<Byte>)
    requires MapsExactly(t, o, maps) && t.sizeOfOffset <= 2
    requires Encode(cp) <= text
    ensures forall m :: m in maps && m.Counts() && m.cp == cp ==> out == EncodeAll(m.mapped)
    ensures !Mapped(maps, cp) ==> out == Encode(cp)
  {
    AlwaysGives(t, o, maps, cp, text);
    var iState := RunToAcceptance(t, text);
    var source := Encode(cp);
    var idx := iState - t.acceptStart;
    if 0 == idx {
      out := source;
    } else {
      var xorStart := |o.literals| + 1;
      var desc := (o.literals + o.xors)[idx - 1];
      if xorStart <= idx {
        if |desc| != |source| {
          out := source;
        } else {
          out := XorBytes(source, desc);
        }
      } else {
        out := desc;
      }
    }
    assert out == o.Apply(idx, source);
    forall m | m in maps && m.Counts() && m.cp == cp ensures out == EncodeAll(m.mapped) {
      assert Gives(t, o, text, m.cp, EncodeAll(m.mapped));
    }
    if !Mapped(maps, cp) {
      assert Gives(t, o, text, cp, Encode(cp));
    }
  }

  lemma AlwaysGives(t: Tables, o: Outputs, maps: seq<Mapping>, cp: CodePoint, text: seq<Byte>)
    requires MapsExactly(t, o, maps) && Encode(cp) <= text
    ensures t.acceptStart <= TableRun(t, 0, text) <= t.acceptStart + o.Size()
  {
    if Mapped(maps, cp) {
      var m :| m in maps && m.Counts() && m.cp == cp;
      assert Gives(t, o, text, m.cp, EncodeAll(m.mapped));
    } else {
      assert Gives(t, o, text, cp, Encode(cp));
    }
  }
}
