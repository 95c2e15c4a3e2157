/** The generated tables: OutputTables (utf/smutil.cpp), what its output means, and
    the runtime loops that read it (utf/unicode_tables_c_postamble.h,
    mux/lib/utf8_normalize.cpp). */
module Tables {
  import opened Automaton
  import opened Bytes
  import opened Columns
  import opened RunLength
  import opened RowEncoder
  import opened StateMachines

  /** itt, sot and sbt, START_STATE being 0, and ACCEPTING_STATES_START; with the
      widths in bytes that the emitter declares for sbt and sot. */
  datatype Tables = Tables(itt: seq<Byte>, sot: seq<nat>, sbt: seq<int>, acceptStart: nat, sizeOfState: nat, sizeOfOffset: nat)

  function EntryAt(t: Tables, state: nat, b: Byte): Option<int>
    requires |t.itt| == 256 && state < |t.sot| && t.sot[state] <= |t.sbt|
  {
    DecodePrinted(t.sbt[t.sot[state]..], t.itt[b])
  }

  /** Every state and byte has an entry, so the runtime never leaves the tables; and the width
      declared for the offsets tells the size of the table they point into. */
  ghost predicate WellFormed(t: Tables) {
    && |t.itt| == 256 && |t.sot| == t.acceptStart > 0 && t.sizeOfOffset == SizeOf(|t.sbt|)
    && (forall i :: 0 <= i < |t.sot| ==> t.sot[i] <= |t.sbt|)
    && (forall i, b: Byte :: 0 <= i < |t.sot| ==> EntryAt(t, i, b).Some? && 0 <= EntryAt(t, i, b).value)
  }

  /** The entry holds the number of the target state, or ACCEPTING_STATES_START plus the
      accepted value. */
  ghost predicate EntryMeans(t: Tables, m: Store, stt: seq<nat>, i: nat, b: Byte)
    requires WellFormed(t) && i < |stt| == t.acceptStart && stt[i] in m
  {
    var e, target := EntryAt(t, i, b).value, m[stt[i]][b];
    && (target.Accept? ==> e == |stt| + target.n)
    && (target.Node? ==> e < |stt| && stt[e] == target.id)
  }

  /** The states of m, in the order of stt, are the rows of the tables. */
  ghost predicate Tabulates(t: Tables, m: Store, stt: seq<nat>) {
    && WellFormed(t) && Closed(m) && |stt| == t.acceptStart
    && (forall p :: p in m <==> p in stt)
    && (forall i, b: Byte :: 0 <= i < |stt| ==> EntryMeans(t, m, stt, i, b))
  }

  // ----- the runtime -----

  /** The walk of the runtime loops: it stops in an accepting state, or out of bytes. */
  function TableRun(t: Tables, state: nat, s: seq<Byte>): (r: nat)
    requires WellFormed(t)
    decreases |s|
  {
    if s == [] || state >= t.acceptStart then state else TableRun(t, EntryAt(t, state, s[0]).value, s[1..])
  }

  lemma {:induction false} TableRunAppend(t: Tables, state: nat, u: seq<Byte>, v: seq<Byte>)
    requires WellFormed(t)
    ensures TableRun(t, state, u + v) == TableRun(t, TableRun(t, state, u), v)
    decreases |u|
  {
    if u == [] {
      assert u + v == v;
    } else if state < t.acceptStart {
      assert (u + v)[1..] == u[1..] + v;
      TableRunAppend(t, EntryAt(t, state, u[0]).value, u[1..], v);
    }
  }

  /** The tables accept what the machine accepts, with the same value. */
  lemma {:induction false} TablesAnswer(t: Tables, m: Store, stt: seq<nat>, state: nat, s: seq<Byte>)
    requires Tabulates(t, m, stt) && state < |stt|
    ensures Run(m, Node(stt[state]), s).Accept? ==>
      TableRun(t, state, s) == t.acceptStart + Run(m, Node(stt[state]), s).n
    decreases |s|
  {
    if s != [] {
      var next, e := m[stt[state]][s[0]], EntryAt(t, state, s[0]);
      assert EntryMeans(t, m, stt, state, s[0]);
      if next.Node? {
        TablesAnswer(t, m, stt, e.value, s[1..]);
      }
    }
  }

  function UnsignedChar(x: int): (r: nat)
    ensures r < 256 && (0 <= x < 256 ==> r == x)
  {
    x % 256
  }

  function UnsignedShort(x: int): (r: nat)
    ensures r < 65536 && (0 <= x < 65536 ==> r == x)
  {
    x % 65536
  }

  /** What the phrase at an offset says about a row that can be decoded there: the
      entry itself, or where to go on; no offset reaches the end of the table. */
  lemma DecodeAt(sbt: seq<int>, offset: nat, t: nat)
    requires offset <= |sbt| && DecodePrinted(sbt[offset..], t).Some?
    ensures offset + 1 < |sbt| && 0 < sbt[offset] < 256
    ensures var y, r := sbt[offset], DecodePrinted(sbt[offset..], t);
      if y < 128 then
        if t < y then r.value == sbt[offset + 1]
        else offset + 2 < |sbt| && r == DecodePrinted(sbt[offset + 2..], t - y)
      else
        if t < 256 - y then offset + t + 1 < |sbt| && r.value == sbt[offset + t + 1]
        else offset + (256 - y) + 1 < |sbt| && r == DecodePrinted(sbt[offset + (256 - y) + 1..], t - (256 - y))
  {
    var tail, y := sbt[offset..], sbt[offset];
    assert tail[0] == y && tail[1] == sbt[offset + 1];
    if y < 128 {
      assert tail[2..] == sbt[offset + 2..];
    } else if t < 256 - y {
      assert tail[t + 1] == sbt[offset + t + 1];
    } else {
      assert tail[256 - y + 1..] == sbt[offset + (256 - y) + 1..];
    }
  }

  lemma {:induction false} DecodedIsCell(tail: seq<int>, t: nat)
    requires DecodePrinted(tail, t).Some?
    ensures DecodePrinted(tail, t).value in tail
    decreases |tail|
  {
    var y := tail[0];
    if 0 < y < 128 {
      if y <= t {
        DecodedIsCell(tail[2..], t - y);
      }
    } else if 256 - y <= t {
      DecodedIsCell(tail[256 - y + 1..], t - (256 - y));
    }
  }

  /** An entry is a cell of the table, so the declared width of the cells holds the next state:
      an unsigned char or an unsigned short is wide enough for it. */
  lemma EntryFits(t: Tables, state: nat, b: Byte)
    requires WellFormed(t) && FitsWidths(t) && state < t.acceptStart
    ensures t.sizeOfState == 1 ==> EntryAt(t, state, b).value < 256
    ensures t.sizeOfState == 2 ==> EntryAt(t, state, b).value < 65536
  {
    assert EntryAt(t, state, b).Some?;
    DecodedIsCell(t.sbt[t.sot[state]..], t.itt[b]);
    hide DecodePrinted, WellFormed;
  }

  /** Where the runtime starts to look for an entry; every offset of the table is 16 bits wide. */
  lemma EntryStarts(t: Tables, state: nat, b: Byte)
    requires WellFormed(t) && state < t.acceptStart && t.sizeOfOffset <= 2
    ensures |t.itt| == 256 && state < |t.sot| && t.sot[state] <= |t.sbt| < 65536
    ensures EntryAt(t, state, b).Some? && EntryAt(t, state, b).value >= 0
    ensures DecodePrinted(t.sbt[t.sot[state]..], t.itt[b]) == EntryAt(t, state, b)
  {
  }

  /** One turn of the runtime loop, in its own variables: iColumn is an unsigned char
      and iOffset an unsigned short, as the tables' own offsets are at most. iState is as wide as the cells, and EntryFits says that
      this is enough. */
  method NextState(t: Tables, iState: nat, ch: Byte) returns (next: nat)
    requires WellFormed(t) && iState < t.acceptStart && t.sizeOfOffset <= 2
    ensures next == EntryAt(t, iState, ch).value
  {
    EntryStarts(t, iState, ch);
    hide *;
    var iColumn: int, iOffset := t.itt[ch], t.sot[iState];
    ghost var goal := EntryAt(t, iState, ch);
    while true
      invariant 0 <= iColumn < 256 && iOffset <= |t.sbt|
      invariant goal.Some? && DecodePrinted(t.sbt[iOffset..], iColumn) == goal
      decreases |t.sbt| - iOffset
    {
      DecodeAt(t.sbt, iOffset, iColumn);
      var y := t.sbt[iOffset];
      if y < 128 {
        if iColumn < y {
          return t.sbt[iOffset + 1];
        } else {
          iColumn := UnsignedChar(iColumn - y);
          iOffset := UnsignedShort(iOffset + 2);
        }
      } else {
        y := 256 - y;
        if iColumn < y {
          return t.sbt[iOffset + iColumn + 1];
        } else {
          iColumn := UnsignedChar(iColumn - y);
          iOffset := UnsignedShort(iOffset + y + 1);
        }
      }
    }
  }

  /** The bounded loop of ComposeViaTable over a run of bytes. */
  method FeedBytes(t: Tables, state: nat, bytes: seq<Byte>) returns (iState: nat)
    requires WellFormed(t) && t.sizeOfOffset <= 2
    ensures iState == TableRun(t, state, bytes)
  {
    iState := state;
    var i := 0;
    while i < |bytes| && iState < t.acceptStart
      invariant 0 <= i <= |bytes|
      invariant TableRun(t, state, bytes) == TableRun(t, iState, bytes[i..])
    {
      iState := NextState(t, iState, bytes[i]);
      assert bytes[i..][1..] == bytes[i + 1..];
      i := i + 1;
    }
  }

  /** The do/while loop of the co_dfa functions. It has no end pointer; the caller's
      bytes must drive the tables into an accepting state. */
  method RunToAcceptance(t: Tables, bytes: seq<Byte>) returns (iState: nat)
    requires WellFormed(t) && t.sizeOfOffset <= 2
    requires TableRun(t, 0, bytes) >= t.acceptStart
    ensures iState == TableRun(t, 0, bytes)
  {
    iState := 0;
    var p := 0;
    while true
      invariant 0 <= p <= |bytes| && iState < t.acceptStart
      invariant TableRun(t, 0, bytes) == TableRun(t, iState, bytes[p..])
      decreases |bytes| - p
    {
      assert bytes[p..] != [];
      iState := NextState(t, iState, bytes[p]);
      assert bytes[p..][1..] == bytes[p + 1..];
      p := p + 1;
      if iState >= t.acceptStart {
        break;
      }
    }
  }

  // ----- the emitter -----

  /** The table entry for a target; a "don't care" is written as 0. */
  function Number(t: Target, number: map<nat, nat>, nStates: nat): nat
    requires t.Node? ==> t.id in number
  {
    match t
    case Accept(n) => nStates + n
    case Undefined => 0
    case Node(id) => number[id]
  }

  /** Each row of the table can be decoded where its offset points. */
  ghost predicate RowsDecode(used: seq<int>, sot: seq<nat>, rows: seq<seq<int>>) {
    && |sot| == |rows|
    && (forall i :: 0 <= i < |sot| ==> sot[i] <= |used|)
    && (forall i, t :: 0 <= i < |sot| && 0 <= t < |rows[i]| ==> Decode(used[sot[i]..], t) == Some(rows[i][t]))
  }

  lemma RowAppended(used: seq<int>, sot: seq<nat>, rows: seq<seq<int>>, ps: seq<Phrase>)
    requires RowsDecode(used, sot, rows) && AllValid(ps)
    ensures RowsDecode(used + Flatten(ps), sot + [|used|], rows + [Expand(ps)])
  {
    var used', sot', rows' := used + Flatten(ps), sot + [|used|], rows + [Expand(ps)];
    forall i, t | 0 <= i < |sot'| && 0 <= t < |rows'[i]| ensures Decode(used'[sot'[i]..], t) == Some(rows'[i][t]) {
      if i < |sot| {
        assert used'[sot[i]..] == used[sot[i]..] + Flatten(ps);
        DecodeStable(used[sot[i]..], Flatten(ps), t);
      } else {
        assert used'[|used|..] == Flatten(ps) + [];
        DecodeInverts(ps, [], t);
      }
    }
  }

  /** Every cell is a header or an entry, so it fits the declared width once printed. */
  ghost predicate CellsUpTo(cells: seq<int>, top: nat) {
    forall i :: 0 <= i < |cells| ==> -MAX_RLE_COPY_LENGTH <= cells[i] <= Max(MAX_RLE_RUN_LENGTH, top)
  }

  lemma {:induction false} FlattenCells(ps: seq<Phrase>, top: nat)
    requires AllValid(ps) && forall i :: 0 <= i < |Expand(ps)| ==> 0 <= Expand(ps)[i] <= top
    ensures CellsUpTo(Flatten(ps), top)
  {
    if ps != [] {
      var p, rest := ps[0], Expand(ps[1..]);
      assert p.Valid() && Expand(ps) == p.Values() + rest;
      assert forall i :: 0 <= i < |rest| ==> rest[i] == Expand(ps)[|p.Values()| + i];
      assert forall i :: 0 <= i < |p.Values()| ==> p.Values()[i] == Expand(ps)[i];
      FlattenCells(ps[1..], top);
      assert CellsUpTo(p.Blob(), top) by {
        if p.Repeat? {
          assert p.Values()[0] == p.value;
        }
      }
    }
  }

  function RowNumbers(row: Row, number: map<nat, nat>, nStates: nat): seq<int>
    requires forall c :: 0 <= c < 256 && row[c].Node? ==> row[c].id in number
  {
    seq(256, c requires 0 <= c < 256 => Number(row[c], number, nStates))
  }

  lemma RowNumbersAt(row: Row, number: map<nat, nat>, nStates: nat, c: Byte)
    requires forall c :: 0 <= c < 256 && row[c].Node? ==> row[c].id in number
    ensures |RowNumbers(row, number, nStates)| == 256
    ensures RowNumbers(row, number, nStates)[c] == Number(row[c], number, nStates)
  {
  }

  /** The phrases encode the present columns of the row. A row costs less than two
      cells a column, unless it has a single column. */
  ghost predicate Encodes(ps: seq<Phrase>, values: seq<int>) {
    && AllValid(ps) && Expand(ps) == values
    && (|values| == 1 ==> |Flatten(ps)| == 2)
    && (2 <= |values| ==> |Flatten(ps)| < 2 * |values|)
  }

  lemma {:induction false} ColumnZeroPresent(values: seq<int>, present: seq<bool>, n: nat)
    requires n <= |present| && n <= |values| && |present| > 0 && present[0]
    ensures Project(values, present, n) == [] <==> n == 0
    ensures |Project(values, present, n)| <= Rank(present, |present|)
    ensures n < |present| && present[n] ==> |Project(values, present, n)| < Rank(present, |present|)
  {
    ProjectLength(values, present, n);
    if n > 0 {
      RankBelow(present, 0, n);
    }
    RankGrows(present, n, |present|);
    if n < |present| && present[n] {
      RankBelow(present, n, |present|);
    }
  }

  /** The column loop. With room for two cells for each column, it cannot fail. */
  method EncodeColumns(row: Row, number: map<nat, nat>, nStates: nat, present: seq<bool>, columns: nat, blob: array<int>, n: nat, maxBlob: nat,
                       ghost base: seq<int>)
    returns (ok: bool, n': nat, p: Pending, ghost ps: seq<Phrase>, ghost seen: seq<int>)
    requires forall c :: 0 <= c < 256 && row[c].Node? ==> row[c].id in number
    requires |present| == 256 && present[0] && columns == Rank(present, 256)
    requires blob.Length == 2 * maxBlob && n <= blob.Length && base == blob[..n]
    modifies blob
    ensures ok ==> n' <= blob.Length && Written(blob[..n'], base, ps) && Encoding(ps, p, seen)
    ensures ok ==> seen == Project(RowNumbers(row, number, nStates), present, 256)
    ensures Rank(present, 256) == 1 || n + 2 * Rank(present, 256) <= 2 * maxBlob ==> ok
  {
    ghost var values := RowNumbers(row, number, nStates);
    RowNumbersAt(row, number, nStates, 0);
    p, seen := Pending(0, 0, []), [];
    ok, n', ps := true, n, [];
    EncodingStarts(base, p);
    ProjectStarts(values, present);
    hide *;
    for j := 0 to 256
      invariant n' <= blob.Length && Written(blob[..n'], base, ps)
      invariant seen == Project(values, present, j) && Encoding(ps, p, seen)
    {
      ColumnZeroPresent(values, present, j);
      ProjectNext(values, present, j);
      if present[j] {
        var k := Number(row[j], number, nStates);
        RowNumbersAt(row, number, nStates, j);
        ok, n', p, ps := Feed(blob, n', maxBlob, columns, p, k, 0 == j, base, ps, seen);
        if !ok {
          return;
        }
        seen := seen + [k];
      }
    }
    ok := true;
  }

  /** One row: the column loop and the leftover phrase. */
  method EncodeRow(row: Row, number: map<nat, nat>, nStates: nat, present: seq<bool>, columns: nat, blob: array<int>, n: nat, maxBlob: nat)
    returns (ok: bool, n': nat, ghost ps: seq<Phrase>)
    requires forall c :: 0 <= c < 256 && row[c].Node? ==> row[c].id in number
    requires |present| == 256 && present[0] && columns == Rank(present, 256)
    requires blob.Length == 2 * maxBlob && n <= blob.Length
    modifies blob
    ensures ok ==> Encodes(ps, Project(RowNumbers(row, number, nStates), present, 256))
    ensures ok ==> n' <= blob.Length && Written(blob[..n'], old(blob[..n]), ps)
    ensures 2 <= Rank(present, 256) && n + 2 * Rank(present, 256) <= 2 * maxBlob ==> ok
    ensures Rank(present, 256) == 1 ==> (ok <==> n + 2 < 2 * maxBlob)
  {
    ghost var values, base := RowNumbers(row, number, nStates), blob[..n];
    ghost var seen;
    var p;
    hide Flatten, Expand, Rank, Written, Encoding, Project, RowNumbers;
    ok, n', p, ps, seen := EncodeColumns(row, number, nStates, present, columns, blob, n, maxBlob, base);
    if ok {
      ColumnZeroPresent(values, present, 256);
      ProjectLength(values, present, 256);
      ok, n', ps := Flush(blob, n', maxBlob, p, base, ps, seen);
    }
  }

  // ----- OutputTables -----

  ghost function TableRow(m: Store, p: nat, number: map<nat, nat>, nStates: nat, present: seq<bool>): seq<int>
    requires Closed(m) && number.Keys == m.Keys && |present| == 256 && p in m
  {
    Project(RowNumbers(m[p], number, nStates), present, 256)
  }

  /** The rows the tables must hold. */
  ghost function TableRows(m: Store, stt: seq<nat>, number: map<nat, nat>, nStates: nat, present: seq<bool>): seq<seq<int>>
    requires Closed(m) && number.Keys == m.Keys && |present| == 256
    requires forall i :: 0 <= i < |stt| ==> stt[i] in m
  {
    seq(|stt|, i requires 0 <= i < |stt| => TableRow(m, stt[i], number, nStates, present))
  }

  ghost predicate ReadyToEmit(sm: StateMachine)
    reads sm
  {
    && sm.Valid() && sm.present[0] && sm.columns == Rank(sm.present, 256)
    && sm.number.Keys == sm.store.Keys
    && forall i :: 0 <= i < |sm.stt| ==> sm.number[sm.stt[i]] == i
  }

  lemma RowInRange(m: Store, p: nat, number: map<nat, nat>, nStates: nat, bound: int, present: seq<bool>)
    requires Closed(m) && AcceptsUpTo(m, bound) && p in m && |present| == 256
    requires number.Keys == m.Keys && forall q :: q in m ==> number[q] < nStates
    ensures var row := TableRow(m, p, number, nStates, present);
      Within(row, nStates + Max(bound, 0))
  {
    ProjectWithin(RowNumbers(m[p], number, nStates), present, 256, nStates + Max(bound, 0));
  }

  /** Rows done so far: they decode, and every cell fits. */
  ghost predicate Emitted(used: seq<int>, sot: seq<nat>, rows: seq<seq<int>>, top: nat) {
    RowsDecode(used, sot, rows) && CellsUpTo(used, top)
  }

  lemma RowEmitted(used: seq<int>, used': seq<int>, sot: seq<nat>, rows: seq<seq<int>>, ps: seq<Phrase>, row: seq<int>, top: nat)
    requires Emitted(used, sot, rows, top) && Written(used', used, ps) && Encodes(ps, row)
    requires Within(row, top)
    ensures Emitted(used', sot + [|used|], rows + [row], top)
    ensures |row| == 1 ==> |used'| == |used| + 2
    ensures 2 <= |row| ==> |used'| < |used| + 2 * |row|
  {
    RowAppended(used, sot, rows, ps);
    FlattenCells(ps, top);
  }

  method EncodeNextRow(sm: StateMachine, i: nat, blob: array<int>, n: nat, maxBlob: nat, ghost sot: seq<nat>, ghost rows: seq<seq<int>>)
    returns (ok: bool, n': nat)
    requires ReadyToEmit(sm) && i < |sm.stt| && sm.stt[i] in sm.store
    requires blob.Length == 2 * maxBlob && n <= blob.Length
    requires Emitted(blob[..n], sot, rows, |sm.stt| + Max(sm.bound, 0))
    modifies blob
    ensures ok ==> n' <= blob.Length
    ensures ok ==> Emitted(blob[..n'], sot + [n], rows + [TableRow(sm.store, sm.stt[i], sm.number, |sm.stt|, sm.present)],
                           |sm.stt| + Max(sm.bound, 0))
    ensures ok && sm.columns == 1 ==> n' == n + 2
    ensures ok && 2 <= sm.columns ==> n' < n + 2 * sm.columns
    ensures 2 <= sm.columns && n + 2 * sm.columns <= 2 * maxBlob ==> ok
    ensures sm.columns == 1 ==> (ok <==> n + 2 < 2 * maxBlob)
  {
    ghost var ps;
    ghost var used, top := blob[..n], |sm.stt| + Max(sm.bound, 0);
    ghost var row := TableRow(sm.store, sm.stt[i], sm.number, |sm.stt|, sm.present);
    assert forall q :: q in sm.store ==> sm.number[q] < |sm.stt| by {
      forall q | q in sm.store ensures sm.number[q] < |sm.stt| {
        var x :| 0 <= x < |sm.stt| && sm.stt[x] == q;
      }
    }
    RowInRange(sm.store, sm.stt[i], sm.number, |sm.stt|, sm.bound, sm.present);
    ProjectLength(RowNumbers(sm.store[sm.stt[i]], sm.number, |sm.stt|), sm.present, 256);
    assert |row| == sm.columns == Rank(sm.present, 256) && forall c :: 0 <= c < 256 ==> Live(sm.store, sm.store[sm.stt[i]][c]);
    assert row == Project(RowNumbers(sm.store[sm.stt[i]], sm.number, |sm.stt|), sm.present, 256);
    hide *;
    ok, n', ps := EncodeRow(sm.store[sm.stt[i]], sm.number, |sm.stt|, sm.present, sm.columns, blob, n, maxBlob);
    if ok {
      RowEmitted(used, blob[..n'], sot, rows, ps, row, top);
    }
  }

  lemma RoomForRow(i: nat, S: nat, C: nat, n: nat)
    requires i < S && 2 <= C && n <= i * (2 * C - 1)
    ensures n + 2 * C <= 2 * (S * C) && n + 2 * C - 1 <= (i + 1) * (2 * C - 1)
  {
    var D := 2 * C - 1;
    MulMonotone(i + 1, S, D);
    assert (i + 1) * D == i * D + D;
    assert S * D == 2 * (S * C) - S by {
      assert S * (2 * C) == 2 * (S * C);
    }
  }

  lemma MulMonotone(a: nat, b: nat, d: nat)
    requires a <= b
    ensures a * d <= b * d
  {
  }

  /** The row loop of OutputTables. The blob of 2 * states * columns cells is large
      enough exactly when there are two columns or more. */
  method EncodeRows(sm: StateMachine, blob: array<int>, maxBlob: nat)
    returns (ok: bool, n: nat, sot: seq<nat>)
    requires ReadyToEmit(sm)
    requires maxBlob == |sm.stt| * sm.columns && blob.Length == 2 * maxBlob
    modifies blob
    ensures ok <==> sm.columns != 1
    ensures ok ==> n <= blob.Length
    ensures ok ==> Emitted(blob[..n], sot, TableRows(sm.store, sm.stt, sm.number, |sm.stt|, sm.present),
                           |sm.stt| + Max(sm.bound, 0))
  {
    ok, n, sot := true, 0, [];
    ghost var all := TableRows(sm.store, sm.stt, sm.number, |sm.stt|, sm.present);
    RankBelow(sm.present, 0, 256);
    assert Emitted(blob[..n], sot, all[..0], |sm.stt| + Max(sm.bound, 0));
    hide Rank, Emitted, TableRow, Project, RowNumbers;
    for i := 0 to |sm.stt|
      invariant n <= blob.Length
      invariant Emitted(blob[..n], sot, all[..i], |sm.stt| + Max(sm.bound, 0))
      invariant sm.columns == 1 ==> n == 2 * i && i < |sm.stt|
      invariant 2 <= sm.columns ==> n <= i * (2 * sm.columns - 1)
    {
      if 2 <= sm.columns {
        RoomForRow(i, |sm.stt|, sm.columns, n);
      }
      var n';
      ok, n' := EncodeNextRow(sm, i, blob, n, maxBlob, sot, all[..i]);
      if !ok {
        return;
      }
      assert all[..i + 1] == all[..i] + [all[i]];
      sot, n := sot + [n], n';
    }
    assert all[..|sm.stt|] == all;
    ok := true;
  }

  /** The printed tables hold the rows: column x of row i is found by the decoder. */
  ghost predicate HoldsRows(t: Tables, rows: seq<seq<int>>) {
    && |t.sot| == |rows| == t.acceptStart && t.sizeOfOffset == SizeOf(|t.sbt|)
    && (forall i :: 0 <= i < |rows| ==> t.sot[i] <= |t.sbt|)
    && (forall i, x :: 0 <= i < |rows| && 0 <= x < |rows[i]| ==> DecodePrinted(t.sbt[t.sot[i]..], x) == Some(rows[i][x]))
  }

  /** The C element types chosen for sbt and sot hold every printed number. */
  ghost predicate FitsWidths(t: Tables) {
    && (t.sizeOfState == 1 ==> Within(t.sbt, 0xFF)) && (t.sizeOfState == 2 ==> Within(t.sbt, 0xFFFF))
    && (t.sizeOfOffset == 1 ==> Within(t.sot, 0xFF)) && (t.sizeOfOffset == 2 ==> Within(t.sot, 0xFFFF))
  }

  function SizeOf(n: int): nat {
    if n < 256 then 1 else if n < 65536 then 2 else 4
  }

  /** The smallest of one, two and four bytes that holds n, as far as there is one. */
  lemma SmallestWidth(n: nat)
    ensures SizeOf(n) in {1, 2, 4}
    ensures n <= 0xFF <==> SizeOf(n) <= 1
    ensures n <= 0xFFFF <==> SizeOf(n) <= 2
  {
  }

  lemma PrintedHolds(t: Tables, used: seq<int>, rows: seq<seq<int>>, top: nat)
    requires Emitted(used, t.sot, rows, top) && t.sbt == Printed(used) && |rows| == t.acceptStart && t.sizeOfOffset == SizeOf(|used|)
    requires forall i :: 0 <= i < |rows| ==> Within(rows[i], top)
    ensures HoldsRows(t, rows)
  {
    forall i, x | 0 <= i < |rows| && 0 <= x < |rows[i]| ensures DecodePrinted(t.sbt[t.sot[i]..], x) == Some(rows[i][x]) {
      PrintedDrop(used, t.sot[i]);
      assert Within(rows[i], top);
      PrintingAgrees(used[t.sot[i]..], x);
    }
  }

  lemma PrintedFits(t: Tables, used: seq<int>, rows: seq<seq<int>>, top: nat, total: int)
    requires Emitted(used, t.sot, rows, top) && t.sbt == Printed(used) && top <= total
    requires t.sizeOfState == SizeOf(total) && t.sizeOfOffset == SizeOf(|used|)
    ensures FitsWidths(t)
  {
  }

  lemma RowsInRange(m: Store, stt: seq<nat>, number: map<nat, nat>, bound: int, present: seq<bool>)
    requires Closed(m) && AcceptsUpTo(m, bound) && |present| == 256 && number.Keys == m.Keys
    requires (forall p :: p in m <==> p in stt) && forall i :: 0 <= i < |stt| ==> number[stt[i]] == i
    ensures var rows := TableRows(m, stt, number, |stt|, present);
      |rows| == |stt| && forall i :: 0 <= i < |rows| ==> Within(rows[i], |stt| + Max(bound, 0))
  {
    forall q | q in m ensures number[q] < |stt| {
      var x :| 0 <= x < |stt| && stt[x] == q;
    }
    forall i | 0 <= i < |stt| ensures Within(TableRow(m, stt[i], number, |stt|, present), |stt| + Max(bound, 0)) {
      RowInRange(m, stt[i], number, |stt|, bound, present);
    }
  }

  /** The four tables as printed, with the element types chosen from the sizes. */
  function MakeTables(itt: seq<Byte>, sot: seq<nat>, used: seq<int>, nStates: nat, largest: int): Tables {
    Tables(itt, sot, Printed(used), nStates, SizeOf(nStates + largest + 1), SizeOf(|used|))
  }

  lemma MadeTables(m: Store, stt: seq<nat>, number: map<nat, nat>, bound: int, largest: int, present: seq<bool>,
                   itt: seq<Byte>, sot: seq<nat>, used: seq<int>)
    requires Closed(m) && AcceptsUpTo(m, bound) && |present| == 256 && number.Keys == m.Keys && largest >= -1
    requires (forall p :: p in m <==> p in stt) && forall i :: 0 <= i < |stt| ==> number[stt[i]] == i
    requires Emitted(used, sot, TableRows(m, stt, number, |stt|, present), |stt| + Max(bound, 0))
    ensures HoldsRows(MakeTables(itt, sot, used, |stt|, largest), TableRows(m, stt, number, |stt|, present))
    ensures bound <= largest ==> FitsWidths(MakeTables(itt, sot, used, |stt|, largest))
  {
    var t, rows, top := MakeTables(itt, sot, used, |stt|, largest), TableRows(m, stt, number, |stt|, present), |stt| + Max(bound, 0);
    RowsInRange(m, stt, number, bound, present);
    PrintedHolds(t, used, rows, top);
    if bound <= largest {
      PrintedFits(t, used, rows, top, |stt| + largest + 1);
    }
  }

  method OutputTables(sm: StateMachine) returns (r: Option<Tables>)
    requires ReadyToEmit(sm)
    ensures r.Some? <==> sm.columns != 1
    ensures r.Some? ==> r.value.itt == sm.itt && r.value.sizeOfState == SizeOf(|sm.stt| + sm.largest + 1)
    ensures r.Some? ==> HoldsRows(r.value, TableRows(sm.store, sm.stt, sm.number, |sm.stt|, sm.present))
    ensures r.Some? && sm.bound <= sm.largest ==> FitsWidths(r.value)
  {
    hide Emitted, HoldsRows, TableRows, FitsWidths, Rank, SizeOf, Printed, Closed, AcceptsUpTo, Distinct;
    var maxBlob := |sm.stt| * sm.columns;
    var blob := new int[2 * maxBlob];
    var ok, n, sot := EncodeRows(sm, blob, maxBlob);
    if !ok {
      return None;
    }
    MadeTables(sm.store, sm.stt, sm.number, sm.bound, sm.largest, sm.present, sm.itt, sot, blob[..n]);
    return Some(MakeTables(sm.itt, sot, blob[..n], |sm.stt|, sm.largest));
  }

  lemma EntryIs(t: Tables, m: Store, stt: seq<nat>, number: map<nat, nat>, present: seq<bool>, i: nat, b: Byte, r: Byte)
    requires Closed(m) && number.Keys == m.Keys && |present| == 256 && (forall x :: 0 <= x < |stt| ==> stt[x] in m)
    requires HoldsRows(t, TableRows(m, stt, number, |stt|, present))
    requires i < |stt| && |t.itt| == 256 && present[r] && t.itt[b] == Rank(present, r)
    ensures EntryAt(t, i, b) == Some(Number(m[stt[i]][r], number, |stt|))
  {
    var values := RowNumbers(m[stt[i]], number, |stt|);
    ProjectAt(values, present, 256, r);
    assert TableRows(m, stt, number, |stt|, present)[i] == Project(values, present, 256);
    hide Rank, Project, DecodePrinted;
  }

  /** Column merging and numbering keep the meaning: the emitted entry of byte b is the
      number of the target that b had before any column was merged. */
  lemma EmittedTabulates(t: Tables, before: Store, m: Store, stt: seq<nat>, number: map<nat, nat>, present: seq<bool>, rep: seq<Byte>)
    requires Closed(before) && Closed(m) && before.Keys == m.Keys == number.Keys && |present| == 256 && |rep| == 256
    requires |stt| > 0 && (forall p :: p in m <==> p in stt)
    requires forall i :: 0 <= i < |stt| ==> number[stt[i]] == i
    requires AllStand(before, m, rep, present)
    requires Ranked(t.itt, rep, present, Rank(present, 256))
    requires HoldsRows(t, TableRows(m, stt, number, |stt|, present))
    ensures Tabulates(t, before, stt)
  {
    forall i, b: Byte | 0 <= i < |stt|
      ensures EntryAt(t, i, b) == Some(Number(m[stt[i]][rep[b]], number, |stt|))
    {
      EntryIs(t, m, stt, number, present, i, b, rep[b]);
    }
    assert WellFormed(t);
    forall i, b: Byte | 0 <= i < |stt| ensures EntryMeans(t, before, stt, i, b) {
      assert Stands(before, m, b, rep[b]);
      var target := before[stt[i]][b];
      if target.Node? {
        var x :| 0 <= x < |stt| && stt[x] == target.id;
      }
    }
  }
}
