/** The mutable state machine of utf/smutil.cpp: recording strings, merging
    states, merging columns and numbering. Every operation is tied to the
    meaning of the table (modules Automaton and Trie), not to its layout. */
module StateMachines {
  import opened Automaton
  import opened Bytes
  import opened Trie
  import opened Columns
  import opened Counting

  const NUM_STATES := 65536
  const NUM_ACCEPTING_STATES := 65536

  /** How RecordString ends. PastTheEnd stands for the one value that passes the range test and
      is still not in m_aAcceptingStates: the pointer made from it belongs to no state. */
  datatype RecordResult = Recorded | OutOfRange | Conflict | TooManyStates | PastTheEnd

  ghost predicate Distinct(s: seq<nat>) {
    forall i, j :: 0 <= i < j < |s| ==> s[i] != s[j]
  }

  function RemoveAt(s: seq<nat>, i: int): seq<nat>
    requires 0 <= i < |s|
  {
    s[..i] + s[i + 1..]
  }

  lemma RemoveAtMembers(s: seq<nat>, i: int)
    requires 0 <= i < |s| && Distinct(s)
    ensures Distinct(RemoveAt(s, i))
    ensures forall p :: p in RemoveAt(s, i) <==> p in s && p != s[i]
  {
    var r := RemoveAt(s, i);
    forall p | p in s && p != s[i] ensures p in r {
      var x :| 0 <= x < |s| && s[x] == p;
      assert r[if x < i then x else x - 1] == p;
    }
  }

  lemma RemoveAtFront(s: seq<nat>, i: int)
    requires 0 <= i < |s|
    ensures |RemoveAt(s, i)| == |s| - 1 && forall x :: 0 <= x < i ==> RemoveAt(s, i)[x] == s[x]
  {
  }

  lemma MapMinus(m: Store, gone: set<nat>, p: nat)
    ensures (m - gone) - {p} == m - (gone + {p})
  {
  }

  // ----- rows with "don't care" transitions -----

  ghost predicate Compatible(p: Row, q: Row) {
    forall c :: 0 <= c < 256 ==> p[c] == Undefined || q[c] == Undefined || p[c] == q[c]
  }

  /** r has every defined transition of q. */
  ghost predicate Refines(r: Row, q: Row) {
    forall c :: 0 <= c < 256 && q[c] != Undefined ==> r[c] == q[c]
  }

  method RowsEqual(p: Row, q: Row) returns (equal: bool)
    ensures equal <==> Compatible(p, q)
  {
    for i := 0 to 256
      invariant forall c :: 0 <= c < i ==> p[c] == Undefined || q[c] == Undefined || p[c] == q[c]
    {
      if p[i] == Undefined || q[i] == Undefined {
        continue;
      } else if p[i] != q[i] {
        return false;
      }
    }
    return true;
  }

  /** Takes the second row's target wherever the first row has none. */
  method FillUndefined(p: Row, q: Row) returns (r: Row)
    ensures Refines(r, p)
    ensures Compatible(p, q) ==> Refines(r, q)
    ensures forall c :: 0 <= c < 256 ==> r[c] == p[c] || r[c] == q[c]
  {
    r := p;
    for u := 0 to 256
      invariant forall c :: 0 <= c < u ==> r[c] == if p[c] == Undefined then q[c] else p[c]
      invariant forall c :: u <= c < 256 ==> r[c] == p[c]
    {
      if r[u] == Undefined {
        r := r[u := q[u]];
      }
    }
  }

  /** The scan of MergeAcceptingStates over one row: the accepting state that all
      defined transitions share, if there is one and no transition enters a state. */
  method SoleAcceptingState(row: Row) returns (last: Target)
    ensures last.Accept? || last == Undefined
    ensures last.Accept? ==> OnlyLeadsTo(row, last) && last in row
    ensures last.Accept? <==> Prunable(row)
  {
    last := Undefined;
    for k := 0 to 256
      invariant last.Accept? || last == Undefined
      invariant last == Undefined ==> forall c :: 0 <= c < k ==> row[c] == Undefined
      invariant last.Accept? ==> exists c :: 0 <= c < k && row[c] == last
      invariant forall c :: 0 <= c < k ==> row[c] == Undefined || row[c] == last
    {
      if row[k] == Undefined {
        continue;
      } else if row[k].Node? {
        return Undefined;
      }
      if last == Undefined {
        last := row[k];
      } else if last != row[k] {
        return Undefined;
      }
    }
  }

  /** The state can lead to one accepting state only, and does. */
  ghost predicate Prunable(row: Row) {
    exists k: nat :: Accept(k) in row && OnlyLeadsTo(row, Accept(k))
  }

  ghost predicate IsTotal(row: Row, r: Row, d: nat) {
    forall c :: 0 <= c < 256 ==> r[c] == if row[c] == Undefined then Accept(d) else row[c]
  }

  /** The first n rows are filled, the others as before. */
  ghost predicate TotalTo(before: Store, m: Store, stt: seq<nat>, d: nat, n: nat) {
    && m.Keys == before.Keys && n <= |stt| && (forall x :: 0 <= x < |stt| ==> stt[x] in m)
    && forall x :: 0 <= x < |stt| ==> if x < n then IsTotal(before[stt[x]], m[stt[x]], d) else m[stt[x]] == before[stt[x]]
  }

  lemma TotalStarts(m: Store, stt: seq<nat>, d: nat)
    requires forall x :: 0 <= x < |stt| ==> stt[x] in m
    ensures TotalTo(m, m, stt, d, 0)
  {
  }

  lemma TotalNext(before: Store, m: Store, stt: seq<nat>, d: nat, n: nat, row: Row)
    requires TotalTo(before, m, stt, d, n) && n < |stt| && Distinct(stt) && IsTotal(m[stt[n]], row, d)
    ensures TotalTo(before, m[stt[n] := row], stt, d, n + 1)
  {
    hide IsTotal;
  }

  lemma TotalEnds(before: Store, m: Store, stt: seq<nat>, d: nat)
    requires TotalTo(before, m, stt, d, |stt|) && forall p :: p in m ==> p in stt
    ensures Totalised(before, m, d)
  {
    forall p | p in before ensures IsTotal(before[p], m[p], d) {
      var x :| 0 <= x < |stt| && stt[x] == p;
    }
  }

  method TotaliseRow(row: Row, d: nat) returns (r: Row)
    ensures IsTotal(row, r, d)
  {
    r := row;
    for j := 0 to 256
      invariant forall c :: 0 <= c < j ==> r[c] == if row[c] == Undefined then Accept(d) else row[c]
      invariant forall c :: j <= c < 256 ==> r[c] == row[c]
    {
      if r[j] == Undefined {
        r := r[j := Accept(d)];
      }
    }
  }

  ghost predicate IsRedirected(row: Row, r: Row, merged: Merging) {
    forall c :: 0 <= c < 256 ==> r[c] == Redirect(merged, row[c])
  }

  method RedirectRow(row: Row, merged: Merging) returns (r: Row)
    ensures IsRedirected(row, r, merged)
  {
    r := row;
    for j := 0 to 256
      invariant forall c :: 0 <= c < j ==> r[c] == Redirect(merged, row[c])
      invariant forall c :: j <= c < 256 ==> r[c] == row[c]
    {
      if r[j].Node? && r[j].id in merged {
        r := r[j := merged[r[j].id]];
      }
    }
  }

  // ----- the merged fields -----

  /** The `merged` fields send states to accepting states or to states that stay. */
  ghost predicate ValidMerging(m: Store, bound: int, start: nat, merged: Merging) {
    && start !in merged
    && forall p :: p in merged ==>
         && p in m && merged[p] != Undefined
         && (merged[p].Node? ==> merged[p].id in m && merged[p].id !in merged)
         && (merged[p].Accept? ==> merged[p].n <= bound)
  }

  ghost predicate AcceptsUpTo(m: Store, bound: int) {
    forall p, c :: p in m && 0 <= c < 256 && m[p][c].Accept? ==> m[p][c].n <= bound
  }

  lemma ReplaceRow(m: Store, bound: int, p: nat, row: Row)
    requires Closed(m) && AcceptsUpTo(m, bound) && p in m
    requires forall c :: 0 <= c < 256 ==> Live(m, row[c]) && (row[c].Accept? ==> row[c].n <= bound)
    ensures Closed(m[p := row]) && AcceptsUpTo(m[p := row], bound) && m[p := row].Keys == m.Keys
  {
  }

  ghost predicate MergedLive(m: Store, bound: int, merged: Merging) {
    forall q :: q in merged ==> Live(m, merged[q]) && (merged[q].Accept? ==> merged[q].n <= bound)
  }

  lemma MergingLive(m: Store, bound: int, start: nat, merged: Merging)
    requires ValidMerging(m, bound, start, merged)
    ensures MergedLive(m, bound, merged)
  {
  }

  lemma LiveKept(m: Store, m': Store, bound: int, merged: Merging)
    requires MergedLive(m, bound, merged) && m.Keys == m'.Keys
    ensures MergedLive(m', bound, merged)
  {
  }

  lemma MergingKept(m: Store, m': Store, bound: int, start: nat, merged: Merging)
    requires ValidMerging(m, bound, start, merged) && m.Keys == m'.Keys
    ensures ValidMerging(m', bound, start, merged)
  {
  }

  /** The surviving states lead where their targets were merged. */
  ghost predicate AllRedirected(before: Store, m: Store, merged: Merging) {
    m.Keys == before.Keys && forall p :: p in m && p !in merged ==> IsRedirected(before[p], m[p], merged)
  }

  /** The first n rows are redirected unless they go, the others as before. */
  ghost predicate RedirectedTo(before: Store, m: Store, stt: seq<nat>, merged: Merging, n: nat) {
    && m.Keys == before.Keys && n <= |stt| && (forall x :: 0 <= x < |stt| ==> stt[x] in m)
    && forall x :: 0 <= x < |stt| ==>
         if x < n then stt[x] in merged || IsRedirected(before[stt[x]], m[stt[x]], merged) else m[stt[x]] == before[stt[x]]
  }

  /** A pass that merges nothing leaves every row as it was. */
  lemma NothingRedirected(before: Store, m: Store, merged: Merging)
    requires AllRedirected(before, m, merged)
    ensures merged == map[] ==> m - merged.Keys == before
  {
    if merged == map[] {
      forall p | p in m ensures m[p] == before[p] {
        assert IsRedirected(before[p], m[p], merged);
        assert forall c :: 0 <= c < 256 ==> m[p][c] == before[p][c];
      }
    }
  }

  /** The states that are left lead where they led, or to the certain outcome of a state that is
      gone. */
  ghost predicate Pruned(before: Store, m: Store) {
    && m.Keys <= before.Keys
    && forall p, c :: p in m && 0 <= c < 256 ==> PrunedCell(before, m, before[p][c], m[p][c])
  }

  /** Exactly the states without a certain outcome are left, and the start. */
  ghost predicate Survivors(before: Store, m: Store, start: nat) {
    forall p :: p in before ==> (p in m <==> p == start || !Prunable(before[p]))
  }

  /** Where the start led to a state, it still does. */
  ghost predicate KeepsNodes(before: Store, m: Store, start: nat) {
    && start in before && start in m
    && forall c :: 0 <= c < 256 && before[start][c].Node? ==> m[start][c].Node?
  }

  lemma StartKeepsNodes(before: Store, absorbed: Store, m: Store, merged: Merging, start: nat)
    requires Absorbed(before, absorbed, merged) && AllRedirected(absorbed, m, merged) && start in before && start !in merged
    ensures KeepsNodes(before, m - merged.Keys, start)
  {
    assert Refines(absorbed[start], before[start]) && IsRedirected(absorbed[start], m[start], merged);
  }

  ghost predicate PrunedCell(before: Store, m: Store, t: Target, t': Target) {
    if t.Node? && t.id in before && t.id !in m then t'.Accept? && OnlyLeadsTo(before[t.id], t') else t' == t
  }

  lemma PrunedCells(before: Store, m: Store, merged: Merging)
    requires AllRedirected(before, m, merged)
    requires forall p :: p in merged ==> p in before && merged[p].Accept? && OnlyLeadsTo(before[p], merged[p])
    ensures Pruned(before, m - merged.Keys)
  {
    var m' := m - merged.Keys;
    forall p, c | p in m' && 0 <= c < 256 ensures PrunedCell(before, m', before[p][c], m'[p][c]) {
      assert IsRedirected(before[p], m[p], merged);
      assert m'[p][c] == Redirect(merged, before[p][c]);
    }
  }

  /** The pruned machine simulates the machine before it. */
  lemma PrunedSimulates(before: Store, m: Store, merged: Merging)
    requires AllRedirected(before, m, merged)
    requires forall p :: p in merged ==> p in before && merged[p].Accept? && OnlyLeadsTo(before[p], merged[p])
    ensures Simulates(before, m - merged.Keys, merged)
  {
    hide OnlyLeadsTo;
    forall p | p in before ensures Represented(before, m - merged.Keys, merged, p) {
      assert p !in merged ==> IsRedirected(before[p], m[p], merged);
    }
  }

  lemma SurvivorsAre(before: Store, m: Store, merged: Merging, start: nat)
    requires m.Keys == before.Keys && forall p :: p in before ==> (p in merged <==> p != start && Prunable(before[p]))
    ensures Survivors(before, m - merged.Keys, start)
  {
    hide Prunable;
  }

  lemma RedirectStarts(m: Store, stt: seq<nat>, merged: Merging)
    requires forall x :: 0 <= x < |stt| ==> stt[x] in m
    ensures RedirectedTo(m, m, stt, merged, 0)
  {
  }

  lemma RedirectNext(before: Store, m: Store, stt: seq<nat>, merged: Merging, n: nat, row: Row)
    requires RedirectedTo(before, m, stt, merged, n) && n < |stt| && Distinct(stt) && IsRedirected(m[stt[n]], row, merged)
    ensures RedirectedTo(before, m[stt[n] := row], stt, merged, n + 1)
  {
    hide IsRedirected;
  }

  lemma RedirectSkipped(before: Store, m: Store, stt: seq<nat>, merged: Merging, n: nat)
    requires RedirectedTo(before, m, stt, merged, n) && n < |stt| && stt[n] in merged
    ensures RedirectedTo(before, m, stt, merged, n + 1)
  {
  }

  lemma RedirectEnds(before: Store, m: Store, stt: seq<nat>, merged: Merging)
    requires RedirectedTo(before, m, stt, merged, |stt|) && forall p :: p in m ==> p in stt
    ensures AllRedirected(before, m, merged)
  {
    forall p | p in m && p !in merged ensures IsRedirected(before[p], m[p], merged) {
      var x :| 0 <= x < |stt| && stt[x] == p;
    }
  }

  lemma ReplaceRedirected(m: Store, bound: int, merged: Merging, p: nat, row: Row)
    requires Closed(m) && AcceptsUpTo(m, bound) && p in m
    requires MergedLive(m, bound, merged) && IsRedirected(m[p], row, merged)
    ensures Closed(m[p := row]) && AcceptsUpTo(m[p := row], bound) && m[p := row].Keys == m.Keys
  {
    ReplaceRow(m, bound, p, row);
  }

  lemma ReplaceFilled(m: Store, bound: int, p: nat, q: nat, row: Row)
    requires Closed(m) && AcceptsUpTo(m, bound) && p in m && q in m
    requires forall c :: 0 <= c < 256 ==> row[c] == m[p][c] || row[c] == m[q][c]
    ensures Closed(m[p := row]) && AcceptsUpTo(m[p := row], bound) && m[p := row].Keys == m.Keys
  {
    ReplaceRow(m, bound, p, row);
  }

  lemma ReplaceTotal(m: Store, bound: int, p: nat, d: nat, row: Row)
    requires Closed(m) && AcceptsUpTo(m, bound) && p in m && d <= bound
    requires IsTotal(m[p], row, d)
    ensures Closed(m[p := row]) && AcceptsUpTo(m[p := row], bound) && m[p := row].Keys == m.Keys
  {
    ReplaceRow(m, bound, p, row);
  }

  lemma ReplaceCell(m: Store, bound: int, p: nat, i: Byte, j: Byte)
    requires Closed(m) && AcceptsUpTo(m, bound) && p in m
    ensures var m' := m[p := m[p][i := m[p][j]]]; Closed(m') && AcceptsUpTo(m', bound) && m'.Keys == m.Keys
  {
    ReplaceRow(m, bound, p, m[p][i := m[p][j]]);
  }

  lemma NothingMarked(m: Store, bound: int, start: nat)
    ensures ValidMerging(m, bound, start, map[])
  {
  }

  lemma MarkSole(m: Store, bound: int, start: nat, merged: Merging, p: nat, last: Target)
    requires ValidMerging(m, bound, start, merged) && AcceptsUpTo(m, bound) && (forall q :: q in merged ==> merged[q].Accept?)
    requires p in m && p != start && last.Accept? && last in m[p]
    ensures ValidMerging(m, bound, start, merged[p := last])
  {
  }

  /** A state that stays has no transition into a state that goes. */
  ghost predicate NotInto(m: Store, merged: Merging) {
    forall p, c :: p in m && p !in merged && 0 <= c < 256 ==> !(m[p][c].Node? && m[p][c].id in merged)
  }

  lemma RedirectedNotInto(before: Store, m: Store, bound: int, start: nat, merged: Merging)
    requires ValidMerging(m, bound, start, merged) && AllRedirected(before, m, merged)
    ensures NotInto(m, merged)
  {
  }

  lemma RestrictKeeps(m: Store, bound: int, merged: Merging)
    requires Closed(m) && AcceptsUpTo(m, bound) && NotInto(m, merged)
    ensures Closed(m - merged.Keys) && AcceptsUpTo(m - merged.Keys, bound)
  {
  }

  /** The marking loop of RemoveDuplicateRows so far: each state is refined by the
      row it is merged into, or by its own. */
  ghost predicate Absorbed(before: Store, m: Store, merged: Merging) {
    && m.Keys == before.Keys
    && (forall p :: p in merged ==> p in m && merged[p].Node? && merged[p].id in m)
    && (forall p :: p in before ==> Refines(m[if p in merged then merged[p].id else p], before[p]))
  }

  /** No state after position i has been chosen to absorb another. */
  ghost predicate NotTargets(stt: seq<nat>, merged: Merging, i: int)
    requires 0 <= i
  {
    forall p, x :: p in merged && i < x < |stt| ==> merged[p] != Node(stt[x])
  }

  lemma AbsorbKeeps(before: Store, m: Store, merged: Merging, pi: nat, pj: nat, row: Row)
    requires Absorbed(before, m, merged) && pi in m && pj in m && pi != pj
    requires pi !in merged && pj !in merged && (forall p :: p in merged ==> merged[p] != Node(pj))
    requires Refines(row, m[pi]) && Refines(row, m[pj])
    ensures Absorbed(before, m[pi := row], merged[pj := Node(pi)])
  {
    var m', merged' := m[pi := row], merged[pj := Node(pi)];
    forall p | p in before ensures Refines(m'[if p in merged' then merged'[p].id else p], before[p]) {
      var q := if p in merged then merged[p].id else p;
      assert Refines(m[q], before[p]);
    }
  }

  lemma AbsorbMarks(m: Store, bound: int, start: nat, stt: seq<nat>, merged: Merging, i: nat, j: nat)
    requires ValidMerging(m, bound, start, merged) && NotTargets(stt, merged, i) && Distinct(stt)
    requires i < j < |stt| && stt[0] == start && stt[i] in m && stt[j] in m && stt[i] !in merged
    ensures stt[i] != stt[j] && (forall p :: p in merged ==> merged[p] != Node(stt[j]))
    ensures ValidMerging(m, bound, start, merged[stt[j] := Node(stt[i])]) && NotTargets(stt, merged[stt[j] := Node(stt[i])], i)
  {
  }

  /** Row i disagrees with the later rows before n, as far as they stay. */
  ghost predicate RowApart(m: Store, stt: seq<nat>, merged: Merging, i: nat, n: nat) {
    forall y :: i < y < n <= |stt| && stt[i] in m && stt[y] in m && stt[y] !in merged ==> !Compatible(m[stt[i]], m[stt[y]])
  }

  /** None of the first n rows agrees with a later row, as far as both stay. */
  ghost predicate RowsApart(m: Store, stt: seq<nat>, merged: Merging, n: nat) {
    forall i :: 0 <= i < n <= |stt| && stt[i] !in merged ==> RowApart(m, stt, merged, i, |stt|)
  }

  lemma RowApartStarts(m: Store, stt: seq<nat>, merged: Merging, i: nat)
    ensures RowApart(m, stt, merged, i, i + 1)
  {
  }

  lemma RowApartNext(m: Store, stt: seq<nat>, merged: Merging, i: nat, j: nat)
    requires i < j < |stt| && stt[i] in m && stt[j] in m && RowApart(m, stt, merged, i, j)
    requires stt[j] in merged || !Compatible(m[stt[i]], m[stt[j]])
    ensures RowApart(m, stt, merged, i, j + 1)
  {
  }

  lemma RowsApartNext(m: Store, stt: seq<nat>, merged: Merging, n: nat)
    requires n < |stt| && RowsApart(m, stt, merged, n) && (stt[n] in merged || RowApart(m, stt, merged, n, |stt|))
    ensures RowsApart(m, stt, merged, n + 1)
  {
    hide RowApart;
  }

  /** The rows that stay have no fewer transitions, and no more rows stay. */
  ghost predicate MovesOn(m: Store, merged: Merging, m': Store, merged': Merging) {
    && m'.Keys == m.Keys && merged.Keys <= merged'.Keys
    && forall p :: p in m ==> Refines(m'[p], m[p])
  }

  lemma ApartStays(m: Store, merged: Merging, m': Store, merged': Merging, stt: seq<nat>, i: nat, n: nat)
    requires RowApart(m, stt, merged, i, n) && MovesOn(m, merged, m', merged')
    ensures RowApart(m', stt, merged', i, n)
  {
    hide Compatible, Refines;
    forall y | i < y < n <= |stt| && stt[i] in m' && stt[y] in m' && stt[y] !in merged' ensures !Compatible(m'[stt[i]], m'[stt[y]]) {
      ConflictStays(m[stt[i]], m[stt[y]], m'[stt[i]], m'[stt[y]]);
    }
  }

  lemma ConflictStays(p: Row, q: Row, p': Row, q': Row)
    requires !Compatible(p, q) && Refines(p', p) && Refines(q', q)
    ensures !Compatible(p', q')
  {
    var c :| 0 <= c < 256 && p[c] != Undefined && q[c] != Undefined && p[c] != q[c];
    assert p'[c] == p[c] && q'[c] == q[c];
  }

  lemma AllApartStay(m: Store, merged: Merging, m': Store, merged': Merging, stt: seq<nat>, n: nat)
    requires RowsApart(m, stt, merged, n) && MovesOn(m, merged, m', merged')
    ensures RowsApart(m', stt, merged', n)
  {
    forall i | 0 <= i < n <= |stt| && stt[i] !in merged' ensures RowApart(m', stt, merged', i, |stt|) {
      ApartStays(m, merged, m', merged', stt, i, |stt|);
    }
  }

  lemma MovesNowhere(m: Store, merged: Merging)
    ensures MovesOn(m, merged, m, merged)
  {
  }

  lemma MovesTwice(m: Store, merged: Merging, m': Store, merged': Merging, m'': Store, merged'': Merging)
    requires MovesOn(m, merged, m', merged') && MovesOn(m', merged', m'', merged'')
    ensures MovesOn(m, merged, m'', merged'')
  {
    hide Refines;
    forall p | p in m ensures Refines(m''[p], m[p]) {
      RefinesTwice(m''[p], m'[p], m[p]);
    }
  }

  lemma RefinesTwice(p: Row, q: Row, r: Row)
    requires Refines(p, q) && Refines(q, r)
    ensures Refines(p, r)
  {
  }

  lemma AbsorbMoves(m: Store, merged: Merging, pi: nat, pj: nat, row: Row)
    requires pi in m && Refines(row, m[pi])
    ensures MovesOn(m, merged, m[pi := row], merged[pj := Node(pi)])
  {
    hide Refines;
    forall p | p in m ensures Refines(m[p], m[p]) {
      RefinesSelf(m[p]);
    }
  }

  lemma RefinesSelf(p: Row)
    ensures Refines(p, p)
  {
  }

  /** Every transition of a row that stays is its own or that of a row merged into it. */
  ghost predicate Sourced(before: Store, m: Store, merged: Merging) {
    && m.Keys == before.Keys
    && forall p, c :: p in m && p !in merged && 0 <= c < 256 && m[p][c] != Undefined ==> HasSource(before, merged, p, c, m[p][c])
  }

  ghost predicate HasSource(before: Store, merged: Merging, p: nat, c: Byte, t: Target) {
    exists q :: q in before && (q == p || (q in merged && merged[q] == Node(p))) && before[q][c] == t
  }

  lemma SourcedStarts(m: Store)
    ensures Sourced(m, m, map[])
  {
    forall p, c | p in m && 0 <= c < 256 ensures HasSource(m, map[], p, c, m[p][c]) {
    }
  }

  lemma AbsorbSourced(before: Store, m: Store, merged: Merging, pi: nat, pj: nat, row: Row)
    requires Sourced(before, m, merged) && pi in m && pj in m && pi != pj && pi !in merged && pj !in merged
    requires (forall p :: p in merged ==> merged[p] != Node(pj)) && forall c :: 0 <= c < 256 ==> row[c] == m[pi][c] || row[c] == m[pj][c]
    ensures Sourced(before, m[pi := row], merged[pj := Node(pi)])
  {
    var m', merged' := m[pi := row], merged[pj := Node(pi)];
    forall p, c | p in m' && p !in merged' && 0 <= c < 256 && m'[p][c] != Undefined ensures HasSource(before, merged', p, c, m'[p][c]) {
      var from := if p == pi && row[c] != m[pi][c] then pj else p;
      assert m'[p][c] == m[from][c];
      var q :| q in before && (q == from || (q in merged && merged[q] == Node(from))) && before[q][c] == m[from][c];
      assert q == p || merged'[q] == Node(p);
    }
  }

  function Max(a: int, b: int): int {
    if a < b then b else a
  }

  lemma AbsorbedSimulates(before: Store, absorbed: Store, m: Store, bound: int, start: nat, merged: Merging)
    requires Absorbed(before, absorbed, merged) && AllRedirected(absorbed, m, merged) && ValidMerging(m, bound, start, merged)
    ensures Simulates(before, m - merged.Keys, merged)
  {
    forall p | p in before ensures Represented(before, m - merged.Keys, merged, p) {
      var q := if p in merged then merged[p].id else p;
      assert Refines(absorbed[q], before[p]) && IsRedirected(absorbed[q], m[q], merged);
    }
  }

  class StateMachine {
    var store: Store           // the allocated states, by handle
    var nextId: nat            // the allocator
    var start: nat             // m_StartingState
    var stt: seq<nat>          // m_stt[0 .. m_nStates]
    var merged: Merging        // the merged fields; a missing key is a null pointer
    var largest: int           // m_nLargestAcceptingState
    var itt: seq<Byte>         // m_itt
    var present: seq<bool>     // m_ColumnPresent
    var columns: nat           // m_nColumns
    var number: map<nat, nat>  // the iState fields
    ghost var bound: int       // no transition accepts a larger value

    ghost predicate Valid()
      reads this
    {
      && Closed(store)
      && |stt| > 0 && stt[0] == start && Distinct(stt)
      && (forall p :: p in store <==> p in stt)
      && (forall p :: p in store ==> p < nextId)
      && AcceptsUpTo(store, bound)
      && |itt| == 256 && |present| == 256 && largest >= -1
    }

    /** m_nStates is the number of states. */
    lemma StateCount()
      requires Valid()
      ensures |stt| == |store.Keys|
    {
      DistinctSize(stt);
      assert Elements(stt) == store.Keys;
    }

    constructor ()
      ensures Valid() && fresh(this)
      ensures Describes(store, start, []) && IsTree(store, start)
      ensures largest == bound == -1 && |stt| == 1
    {
      store, nextId, start, stt := map[0 := EmptyRow()], 1, 0, [0];
      merged, number, largest, bound := map[], map[], -1, -1;
      itt, present, columns := seq(256, i requires 0 <= i < 256 => i), seq(256, _ => true), 256;
      new;
      EmptyDescribes(store, start);
    }

    /** Records one string. The result is Conflict exactly when the machine
        already decides s, or s leads inside the trie. */
    method RecordString(s: seq<Byte>, value: int) returns (result: RecordResult)
      requires Valid() && IsTree(store, start)
      modifies this
      ensures Valid() && start == old(start)
      ensures result == OutOfRange <==> value < 0 || 65536 < value
      ensures result == Conflict ==> s != [] && Answer(old(store), start, s) != Undefined && store == old(store)
      ensures result == TooManyStates ==> 65536 <= |stt| && GrownTowards(old(store), store, start, s)
      ensures result == PastTheEnd ==> s != [] && value == 65536 && Answer(old(store), start, s) == Undefined
      ensures result == Recorded ==> (s != [] ==> value < 65536) && (|stt| == |old(stt)| || |stt| < 65536)
      ensures result == Recorded ==>
        && IsTree(store, start)
        && largest == Max(old(largest), value) && bound == Max(old(bound), value)
        && (s != [] ==> Answer(old(store), start, s) == Undefined && Records(old(store), store, start, s, value))
        && (s == [] ==> store == old(store))
    {
      if value < 0 || NUM_ACCEPTING_STATES < value {
        return OutOfRange;
      }
      if largest < value {
        largest := value;
      }
      bound := Max(bound, value);
      if s == [] {
        return Recorded;
      }
      result := RecordPath(s, value);
    }

    /** The loop over the bytes of a nonempty string. */
    method RecordPath(s: seq<Byte>, value: nat) returns (result: RecordResult)
      requires Valid() && IsTree(store, start) && s != [] && value <= bound
      modifies this`store, this`nextId, this`stt
      ensures Valid() && result in {Recorded, Conflict, TooManyStates, PastTheEnd}
      ensures result == Conflict ==> Answer(old(store), start, s) != Undefined && store == old(store)
      ensures result == TooManyStates ==> NUM_STATES <= |stt| && GrownTowards(old(store), store, start, s)
      ensures result == PastTheEnd ==> NUM_ACCEPTING_STATES <= value && Answer(old(store), start, s) == Undefined
      ensures result == Recorded ==> value < NUM_ACCEPTING_STATES && (|stt| == |old(stt)| || |stt| < NUM_STATES)
      ensures result == Recorded ==>
        IsTree(store, start) && Answer(old(store), start, s) == Undefined && Records(old(store), store, start, s, value)
    {
      ghost var before := store;
      var state, i := start, 0;
      PathStarts(store, start, s);
      hide IsTree, GrownTowards, AcceptsUpTo, Records, Distinct;
      while i < |s| - 1
        invariant 0 <= i < |s|
        invariant Valid() && PathMade(before, store, start, s[..i], state)
        invariant store != before ==> Answer(before, start, s) == Undefined
        invariant |stt| == |old(stt)| || |stt| < NUM_STATES
      {
        result, state := Advance(s, i, state, before);
        if result != Recorded {
          return;
        }
        i := i + 1;
      }
      result := AcceptLast(s, state, value, before);
    }

    /** One turn of the loop of RecordString: follow the transition on s[i], or make it. */
    method Advance(s: seq<Byte>, i: int, state: nat, ghost before: Store) returns (result: RecordResult, state': nat)
      requires Valid() && 0 <= i < |s| - 1
      requires PathMade(before, store, start, s[..i], state)
      requires store != before ==> Answer(before, start, s) == Undefined
      modifies this`store, this`nextId, this`stt
      ensures Valid() && Closed(before) && start in before
      ensures result in {Recorded, Conflict, TooManyStates}
      ensures result == Recorded ==> PathMade(before, store, start, s[..i + 1], state')
      ensures result == Conflict ==> Answer(before, start, s) != Undefined && store == old(store)
      ensures result == TooManyStates ==> NUM_STATES <= |stt| && GrownTowards(before, store, start, s)
      ensures result == Recorded ==> |stt| == |old(stt)| || |stt| < NUM_STATES
      ensures store != before ==> Answer(before, start, s) == Undefined
    {
      hide IsTree, GrownTowards, AcceptsUpTo, Records;
      var ch := s[i];
      state' := state;
      assert s[..i + 1] == s[..i] + [ch];
      RunSnoc(store, Node(start), s[..i], ch);
      assert Answer(store, start, s[..i + 1]) == Answer(before, start, s[..i + 1]);
      if store[state][ch] == Undefined {
        SettledStays(before, Node(start), s[..i + 1], s);
        state' := nextId;
        PathExtended(before, store, start, s[..i], state, ch, state');
        Allocate(state, ch);
        PathGrows(before, store, start, s, i + 1, state');
        result := if NUM_STATES <= |stt| then TooManyStates else Recorded;
      } else if store[state][ch].Accept? {
        SettledStays(before, Node(start), s[..i + 1], s);
        result := Conflict;
      } else {
        PathFollowed(before, store, start, s[..i], state, ch);
        state' := store[state][ch].id;
        result := Recorded;
      }
    }

    /** AllocateState, and the link to it. */
    method Allocate(state: nat, ch: Byte)
      requires Valid() && state in store
      modifies this`store, this`nextId, this`stt
      ensures Valid() && store == Grow(old(store), state, ch, Node(old(nextId)))
    {
      assert forall x :: 0 <= x < |stt| ==> stt[x] in store;
      store := Grow(store, state, ch, Node(nextId));
      stt := stt + [nextId];
      nextId := nextId + 1;
    }

    /** The last byte of the string. */
    method AcceptLast(s: seq<Byte>, state: nat, value: nat, ghost before: Store) returns (result: RecordResult)
      requires Valid() && s != [] && value <= bound
      requires PathMade(before, store, start, s[..|s| - 1], state)
      requires store != before ==> Answer(before, start, s) == Undefined
      modifies this`store
      ensures Valid() && Closed(before) && start in before
      ensures result in {Recorded, Conflict, PastTheEnd}
      ensures result == Conflict ==> Answer(before, start, s) != Undefined && store == before
      ensures result == PastTheEnd ==> NUM_ACCEPTING_STATES <= value && Answer(before, start, s) == Undefined
      ensures result == Recorded ==> value < NUM_ACCEPTING_STATES
      ensures result == Recorded ==>
        IsTree(store, start) && Answer(before, start, s) == Undefined && Records(before, store, start, s, value)
    {
      hide IsTree, Distinct;
      var ch := s[|s| - 1];
      assert s == s[..|s| - 1] + [ch];
      RunSnoc(store, Node(start), s[..|s| - 1], ch);
      if store[state][ch] != Undefined {
        return Conflict;
      }
      PathFinished(before, store, start, s[..|s| - 1], state, ch, value);
      if NUM_ACCEPTING_STATES <= value {
        return PastTheEnd;
      }
      store := Grow(store, state, ch, Accept(value));
      return Recorded;
    }

    /** Fills the undefined transitions with the default. A default outside m_aAcceptingStates
        makes wild pointers, and nothing is promised about the machine then. */
    method SetUndefinedStates(default': int) returns (wild: bool)
      requires Valid()
      modifies this`store, this`bound
      ensures Valid() && (wild <==> !(0 <= default' < NUM_ACCEPTING_STATES))
      ensures !wild ==> Totalised(old(store), store, default') && bound == Max(old(bound), default')
    {
      if default' < 0 || NUM_ACCEPTING_STATES <= default' {
        return true;
      }
      FillAll(default');
      return false;
    }

    method FillAll(d: nat)
      requires Valid()
      modifies this`store, this`bound
      ensures Valid() && Totalised(old(store), store, d) && bound == Max(old(bound), d)
    {
      hide Closed, Distinct, TotalTo, IsTotal;
      ghost var before := store;
      bound := Max(bound, d);
      assert AcceptsUpTo(store, bound);
      hide AcceptsUpTo;
      TotalStarts(before, stt, d);
      for i := 0 to |stt|
        invariant Valid() && bound == Max(old(bound), d) && TotalTo(before, store, stt, d, i)
      {
        var row := TotaliseRow(store[stt[i]], d);
        ReplaceTotal(store, bound, stt[i], d, row);
        TotalNext(before, store, stt, d, i, row);
        store := store[stt[i] := row];
      }
      TotalEnds(before, store, stt, d);
    }

    // ----- merging states -----

    /** Sends every transition of a state that stays to where its target was merged. */
    method RedirectPointers()
      requires Valid() && ValidMerging(store, bound, start, merged)
      modifies this`store
      ensures Valid() && ValidMerging(store, bound, start, merged) && store.Keys == old(store).Keys
      ensures AllRedirected(old(store), store, merged)
    {
      hide Live, Closed, AcceptsUpTo, Redirect, Distinct, RedirectedTo, IsRedirected, ValidMerging, MergedLive, AllRedirected;
      ghost var before := store;
      RedirectStarts(before, stt, merged);
      MergingLive(store, bound, start, merged);
      for i := 0 to |stt|
        invariant Valid() && store.Keys == before.Keys && RedirectedTo(before, store, stt, merged, i)
      {
        if stt[i] !in merged {
          var row := RedirectRow(store[stt[i]], merged);
          LiveKept(before, store, bound, merged);
          ReplaceRedirected(store, bound, merged, stt[i], row);
          RedirectNext(before, store, stt, merged, i, row);
          store := store[stt[i] := row];
        } else {
          RedirectSkipped(before, store, stt, merged, i);
        }
      }
      RedirectEnds(before, store, stt, merged);
      MergingKept(before, store, bound, start, merged);
    }

    /** Takes the merged states out of the store and closes the gaps in the table. */
    method FreeMergedStates()
      requires Valid() && ValidMerging(store, bound, start, merged)
      requires NotInto(store, merged)
      modifies this`store, this`stt
      ensures Valid() && store == old(store) - merged.Keys
      ensures |stt| <= |old(stt)| && (merged != map[] ==> |stt| < |old(stt)|)
    {
      ghost var before, gone: set<nat> := store, {};
      RestrictKeeps(store, bound, merged);
      assert before - {} == before;
      hide Closed, AcceptsUpTo, NotInto, RemoveAt, Distinct;
      var i := 0;
      while i < |stt|
        invariant 0 <= i <= |stt| <= |old(stt)| && |stt| > 0 && stt[0] == start && Distinct(stt)
        invariant store == before - gone && gone <= merged.Keys && (gone == {} <==> |stt| == |old(stt)|)
        invariant forall p :: p in store <==> p in stt
        invariant forall x :: 0 <= x < i ==> stt[x] !in merged
        decreases |stt| - i
      {
        if stt[i] !in merged {
          i := i + 1;
        } else {
          RemoveAtMembers(stt, i);
          RemoveAtFront(stt, i);
          MapMinus(before, gone, stt[i]);
          store, gone := store - {stt[i]}, gone + {stt[i]};
          stt := RemoveAt(stt, i);
        }
      }
      forall p | p in store ensures p !in merged {
        var x :| 0 <= x < |stt| && stt[x] == p;
      }
      assert gone == merged.Keys;
    }

    method MarkAcceptingStates()
      requires Valid()
      modifies this`merged
      ensures ValidMerging(store, bound, start, merged)
      ensures forall p :: p in merged ==> merged[p].Accept? && OnlyLeadsTo(store[p], merged[p])
      ensures forall p :: p in store ==> (p in merged <==> p != start && Prunable(store[p]))
    {
      hide Prunable, Closed, OnlyLeadsTo, ValidMerging, AcceptsUpTo, Distinct;
      merged := map[];
      NothingMarked(store, bound, start);
      for i := 0 to |stt|
        invariant ValidMerging(store, bound, start, merged)
        invariant forall p :: p in merged ==> p in stt[..i] && merged[p].Accept? && OnlyLeadsTo(store[p], merged[p])
        invariant forall x :: 0 <= x < i ==> (stt[x] in merged <==> stt[x] != start && Prunable(store[stt[x]]))
      {
        if stt[i] == start {
          continue;
        }
        var last := SoleAcceptingState(store[stt[i]]);
        if last != Undefined {
          MarkSole(store, bound, start, merged, stt[i], last);
          merged := merged[stt[i] := last];
        }
      }
    }

    /** Arrives one byte earlier: a state whose outcome is certain is replaced by that outcome. */
    method MergeAcceptingStates()
      requires Valid()
      modifies this`store, this`stt, this`merged
      ensures Valid() && Preserves(old(store), store, start)
      ensures Survivors(old(store), store, start) && Pruned(old(store), store)
      ensures |stt| <= |old(stt)| && (|stt| == |old(stt)| ==> store == old(store))
    {
      hide AcceptsUpTo, Prunable, Closed, Distinct, OnlyLeadsTo, AllRedirected, NotInto, Survivors, Pruned, Simulates, Preserves;
      MarkAcceptingStates();
      RedirectPointers();
      NothingRedirected(old(store), store, merged);
      RedirectedNotInto(old(store), store, bound, start, merged);
      PrunedCells(old(store), store, merged);
      SurvivorsAre(old(store), store, merged, start);
      PrunedSimulates(old(store), store, merged);
      FreeMergedStates();
      SimulationPreserves(old(store), store, merged, start);
    }

    /** Row i absorbs row j, which agrees with it wherever both are defined. */
    method AbsorbRow(i: int, j: int, ghost before: Store)
      requires Valid() && ValidMerging(store, bound, start, merged) && Absorbed(before, store, merged)
      requires 0 <= i < j < |stt| && NotTargets(stt, merged, i)
      requires stt[i] !in merged && stt[j] !in merged
      requires Compatible(store[stt[i]], store[stt[j]])
      modifies this`store, this`merged
      ensures Valid() && ValidMerging(store, bound, start, merged) && Absorbed(before, store, merged) && NotTargets(stt, merged, i)
      ensures stt[i] !in merged && merged.Keys == old(merged).Keys + {stt[j]} && stt == old(stt)
      ensures MovesOn(old(store), old(merged), store, merged)
      ensures Sourced(before, old(store), old(merged)) ==> Sourced(before, store, merged)
    {
      hide Absorbed, Refines, Compatible, Closed, AcceptsUpTo, Distinct, ValidMerging, NotTargets, MovesOn, Sourced;
      AbsorbMarks(store, bound, start, stt, merged, i, j);
      var row := FillUndefined(store[stt[i]], store[stt[j]]);
      ReplaceFilled(store, bound, stt[i], stt[j], row);
      AbsorbKeeps(before, store, merged, stt[i], stt[j], row);
      AbsorbMoves(store, merged, stt[i], stt[j], row);
      if Sourced(before, store, merged) {
        AbsorbSourced(before, store, merged, stt[i], stt[j], row);
      }
      merged := merged[stt[j] := Node(stt[i])];
      MergingKept(store, store[stt[i] := row], bound, start, merged);
      store := store[stt[i] := row];
    }

    /** Everything MarkDuplicateRows keeps. */
    ghost predicate Marking(before: Store, i: nat)
      reads this
    {
      && Valid() && ValidMerging(store, bound, start, merged) && Absorbed(before, store, merged) && NotTargets(stt, merged, i)
      && Sourced(before, store, merged)
    }

    /** Merges every later row that agrees with row i. */
    method AbsorbDuplicates(i: nat, ghost before: Store)
      requires Marking(before, i) && i < |stt| && stt[i] !in merged
      modifies this`store, this`merged
      ensures Marking(before, i) && MovesOn(old(store), old(merged), store, merged) && stt[i] !in merged
      ensures RowApart(store, stt, merged, i, |stt|) && (merged == map[] ==> store == old(store))
    {
      hide Compatible, Absorbed, ValidMerging, Distinct, RowApart, AcceptsUpTo, Closed, NotTargets, Sourced, MovesOn;
      RowApartStarts(store, stt, merged, i);
      MovesNowhere(store, merged);
      for j := i + 1 to |stt|
        invariant Marking(before, i) && stt[i] !in merged && MovesOn(old(store), old(merged), store, merged)
        invariant RowApart(store, stt, merged, i, j) && (merged == map[] ==> store == old(store))
      {
        if stt[j] !in merged {
          var equal := RowsEqual(store[stt[i]], store[stt[j]]);
          if equal {
            ghost var m, was := store, merged;
            AbsorbRow(i, j, before);
            MovesTwice(old(store), old(merged), m, was, store, merged);
            ApartStays(m, was, store, merged, stt, i, j);
          }
        }
        RowApartNext(store, stt, merged, i, j);
      }
    }

    /** Marks each row that an earlier row can stand for. No two of the rows that stay agree, and
        they have no transitions but those of the rows merged into them. */
    method MarkDuplicateRows()
      requires Valid()
      modifies this`store, this`merged
      ensures Valid() && ValidMerging(store, bound, start, merged) && Absorbed(old(store), store, merged)
      ensures RowsApart(store, stt, merged, |stt|) && Sourced(old(store), store, merged)
      ensures merged == map[] ==> store == old(store)
    {
      ghost var before := store;
      merged := map[];
      MarkingStarts();
      hide Compatible, Absorbed, ValidMerging, Distinct, RowApart, AcceptsUpTo, Closed, NotTargets, Sourced, MovesOn;
      for i := 0 to |stt|
        invariant Marking(before, i) && RowsApart(store, stt, merged, i) && (merged == map[] ==> store == before)
      {
        if stt[i] !in merged {
          ghost var m, was := store, merged;
          AbsorbDuplicates(i, before);
          AllApartStay(m, was, store, merged, stt, i);
        }
        RowsApartNext(store, stt, merged, i);
        MarkingNext(i, before);
      }
    }

    lemma MarkingStarts()
      requires Valid() && merged == map[]
      ensures Marking(store, 0) && RowsApart(store, stt, merged, 0)
    {
      SourcedStarts(store);
    }

    lemma MarkingNext(i: nat, before: Store)
      requires Marking(before, i)
      ensures Marking(before, i + 1)
    {
    }

    /** Leaves one state for rows that agree wherever both are defined: the rows are filled up from
        those they stand for until no two that stay agree, and then every transition goes where its
        target was merged. */
    method RemoveDuplicateRows() returns (ghost absorbed: Store)
      requires Valid()
      modifies this`store, this`stt, this`merged
      ensures Valid() && Preserves(old(store), store, start)
      ensures |stt| <= |old(stt)|
      ensures |stt| == |old(stt)| ==> store == old(store) && RowsApart(old(store), old(stt), map[], |stt|)
      ensures KeepsNodes(old(store), store, start)
      ensures Absorbed(old(store), absorbed, merged) && Sourced(old(store), absorbed, merged)
      ensures RowsApart(absorbed, old(stt), merged, |old(stt)|)
      ensures store.Keys == old(store).Keys - merged.Keys && forall p :: p in store ==> IsRedirected(absorbed[p], store[p], merged)
    {
      hide AcceptsUpTo, Closed, Distinct, Absorbed, NotInto, RowsApart, Sourced, KeepsNodes, Simulates, Preserves, IsRedirected;
      MarkDuplicateRows();
      absorbed := store;
      RedirectPointers();
      NothingRedirected(absorbed, store, merged);
      RedirectedNotInto(absorbed, store, bound, start, merged);
      StartKeepsNodes(old(store), absorbed, store, merged, start);
      AbsorbedSimulates(old(store), absorbed, store, bound, start, merged);
      FreeMergedStates();
      SimulationPreserves(old(store), store, merged, start);
    }

    // ----- merging columns -----

    method ColumnsEqual(i: Byte, j: Byte) returns (equal: bool)
      requires Valid()
      ensures equal <==> ColumnsCompatible(store, i, j)
    {
      for u := 0 to |stt|
        invariant forall x :: 0 <= x < u ==>
          store[stt[x]][i] == Undefined || store[stt[x]][j] == Undefined || store[stt[x]][i] == store[stt[x]][j]
      {
        var row := store[stt[u]];
        if row[i] == Undefined || row[j] == Undefined {
          continue;
        } else if row[i] != row[j] {
          return false;
        }
      }
      return true;
    }

    /** Takes column j's target wherever column i has none, in every state. */
    method FillColumn(i: Byte, j: Byte)
      requires Valid() && i != j
      modifies this`store
      ensures Valid() && Filled(old(store), store, i, j)
    {
      ghost var before := store;
      hide Closed, AcceptsUpTo;
      for u := 0 to |stt|
        invariant Valid() && store.Keys == before.Keys
        invariant forall x, c :: 0 <= x < u && 0 <= c < 256 ==>
          store[stt[x]][c] == if c == i && before[stt[x]][i] == Undefined then before[stt[x]][j] else before[stt[x]][c]
        invariant forall x :: u <= x < |stt| ==> store[stt[x]] == before[stt[x]]
      {
        var row := store[stt[u]];
        if row[i] == Undefined {
          row := row[i := row[j]];
          ReplaceCell(store, bound, stt[u], i, j);
          store := store[stt[u] := row];
        }
      }
    }

    /** Compare column j with the representative i, and merge it when they agree. */
    method CompareColumn(i: Byte, j: Byte, ghost before: Store)
      requires Valid() && i < j && |present| == 256 && present[i]
      requires Marked(before, store, itt, present, i)
      modifies this`store, this`itt, this`present
      ensures Valid() && present[i] && Marked(before, store, itt, present, i)
      ensures Fills(old(store), store) && present == old(present)[j := present[j]]
      ensures present[j] ==> old(present)[j] && !ColumnsCompatible(store, i, j)
      ensures old(Drawn(before, store)) ==> Drawn(before, store)
    {
      assert Fills(store, store);
      hide Closed, AcceptsUpTo, Distinct, Marked, Fills, ColumnsCompatible, Drawn;
      var equal := ColumnsEqual(i, j);
      if equal {
        MergeColumn(i, j, before);
      }
    }

    /** Column i takes over column j. */
    method MergeColumn(i: Byte, j: Byte, ghost before: Store)
      requires Valid() && i < j && present[i] && ColumnsCompatible(store, i, j)
      requires Marked(before, store, itt, present, i)
      modifies this`store, this`itt, this`present
      ensures Valid() && Marked(before, store, itt, present, i) && Fills(old(store), store) && present == old(present)[j := false]
      ensures old(Drawn(before, store)) ==> Drawn(before, store)
    {
      hide Closed, AcceptsUpTo, Distinct, Marked, Filled, Fills, ColumnsCompatible, Drawn;
      ghost var was := store;
      FillColumn(i, j);
      FilledFits(was, store, i, j);
      if Drawn(before, was) {
        FilledDrawn(before, was, store, i, j);
      }
      MarkColumn(before, was, store, itt, present, i, j);
      itt, present := itt[j := i], present[j := false];
    }

    /** Compare every later column with column i. */
    method CompareColumns(i: Byte, ghost before: Store)
      requires Valid() && present[i] && Marked(before, store, itt, present, i) && Separate(store, present, i) && Drawn(before, store)
      modifies this`store, this`itt, this`present
      ensures Valid() && Marked(before, store, itt, present, i) && Separate(store, present, i + 1) && Drawn(before, store)
    {
      hide Closed, AcceptsUpTo, Distinct, Marked, Fills, ColumnsCompatible, Separate, Drawn;
      for j := i + 1 to 256
        invariant Drawn(before, store)
        invariant Valid() && present[i] && Marked(before, store, itt, present, i) && Separate(store, present, i)
        invariant SeparateFrom(store, present, i, j)
      {
        ghost var m, was := store, present;
        CompareColumn(i, j, before);
        SeparateKept(m, store, was, present, i, j);
      }
      SeparateNext(store, present, i);
    }

    /** The marking loops: afterwards m_itt still holds columns, not ranks. */
    method MarkDuplicateColumns()
      requires Valid()
      modifies this`store, this`itt, this`present
      ensures Valid() && Marked(old(store), store, itt, present, 256) && Separate(store, present, 256) && Drawn(old(store), store)
    {
      ghost var before := store;
      itt, present := seq(256, i requires 0 <= i < 256 => i), seq(256, _ => true);
      MarkedInitially(before, itt, present);
      assert Separate(store, present, 0) && Drawn(before, store);
      hide Closed, AcceptsUpTo, Distinct, Marked, Drawn;
      for i := 0 to 256
        invariant Valid() && Marked(before, store, itt, present, i) && Separate(store, present, i) && Drawn(before, store)
      {
        if present[i] {
          CompareColumns(i, before);
        }
        MarkedNext(before, store, itt, present, i);
      }
    }

    /** Merges columns that agree and translates each byte to its column's rank. The ghost
        result names the column that stands for each byte. */
    method DetectDuplicateColumns() returns (ghost rep: seq<Byte>)
      requires Valid()
      modifies this`store, this`itt, this`present, this`columns
      ensures Valid() && |rep| == 256
      ensures present[0] && columns == Rank(present, 256) && Separate(store, present, 256) && Drawn(old(store), store)
      ensures columns == 1 <==> OneColumn(old(store))
      ensures AllStand(old(store), store, rep, present)
      ensures Ranked(itt, rep, present, columns)
    {
      MarkDuplicateColumns();
      rep := itt;
      assert |rep| == 256 == |present|;
      MarkedAll(old(store), store, rep, present);
      hide Marked, AllStand, AllChosen, Ranked, Rank, OneColumn, Separate, Drawn, Closed, AcceptsUpTo, Distinct, StateMachine.Valid;
      RankAll();
    }

    /** Replaces the chosen columns by their ranks. */
    method RankAll()
      requires Valid() && AllChosen(itt, present)
      modifies this`itt, this`columns
      ensures Valid() && columns == Rank(present, 256) && Ranked(itt, old(itt), present, columns)
    {
      hide AllChosen, Ranked, Rank, Closed, AcceptsUpTo, Distinct;
      itt, columns := RankColumns(itt, present);
    }

    method NumberStates()
      requires Valid()
      modifies this`number
      ensures number.Keys == store.Keys
      ensures forall i :: 0 <= i < |stt| ==> number[stt[i]] == i
    {
      number := map[];
      for i := 0 to |stt|
        invariant forall p :: p in number <==> p in stt[..i]
        invariant forall x :: 0 <= x < i ==> stt[x] in number && number[stt[x]] == x
      {
        number := number[stt[i] := i];
      }
      assert stt[..|stt|] == stt;
    }
  }
}
