/** Merged byte columns: which columns are present, their ranks, and the soundness
    of the input translation table built by DetectDuplicateColumns (utf/smutil.cpp). */
module Columns {
  import opened Automaton
  import opened Bytes

  /** The number of present columns below n. */
  function Rank(present: seq<bool>, n: nat): (r: nat)
    requires n <= |present|
    ensures r <= n
  {
    if n == 0 then 0 else Rank(present, n - 1) + if present[n - 1] then 1 else 0
  }

  lemma {:induction false} RankBelow(present: seq<bool>, x: nat, n: nat)
    requires x < n <= |present| && present[x]
    ensures Rank(present, x) < Rank(present, n)
    decreases n
  {
    if x < n - 1 {
      RankBelow(present, x, n - 1);
    }
  }

  lemma RankNext(present: seq<bool>, n: nat)
    requires n < |present|
    ensures Rank(present, n + 1) == Rank(present, n) + if present[n] then 1 else 0
  {
  }

  lemma {:induction false} RankGrows(present: seq<bool>, x: nat, n: nat)
    requires x <= n <= |present|
    ensures Rank(present, x) <= Rank(present, n)
    decreases n
  {
    if x < n {
      RankGrows(present, x, n - 1);
    }
  }

  /** The values of the present columns, in order. */
  function Project(values: seq<int>, present: seq<bool>, n: nat): seq<int>
    requires n <= |present| && n <= |values|
  {
    if n == 0 then []
    else Project(values, present, n - 1) + if present[n - 1] then [values[n - 1]] else []
  }

  lemma {:induction false} ProjectLength(values: seq<int>, present: seq<bool>, n: nat)
    requires n <= |present| && n <= |values|
    ensures |Project(values, present, n)| == Rank(present, n)
  {
    if n > 0 {
      ProjectLength(values, present, n - 1);
    }
  }

  lemma ProjectStarts(values: seq<int>, present: seq<bool>)
    ensures Project(values, present, 0) == []
  {
  }

  lemma ProjectNext(values: seq<int>, present: seq<bool>, n: nat)
    requires n < |present| && n < |values|
    ensures Project(values, present, n + 1) ==
      Project(values, present, n) + if present[n] then [values[n]] else []
  {
  }

  ghost predicate Within(row: seq<int>, top: int) {
    forall t :: 0 <= t < |row| ==> 0 <= row[t] <= top
  }

  lemma {:induction false} ProjectWithin(values: seq<int>, present: seq<bool>, n: nat, top: int)
    requires n <= |present| && n <= |values| && Within(values, top)
    ensures Within(Project(values, present, n), top)
  {
    if n > 0 {
      ProjectWithin(values, present, n - 1, top);
    }
  }

  /** A present column is found in the projected row at its rank. */
  lemma {:induction false} ProjectAt(values: seq<int>, present: seq<bool>, n: nat, x: nat)
    requires x < n <= |present| && n <= |values| && present[x]
    ensures Rank(present, x) < |Project(values, present, n)|
    ensures Project(values, present, n)[Rank(present, x)] == values[x]
    decreases n
  {
    ProjectLength(values, present, n - 1);
    if x < n - 1 {
      ProjectAt(values, present, n - 1, x);
    }
  }

  /** Every transition that was defined for byte b is in the column that stands for it. */
  ghost predicate Stands(before: Store, m: Store, b: Byte, r: Byte) {
    && before.Keys == m.Keys
    && forall p :: p in before && before[p][b] != Undefined ==> m[p][r] == before[p][b]
  }

  ghost predicate ColumnsCompatible(m: Store, i: Byte, j: Byte) {
    forall p :: p in m ==> m[p][i] == Undefined || m[p][j] == Undefined || m[p][i] == m[p][j]
  }

  /** The marking loops of DetectDuplicateColumns while column i is being compared:
      rep[b] is the column chosen so far for b. A column is re-assigned when a later
      representative also fits. */
  ghost predicate Marked(before: Store, m: Store, rep: seq<Byte>, present: seq<bool>, i: int) {
    && |rep| == 256 && |present| == 256 && present[0]
    && (forall b: Byte :: Stands(before, m, b, b) && Stands(before, m, b, rep[b]))
    && (forall b: Byte :: Chosen(rep, present, b) && (!present[b] ==> rep[b] <= i))
  }

  /** The column chosen for b is present: b itself, or an earlier one when b is not. */
  ghost predicate Chosen(rep: seq<Byte>, present: seq<bool>, b: Byte)
    requires |rep| == |present| == 256
  {
    present[rep[b]] && if present[b] then rep[b] == b else rep[b] < b
  }

  lemma MarkedInitially(m: Store, rep: seq<Byte>, present: seq<bool>)
    requires |rep| == |present| == 256
    requires forall b: Byte :: rep[b] == b && present[b]
    ensures Marked(m, m, rep, present, 0)
  {
    assert forall b: Byte :: Stands(m, m, b, b);
  }

  lemma MarkedNext(before: Store, m: Store, rep: seq<Byte>, present: seq<bool>, i: int)
    requires Marked(before, m, rep, present, i)
    ensures Marked(before, m, rep, present, i + 1)
  {
  }

  /** Only "don't care" transitions were filled in. */
  ghost predicate Fills(m: Store, m': Store) {
    m.Keys == m'.Keys && forall p, c :: p in m && 0 <= c < 256 && m[p][c] != Undefined ==> m'[p][c] == m[p][c]
  }

  /** Column i took over what only column j defines. */
  ghost predicate Filled(m: Store, m': Store, i: Byte, j: Byte) {
    && m.Keys == m'.Keys
    && forall p, c :: p in m && 0 <= c < 256 ==>
         m'[p][c] == if c == i && m[p][i] == Undefined then m[p][j] else m[p][c]
  }

  lemma FilledFits(m: Store, m': Store, i: Byte, j: Byte)
    requires Filled(m, m', i, j) && ColumnsCompatible(m, i, j)
    ensures Fills(m, m') && forall p :: p in m && m[p][j] != Undefined ==> m'[p][i] == m[p][j]
  {
  }

  /** Every defined cell repeats a cell that its row had before. */
  ghost predicate Drawn(before: Store, m: Store) {
    m.Keys == before.Keys && forall p, c :: p in m && 0 <= c < 256 && m[p][c] != Undefined ==> m[p][c] in before[p]
  }

  lemma FilledDrawn(before: Store, m: Store, m': Store, i: Byte, j: Byte)
    requires Drawn(before, m) && Filled(m, m', i, j)
    ensures Drawn(before, m')
  {
    forall p, c | p in m' && 0 <= c < 256 && m'[p][c] != Undefined ensures m'[p][c] in before[p] {
      assert m'[p][c] == m[p][c] || m'[p][c] == m[p][j];
    }
  }

  ghost predicate SeparateFrom(m: Store, present: seq<bool>, i: Byte, n: int)
    requires |present| == 256
  {
    forall j: Byte :: i < j < n && present[i] && present[j] ==> !ColumnsCompatible(m, i, j)
  }

  /** No column that is left fits a column before n that is left: none was kept that could have
      been merged. */
  ghost predicate Separate(m: Store, present: seq<bool>, n: int)
    requires |present| == 256
  {
    forall i: Byte :: i < n ==> SeparateFrom(m, present, i, 256)
  }

  lemma StaysApart(m: Store, m': Store, i: Byte, j: Byte)
    requires Fills(m, m') && !ColumnsCompatible(m, i, j)
    ensures !ColumnsCompatible(m', i, j)
  {
    var p :| p in m && m[p][i] != Undefined && m[p][j] != Undefined && m[p][i] != m[p][j];
    assert m'[p][i] == m[p][i] && m'[p][j] == m[p][j];
  }

  lemma SeparateKept(m: Store, m': Store, present: seq<bool>, present': seq<bool>, i: Byte, j: Byte)
    requires |present| == |present'| == 256 && Fills(m, m') && present' == present[j := present'[j]] && i < j
    requires Separate(m, present, i) && SeparateFrom(m, present, i, j)
    requires present'[j] ==> present[j] && !ColumnsCompatible(m', i, j)
    ensures Separate(m', present', i) && SeparateFrom(m', present', i, j + 1)
  {
    hide Fills, ColumnsCompatible;
    forall a: Byte, b: Byte | a < b && !ColumnsCompatible(m, a, b) ensures !ColumnsCompatible(m', a, b) {
      StaysApart(m, m', a, b);
    }
    forall a: Byte | a < i ensures SeparateFrom(m', present', a, 256) {
      assert SeparateFrom(m, present, a, 256);
    }
  }

  lemma SeparateNext(m: Store, present: seq<bool>, i: Byte)
    requires |present| == 256 && Separate(m, present, i) && SeparateFrom(m, present, i, 256)
    ensures Separate(m, present, i + 1)
  {
  }

  lemma MarkColumn(before: Store, m: Store, m': Store, rep: seq<Byte>, present: seq<bool>, i: Byte, j: Byte)
    requires Marked(before, m, rep, present, i) && i < j && present[i]
    requires Fills(m, m')
    requires forall p :: p in m && m[p][j] != Undefined ==> m'[p][i] == m[p][j]
    ensures Marked(before, m', rep[j := i], present[j := false], i)
  {
    var rep', present' := rep[j := i], present[j := false];
    forall b: Byte ensures Stands(before, m', b, b) && Stands(before, m', b, rep'[b]) {
      assert Stands(before, m, b, b) && Stands(before, m, b, rep[b]);
    }
    forall b: Byte ensures Chosen(rep', present', b) && (!present'[b] ==> rep'[b] <= i) {
      assert Chosen(rep, present, b) && (!present[b] ==> rep[b] <= i);
    }
  }

  ghost predicate AllChosen(rep: seq<Byte>, present: seq<bool>) {
    |rep| == |present| == 256 && forall b: Byte :: Chosen(rep, present, b)
  }

  /** The table holds the rank of the column that stands for each byte. */
  ghost predicate Ranked(itt: seq<Byte>, rep: seq<Byte>, present: seq<bool>, columns: nat) {
    |itt| == |rep| == |present| == 256 && forall b: Byte :: itt[b] == Rank(present, rep[b]) < columns
  }

  /** Replaces each chosen column by its rank, in place: a column's rank is known before the
      columns that it stands for are reached. */
  method RankColumns(rep: seq<Byte>, present: seq<bool>) returns (itt: seq<Byte>, columns: nat)
    requires AllChosen(rep, present)
    ensures |itt| == 256 && columns == Rank(present, 256) && Ranked(itt, rep, present, columns)
  {
    itt, columns := rep, 0;
    assert Rank(present, 0) == 0;
    hide Rank;
    for i := 0 to 256
      invariant |itt| == 256 && columns == Rank(present, i)
      invariant forall b :: 0 <= b < i ==> itt[b] == Rank(present, rep[b])
      invariant forall b :: i <= b < 256 ==> itt[b] == rep[b]
    {
      RankNext(present, i);
      assert Chosen(rep, present, i);
      if present[i] {
        itt := itt[i := columns];
        columns := columns + 1;
      } else {
        var r := itt[i];
        assert Chosen(rep, present, r);
        itt := itt[i := itt[r]];
      }
    }
    forall b: Byte ensures itt[b] == Rank(present, rep[b]) < columns {
      assert Chosen(rep, present, b);
      RankBelow(present, rep[b], 256);
    }
  }

  // ----- a single column -----

  /** No state tells two bytes apart. */
  ghost predicate OneColumn(m: Store) {
    forall p, b: Byte, c: Byte :: p in m && m[p][b] != Undefined && m[p][c] != Undefined ==> m[p][b] == m[p][c]
  }

  /** Then any two columns can be merged, whatever was filled in. */
  lemma OneColumnCompatible(before: Store, m: Store, i: Byte, j: Byte)
    requires OneColumn(before) && Drawn(before, m)
    ensures ColumnsCompatible(m, i, j)
  {
    forall p | p in m && m[p][i] != Undefined && m[p][j] != Undefined ensures m[p][i] == m[p][j] {
      var b :| 0 <= b < 256 && before[p][b] == m[p][i];
      var c :| 0 <= c < 256 && before[p][c] == m[p][j];
    }
  }

  lemma {:induction false} RankOfFirst(present: seq<bool>, n: nat)
    requires 0 < n <= |present| && present[0] && forall i :: 0 < i < n ==> !present[i]
    ensures Rank(present, n) == 1
  {
    if n == 1 {
      assert Rank(present, 0) == 0;
    } else {
      RankOfFirst(present, n - 1);
    }
  }

  /** A single column is left if and only if no state told two bytes apart. */
  lemma SoleColumn(before: Store, m: Store, present: seq<bool>, rep: seq<Byte>)
    requires |present| == 256 == |rep| && present[0] && Drawn(before, m) && Separate(m, present, 256)
    requires forall b: Byte :: Stands(before, m, b, rep[b]) && present[rep[b]]
    ensures Rank(present, 256) == 1 <==> OneColumn(before)
  {
    if OneColumn(before) {
      forall j | 0 < j < 256 ensures !present[j] {
        OneColumnCompatible(before, m, 0, j);
        assert SeparateFrom(m, present, 0, 256);
      }
      RankOfFirst(present, 256);
    }
    if Rank(present, 256) == 1 {
      SoleRepresentative(present, rep);
      forall p, b: Byte, c: Byte | p in before && before[p][b] != Undefined && before[p][c] != Undefined
        ensures before[p][b] == before[p][c]
      {
        assert Stands(before, m, b, rep[b]) && Stands(before, m, c, rep[c]);
      }
    }
  }

  lemma SoleRepresentative(present: seq<bool>, rep: seq<Byte>)
    requires |present| == 256 == |rep| && present[0] && Rank(present, 256) == 1 && forall b: Byte :: present[rep[b]]
    ensures forall b: Byte :: rep[b] == 0
  {
    forall b: Byte ensures rep[b] == 0 {
      assert present[rep[b]];
      RankBelow(present, rep[b], 256);
      if rep[b] > 0 {
        RankBelow(present, 0, rep[b]);
      }
    }
  }

  /** Every byte's defined transitions are in its own column and in the present one that stands
      for it. */
  ghost predicate AllStand(before: Store, m: Store, rep: seq<Byte>, present: seq<bool>) {
    && |rep| == |present| == 256
    && forall b: Byte :: Stands(before, m, b, b) && Stands(before, m, b, rep[b]) && present[rep[b]]
  }

  lemma MarkedAll(before: Store, m: Store, rep: seq<Byte>, present: seq<bool>)
    requires Marked(before, m, rep, present, 256) && Separate(m, present, 256) && Drawn(before, m)
    ensures present[0] && AllStand(before, m, rep, present) && AllChosen(rep, present)
    ensures Rank(present, 256) == 1 <==> OneColumn(before)
  {
    hide Stands, OneColumn, Separate, Drawn, Rank;
    forall b: Byte ensures present[rep[b]] {
      assert Chosen(rep, present, b);
    }
    SoleColumn(before, m, present, rep);
  }
}
