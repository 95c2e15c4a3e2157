/** The row encoder inside OutputTables (utf/smutil.cpp): columns arrive one at a
    time, and pending columns are kept as a run or as a list to copy. */
module RowEncoder {
  import opened RunLength

  /** kLastValue, kRunCount and the kCopyCount used cells of piCopy. */
  datatype Pending = Pending(last: int, run: nat, copy: seq<int>) {
    function Values(): seq<int> {
      if run > 0 then seq(run, _ => last) else copy
    }

    /** Before the first column nothing is pending; later, a list to copy that ends
        with the last value, or a run of at least two. */
    ghost predicate Valid(seen: seq<int>) {
      if seen == [] then run == 0 && copy == []
      else
        || (run == 0 && copy != [] && last == copy[|copy| - 1])
        || (2 <= run <= MAX_RLE_RUN_LENGTH && copy == [])
    }
  }

  /** The row so far is what the phrases expand to, then what is pending. The phrases
      cost at most two cells a column, and less unless a run is about to follow. */
  ghost predicate Encoding(ps: seq<Phrase>, p: Pending, seen: seq<int>) {
    && AllValid(ps) && p.Valid(seen)
    && Expand(ps) + p.Values() == seen
    && |Flatten(ps)| <= 2 * |Expand(ps)|
    && (ps == [] || p.run > 0 || |Flatten(ps)| < 2 * |Expand(ps)|)
  }

  lemma EncodingGrows(ps: seq<Phrase>, isRun: bool, values: seq<int>)
    requires AllValid(ps) && values != [] && |Flatten(ps)| <= 2 * |Expand(ps)|
    requires isRun ==> Uniform(values)
    ensures var qs := ps + Cut(isRun, values);
      && AllValid(qs) && qs != []
      && Flatten(qs) == Flatten(ps) + Flatten(Cut(isRun, values))
      && Expand(qs) == Expand(ps) + values
      && |Flatten(qs)| <= 2 * |Expand(qs)|
      && (2 <= |values| ==> |Flatten(qs)| < 2 * |Expand(qs)|)
  {
    Appended(ps, Cut(isRun, values));
    CutExpands(isRun, values);
    CutCost(isRun, values);
  }

  /** The part of the blob that is in use: earlier rows, then the phrases of this one. */
  ghost predicate Written(used: seq<int>, base: seq<int>, ps: seq<Phrase>) {
    used == base + Flatten(ps)
  }

  lemma EncodingStarts(base: seq<int>, p: Pending)
    requires p.run == 0 && p.copy == []
    ensures Encoding([], p, []) && Written(base, base, [])
  {
    assert base + [] == base;
  }

  method Emit(blob: array<int>, n: nat, maxBlob: nat, isRun: bool, values: seq<int>, ghost base: seq<int>, ghost ps: seq<Phrase>)
    returns (ok: bool, n': nat, ghost ps': seq<Phrase>)
    requires blob.Length == 2 * maxBlob && n <= blob.Length
    requires AllValid(ps) && values != [] && |Flatten(ps)| <= 2 * |Expand(ps)|
    requires isRun ==> Uniform(values)
    requires Written(blob[..n], base, ps)
    modifies blob
    ensures ps' == ps + Cut(isRun, values) && AllValid(ps') && ps' != []
    ensures Expand(ps') == Expand(ps) + values
    ensures |Flatten(ps')| <= 2 * |Expand(ps')|
    ensures 2 <= |values| ==> |Flatten(ps')| < 2 * |Expand(ps')|
    ensures |Flatten(ps')| == |Flatten(ps)| + Cost(isRun, values)
    ensures ok <==> |base| + |Flatten(ps')| < 2 * maxBlob
    ensures ok ==> n' <= blob.Length && Written(blob[..n'], base, ps')
  {
    hide Flatten, Expand, Cut;
    ps' := ps + Cut(isRun, values);
    EncodingGrows(ps, isRun, values);
    ok, n' := EmitPhrase(blob, n, maxBlob, isRun, values);
    if ok {
      assert base + Flatten(ps) + Flatten(Cut(isRun, values)) == base + Flatten(ps');
    }
  }

  /** The list to copy is no longer than the row so far. */
  lemma CopyWithin(ps: seq<Phrase>, p: Pending, seen: seq<int>)
    requires Encoding(ps, p, seen)
    ensures |p.copy| <= |seen|
  {
    hide Expand, Flatten;
  }

  /** The body of the column loop. As long as fewer columns were seen than there are, the
      list to copy finds room, and with room for two cells for each column seen, it
      cannot fail. (A pending run has at least two columns, so the source's branch
      for a run of one is never taken.) */
  method Feed(blob: array<int>, n: nat, maxBlob: nat, columns: nat, p: Pending, k: int, first: bool,
              ghost base: seq<int>, ghost ps: seq<Phrase>, ghost seen: seq<int>)
    returns (ok: bool, n': nat, p': Pending, ghost ps': seq<Phrase>)
    requires blob.Length == 2 * maxBlob && n <= blob.Length
    requires Encoding(ps, p, seen) && (first <==> seen == [])
    requires Written(blob[..n], base, ps)
    modifies blob
    ensures first || (|seen| < columns && |base| + 2 * |seen| < 2 * maxBlob) ==> ok
    ensures ok ==> Encoding(ps', p', seen + [k])
    ensures ok ==> n' <= blob.Length && Written(blob[..n'], base, ps')
  {
    hide Flatten, Expand, Cut;
    ok, n', ps' := true, n, ps;
    if first {
      p' := Pending(k, 0, [k]);
    } else if p.last == k {
      if 0 < p.run {
        if p.run < MAX_RLE_RUN_LENGTH {
          p' := p.(run := p.run + 1);
        } else {
          ok, n', ps' := Emit(blob, n, maxBlob, true, p.Values(), base, ps);
          p' := Pending(k, 0, [k]);
        }
      } else if 1 == |p.copy| {
        p' := Pending(k, 2, []);
      } else {
        ghost var was := p.copy;
        ok, n', ps' := Emit(blob, n, maxBlob, false, p.copy[..|p.copy| - 1], base, ps);
        p' := Pending(k, 2, []);
        assert was == was[..|was| - 1] + [k];
      }
    } else {
      if 0 < |p.copy| {
        CopyWithin(ps, p, seen);
        if columns <= |p.copy| {
          return false, n, p, ps;
        }
        p' := Pending(k, 0, p.copy + [k]);
      } else {
        ok, n', ps' := Emit(blob, n, maxBlob, true, p.Values(), base, ps);
        p' := Pending(k, 0, [k]);
      }
    }
  }

  /** What is pending at the end of a row is written as one more request. */
  method Flush(blob: array<int>, n: nat, maxBlob: nat, p: Pending, ghost base: seq<int>, ghost ps: seq<Phrase>, ghost seen: seq<int>)
    returns (ok: bool, n': nat, ghost ps': seq<Phrase>)
    requires blob.Length == 2 * maxBlob && n <= blob.Length
    requires Encoding(ps, p, seen) && seen != []
    requires Written(blob[..n], base, ps)
    modifies blob
    ensures AllValid(ps') && Expand(ps') == seen
    ensures ok <==> |base| + |Flatten(ps')| < 2 * maxBlob
    ensures ok ==> n' <= blob.Length && Written(blob[..n'], base, ps')
    ensures |seen| == 1 ==> |Flatten(ps')| == 2
    ensures 2 <= |seen| ==> |Flatten(ps')| < 2 * |seen|
  {
    if 0 < p.run {
      ok, n', ps' := Emit(blob, n, maxBlob, true, p.Values(), base, ps);
    } else {
      CutCost(false, p.copy);
      ok, n', ps' := Emit(blob, n, maxBlob, false, p.copy, base, ps);
    }
  }
}
