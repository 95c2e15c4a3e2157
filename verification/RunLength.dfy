/** The run-length compression of one row of the table: EmitPhrase, the encoder
    inside OutputTables, its checking decoder, and the printed form that the
    generated C files hold (utf/smutil.cpp). */
module RunLength {
  import opened Sequences

  const MAX_RLE_RUN_LENGTH := 127
  const MAX_RLE_COPY_LENGTH := 128

  datatype Option<+T> = None | Some(value: T)

  datatype Phrase = Repeat(count: nat, value: int) | Copy(values: seq<int>) {
    predicate Valid() {
      match this
      case Repeat(count, _) => 1 <= count <= MAX_RLE_RUN_LENGTH
      case Copy(values) => 1 <= |values| <= MAX_RLE_COPY_LENGTH
    }

    function Values(): seq<int> {
      match this
      case Repeat(count, value) => seq(count, _ => value)
      case Copy(values) => values
    }

    /** What the phrase occupies in the blob: positive header for RUN, negative for COPY. */
    function Blob(): seq<int> {
      match this
      case Repeat(count, value) => [count, value]
      case Copy(values) => [-|values|] + values
    }
  }

  function Expand(ps: seq<Phrase>): seq<int> {
    if ps == [] then [] else ps[0].Values() + Expand(ps[1..])
  }

  function Flatten(ps: seq<Phrase>): seq<int> {
    if ps == [] then [] else ps[0].Blob() + Flatten(ps[1..])
  }

  ghost predicate AllValid(ps: seq<Phrase>) {
    forall i :: 0 <= i < |ps| ==> ps[i].Valid()
  }

  lemma {:induction false} Appended(ps: seq<Phrase>, qs: seq<Phrase>)
    ensures Expand(ps + qs) == Expand(ps) + Expand(qs)
    ensures Flatten(ps + qs) == Flatten(ps) + Flatten(qs)
  {
    if ps == [] {
      assert ps + qs == qs;
    } else {
      hide Phrase.Values, Phrase.Blob;
      assert (ps + qs)[1..] == ps[1..] + qs && (ps + qs)[0] == ps[0];
      Appended(ps[1..], qs);
      Regroup(ps[0].Values(), Expand(ps[1..]), Expand(qs));
      Regroup(ps[0].Blob(), Flatten(ps[1..]), Flatten(qs));
    }
  }

  // ----- the checking decoder -----

  /** Entry t of the row whose phrases start the given tail of the blob; None where
      the decoder would leave the blob or meet a header that is no phrase. */
  function Decode(tail: seq<int>, t: nat): Option<int>
    decreases |tail|
  {
    if |tail| < 2 then None
    else
      var y := tail[0];
      if 0 < y <= MAX_RLE_RUN_LENGTH then
        if t < y then Some(tail[1]) else Decode(tail[2..], t - y)
      else if -MAX_RLE_COPY_LENGTH <= y < 0 then
        if t < -y then
          if t + 1 < |tail| then Some(tail[t + 1]) else None
        else if -y < |tail| then Decode(tail[-y + 1..], t + y) else None
      else None
  }

  lemma DecodePhrase(p: Phrase, rest: seq<int>, t: nat)
    requires p.Valid()
    ensures Decode(p.Blob() + rest, t) ==
      if t < |p.Values()| then Some(p.Values()[t]) else Decode(rest, t - |p.Values()|)
  {
    var tail := p.Blob() + rest;
    assert tail[|p.Blob()|..] == rest;
    assert tail[0] == p.Blob()[0] && tail[1] == p.Blob()[1];
    if p.Copy? && t < |p.values| {
      assert tail[t + 1] == p.Blob()[t + 1];
    }
  }

  /** Decoding the emitted phrases gives back the row, whatever follows them. */
  lemma {:induction false} DecodeInverts(ps: seq<Phrase>, after: seq<int>, t: nat)
    requires AllValid(ps) && t < |Expand(ps)|
    ensures Decode(Flatten(ps) + after, t) == Some(Expand(ps)[t])
    decreases |ps|
  {
    var p, rest := ps[0], ps[1..];
    assert p.Valid();
    assert Flatten(ps) + after == p.Blob() + (Flatten(rest) + after);
    DecodePhrase(p, Flatten(rest) + after, t);
    if t >= |p.Values()| {
      DecodeInverts(rest, after, t - |p.Values()|);
    }
  }

  /** What is written later does not change a row that can be decoded. */
  lemma {:induction false} DecodeStable(tail: seq<int>, more: seq<int>, t: nat)
    requires Decode(tail, t).Some?
    ensures Decode(tail + more, t) == Decode(tail, t)
    decreases |tail|
  {
    var y := tail[0];
    if 0 < y <= t {
      assert (tail + more)[2..] == tail[2..] + more;
      DecodeStable(tail[2..], more, t - y);
    } else if y < 0 && -y <= t {
      assert (tail + more)[-y + 1..] == tail[-y + 1..] + more;
      DecodeStable(tail[-y + 1..], more, t + y);
    }
  }

  // ----- the printed table and the runtime -----

  function Printed(blob: seq<int>): seq<int> {
    seq(|blob|, i requires 0 <= i < |blob| => if blob[i] < 0 then 256 + blob[i] else blob[i])
  }

  lemma PrintedAt(blob: seq<int>, i: nat)
    requires i < |blob|
    ensures |Printed(blob)| == |blob| && Printed(blob)[i] == if blob[i] < 0 then 256 + blob[i] else blob[i]
  {
  }

  lemma PrintedDrop(blob: seq<int>, k: nat)
    requires k <= |blob|
    ensures Printed(blob)[k..] == Printed(blob[k..])
  {
  }

  /** The same walk over the printed table, where a COPY header y reads as 256 - y. */
  function DecodePrinted(tail: seq<int>, t: nat): Option<int>
    decreases |tail|
  {
    if |tail| < 2 then None
    else
      var y := tail[0];
      if 0 < y < 128 then
        if t < y then Some(tail[1]) else DecodePrinted(tail[2..], t - y)
      else if 128 <= y < 256 then
        if t < 256 - y then
          if t + 1 < |tail| then Some(tail[t + 1]) else None
        else if 256 - y < |tail| then DecodePrinted(tail[256 - y + 1..], t - (256 - y)) else None
      else None
  }

  lemma Headed(tail: seq<int>, t: nat)
    requires Decode(tail, t).Some?
    ensures |tail| >= 2 && (0 < tail[0] <= MAX_RLE_RUN_LENGTH || -MAX_RLE_COPY_LENGTH <= tail[0] < 0)
  {
  }

  lemma PrintedRun(tail: seq<int>, t: nat)
    requires |tail| >= 2 && 0 < tail[0] <= MAX_RLE_RUN_LENGTH
    ensures t < tail[0] ==> Decode(tail, t) == Some(tail[1]) && DecodePrinted(Printed(tail), t) == Some(Printed(tail)[1])
    ensures t >= tail[0] ==> Decode(tail, t) == Decode(tail[2..], t - tail[0])
    ensures t >= tail[0] ==> DecodePrinted(Printed(tail), t) == DecodePrinted(Printed(tail[2..]), t - tail[0])
  {
    hide Printed;
    PrintedAt(tail, 0);
    PrintedDrop(tail, 2);
  }

  lemma PrintedCopy(tail: seq<int>, t: nat)
    requires |tail| >= 2 && -MAX_RLE_COPY_LENGTH <= tail[0] < 0
    requires Decode(tail, t).Some?
    ensures |Printed(tail)| == |tail|
    ensures t < -tail[0] ==> t + 1 < |tail| && Decode(tail, t) == Some(tail[t + 1]) && DecodePrinted(Printed(tail), t) == Some(Printed(tail)[t + 1])
    ensures t >= -tail[0] ==> -tail[0] < |tail| && Decode(tail, t) == Decode(tail[-tail[0] + 1..], t + tail[0])
    ensures t >= -tail[0] ==> DecodePrinted(Printed(tail), t) == DecodePrinted(Printed(tail[-tail[0] + 1..]), t + tail[0])
  {
    hide Printed;
    PrintedAt(tail, 0);
    if t >= -tail[0] {
      PrintedDrop(tail, -tail[0] + 1);
    }
  }

  lemma {:induction false} PrintingAgrees(tail: seq<int>, t: nat)
    requires Decode(tail, t).Some? && Decode(tail, t).value >= 0
    ensures DecodePrinted(Printed(tail), t) == Decode(tail, t)
    decreases |tail|
  {
    hide Decode, DecodePrinted, Printed;
    Headed(tail, t);
    var y := tail[0];
    if y > 0 {
      PrintedAt(tail, 1);
      PrintedRun(tail, t);
      if t >= y {
        PrintingAgrees(tail[2..], t - y);
      }
    } else {
      PrintedCopy(tail, t);
      if t < -y {
        PrintedAt(tail, t + 1);
      } else {
        PrintingAgrees(tail[-y + 1..], t + y);
      }
    }
  }

  /** The format: a header up to 127 repeats the cell behind it so often. */
  lemma RunFormat(n: nat, x: int, rest: seq<int>, t: nat)
    requires 1 <= n <= 127
    ensures DecodePrinted([n, x] + rest, t) == if t < n then Some(x) else DecodePrinted(rest, t - n)
  {
    assert ([n, x] + rest)[2..] == rest;
  }

  /** A header from 128 stands for the 256 - header cells behind it. */
  lemma CopyFormat(values: seq<int>, rest: seq<int>, t: nat)
    requires 1 <= |values| <= 128
    ensures DecodePrinted([256 - |values|] + values + rest, t) == if t < |values| then Some(values[t]) else DecodePrinted(rest, t - |values|)
  {
    var n, tail := |values|, [256 - |values|] + values + rest;
    assert tail[0] == 256 - n && tail[n + 1..] == rest && |tail| >= 2;
    assert t < n ==> tail[t + 1] == values[t];
  }

  // ----- EmitPhrase -----

  function Min(a: int, b: int): int {
    if a < b then a else b
  }

  /** The phrases EmitPhrase cuts a request into. */
  function Cut(isRun: bool, values: seq<int>): (ps: seq<Phrase>)
    ensures AllValid(ps)
    decreases |values|
  {
    if values == [] then []
    else
      var p := FirstPhrase(isRun, values);
      [p] + Cut(isRun, values[|p.Values()|..])
  }

  function FirstPhrase(isRun: bool, values: seq<int>): (p: Phrase)
    requires values != []
    ensures p.Valid()
  {
    var chunk := Min(|values|, if isRun then MAX_RLE_RUN_LENGTH else MAX_RLE_COPY_LENGTH);
    if isRun then Repeat(chunk, values[0]) else Copy(values[..chunk])
  }

  lemma CutHead(isRun: bool, values: seq<int>)
    requires values != []
    ensures var p := FirstPhrase(isRun, values);
      && 0 < |p.Values()| <= |values|
      && Expand(Cut(isRun, values)) == p.Values() + Expand(Cut(isRun, values[|p.Values()|..]))
      && Flatten(Cut(isRun, values)) == p.Blob() + Flatten(Cut(isRun, values[|p.Values()|..]))
  {
    var p := FirstPhrase(isRun, values);
    assert Cut(isRun, values)[1..] == Cut(isRun, values[|p.Values()|..]);
  }

  ghost predicate Uniform(values: seq<int>) {
    forall i :: 0 <= i < |values| ==> values[i] == values[0]
  }

  lemma {:induction false} CutExpands(isRun: bool, values: seq<int>)
    requires isRun ==> Uniform(values)
    ensures Expand(Cut(isRun, values)) == values
    decreases |values|
  {
    if values != [] {
      CutHead(isRun, values);
      hide Cut, Expand, Flatten;
      var p := FirstPhrase(isRun, values);
      CutExpands(isRun, values[|p.Values()|..]);
      assert p.Values() == values[..|p.Values()|];
    }
  }

  function Cost(isRun: bool, values: seq<int>): nat {
    |Flatten(Cut(isRun, values))|
  }

  /** A phrase costs at most two blob cells for each column, and saves at least one
      unless it covers a single column. */
  lemma {:induction false} CutCost(isRun: bool, values: seq<int>)
    requires values != []
    ensures 2 <= Cost(isRun, values) <= 2 * |values|
    ensures 2 <= |values| ==> Cost(isRun, values) < 2 * |values|
    ensures |values| == 1 ==> Cost(isRun, values) == 2
    ensures isRun && |values| <= MAX_RLE_RUN_LENGTH ==> Cost(isRun, values) == 2
    decreases |values|
  {
    var ps := Cut(isRun, values);
    var chunk := Min(|values|, if isRun then MAX_RLE_RUN_LENGTH else MAX_RLE_COPY_LENGTH);
    assert ps[1..] == Cut(isRun, values[chunk..]);
    assert |Flatten(ps)| == |ps[0].Blob()| + |Flatten(ps[1..])|;
    if values[chunk..] != [] {
      CutCost(isRun, values[chunk..]);
    } else {
      assert Flatten(ps[1..]) == [];
    }
  }

  method WriteCell(blob: array<int>, n: nat, value: int)
    requires n < blob.Length
    modifies blob
    ensures blob[..n + 1] == old(blob[..n]) + [value]
  {
    blob[n] := value;
  }

  lemma CellsNext(was: seq<int>, cells: seq<int>, i: nat)
    requires i < |cells|
    ensures (was + cells[..i]) + [cells[i]] == was + cells[..i + 1]
  {
  }

  /** Writes one phrase, checking for room before the header and before each copied cell. */
  method WritePhrase(blob: array<int>, n: nat, maxBlob: nat, phrase: Phrase) returns (ok: bool, n': nat)
    requires blob.Length == 2 * maxBlob && n <= blob.Length && phrase.Valid()
    modifies blob
    ensures ok <==> n + |phrase.Blob()| < 2 * maxBlob
    ensures ok ==> n' == n + |phrase.Blob()| && blob[..n'] == old(blob[..n]) + phrase.Blob()
  {
    n' := n;
    if 2 * maxBlob <= n' + 2 {
      return false, n';
    }
    ghost var was, cells := blob[..n], phrase.Blob();
    match phrase {
      case Repeat(count, value) =>
        blob[n'], blob[n' + 1] := count, value;
        n' := n' + 2;
        assert blob[..n'] == was + [count, value];
      case Copy(values) =>
        blob[n'] := -|values|;
        n' := n' + 1;
        assert blob[..n'] == was + cells[..1];
        assert forall i :: 0 <= i < |values| ==> cells[i + 1] == values[i];
        hide *;
        for i := 0 to |values|
          invariant n' == n + 1 + i < 2 * maxBlob && blob[..n'] == was + cells[..i + 1]
        {
          if 2 * maxBlob <= n' + 1 {
            return false, n';
          }
          WriteCell(blob, n', values[i]);
          CellsNext(was, cells, i + 1);
          n' := n' + 1;
        }
        assert cells[..|cells|] == cells;
    }
    return true, n';
  }

  /** Writes a request as phrases. The blob holds 2 * maxBlob cells, and the last
      one is never used. */
  method EmitPhrase(blob: array<int>, n: nat, maxBlob: nat, isRun: bool, request: seq<int>) returns (ok: bool, n': nat)
    requires blob.Length == 2 * maxBlob && n <= blob.Length
    modifies blob
    ensures ok <==> request == [] || n + Cost(isRun, request) < 2 * maxBlob
    ensures ok ==> n' == n + Cost(isRun, request) <= blob.Length
    ensures ok ==> blob[..n'] == old(blob[..n]) + Flatten(Cut(isRun, request))
  {
    n' := n;
    var values := request;
    ghost var used, left := blob[..n], Flatten(Cut(isRun, request));
    ghost var goal := used + left;
    assert Flatten(Cut(isRun, [])) == [] && |goal| == n + Cost(isRun, request);
    hide *;
    while values != []
      invariant n' <= blob.Length && blob[..n'] == used && used + left == goal && left == Flatten(Cut(isRun, values))
      invariant values == [] ==> request == [] || n' < 2 * maxBlob
      decreases |values|
    {
      var phrase := FirstPhrase(isRun, values);
      CutHead(isRun, values);
      ghost var cells, rest := phrase.Blob(), Flatten(Cut(isRun, values[|phrase.Values()|..]));
      Regroup(used, cells, rest);
      ok, n' := WritePhrase(blob, n', maxBlob, phrase);
      if !ok {
        assert |goal| >= |used| + |cells|;
        return;
      }
      values, used, left := values[|phrase.Values()|..], used + cells, rest;
    }
    assert used + [] == used;
    ok := true;
  }
}
