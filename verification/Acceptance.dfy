/** Which sources the converters of utf/ConvertUTF.cpp accept, told without their code: one
    character after the other, up to the first bad one. */
module Acceptance {
  import opened Bytes
  import opened Utf
  import opened Transcoding

  /** The units that a source of this form can hold. */
  ghost predicate IsSource(form: Form, source: seq<int>) {
    match form
    case Utf32To8 => true
    case Utf16To8 => forall i :: 0 <= i < |source| ==> 0 <= source[i] <= 0xFFFF
    case _ => forall i :: 0 <= i < |source| ==> 0 <= source[i] <= 0xFF
  }

  predicate IsHigh(u: int) {
    0xD800 <= u <= 0xDBFF
  }

  predicate IsLow(u: int) {
    0xDC00 <= u <= 0xDFFF
  }

  /** The family that isLegalUTF8 overlooks, with the value it is taken for. */
  predicate IsStray(u: seq<int>, value: int) {
    || (|u| == 3 && u[0] == 0xED && 0 <= u[1] < 0x80 && IsContinuation(u[2]) && value == 0xB000 + u[1] * 64 + (u[2] - 0x80))
    || (|u| == 4 && u[0] == 0xF4 && 0 <= u[1] < 0x80 && IsContinuation(u[2]) && IsContinuation(u[3])
        && value == 0x80000 + u[1] * 4096 + (u[2] - 0x80) * 64 + (u[3] - 0x80))
  }

  /** u in front of v is one accepted character, and stands for the value. A lenient reader of
      UTF-16 also takes surrogates that are not paired, if it can see that they are not. */
  ghost predicate Accepts(c: Converter, u: seq<int>, v: seq<int>, value: int) {
    match c.form
    case Utf32To8 => |u| == 1 && value == u[0] && (c.strict ==> !IsHigh(value) && !IsLow(value))
    case Utf16To8 =>
      || (|u| == 2 && IsHigh(u[0]) && IsLow(u[1]) && value == 0x10000 + (u[0] - 0xD800) * 0x400 + (u[1] - 0xDC00))
      || (|u| == 1 && value == u[0] && !IsHigh(value) && !(c.strict && IsLow(value)))
      || (|u| == 1 && value == u[0] && IsHigh(value) && !c.strict && v != [] && !IsLow(v[0]))
    case _ => (IsScalar(value) && u == Encode(value)) || IsStray(u, value)
  }

  /** What is written for a value. */
  function Writes(c: Converter, value: int): seq<int> {
    match c.form
    case Utf8To32 => [value]
    case Utf8To16 => Encode16(if 0 <= value <= 0x10FFFF then value else 0xFFFD)
    case _ => Encode(if 0 <= value <= 0x10FFFF then value else 0xFFFD)
  }

  /** The value has no encoding, and the replacement marks the result as illegal. */
  predicate Replaces(c: Converter, value: int) {
    c.form == Utf32To8 && !(0 <= value <= 0x10FFFF)
  }

  /** More bytes than there are belong to the first one, or a high surrogate stands at the end. */
  predicate CutOff(c: Converter, s: seq<int>) {
    && s != []
    && match c.form
       case Utf32To8 => false
       case Utf16To8 => |s| == 1 && IsHigh(s[0])
       case _ => |s| <= (if s[0] < 0xC0 then 0 else if s[0] < 0xE0 then 1 else if s[0] < 0xF0 then 2 else if s[0] < 0xF8 then 3 else if s[0] < 0xFC then 4 else 5)
  }

  // ----- one character -----

  /** What is accepted at the front is what the converter takes. */
  lemma AcceptedIsNext(c: Converter, u: seq<int>, v: seq<int>, value: int)
    requires Accepts(c, u, v, value)
    ensures u != [] && Next(c, u + v) == Write(|u|, Writes(c, value), Replaces(c, value))
  {
    hide Encode, Encode16, IsStray, IsLegal, Combine, Trailing;
    match c.form
    case Utf32To8 =>
    case Utf16To8 =>
      assert u != [] && (u + v)[0] == u[0];
      assert |u| > 1 ==> (u + v)[1] == u[1];
      assert |u| == 1 && v != [] ==> (u + v)[1] == v[0];
    case _ =>
      if IsStray(u, value) {
        StrayIsLegal(u, value);
      } else {
        EncodeReads(value, []);
        assert u + [] == u;
      }
      LegalIsNext(c, u, v, value);
  }

  lemma LegalIsNext(c: Converter, u: seq<int>, v: seq<int>, value: int)
    requires c.form == Utf8To32 || c.form == Utf8To16
    requires u != [] && Trailing(u[0]) + 1 == |u| <= 4 && IsLegal(u) && Combine(u) == value && IsScalar(value)
    ensures Next(c, u + v) == Write(|u|, Writes(c, value), false)
  {
    hide IsLegal, Combine, Trailing;
    assert (u + v)[..|u|] == u && (u + v)[0] == u[0];
  }

  lemma StrayIsLegal(u: seq<int>, value: int)
    requires IsStray(u, value)
    ensures Trailing(u[0]) + 1 == |u| && IsLegal(u) && Combine(u) == value && IsScalar(value)
  {
  }

  /** What the converter takes is accepted. */
  lemma NextIsAccepted(c: Converter, s: seq<int>) returns (value: int)
    requires s != [] && IsSource(c.form, s) && Next(c, s).Write?
    ensures 0 < Next(c, s).take <= |s| && Accepts(c, s[..Next(c, s).take], s[Next(c, s).take..], value)
  {
    NextTakes(c, s);
    var n := Next(c, s).take;
    match c.form {
      case Utf32To8 => value := s[0];
      case Utf16To8 => value := if n == 2 then 0x10000 + (s[0] - 0xD800) * 0x400 + (s[1] - 0xDC00) else s[0];
      case _ => value := LegalAccepted(c, s);
    }
  }

  lemma LegalAccepted(c: Converter, s: seq<int>) returns (value: int)
    requires c.form == Utf8To32 || c.form == Utf8To16
    requires s != [] && IsSource(c.form, s) && Next(c, s).Write?
    ensures Next(c, s).take == Trailing(s[0]) + 1 <= |s|
    ensures Accepts(c, s[..Trailing(s[0]) + 1], s[Trailing(s[0]) + 1..], value)
  {
    var n := Trailing(s[0]) + 1;
    var u := s[..n];
    value := Combine(u);
    LegalIsScalar(u);
    if |u| == 1 || IsContinuation(u[1]) {
      CombineInverts(u);
    } else {
      LegalExactly(u);
      assert IsStray(u, value);
    }
  }

  /** No character is accepted at the front. */
  ghost predicate Stuck(c: Converter, s: seq<int>) {
    s != [] && forall n, value :: 0 < n <= |s| ==> !Accepts(c, s[..n], s[n..], value)
  }

  /** The converter stops exactly where no character is accepted, and says whether more units
      could have made one. */
  lemma StopsWhenStuck(c: Converter, s: seq<int>)
    requires s != [] && IsSource(c.form, s)
    ensures Next(c, s).Stop? <==> Stuck(c, s)
    ensures Stuck(c, s) ==> Next(c, s) == Stop(if CutOff(c, s) then SourceExhausted else SourceIllegal)
  {
    if Next(c, s).Write? {
      var value := NextIsAccepted(c, s);
    } else {
      forall n, value | 0 < n <= |s| ensures !Accepts(c, s[..n], s[n..], value) {
        assert s[..n] + s[n..] == s;
        if Accepts(c, s[..n], s[n..], value) {
          AcceptedIsNext(c, s[..n], s[n..], value);
        }
      }
      if c.form == Utf8To32 || c.form == Utf8To16 {
        StopReason(c, s);
      }
    }
  }

  lemma StopReason(c: Converter, s: seq<int>)
    requires s != [] && IsSource(c.form, s) && (c.form == Utf8To32 || c.form == Utf8To16) && Next(c, s).Stop?
    ensures Next(c, s) == Stop(if CutOff(c, s) then SourceExhausted else SourceIllegal)
  {
    var extra := Trailing(s[0]);
    if extra < |s| && IsLegal(s[..extra + 1]) {
      LegalIsScalar(s[..extra + 1]);
    }
  }

  // ----- a whole source -----

  /** The source is these characters, one after the other, and then the rest. */
  ghost predicate Reads(c: Converter, source: seq<int>, values: seq<int>, rest: seq<int>) {
    if values == [] then source == rest
    else exists n :: 0 < n <= |source| && ReadsFirst(c, source, n, values[0]) && Reads(c, source[n..], values[1..], rest)
  }

  ghost predicate ReadsFirst(c: Converter, source: seq<int>, n: nat, value: int)
    requires n <= |source|
  {
    Accepts(c, source[..n], source[n..], value)
  }

  function WritesAll(c: Converter, values: seq<int>): seq<int> {
    if values == [] then [] else Writes(c, values[0]) + WritesAll(c, values[1..])
  }

  predicate AnyReplaced(c: Converter, values: seq<int>) {
    values != [] && (Replaces(c, values[0]) || AnyReplaced(c, values[1..]))
  }

  lemma SourceTail(form: Form, source: seq<int>, n: nat)
    requires IsSource(form, source) && n <= |source|
    ensures IsSource(form, source[n..])
  {
  }

  /** A source that reads so converts so. */
  lemma {:induction false} ReadsConverts(c: Converter, source: seq<int>, values: seq<int>, rest: seq<int>)
    requires IsSource(c.form, source) && Reads(c, source, values, rest) && (rest == [] || Stuck(c, rest))
    ensures Convert(c, source, Unlimited) ==
      Converted(if rest == [] then Ok else if CutOff(c, rest) then SourceExhausted else SourceIllegal, AnyReplaced(c, values), rest, WritesAll(c, values))
    decreases |values|
  {
    hide Accepts, Writes, Replaces, Next, CutOff, Stuck;
    if values == [] {
      if rest != [] {
        StopsWhenStuck(c, rest);
      }
    } else {
      var n :| 0 < n <= |source| && ReadsFirst(c, source, n, values[0]) && Reads(c, source[n..], values[1..], rest);
      assert source == source[..n] + source[n..];
      AcceptedIsNext(c, source[..n], source[n..], values[0]);
      SourceTail(c.form, source, n);
      ReadsConverts(c, source[n..], values[1..], rest);
    }
  }

  /** Every source reads so, up to its end or to the first place where no character is accepted. */
  lemma {:induction false} SomeReading(c: Converter, source: seq<int>) returns (values: seq<int>, rest: seq<int>)
    requires IsSource(c.form, source)
    ensures Reads(c, source, values, rest) && (rest == [] || Stuck(c, rest))
    decreases |source|
  {
    hide Accepts, Next, CutOff, Stuck;
    values, rest := [], source;
    if source != [] {
      StopsWhenStuck(c, source);
      if Next(c, source).Write? {
        var value := NextIsAccepted(c, source);
        var n := Next(c, source).take;
        SourceTail(c.form, source, n);
        values, rest := SomeReading(c, source[n..]);
        var all := [value] + values;
        assert all[0] == value && all[1..] == values && ReadsFirst(c, source, n, all[0]);
        values := all;
      }
    }
  }

  /** A conversion runs through exactly when the source is a sequence of accepted characters;
      otherwise it ends at the first place where none is accepted, having written what is in
      front of it. */
  lemma ConvertExactly(c: Converter, source: seq<int>)
    requires IsSource(c.form, source)
    ensures var r := Convert(c, source, Unlimited);
      && (r.status == Ok <==> exists values :: Reads(c, source, values, []))
      && (r.rest == [] <==> r.status == Ok)
      && (r.rest != [] ==> Stuck(c, r.rest) && r.status == if CutOff(c, r.rest) then SourceExhausted else SourceIllegal)
      && exists values :: Reads(c, source, values, r.rest) && r.out == WritesAll(c, values) && r.replaced == AnyReplaced(c, values)
  {
    var values, rest := SomeReading(c, source);
    ReadsConverts(c, source, values, rest);
    hide Reads, Convert, Stuck, CutOff, WritesAll, AnyReplaced, IsSource;
    if values' :| Reads(c, source, values', []) {
      ReadsConverts(c, source, values', []);
    }
  }

  /** A limited target changes nothing if everything fits; otherwise the call backs up to the
      first character that does not. */
  lemma {:induction false} RoomExactly(c: Converter, source: seq<int>, n: nat)
    ensures var r, w := Convert(c, source, Units(n)), Convert(c, source, Unlimited);
      if |w.out| <= n then r == w
      else
        && r.status == TargetExhausted && r.out <= w.out
        && r.rest != [] && Next(c, r.rest).Write? && n < |r.out| + |Next(c, r.rest).units|
    decreases |source|
  {
    hide Next;
    if source != [] {
      NextTakes(c, source);
      var s := Next(c, source);
      if s.Write? && |s.units| <= n {
        RoomExactly(c, source[s.take..], n - |s.units|);
      }
    }
  }
}
