/** The converters of utf/ConvertUTF.cpp. They share one loop: take one character from the
    source, stop on a bad or incomplete one, back up when the target is full, otherwise
    write it. They differ in what they make of the next character. */
module Transcoding {
  import opened Utf
  import opened Sequences

  datatype Form = Utf32To8 | Utf8To32 | Utf8To16 | Utf16To8

  /** A converter and its flags argument. */
  datatype Converter = Converter(form: Form, strict: bool)

  datatype Status = Ok | SourceExhausted | TargetExhausted | SourceIllegal

  /** The next character: a reason to stop before it, or how many source units it takes,
      what is written for it, and whether that is a replacement that marks the result
      as illegal while the loop goes on. */
  datatype Step = Stop(status: Status) | Write(take: nat, units: seq<int>, replaced: bool)

  datatype Room = Unlimited | Units(n: nat) {
    predicate Fits(k: nat) {
      Units? ==> k <= n
    }

    function Less(k: nat): Room
      requires Fits(k)
    {
      if Units? then Units(n - k) else this
    }
  }

  /** What a call leaves: why it stopped, whether it wrote a replacement for an illegal
      value, the source it did not consume, and what it wrote. */
  datatype Converted = Converted(status: Status, replaced: bool, rest: seq<int>, out: seq<int>) {
    /** The value returned to the caller. */
    function Result(): Status {
      if status == Ok && replaced then SourceIllegal else status
    }

    /** This call, with what an earlier one wrote in front. */
    function After(wrote: bool, units: seq<int>): Converted {
      Converted(status, replaced || wrote, rest, units + out)
    }
  }

  function Next(c: Converter, source: seq<int>): Step
    requires source != []
  {
    match c.form
    case Utf32To8 => NextOf32(source, c.strict)
    case Utf16To8 => NextOf16(source, c.strict)
    case _ =>
      var extra := Trailing(source[0]);
      if extra >= |source| then Stop(SourceExhausted)
      else if !IsLegal(source[..extra + 1]) then Stop(SourceIllegal)
      else
        var ch := Combine(source[..extra + 1]);
        if c.form == Utf8To32 then Write32(extra + 1, ch, c.strict) else Write16(extra + 1, ch, c.strict)
  }

  function NextOf32(source: seq<int>, strict: bool): Step
    requires source != []
  {
    var ch := source[0];
    if strict && IsSurrogate(ch) then Stop(SourceIllegal)
    else if 0 <= ch <= UNI_MAX_LEGAL_UTF32 then Write(1, Encode(ch), false)
    else Write(1, Encode(UNI_REPLACEMENT_CHAR), true)
  }

  function NextOf16(source: seq<int>, strict: bool): Step
    requires source != []
  {
    var ch := source[0];
    if UNI_SUR_HIGH_START <= ch <= UNI_SUR_HIGH_END then
      if |source| == 1 then Stop(SourceExhausted)
      else if UNI_SUR_LOW_START <= source[1] <= UNI_SUR_LOW_END then
        Write8(2, (ch - UNI_SUR_HIGH_START) * 1024 + (source[1] - UNI_SUR_LOW_START) + 0x10000)
      else if strict then Stop(SourceIllegal)
      else Write8(1, ch)
    else if strict && UNI_SUR_LOW_START <= ch <= UNI_SUR_LOW_END then Stop(SourceIllegal)
    else Write8(1, ch)
  }

  function Write8(take: nat, ch: int): Step {
    if 0 <= ch < 0x110000 then Write(take, Encode(ch), false) else Write(take, Encode(UNI_REPLACEMENT_CHAR), false)
  }

  function Write16(take: nat, ch: int, strict: bool): Step {
    if ch <= UNI_MAX_BMP then
      if IsSurrogate(ch) then
        if strict then Stop(SourceIllegal) else Write(take, [UNI_REPLACEMENT_CHAR], false)
      else Write(take, [ch], false)
    else if ch > UNI_MAX_LEGAL_UTF32 then
      if strict then Stop(SourceIllegal) else Write(take, [UNI_REPLACEMENT_CHAR], false)
    else Write(take, [(ch - 0x10000) / 1024 + UNI_SUR_HIGH_START, (ch - 0x10000) % 1024 + UNI_SUR_LOW_START], false)
  }

  function Write32(take: nat, ch: int, strict: bool): Step {
    if ch <= UNI_MAX_LEGAL_UTF32 then
      if IsSurrogate(ch) then
        if strict then Stop(SourceIllegal) else Write(take, [UNI_REPLACEMENT_CHAR], false)
      else Write(take, [ch], false)
    else Write(take, [UNI_REPLACEMENT_CHAR], true)
  }

  /** A converter never takes nothing, nor more than there is; it stops only for the
      source's sake. */
  lemma NextTakes(c: Converter, source: seq<int>)
    requires source != []
    ensures Next(c, source).Write? ==> 0 < Next(c, source).take <= |source|
    ensures Next(c, source).Stop? ==> Next(c, source).status in {SourceExhausted, SourceIllegal}
  {
  }

  /** Unless it is cut off, what is made of a character does not depend on what follows it. */
  lemma NextLocal(c: Converter, s: seq<int>, t: seq<int>)
    requires s != [] && Next(c, s) != Stop(SourceExhausted)
    ensures Next(c, s + t) == Next(c, s)
  {
    if Trailing(s[0]) < |s| {
      assert (s + t)[..Trailing(s[0]) + 1] == s[..Trailing(s[0]) + 1];
    }
  }

  function Convert(c: Converter, source: seq<int>, room: Room): Converted
    decreases |source|
  {
    if source == [] then Converted(Ok, false, [], [])
    else
      var s := Next(c, source);
      NextTakes(c, source);
      if s.Stop? then Converted(s.status, false, source, [])
      else if !room.Fits(|s.units|) then Converted(TargetExhausted, false, source, [])
      else Convert(c, source[s.take..], room.Less(|s.units|)).After(s.replaced, s.units)
  }

  lemma AfterAfter(a: Converted, x: bool, u: seq<int>, y: bool, v: seq<int>)
    ensures a.After(x, u).After(y, v) == a.After(x || y, v + u)
  {
    assert v + (u + a.out) == (v + u) + a.out;
  }

  lemma AfterNothing(a: Converted)
    ensures a.After(false, []) == a
  {
    assert [] + a.out == a.out;
  }

  /** The room is respected, and what is left is a tail of the source. */
  lemma {:induction false} ConvertFits(c: Converter, source: seq<int>, room: Room)
    ensures var r := Convert(c, source, room);
      room.Fits(|r.out|) && |r.rest| <= |source| && r.rest == source[|source| - |r.rest|..]
    decreases |source|
  {
    if source != [] && Next(c, source).Write? && room.Fits(|Next(c, source).units|) {
      var s := Next(c, source);
      ConvertFits(c, source[s.take..], room.Less(|s.units|));
    }
  }

  /** Resuming where a call stopped, with any further room, is the same as one call with
      the room of both: no unit is lost, repeated or changed. */
  lemma {:induction false} ResumeTarget(c: Converter, source: seq<int>, n: nat, more: nat)
    ensures var first := Convert(c, source, Units(n));
      Convert(c, source, Units(|first.out| + more)) ==
      Convert(c, first.rest, Units(more)).After(first.replaced, first.out)
    decreases |source|
  {
    hide Next;
    var first := Convert(c, source, Units(n));
    if source != [] {
      NextTakes(c, source);
    }
    if source != [] && Next(c, source).Write? && |Next(c, source).units| <= n {
      var s := Next(c, source);
      var r := Convert(c, source[s.take..], Units(n - |s.units|));
      ResumeTarget(c, source[s.take..], n - |s.units|, more);
      AfterAfter(Convert(c, r.rest, Units(more)), r.replaced, r.out, s.replaced, s.units);
    } else {
      AfterNothing(Convert(c, source, Units(more)));
    }
  }

  /** Cutting the source anywhere and carrying over what was not consumed is the same as
      one call, unless the first part is illegal. */
  lemma {:induction false} ResumeSource(c: Converter, u: seq<int>, v: seq<int>)
    requires Convert(c, u, Unlimited).status in {Ok, SourceExhausted}
    ensures var first := Convert(c, u, Unlimited);
      Convert(c, u + v, Unlimited) == Convert(c, first.rest + v, Unlimited).After(first.replaced, first.out)
    decreases |u|
  {
    hide Next;
    if u != [] {
      NextTakes(c, u);
    }
    if u != [] && Next(c, u).Write? {
      var s := Next(c, u);
      var tail := u[s.take..];
      var r := Convert(c, tail, Unlimited);
      NextLocal(c, u, v);
      assert (u + v)[s.take..] == tail + v;
      ResumeSource(c, tail, v);
      AfterAfter(Convert(c, r.rest + v, Unlimited), r.replaced, r.out, s.replaced, s.units);
    } else {
      AfterNothing(Convert(c, u + v, Unlimited));
    }
  }

  /** A caller that reads the source in chunks, and puts what a call left over in front
      of the next chunk: the last status, whether anything was replaced, all that was left
      unread and all that was written. */
  function Stream(c: Converter, carry: seq<int>, chunks: seq<seq<int>>): Converted
    decreases |chunks|
  {
    if chunks == [] then Convert(c, carry, Unlimited)
    else
      var r := Convert(c, carry + chunks[0], Unlimited);
      if r.status == SourceIllegal then r.(rest := r.rest + Concat(chunks[1..]))
      else Stream(c, r.rest, chunks[1..]).After(r.replaced, r.out)
  }

  /** However the source is cut, the chunks convert as the whole does: to the same output, with
      the same status, and with the same part left unread. */
  lemma {:induction false} StreamIsConvert(c: Converter, carry: seq<int>, chunks: seq<seq<int>>)
    ensures Stream(c, carry, chunks) == Convert(c, carry + Concat(chunks), Unlimited)
    decreases |chunks|
  {
    if chunks == [] {
      assert carry + [] == carry;
    } else {
      var source, rest := carry + chunks[0], Concat(chunks[1..]);
      assert carry + Concat(chunks) == source + rest;
      var r := Convert(c, source, Unlimited);
      hide Convert;
      LeftoverStops(c, source);
      if r.status == SourceIllegal {
        IllegalStays(c, source, rest);
      } else {
        ResumeSource(c, source, rest);
        StreamIsConvert(c, r.rest, chunks[1..]);
      }
    }
  }

  lemma {:induction false} IllegalStays(c: Converter, u: seq<int>, v: seq<int>)
    requires Convert(c, u, Unlimited).status == SourceIllegal
    ensures var r := Convert(c, u, Unlimited); Convert(c, u + v, Unlimited) == r.(rest := r.rest + v)
    decreases |u|
  {
    hide Next;
    NextTakes(c, u);
    var s := Next(c, u);
    NextLocal(c, u, v);
    if s.Write? {
      assert (u + v)[s.take..] == u[s.take..] + v;
      IllegalStays(c, u[s.take..], v);
    }
  }

  /** Without a limit a call stops only for the source's sake, and what it leaves cannot
      be converted by itself. */
  lemma {:induction false} LeftoverStops(c: Converter, source: seq<int>)
    ensures var r := Convert(c, source, Unlimited);
      r.status != TargetExhausted && Convert(c, r.rest, Unlimited).out == []
    decreases |source|
  {
    if source != [] && Next(c, source).Write? {
      LeftoverStops(c, source[Next(c, source).take..]);
    }
  }

  // ----- round trips -----

  /** A scalar value in the form a converter reads, and in the form it writes. */
  function Read(form: Form, ch: CodePoint): seq<int> {
    match form
    case Utf32To8 => [ch]
    case Utf16To8 => Encode16(ch)
    case _ => Encode(ch)
  }

  function Wrote(form: Form, ch: CodePoint): seq<int> {
    match form
    case Utf8To32 => [ch]
    case Utf8To16 => Encode16(ch)
    case _ => Encode(ch)
  }

  function ReadAll(form: Form, text: seq<CodePoint>): seq<int> {
    if text == [] then [] else Read(form, text[0]) + ReadAll(form, text[1..])
  }

  function WroteAll(form: Form, text: seq<CodePoint>): seq<int> {
    if text == [] then [] else Wrote(form, text[0]) + WroteAll(form, text[1..])
  }

  lemma NextReads(c: Converter, ch: CodePoint, rest: seq<int>)
    requires IsScalar(ch)
    ensures Next(c, Read(c.form, ch) + rest) == Write(|Read(c.form, ch)|, Wrote(c.form, ch), false)
  {
    var source := Read(c.form, ch) + rest;
    match c.form
    case Utf32To8 =>
    case Utf16To8 =>
      assert ch > UNI_MAX_BMP ==> source[1] == Encode16(ch)[1];
    case _ =>
      EncodeReads(ch, rest);
      assert source[..Trailing(source[0]) + 1] == Encode(ch);
  }

  /** Every converter, strict or not, turns any text of scalar values from one form into the
      other, completely and without complaint. */
  lemma {:induction false} ConvertsAll(c: Converter, text: seq<CodePoint>)
    requires forall i :: 0 <= i < |text| ==> IsScalar(text[i])
    ensures Convert(c, ReadAll(c.form, text), Unlimited) == Converted(Ok, false, [], WroteAll(c.form, text))
    decreases |text|
  {
    if text != [] {
      var source, rest := ReadAll(c.form, text), ReadAll(c.form, text[1..]);
      NextReads(c, text[0], rest);
      assert source[|Read(c.form, text[0])|..] == rest;
      ConvertsAll(c, text[1..]);
    }
  }

  lemma {:induction false} FormsAgree(text: seq<CodePoint>)
    ensures WroteAll(Utf32To8, text) == ReadAll(Utf8To32, text) == ReadAll(Utf8To16, text) == WroteAll(Utf16To8, text)
    ensures WroteAll(Utf8To16, text) == ReadAll(Utf16To8, text)
    ensures WroteAll(Utf8To32, text) == text == ReadAll(Utf32To8, text)
    decreases |text|
  {
    if text != [] {
      FormsAgree(text[1..]);
      assert text == [text[0]] + text[1..];
    }
  }

  /** UTF-32 to UTF-8 to UTF-32, and UTF-8 to UTF-16 to UTF-8, give back the text. */
  lemma RoundTrips(text: seq<CodePoint>, strict: bool)
    requires forall i :: 0 <= i < |text| ==> IsScalar(text[i])
    ensures var utf8 := Convert(Converter(Utf32To8, strict), text, Unlimited);
      var utf16 := Convert(Converter(Utf8To16, strict), utf8.out, Unlimited);
      && utf8.Result() == utf16.Result() == Ok
      && Convert(Converter(Utf8To32, strict), utf8.out, Unlimited) == Converted(Ok, false, [], text)
      && Convert(Converter(Utf16To8, strict), utf16.out, Unlimited) == Converted(Ok, false, [], utf8.out)
  {
    FormsAgree(text);
    ConvertsAll(Converter(Utf32To8, strict), text);
    ConvertsAll(Converter(Utf8To16, strict), text);
    ConvertsAll(Converter(Utf8To32, strict), text);
    ConvertsAll(Converter(Utf16To8, strict), text);
  }

  /** One turn of the loop, with what was written before it. */
  lemma LoopStep(c: Converter, here: seq<int>, n: nat, flag: bool, done: seq<int>)
    ensures here == [] ==> Convert(c, here, Units(n)).After(flag, done) == Converted(Ok, flag, [], done)
    ensures here != [] && Next(c, here).Stop? ==>
      && Next(c, here).status in {SourceExhausted, SourceIllegal}
      && Convert(c, here, Units(n)).After(flag, done) == Converted(Next(c, here).status, flag, here, done)
    ensures here != [] && Next(c, here).Write? && n < |Next(c, here).units| ==>
      Convert(c, here, Units(n)).After(flag, done) == Converted(TargetExhausted, flag, here, done)
    ensures here != [] && Next(c, here).Write? ==> 0 < Next(c, here).take <= |here|
    ensures here != [] && Next(c, here).Write? && |Next(c, here).units| <= n ==>
      var s := Next(c, here);
      Convert(c, here, Units(n)).After(flag, done) ==
      Convert(c, here[s.take..], Units(n - |s.units|)).After(s.replaced || flag, done + s.units)
  {
    hide Next;
    if here != [] {
      NextTakes(c, here);
    }
    assert done + [] == done;
    if here != [] && Next(c, here).Write? && |Next(c, here).units| <= n {
      var s := Next(c, here);
      AfterAfter(Convert(c, here[s.take..], Units(n - |s.units|)), s.replaced, s.units, flag, done);
    }
  }

  /** The loop itself, with room for so many units in the target. It consumes and writes
      what Convert says, and never more than fits. */
  method Transcode(c: Converter, source: seq<int>, room: nat) returns (result: Status, rest: seq<int>, target: seq<int>)
    ensures var r := Convert(c, source, Units(room)); result == r.Result() && rest == r.rest && target == r.out
    ensures |target| <= room
  {
    result, rest, target := Ok, source, [];
    ghost var whole, flag := Convert(c, source, Units(room)), false;
    AfterNothing(whole);
    hide Convert, Next, Converted.After;
    while rest != []
      invariant |target| <= room
      invariant whole == Convert(c, rest, Units(room - |target|)).After(flag, target)
      invariant result == if flag then SourceIllegal else Ok
      decreases |rest|
    {
      LoopStep(c, rest, room - |target|, flag, target);
      var s := Next(c, rest);
      if s.Stop? {
        return s.status, rest, target;
      }
      if room < |target| + |s.units| {
        return TargetExhausted, rest, target;
      }
      rest, target := rest[s.take..], target + s.units;
      if s.replaced {
        result := SourceIllegal;
      }
      flag := s.replaced || flag;
    }
    LoopStep(c, [], room - |target|, flag, target);
  }
}
