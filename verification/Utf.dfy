/** UTF-8, UTF-16 and UTF-32 characters as utf/ConvertUTF.cpp reads and writes them.
    Shifts and masks are written as the arithmetic they compute. UTF-8 follows sections
    3 and 4 of RFC 3629, UTF-16 section 2 of RFC 2781. */
module Utf {
  import opened Bytes

  const UNI_REPLACEMENT_CHAR := 0xFFFD
  const UNI_MAX_BMP := 0xFFFF
  const UNI_MAX_LEGAL_UTF32 := 0x10FFFF
  const UNI_SUR_HIGH_START := 0xD800
  const UNI_SUR_HIGH_END := 0xDBFF
  const UNI_SUR_LOW_START := 0xDC00
  const UNI_SUR_LOW_END := 0xDFFF

  type CodePoint = c: int | 0 <= c <= UNI_MAX_LEGAL_UTF32

  predicate IsSurrogate(ch: int) {
    UNI_SUR_HIGH_START <= ch <= UNI_SUR_LOW_END
  }

  predicate IsScalar(ch: int) {
    0 <= ch <= UNI_MAX_LEGAL_UTF32 && !IsSurrogate(ch)
  }

  /** The bytes written for a character, first byte first. */
  function Encode(ch: CodePoint): (bytes: seq<Byte>)
    ensures 1 <= |bytes| <= 4
  {
    if ch < 0x80 then [ch]
    else if ch < 0x800 then [0xC0 + ch / 64, 0x80 + ch % 64]
    else if ch < 0x10000 then [0xE0 + ch / 4096, 0x80 + ch / 64 % 64, 0x80 + ch % 64]
    else [0xF0 + ch / 262144, 0x80 + ch / 4096 % 64, 0x80 + ch / 64 % 64, 0x80 + ch % 64]
  }

  /** No encoding starts with the byte 0xFF. */
  lemma EncodeFirst(ch: CodePoint)
    ensures Encode(ch)[0] < 0xFF
  {
  }

  function Encode16(ch: CodePoint): seq<int> {
    if ch <= UNI_MAX_BMP then [ch]
    else [(ch - 0x10000) / 1024 + UNI_SUR_HIGH_START, (ch - 0x10000) % 1024 + UNI_SUR_LOW_START]
  }

  // ----- reading UTF-8 -----

  /** trailingBytesForUTF8 */
  function Trailing(b: int): nat {
    if b < 0xC0 then 0 else if b < 0xE0 then 1 else if b < 0xF0 then 2
    else if b < 0xF8 then 3 else if b < 0xFC then 4 else 5
  }

  predicate IsContinuation(b: int) {
    0x80 <= b <= 0xBF
  }

  /** isLegalUTF8, called with the length that the first byte announces. The switch falls
      through from the last byte to the second, whose range depends on the first. */
  predicate IsLegal(s: seq<int>)
    requires s != []
  {
    && |s| <= 4
    && (|s| >= 4 ==> IsContinuation(s[3]))
    && (|s| >= 3 ==> IsContinuation(s[2]))
    && (|s| >= 2 ==> s[1] <= 0xBF && SecondAllowed(s[0], s[1]))
    && !(0x80 <= s[0] < 0xC2)
    && s[0] <= 0xF4
  }

  predicate SecondAllowed(first: int, a: int) {
    if first == 0xE0 then a >= 0xA0
    else if first == 0xED then a <= 0x9F
    else if first == 0xF0 then a >= 0x90
    else if first == 0xF4 then a <= 0x8F
    else a >= 0x80
  }

  /** The accumulated value less offsetsFromUTF8. */
  function Combine(s: seq<int>): int
    requires 1 <= |s| <= 4
  {
    if |s| == 1 then s[0]
    else if |s| == 2 then s[0] * 64 + s[1] - 0x3080
    else if |s| == 3 then (s[0] * 64 + s[1]) * 64 + s[2] - 0xE2080
    else ((s[0] * 64 + s[1]) * 64 + s[2]) * 64 + s[3] - 0x3C82080
  }

  // ----- the encoding is a code -----

  /** Base-64 digits. */
  lemma Digits(ch: nat)
    ensures ch == ch / 64 * 64 + ch % 64
    ensures ch / 64 == ch / 4096 * 64 + ch / 64 % 64
    ensures ch / 4096 == ch / 262144 * 64 + ch / 4096 % 64
  {
    assert ch / 4096 == ch / 64 / 64;
    assert ch / 262144 == ch / 4096 / 64;
  }

  lemma DigitsUnique(q: nat, d: nat)
    requires d < 64
    ensures (q * 64 + d) / 64 == q && (q * 64 + d) % 64 == d
  {
  }

  /** Any code point is recovered from the front of any continuation of its bytes. */
  lemma EncodeReads(ch: CodePoint, rest: seq<int>)
    ensures var s := Encode(ch) + rest;
      && Trailing(s[0]) + 1 == |Encode(ch)| && Encode(ch) == s[..|Encode(ch)|]
      && Combine(Encode(ch)) == ch
      && (!IsSurrogate(ch) ==> IsLegal(Encode(ch)))
  {
    Digits(ch);
    var q, r, t := ch / 64, ch / 4096, ch / 262144;
    assert Encode(ch) == (Encode(ch) + rest)[..|Encode(ch)|];
    if ch < 0x80 {
    } else if ch < 0x800 {
      assert Encode(ch) == [0xC0 + q, 0x80 + ch % 64];
    } else if ch < 0x10000 {
      assert Encode(ch) == [0xE0 + r, 0x80 + q % 64, 0x80 + ch % 64];
    } else {
      assert Encode(ch) == [0xF0 + t, 0x80 + r % 64, 0x80 + q % 64, 0x80 + ch % 64];
    }
  }

  /** The length is fixed by the range, and the payloads of the bytes, six bits each behind the
      first, add up to the code point. */
  lemma EncodeForm(ch: CodePoint)
    ensures var e: seq<int> := Encode(ch);
      && (forall i :: 1 <= i < |e| ==> 0x80 <= e[i] <= 0xBF)
      && if ch <= 0x7F then e == [ch]
         else if ch <= 0x7FF then |e| == 2 && 0xC2 <= e[0] <= 0xDF && ch == (e[0] - 0xC0) * 0x40 + (e[1] - 0x80)
         else if ch <= 0xFFFF then |e| == 3 && 0xE0 <= e[0] <= 0xEF && ch == (e[0] - 0xE0) * 0x1000 + (e[1] - 0x80) * 0x40 + (e[2] - 0x80)
         else |e| == 4 && 0xF0 <= e[0] <= 0xF4 && ch == (e[0] - 0xF0) * 0x40000 + (e[1] - 0x80) * 0x1000 + (e[2] - 0x80) * 0x40 + (e[3] - 0x80)
  {
    Digits(ch);
  }

  /** Two surrogates share the twenty bits above the basic plane. */
  lemma Encode16Form(ch: CodePoint)
    ensures var e := Encode16(ch);
      if ch <= 0xFFFF then e == [ch]
      else |e| == 2 && 0xD800 <= e[0] <= 0xDBFF && 0xDC00 <= e[1] <= 0xDFFF && ch == 0x10000 + (e[0] - 0xD800) * 0x400 + (e[1] - 0xDC00)
  {
  }

  /** No encoding is a prefix of another, and no two code points share one. */
  lemma EncodePrefixFree(a: CodePoint, b: CodePoint, u: seq<int>, v: seq<int>)
    requires Encode(a) + u == Encode(b) + v
    ensures a == b && u == v
  {
    EncodeReads(a, u);
    EncodeReads(b, v);
    assert u == (Encode(a) + u)[|Encode(a)|..];
    assert v == (Encode(b) + v)[|Encode(b)|..];
  }

  /** The bytes isLegalUTF8 overlooks: after 0xED and 0xF4 the second byte has no lower bound. */
  predicate Overlooked(s: seq<int>) {
    && |s| >= 3 && (s[0] == 0xED || s[0] == 0xF4) && s[1] < 0x80
    && forall i :: 2 <= i < |s| ==> IsContinuation(s[i])
  }

  ghost predicate IsEncoding(s: seq<int>) {
    exists ch: CodePoint :: !IsSurrogate(ch) && s == Encode(ch)
  }

  lemma OverlookedExists()
    ensures IsLegal([0xED, 0x00, 0x80]) && Trailing(0xED) == 2 && !IsEncoding([0xED, 0x00, 0x80])
  {
    assert [0xED, 0x00, 0x80][1] == 0;
  }

  /** isLegalUTF8 accepts the encoding of every scalar value, the overlooked sequences, and
      nothing else. */
  lemma LegalExactly(s: seq<Byte>)
    requires s != [] && |s| == Trailing(s[0]) + 1
    ensures IsLegal(s) <==> IsEncoding(s) || Overlooked(s)
  {
    if IsLegal(s) && !Overlooked(s) {
      assert |s| == 1 || IsContinuation(s[1]);
      var ch := Combine(s);
      CombineInverts(s);
      assert IsEncoding(s);
    }
    if IsEncoding(s) {
      var ch: CodePoint :| !IsSurrogate(ch) && s == Encode(ch);
      EncodeReads(ch, []);
    }
  }

  /** A sequence that passes the test, overlooked or not, never stands for a surrogate or for
      a value above 0x10FFFF, so the converters' branches for those are not taken. */
  lemma LegalIsScalar(s: seq<Byte>)
    requires s != [] && |s| == Trailing(s[0]) + 1 && IsLegal(s)
    ensures IsScalar(Combine(s))
  {
    if |s| == 1 || IsContinuation(s[1]) {
      CombineInverts(s);
    } else {
      assert s[0] == 0xED || s[0] == 0xF4;
    }
  }

  lemma CombineInverts(s: seq<Byte>)
    requires s != [] && |s| == Trailing(s[0]) + 1 && IsLegal(s)
    requires |s| == 1 || IsContinuation(s[1])
    ensures IsScalar(Combine(s)) && Encode(Combine(s)) == s
  {
    if |s| == 2 {
      DigitsUnique(s[0] - 0xC0, s[1] - 0x80);
    } else if |s| == 3 {
      CombineInverts3(s);
    } else if |s| == 4 {
      CombineInverts4(s);
    }
  }

  lemma CombineInverts3(s: seq<int>)
    requires |s| == 3 && s[0] >= 0 && Trailing(s[0]) == 2 && IsLegal(s) && IsContinuation(s[1])
    ensures IsScalar(Combine(s)) && Encode(Combine(s)) == s
  {
    var q: int := (s[0] - 0xE0) * 64 + (s[1] - 0x80);
    var ch: int := q * 64 + (s[2] - 0x80);
    assert Combine(s) == ch;
    DigitsUnique(q, s[2] - 0x80);
    DigitsUnique(s[0] - 0xE0, s[1] - 0x80);
    Digits(ch);
    assert 0x800 <= ch < 0x10000 && IsScalar(ch);
    assert Encode(ch) == [0xE0 + ch / 4096, 0x80 + ch / 64 % 64, 0x80 + ch % 64];
  }

  lemma CombineInverts4(s: seq<int>)
    requires |s| == 4 && s[0] >= 0 && Trailing(s[0]) == 3 && IsLegal(s) && IsContinuation(s[1])
    ensures IsScalar(Combine(s)) && Encode(Combine(s)) == s
  {
    var r: int := (s[0] - 0xF0) * 64 + (s[1] - 0x80);
    var q: int := r * 64 + (s[2] - 0x80);
    var ch: int := q * 64 + (s[3] - 0x80);
    assert Combine(s) == ch;
    DigitsUnique(q, s[3] - 0x80);
    DigitsUnique(r, s[2] - 0x80);
    DigitsUnique(s[0] - 0xF0, s[1] - 0x80);
    Digits(ch);
    assert 0x10000 <= ch <= UNI_MAX_LEGAL_UTF32;
    assert Encode(ch) == [0xF0 + ch / 262144, 0x80 + ch / 4096 % 64, 0x80 + ch / 64 % 64, 0x80 + ch % 64];
  }
}
