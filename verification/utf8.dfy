/** UTF-8 as defined by section 4 of RFC 3629: the byte-sequence grammar
    that a strict decoder (one whose fallback throws) accepts, decoding and
    encoding of Unicode scalar values, and the UTF-16 length of the decoded
    text, which is what `Decoder.GetCharCount` reports. */
module Utf8 {
  import opened Text

  /** A Unicode scalar value: a code point that is not a surrogate. */
  type Scalar = x: int | (0 <= x < 0xD800) || (0xE000 <= x < 0x11_0000)

  predicate IsTail(b: Byte) {
    0x80 <= b <= 0xBF
  }

  /** The length of the well-formed character at the start of `s`, following
      the productions UTF8-1 .. UTF8-4 of RFC 3629 section 4; 0 when `s` does
      not start with one. */
  function CharLength(s: seq<Byte>): (n: nat)
    ensures n <= 4 && n <= |s|
    ensures |s| > 0 && s[0] < 0x80 ==> n == 1
  {
    if |s| == 0 then 0
    else if s[0] <= 0x7F then 1
    else if 0xC2 <= s[0] <= 0xDF then
      if |s| >= 2 && IsTail(s[1]) then 2 else 0
    else if 0xE0 <= s[0] <= 0xEF then
      var lo := if s[0] == 0xE0 then 0xA0 else 0x80;
      var hi := if s[0] == 0xED then 0x9F else 0xBF;
      if |s| >= 3 && lo <= s[1] <= hi && IsTail(s[2]) then 3 else 0
    else if 0xF0 <= s[0] <= 0xF4 then
      var lo := if s[0] == 0xF0 then 0x90 else 0x80;
      var hi := if s[0] == 0xF4 then 0x8F else 0xBF;
      if |s| >= 4 && lo <= s[1] <= hi && IsTail(s[2]) && IsTail(s[3]) then 4 else 0
    else 0
  }

  /** `s` is a sequence of well-formed characters (`UTF8-octets`). */
  predicate WellFormed(s: seq<Byte>)
    decreases |s|
  {
    |s| == 0 || (CharLength(s) > 0 && WellFormed(s[CharLength(s)..]))
  }

  /** The scalar value of the well-formed character at the start of `s`. */
  function DecodeChar(s: seq<Byte>): Scalar
    requires CharLength(s) > 0
  {
    var n := CharLength(s);
    if n == 1 then s[0]
    else if n == 2 then (s[0] as int - 0xC0) * 0x40 + (s[1] as int - 0x80)
    else if n == 3 then (s[0] as int - 0xE0) * 0x1000 + (s[1] as int - 0x80) * 0x40 + (s[2] as int - 0x80)
    else (s[0] as int - 0xF0) * 0x4_0000 + (s[1] as int - 0x80) * 0x1000 + (s[2] as int - 0x80) * 0x40 + (s[3] as int - 0x80)
  }

  function Decode(s: seq<Byte>): seq<Scalar>
    requires WellFormed(s)
    decreases |s|
  {
    if |s| == 0 then [] else [DecodeChar(s)] + Decode(s[CharLength(s)..])
  }

  /** The shortest UTF-8 form of one scalar value (RFC 3629 section 3). */
  function EncodeChar(c: Scalar): (r: seq<Byte>)
    ensures 1 <= |r| <= 4
  {
    if c < 0x80 then [c]
    else if c < 0x800 then [0xC0 + c / 0x40, 0x80 + c % 0x40]
    else if c < 0x1_0000 then [0xE0 + c / 0x1000, 0x80 + (c / 0x40) % 0x40, 0x80 + c % 0x40]
    else [0xF0 + c / 0x4_0000, 0x80 + (c / 0x1000) % 0x40, 0x80 + (c / 0x40) % 0x40, 0x80 + c % 0x40]
  }

  function Encode(cs: seq<Scalar>): seq<Byte> {
    if |cs| == 0 then [] else EncodeChar(cs[0]) + Encode(cs[1..])
  }

  /** The number of UTF-16 code units a scalar value takes. */
  function Utf16Width(c: Scalar): nat {
    if c < 0x1_0000 then 1 else 2
  }

  function Utf16Length(cs: seq<Scalar>): nat {
    if |cs| == 0 then 0 else Utf16Width(cs[0]) + Utf16Length(cs[1..])
  }

  /** `EncodingDetectionService.IsValidUtf8`: the strict decoder accepts the
      bytes and counts more than zero chars. */
  predicate IsValidUtf8(s: seq<Byte>) {
    WellFormed(s) && Utf16Length(Decode(s)) > 0
  }

  // ------------------------------------------------------------ properties

  /** The digits of a three-byte character: lead digit, two 6-bit digits. */
  lemma Digits3(c: int)
    requires 0x800 <= c < 0x1_0000
    ensures 0 <= c / 0x1000 < 0x10
    ensures (c / 0x1000) * 0x1000 + ((c / 0x40) % 0x40) * 0x40 + c % 0x40 == c
    ensures c < 0x1000 ==> (c / 0x40) % 0x40 >= 0x20
    ensures 0xD000 <= c < 0xD800 ==> (c / 0x40) % 0x40 < 0x20
  {
  }

  /** The digits of a four-byte character. */
  lemma Digits4(c: int)
    requires 0x1_0000 <= c < 0x11_0000
    ensures 0 <= c / 0x4_0000 <= 4
    ensures (c / 0x4_0000) * 0x4_0000 + ((c / 0x1000) % 0x40) * 0x1000
            + ((c / 0x40) % 0x40) * 0x40 + c % 0x40 == c
    ensures c < 0x4_0000 ==> (c / 0x1000) % 0x40 >= 0x10
    ensures c >= 0x10_0000 ==> (c / 0x1000) % 0x40 < 0x10
  {
    var a, d3 := c / 0x40, c % 0x40;
    var b, d2 := a / 0x40, a % 0x40;
    var d0, d1 := b / 0x40, b % 0x40;
    assert c == b * 0x1000 + (d2 * 0x40 + d3);
    DivMod1000(b, d2 * 0x40 + d3);
    assert c == d0 * 0x4_0000 + (d1 * 0x1000 + d2 * 0x40 + d3);
    DivMod40000(d0, d1 * 0x1000 + d2 * 0x40 + d3);
  }

  lemma EncodeCharDecodes2(c: Scalar, rest: seq<Byte>)
    requires 0x80 <= c < 0x800
    ensures CharLength(EncodeChar(c) + rest) == 2
    ensures DecodeChar(EncodeChar(c) + rest) == c
  {
    var s := EncodeChar(c) + rest;
    assert s[0] == 0xC0 + c / 0x40 && s[1] == 0x80 + c % 0x40;
    assert 0xC2 <= s[0] <= 0xDF;
  }

  lemma EncodeCharDecodes3(c: Scalar, rest: seq<Byte>)
    requires 0x800 <= c < 0x1_0000
    ensures CharLength(EncodeChar(c) + rest) == 3
    ensures DecodeChar(EncodeChar(c) + rest) == c
  {
    var s := EncodeChar(c) + rest;
    var d0, d1, d2 := c / 0x1000, (c / 0x40) % 0x40, c % 0x40;
    Digits3(c);
    assert s[0] == 0xE0 + d0 && s[1] == 0x80 + d1 && s[2] == 0x80 + d2;
    assert CharLength(s) == 3;
  }

  lemma EncodeCharDecodes4(c: Scalar, rest: seq<Byte>)
    requires 0x1_0000 <= c
    ensures CharLength(EncodeChar(c) + rest) == 4
    ensures DecodeChar(EncodeChar(c) + rest) == c
  {
    var s := EncodeChar(c) + rest;
    var d0, d1, d2, d3 := c / 0x4_0000, (c / 0x1000) % 0x40, (c / 0x40) % 0x40, c % 0x40;
    Digits4(c);
    assert s[0] == 0xF0 + d0 && s[1] == 0x80 + d1 && s[2] == 0x80 + d2 && s[3] == 0x80 + d3;
    assert CharLength(s) == 4;
  }

  /** The encoding of one scalar value is one well-formed character that
      decodes back to it. */
  lemma EncodeCharDecodes(c: Scalar, rest: seq<Byte>)
    ensures CharLength(EncodeChar(c) + rest) == |EncodeChar(c)|
    ensures DecodeChar(EncodeChar(c) + rest) == c
  {
    if c < 0x80 {
      assert (EncodeChar(c) + rest)[0] == c;
    } else if c < 0x800 {
      EncodeCharDecodes2(c, rest);
    } else if c < 0x1_0000 {
      EncodeCharDecodes3(c, rest);
    } else {
      EncodeCharDecodes4(c, rest);
    }
  }

  /** Every sequence of scalar values encodes to well-formed UTF-8 that
      decodes back to it. */
  lemma {:induction false} DecodeEncode(cs: seq<Scalar>)
    ensures WellFormed(Encode(cs))
    ensures Decode(Encode(cs)) == cs
  {
    if |cs| > 0 {
      var e := EncodeChar(cs[0]);
      var s := Encode(cs);
      EncodeCharDecodes(cs[0], Encode(cs[1..]));
      assert s[|e|..] == Encode(cs[1..]);
      DecodeEncode(cs[1..]);
    }
  }

  lemma DivMod40(q: int, r: int)
    requires 0 <= r < 0x40
    ensures (q * 0x40 + r) / 0x40 == q && (q * 0x40 + r) % 0x40 == r
  {
  }

  lemma DivMod1000(q: int, r: int)
    requires 0 <= r < 0x1000
    ensures (q * 0x1000 + r) / 0x1000 == q
  {
  }

  lemma DivMod40000(q: int, r: int)
    requires 0 <= r < 0x4_0000
    ensures (q * 0x4_0000 + r) / 0x4_0000 == q
  {
  }

  lemma TwoByteEncodes(s: seq<Byte>)
    requires CharLength(s) == 2
    ensures EncodeChar(DecodeChar(s)) == s[..2]
  {
    var t0, t1 := s[0] as int - 0xC0, s[1] as int - 0x80;
    DivMod40(t0, t1);
  }

  lemma ThreeByteEncodes(s: seq<Byte>)
    requires CharLength(s) == 3
    ensures EncodeChar(DecodeChar(s)) == s[..3]
  {
    var t0, t1, t2 := s[0] as int - 0xE0, s[1] as int - 0x80, s[2] as int - 0x80;
    var c := DecodeChar(s);
    assert c == (t0 * 0x40 + t1) * 0x40 + t2;
    DivMod40(t0 * 0x40 + t1, t2);
    DivMod40(t0, t1);
    DivMod1000(t0, t1 * 0x40 + t2);
    assert 0x800 <= c < 0x1_0000;
    assert EncodeChar(c) == [0xE0 + c / 0x1000, 0x80 + (c / 0x40) % 0x40, 0x80 + c % 0x40];
  }

  lemma FourByteEncodes(s: seq<Byte>)
    requires CharLength(s) == 4
    ensures EncodeChar(DecodeChar(s)) == s[..4]
  {
    var t0, t1, t2, t3 := s[0] as int - 0xF0, s[1] as int - 0x80, s[2] as int - 0x80, s[3] as int - 0x80;
    var c := DecodeChar(s);
    var q1 := t0 * 0x40 + t1;
    var q2 := q1 * 0x40 + t2;
    assert c == q2 * 0x40 + t3;
    DivMod40(q2, t3);
    DivMod40(q1, t2);
    DivMod40(t0, t1);
    assert c == q1 * 0x1000 + (t2 * 0x40 + t3);
    DivMod1000(q1, t2 * 0x40 + t3);
    assert c == t0 * 0x4_0000 + (t1 * 0x1000 + t2 * 0x40 + t3);
    DivMod40000(t0, t1 * 0x1000 + t2 * 0x40 + t3);
    assert 0x1_0000 <= c;
    assert EncodeChar(c) == [0xF0 + c / 0x4_0000, 0x80 + (c / 0x1000) % 0x40, 0x80 + (c / 0x40) % 0x40, 0x80 + c % 0x40];
  }

  /** A well-formed character is the encoding of its scalar value, so UTF-8
      has no overlong or alternative forms. */
  lemma DecodeCharEncodes(s: seq<Byte>)
    requires CharLength(s) > 0
    ensures EncodeChar(DecodeChar(s)) == s[..CharLength(s)]
  {
    var n := CharLength(s);
    if n == 2 {
      TwoByteEncodes(s);
    } else if n == 3 {
      ThreeByteEncodes(s);
    } else if n == 4 {
      FourByteEncodes(s);
    }
  }

  lemma DecodeUnfold(s: seq<Byte>)
    requires WellFormed(s) && |s| > 0
    ensures Decode(s) == [DecodeChar(s)] + Decode(s[CharLength(s)..])
  {
  }

  lemma EncodeCons(c: Scalar, cs: seq<Scalar>, s: seq<Byte>, n: nat)
    requires n <= |s|
    requires EncodeChar(c) == s[..n] && Encode(cs) == s[n..]
    ensures Encode([c] + cs) == s
  {
    assert ([c] + cs)[1..] == cs;
    assert s == s[..n] + s[n..];
  }

  /** Well-formed UTF-8 is exactly the image of `Encode`: re-encoding the
      decoded text gives back the bytes. */
  lemma {:induction false} EncodeDecode(s: seq<Byte>)
    requires WellFormed(s)
    ensures Encode(Decode(s)) == s
    decreases |s|
  {
    if |s| > 0 {
      var n := CharLength(s);
      DecodeUnfold(s);
      DecodeCharEncodes(s);
      EncodeDecode(s[n..]);
      EncodeCons(DecodeChar(s), Decode(s[n..]), s, n);
    }
  }

  /** Decoding produces no scalar values exactly from no bytes. */
  lemma {:induction false} DecodeNonEmpty(s: seq<Byte>)
    requires WellFormed(s)
    ensures |Decode(s)| == 0 <==> |s| == 0
  {
  }

  /** The strict decoder's count is positive exactly for non-empty
      well-formed input: `IsValidUtf8` is RFC 3629 well-formedness minus the
      empty buffer. */
  lemma IsValidUtf8Iff(s: seq<Byte>)
    ensures IsValidUtf8(s) <==> WellFormed(s) && |s| > 0
  {
    if WellFormed(s) && |s| > 0 {
      DecodeNonEmpty(s);
      assert Utf16Width(Decode(s)[0]) >= 1;
    }
  }

  /** Plain ASCII is valid UTF-8. */
  lemma {:induction false} AsciiWellFormed(s: seq<Byte>)
    requires forall i :: 0 <= i < |s| ==> s[i] < 0x80
    ensures WellFormed(s)
  {
    if |s| > 0 {
      assert forall i :: 0 <= i < |s[1..]| ==> s[1..][i] == s[i + 1];
      AsciiWellFormed(s[1..]);
    }
  }

  /** Bytes C0, C1 and F5..FF never appear in UTF-8 (RFC 3629 section 1). */
  lemma {:induction false} NeverAppearingBytes(s: seq<Byte>, i: nat)
    requires WellFormed(s) && i < |s|
    ensures s[i] != 0xC0 && s[i] != 0xC1 && s[i] < 0xF5
    decreases |s|
  {
    var n := CharLength(s);
    if i >= n {
      assert s[n..][i - n] == s[i];
      NeverAppearingBytes(s[n..], i - n);
    }
  }
}
