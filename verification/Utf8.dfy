/**
 UTF-8, as `str::as_bytes` writes it and `String::from_utf8` reads it: one well-formed byte
 sequence per string, with overlong forms and surrogates refused.
 */
module Utf8 {
  import opened Outcomes

  type Byte = b: int | 0 <= b < 256

  predicate IsTail(b: Byte) {
    0x80 <= b < 0xC0
  }

  /** The six bits a continuation byte carries. */
  function Low(b: Byte): int {
    b as int - 0x80
  }

  function EncodeChar(c: char): (bytes: seq<Byte>)
    ensures 1 <= |bytes| <= 4
  {
    var v := c as int;
    if v < 0x80 then [v]
    else if v < 0x800 then [0xC0 + v / 64, 0x80 + v % 64]
    else if v < 0x10000 then [0xE0 + v / 4096, 0x80 + v / 64 % 64, 0x80 + v % 64]
    else [0xF0 + v / 262144, 0x80 + v / 4096 % 64, 0x80 + v / 64 % 64, 0x80 + v % 64]
  }

  function Encode(s: string): seq<Byte> {
    if s == "" then [] else EncodeChar(s[0]) + Encode(s[1..])
  }

  /** A scalar value is a code point outside the surrogate range. */
  predicate IsScalar(v: int) {
    0 <= v < 0xD800 || 0xE000 <= v < 0x11_0000
  }

  /** The code point the first `size` bytes spell, when they are the shortest spelling of a scalar value. */
  function Spelled(v: int, least: int, size: nat): Option<(char, nat)> {
    if least <= v && IsScalar(v) then Some((v as char, size)) else None
  }

  /** The first character of `bytes` and its length in bytes. */
  function DecodeChar(bytes: seq<Byte>): Option<(char, nat)>
    requires bytes != []
  {
    var first: int := bytes[0];
    if first < 0x80 then Spelled(first, 0, 1)
    else if 0xC0 <= first < 0xE0 && |bytes| >= 2 && IsTail(bytes[1]) then
      Spelled((first - 0xC0) * 64 + Low(bytes[1]), 0x80, 2)
    else if 0xE0 <= first < 0xF0 && |bytes| >= 3 && IsTail(bytes[1]) && IsTail(bytes[2]) then
      Spelled((first - 0xE0) * 4096 + Low(bytes[1]) * 64 + Low(bytes[2]), 0x800, 3)
    else if 0xF0 <= first < 0xF8 && |bytes| >= 4 && IsTail(bytes[1]) && IsTail(bytes[2]) && IsTail(bytes[3]) then
      Spelled((first - 0xF0) * 262144 + Low(bytes[1]) * 4096 + Low(bytes[2]) * 64 + Low(bytes[3]), 0x1_0000, 4)
    else None
  }

  lemma DecodeCharSize(bytes: seq<Byte>)
    requires bytes != []
    ensures DecodeChar(bytes).Some? ==> 1 <= DecodeChar(bytes).value.1 <= |bytes|
  {
  }

  function Decode(bytes: seq<Byte>): Option<string>
    decreases |bytes|
  {
    if bytes == [] then Some("")
    else
      match DecodeChar(bytes)
      case None => None
      case Some((c, size)) =>
        DecodeCharSize(bytes);
        match Decode(bytes[size..])
        case None => None
        case Some(rest) => Some([c] + rest)
  }

  lemma DecodeCharOfEncode(c: char, rest: seq<Byte>)
    ensures DecodeChar(EncodeChar(c) + rest) == Some((c, |EncodeChar(c)|))
  {
    var v := c as int;
    assert v == v / 64 * 64 + v % 64;
    assert v / 64 == v / 4096 * 64 + v / 64 % 64;
    assert v / 4096 == v / 262144 * 64 + v / 4096 % 64;
  }

  lemma SixBits(a: int, b: int)
    requires 0 <= b < 64
    ensures (a * 64 + b) / 64 == a && (a * 64 + b) % 64 == b
  {
  }

  lemma EncodeOfDecodeChar(bytes: seq<Byte>)
    requires bytes != [] && DecodeChar(bytes).Some?
    ensures var (c, size) := DecodeChar(bytes).value; 1 <= size <= |bytes| && EncodeChar(c) == bytes[..size]
  {
    var (c, size) := DecodeChar(bytes).value;
    DecodeCharSize(bytes);
    var v, first := c as int, bytes[0] as int;
    if size == 2 {
      SixBits(first - 0xC0, Low(bytes[1]));
    } else if size == 3 {
      var high := (first - 0xE0) * 64 + Low(bytes[1]);
      SixBits(first - 0xE0, Low(bytes[1]));
      SixBits(high, Low(bytes[2]));
      assert v == high * 64 + Low(bytes[2]);
      assert v / 4096 == v / 64 / 64;
    } else if size == 4 {
      QuadBits(bytes, v);
    }
    assert |EncodeChar(c)| == size;
    assert forall i | 0 <= i < size :: EncodeChar(c)[i] == bytes[i];
  }

  lemma QuadBits(bytes: seq<Byte>, v: int)
    requires |bytes| >= 4 && IsTail(bytes[1]) && IsTail(bytes[2]) && IsTail(bytes[3])
    requires v == (bytes[0] as int - 0xF0) * 262144 + Low(bytes[1]) * 4096 + Low(bytes[2]) * 64 + Low(bytes[3])
    ensures v / 262144 == bytes[0] as int - 0xF0 && v / 4096 % 64 == Low(bytes[1])
    ensures v / 64 % 64 == Low(bytes[2]) && v % 64 == Low(bytes[3])
  {
    var top := bytes[0] as int - 0xF0;
    var high := top * 64 + Low(bytes[1]);
    var middle := high * 64 + Low(bytes[2]);
    SixBits(top, Low(bytes[1]));
    SixBits(high, Low(bytes[2]));
    SixBits(middle, Low(bytes[3]));
    assert v == middle * 64 + Low(bytes[3]);
    assert v / 4096 == v / 64 / 64;
    assert v / 262144 == v / 64 / 64 / 64;
  }

  /** Every string is read back from its bytes. */
  lemma {:induction false} DecodeOfEncode(s: string)
    ensures Decode(Encode(s)) == Some(s)
  {
    hide EncodeChar, DecodeChar;
    if s != "" {
      var head, tail := EncodeChar(s[0]), Encode(s[1..]);
      DecodeCharOfEncode(s[0], tail);
      assert (head + tail)[|head|..] == tail;
      DecodeOfEncode(s[1..]);
      assert s == [s[0]] + s[1..];
    }
  }

  /** Well-formed bytes are the bytes of exactly the string they decode to. */
  lemma {:induction false} EncodeOfDecode(bytes: seq<Byte>)
    requires Decode(bytes).Some?
    ensures Encode(Decode(bytes).value) == bytes
    decreases |bytes|
  {
    hide EncodeChar, DecodeChar;
    if bytes != [] {
      EncodeOfDecodeChar(bytes);
      var (c, size) := DecodeChar(bytes).value;
      EncodeOfDecode(bytes[size..]);
      var s := Decode(bytes).value;
      assert s[1..] == Decode(bytes[size..]).value;
    }
  }

  predicate IsAscii(s: string) {
    forall i | 0 <= i < |s| :: s[i] as int < 0x80
  }

  /** An ASCII string is its own bytes. */
  lemma {:induction false} AsciiBytes(s: string)
    requires IsAscii(s)
    ensures |Encode(s)| == |s| && forall i | 0 <= i < |s| :: Encode(s)[i] == s[i] as int
  {
    if s != "" {
      AsciiBytes(s[1..]);
    }
  }

  lemma {:induction false} AsciiText(s: string)
    requires forall b | b in Encode(s) :: b < 0x80
    ensures IsAscii(s)
  {
    if s != "" {
      assert EncodeChar(s[0])[0] in Encode(s);
      assert forall b | b in Encode(s[1..]) :: b in Encode(s);
      AsciiText(s[1..]);
    }
  }

  lemma {:induction false} EncodeAppend(a: string, b: string)
    ensures Encode(a + b) == Encode(a) + Encode(b)
  {
    hide EncodeChar;
    if a == "" {
      assert a + b == b;
    } else {
      EncodeAppend(a[1..], b);
      assert (a + b)[1..] == a[1..] + b;
    }
  }
}
