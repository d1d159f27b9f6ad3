/**
 Canonical percent-encoding of one value (crates/flotilla-address/src/encoding.rs; sections 2.1 and
 2.3 of RFC 3986): unreserved bytes stay bare, every other byte is `%XX` in uppercase hex.
 */
module Encoding {
  import opened Outcomes
  import opened Errors
  import opened Text
  import opened Utf8

  predicate IsUnreserved(b: Byte) {
    b < 0x80 && (IsAlphanumeric(b as char) || b as char in "-._~")
  }

  function HexDigit(d: nat): char
    requires d < 16
  {
    if d < 10 then ('0' as int + d) as char else ('A' as int + d - 10) as char
  }

  function EncodeByte(b: Byte): string {
    if IsUnreserved(b) then [b as char] else ['%', HexDigit(b / 16), HexDigit(b % 16)]
  }

  function EncodeBytes(bytes: seq<Byte>): string {
    if bytes == [] then "" else EncodeByte(bytes[0]) + EncodeBytes(bytes[1..])
  }

  /** The canonical encoding of `value`. */
  function Encode(value: string): string {
    EncodeBytes(Utf8.Encode(value))
  }

  function HexValue(b: Byte, uppercaseOnly: bool): (r: Option<nat>)
    ensures r.Some? ==> r.value < 16
  {
    if '0' as int <= b <= '9' as int then Some(b as int - '0' as int)
    else if 'A' as int <= b <= 'F' as int then Some(b as int - 'A' as int + 10)
    else if 'a' as int <= b <= 'f' as int && !uppercaseOnly then Some(b as int - 'a' as int + 10)
    else None
  }

  function HexPair(high: Byte, low: Byte, uppercaseOnly: bool): (r: Option<nat>)
    ensures r.Some? ==> r.value < 256
  {
    match (HexValue(high, uppercaseOnly), HexValue(low, uppercaseOnly))
    case (Some(h), Some(l)) => Some(16 * h + l)
    case _ => None
  }

  /** One step of the decoder: the byte at the front and how many bytes spell it. */
  function DecodeStep(encoded: string, bytes: seq<Byte>, canonical: bool): (r: Result<(Byte, nat), Error>)
    requires bytes != []
    ensures r.Ok? ==> 1 <= r.value.1 <= |bytes|
  {
    if bytes[0] == '%' as int then
      if |bytes| < 3 then Err(InvalidEscape(encoded))
      else
        match HexPair(bytes[1], bytes[2], canonical)
        case None =>
          if HexPair(bytes[1], bytes[2], false).Some? then Err(NonCanonicalEncoding(encoded))
              else Err(InvalidEscape(encoded))
        case Some(value) =>
          if canonical && IsUnreserved(value) then Err(NonCanonicalEncoding(encoded)) else Ok((value, 3))
    else if canonical && !IsUnreserved(bytes[0]) then Err(NonCanonicalEncoding(encoded))
    else Ok((bytes[0], 1))
  }

  function DecodeBytes(encoded: string, bytes: seq<Byte>, canonical: bool): Result<seq<Byte>, Error>
    decreases |bytes|
  {
    if bytes == [] then Ok([])
    else
      var (value, size) :- DecodeStep(encoded, bytes, canonical);
      var rest :- DecodeBytes(encoded, bytes[size..], canonical);
      Ok([value] + rest)
  }

  function Decode(encoded: string, canonical: bool): Result<string, Error> {
    var bytes :- DecodeBytes(encoded, Utf8.Encode(encoded), canonical);
    match Utf8.Decode(bytes)
    case Some(value) => Ok(value)
    case None => Err(InvalidEscape(encoded))
  }

  function DecodeCanonical(encoded: string): Result<string, Error> {
    Decode(encoded, true)
  }

  function DecodeLenient(encoded: string): Result<string, Error> {
    Decode(encoded, false)
  }

  /** The characters an encoded value is written in: unreserved characters, and `%` of an escape. */
  predicate IsEncodedChar(c: char) {
    IsAlphanumeric(c) || c in "-._~%"
  }

  lemma EncodedByteChars(b: Byte)
    ensures EncodeByte(b) != "" && All(EncodeByte(b), IsEncodedChar)
  {
  }

  lemma {:induction false} EncodedBytesChars(bytes: seq<Byte>)
    ensures All(EncodeBytes(bytes), IsEncodedChar)
    ensures EncodeBytes(bytes) == "" <==> bytes == []
  {
    if bytes != [] {
      EncodedByteChars(bytes[0]);
      EncodedBytesChars(bytes[1..]);
    }
  }

  /** An encoded value holds no `/`, `:`, `@` or whitespace, and is empty only for the empty value. */
  lemma EncodedChars(value: string)
    ensures All(Encode(value), IsEncodedChar)
    ensures Encode(value) == "" <==> value == ""
  {
    EncodedBytesChars(Utf8.Encode(value));
  }

  lemma EncodedIsAscii(text: string)
    requires All(text, IsEncodedChar)
    ensures IsAscii(text)
    ensures forall c | c in "/:@ " :: c !in text
    ensures forall i | 0 <= i < |text| :: !IsWhitespace(text[i])
  {
  }

  /** One encoded byte is one canonical decoding step. */
  lemma StepOfEncodeByte(encoded: string, b: Byte, rest: seq<Byte>)
    ensures var bytes := Utf8.Encode(EncodeByte(b)) + rest;
            bytes != [] && DecodeStep(encoded, bytes, true) == Ok((b, |EncodeByte(b)|))
                && |Utf8.Encode(EncodeByte(b))| == |EncodeByte(b)|
  {
    EncodedByteChars(b);
    EncodedIsAscii(EncodeByte(b));
    AsciiBytes(EncodeByte(b));
  }

  lemma {:induction false} DecodeOfEncodeBytes(encoded: string, bytes: seq<Byte>)
    ensures DecodeBytes(encoded, Utf8.Encode(EncodeBytes(bytes)), true) == Ok(bytes)
  {
    if bytes != [] {
      var head, tail := Utf8.Encode(EncodeByte(bytes[0])), Utf8.Encode(EncodeBytes(bytes[1..]));
      EncodeAppend(EncodeByte(bytes[0]), EncodeBytes(bytes[1..]));
      StepOfEncodeByte(encoded, bytes[0], tail);
      assert (head + tail)[|head|..] == tail;
      DecodeOfEncodeBytes(encoded, bytes[1..]);
      assert bytes == [bytes[0]] + bytes[1..];
    }
  }

  /** Canonical decoding undoes encoding, for every value. */
  lemma DecodeOfEncode(value: string)
    ensures DecodeCanonical(Encode(value)) == Ok(value)
  {
    DecodeOfEncodeBytes(Encode(value), Utf8.Encode(value));
    Utf8.DecodeOfEncode(value);
  }

  /** What the canonical decoder consumes in one step is the encoding of the byte it yields. */
  lemma EncodeByteOfStep(encoded: string, bytes: seq<Byte>)
    requires bytes != [] && DecodeStep(encoded, bytes, true).Ok?
    ensures var (value, size) := DecodeStep(encoded, bytes, true).value;
            && |EncodeByte(value)| == size <= |bytes|
            && forall i | 0 <= i < size :: bytes[i] == EncodeByte(value)[i] as int
  {
    hide IsUnreserved, HexValue, HexDigit;
    if bytes[0] == '%' as int {
      HexDigitOfValue(bytes[1]);
      HexDigitOfValue(bytes[2]);
    }
  }

  lemma HexDigitOfValue(b: Byte)
    ensures HexValue(b, true).Some? ==> HexDigit(HexValue(b, true).value) as int == b
  {
  }

  lemma {:induction false} EncodeOfDecodeBytes(encoded: string, bytes: seq<Byte>)
    requires DecodeBytes(encoded, bytes, true).Ok?
    ensures var text := EncodeBytes(DecodeBytes(encoded, bytes, true).value);
            |text| == |bytes| && forall i | 0 <= i < |bytes| :: bytes[i] == text[i] as int
    decreases |bytes|
  {
    hide DecodeStep, EncodeByte;
    if bytes != [] {
      EncodeByteOfStep(encoded, bytes);
      var (value, size) := DecodeStep(encoded, bytes, true).value;
      EncodeOfDecodeBytes(encoded, bytes[size..]);
      var rest := DecodeBytes(encoded, bytes[size..], true).value;
      assert DecodeBytes(encoded, bytes, true).value == [value] + rest;
      assert ([value] + rest)[1..] == rest;
      assert forall i | size <= i < |bytes| :: bytes[i] == bytes[size..][i - size];
    }
  }

  /** Text the canonical decoder accepts is the one spelling of the value it yields. */
  lemma EncodeOfDecode(encoded: string)
    requires DecodeCanonical(encoded).Ok?
    ensures Encode(DecodeCanonical(encoded).value) == encoded
  {
    var bytes := Utf8.Encode(encoded);
    var values := DecodeBytes(encoded, bytes, true).value;
    EncodeOfDecodeBytes(encoded, bytes);
    Utf8.EncodeOfDecode(values);
    var text := EncodeBytes(values);
    EncodedBytesChars(values);
    EncodedIsAscii(text);
    assert forall b | b in bytes :: b < 0x80;
    AsciiText(encoded);
    AsciiBytes(encoded);
    assert text == encoded;
  }

  /** Encoding is injective, so one value has one spelling. */
  lemma EncodeInjective(a: string, b: string)
    ensures Encode(a) == Encode(b) <==> a == b
  {
    DecodeOfEncode(a);
    DecodeOfEncode(b);
  }

  /** The canonical spelling is also lenient input with the same value. */
  lemma {:induction false} LenientBytes(encoded: string, bytes: seq<Byte>)
    requires DecodeBytes(encoded, bytes, true).Ok?
    ensures DecodeBytes(encoded, bytes, false) == DecodeBytes(encoded, bytes, true)
    decreases |bytes|
  {
    if bytes != [] {
      var (value, size) := DecodeStep(encoded, bytes, true).value;
      LenientStep(encoded, bytes);
      LenientBytes(encoded, bytes[size..]);
    }
  }

  lemma LenientStep(encoded: string, bytes: seq<Byte>)
    requires bytes != [] && DecodeStep(encoded, bytes, true).Ok?
    ensures DecodeStep(encoded, bytes, false) == DecodeStep(encoded, bytes, true)
  {
  }

  lemma LenientAgrees(encoded: string)
    requires DecodeCanonical(encoded).Ok?
    ensures DecodeLenient(encoded) == DecodeCanonical(encoded)
  {
    LenientBytes(encoded, Utf8.Encode(encoded));
  }

  /** `encode_into`: the loop that appends one byte's spelling at a time. */
  method EncodeInto(value: string, out: string) returns (r: string)
    ensures r == out + Encode(value)
  {
    r := out;
    var bytes := Utf8.Encode(value);
    var i := 0;
    while i < |bytes|
      invariant 0 <= i <= |bytes|
      invariant r + EncodeBytes(bytes[i..]) == out + EncodeBytes(bytes)
    {
      if IsUnreserved(bytes[i]) {
        r := r + [bytes[i] as char];
      } else {
        r := r + ['%', HexDigit(bytes[i] / 16), HexDigit(bytes[i] % 16)];
      }
      assert bytes[i..][1..] == bytes[i + 1..];
      i := i + 1;
    }
    assert bytes[i..] == [];
  }

  /** The outcome `r` of the remaining bytes, after `out` has been decoded. */
  function After(out: seq<Byte>, r: Result<seq<Byte>, Error>): Result<seq<Byte>, Error> {
    match r
    case Ok(rest) => Ok(out + rest)
    case Err(error) => Err(error)
  }

  lemma AfterLaws(out: seq<Byte>, b: Byte, r: Result<seq<Byte>, Error>)
    ensures After([], r) == r
    ensures After(out, After([b], r)) == After(out + [b], r)
  {
    if r.Ok? {
      assert [] + r.value == r.value;
      assert out + ([b] + r.value) == out + [b] + r.value;
    }
  }

  /** `decode`: the index walk over the encoded bytes. */
  method DecodeLoop(encoded: string, canonical: bool) returns (r: Result<string, Error>)
    ensures r == Decode(encoded, canonical)
  {
    var bytes := Utf8.Encode(encoded);
    var out: seq<Byte> := [];
    var index := 0;
    assert bytes[index..] == bytes;
    AfterLaws(out, 0, DecodeBytes(encoded, bytes, canonical));
    while index < |bytes|
      invariant 0 <= index <= |bytes|
      invariant DecodeBytes(encoded, bytes, canonical) ==
                After(out, DecodeBytes(encoded, bytes[index..], canonical))
    {
      var b := bytes[index];
      var rest := bytes[index..];
      if b == '%' as int {
        if index + 3 > |bytes| {
          return Err(InvalidEscape(encoded));
        }
        var pair := HexPair(bytes[index + 1], bytes[index + 2], canonical);
        if pair == None {
          return Err(if HexPair(bytes[index + 1], bytes[index + 2], false).Some? then NonCanonicalEncoding(encoded)
              else InvalidEscape(encoded));
        }
        if canonical && IsUnreserved(pair.value) {
          return Err(NonCanonicalEncoding(encoded));
        }
        assert DecodeStep(encoded, rest, canonical) == Ok((pair.value, 3));
        assert rest[3..] == bytes[index + 3..];
        AfterLaws(out, pair.value, DecodeBytes(encoded, bytes[index + 3..], canonical));
        out := out + [pair.value];
        index := index + 3;
      } else {
        if canonical && !IsUnreserved(b) {
          return Err(NonCanonicalEncoding(encoded));
        }
        assert DecodeStep(encoded, rest, canonical) == Ok((b, 1));
        assert rest[1..] == bytes[index + 1..];
        AfterLaws(out, b, DecodeBytes(encoded, bytes[index + 1..], canonical));
        out := out + [b];
        index := index + 1;
      }
    }
    assert bytes[index..] == [] && out + [] == out;
    r := match Utf8.Decode(out) case Some(value) => Ok(value) case None => Err(InvalidEscape(encoded));
  }

  // ---- What a spelling means ----

  /** The unreserved characters of section 2.3 of RFC 3986. */
  predicate Unreserved(c: char) {
    c in UPPER_LETTERS || c in LOWER_LETTERS || c in DIGITS || c in "-._~"
  }

  /** One byte as written: itself, or its escape. */
  datatype Spelling = Raw(b: Byte) | Percent(high: Byte, low: Byte)

  function SpellingBytes(spelling: Spelling): seq<Byte> {
    match spelling
    case Raw(b) => [b]
    case Percent(high, low) => [0x25, high, low]
  }

  predicate IsHexOf(digit: Byte, value: int, canonical: bool) {
    0 <= value < 16 && (digit == UPPER_HEX[value] as int || (!canonical && digit == LOWER_HEX[value] as int))
  }

  /** The spelling is of the byte. Canonically a byte is bare exactly when it is unreserved, and hex is uppercase. */
  predicate Spells(spelling: Spelling, b: Byte, canonical: bool) {
    match spelling
    case Raw(raw) => raw == b && b != 0x25 && (canonical ==> Unreserved(b as char))
    case Percent(high, low) =>
      && IsHexOf(high, b / 16, canonical) && IsHexOf(low, b % 16, canonical) && (canonical ==> !Unreserved(b as char))
  }

  function AllBytes(spellings: seq<Spelling>): seq<Byte> {
    if spellings == [] then [] else SpellingBytes(spellings[0]) + AllBytes(spellings[1..])
  }

  predicate SpellsAll(spellings: seq<Spelling>, bytes: seq<Byte>, canonical: bool) {
    |spellings| == |bytes| && forall i | 0 <= i < |bytes| :: Spells(spellings[i], bytes[i], canonical)
  }

  lemma UnreservedIs(b: Byte)
    ensures IsUnreserved(b) <==> Unreserved(b as char)
  {
    var c := b as char;
    UpperCaseIs(c);
    LowerCaseIs(c);
    DigitIs(c);
  }

  lemma HexValueIs(digit: Byte, value: int, canonical: bool)
    ensures IsHexOf(digit, value, canonical) <==> HexValue(digit, canonical) == Some(value)
  {
  }

  lemma StepOfSpelling(encoded: string, spelling: Spelling, b: Byte, tail: seq<Byte>, canonical: bool)
    requires Spells(spelling, b, canonical)
    ensures DecodeStep(encoded, SpellingBytes(spelling) + tail, canonical) == Ok((b, |SpellingBytes(spelling)|))
  {
    hide IsUnreserved, Unreserved, HexValue, IsHexOf;
    UnreservedIs(b);
    if spelling.Percent? {
      HexValueIs(spelling.high, b / 16, canonical);
      HexValueIs(spelling.low, b % 16, canonical);
    }
  }

  lemma SpellingOfStep(encoded: string, bytes: seq<Byte>, canonical: bool) returns (spelling: Spelling)
    requires bytes != [] && DecodeStep(encoded, bytes, canonical).Ok?
    ensures var (b, size) := DecodeStep(encoded, bytes, canonical).value;
            Spells(spelling, b, canonical) && SpellingBytes(spelling) == bytes[..size]
  {
    hide IsUnreserved, Unreserved, HexValue, IsHexOf;
    var (b, _) := DecodeStep(encoded, bytes, canonical).value;
    UnreservedIs(b);
    if bytes[0] == '%' as int {
      spelling := Percent(bytes[1], bytes[2]);
      var high, low := HexValue(bytes[1], canonical).value, HexValue(bytes[2], canonical).value;
      HexValueIs(spelling.high, high, canonical);
      HexValueIs(spelling.low, low, canonical);
      assert b / 16 == high && b % 16 == low;
    } else {
      spelling := Raw(bytes[0]);
    }
  }

  lemma {:induction false} DecodeOfSpellings(
    encoded: string, spellings: seq<Spelling>, bytes: seq<Byte>, canonical: bool)
    requires SpellsAll(spellings, bytes, canonical)
    ensures DecodeBytes(encoded, AllBytes(spellings), canonical) == Ok(bytes)
  {
    hide Spells, DecodeStep;
    if spellings != [] {
      DecodeOfSpellings(encoded, spellings[1..], bytes[1..], canonical);
      var head, tail := SpellingBytes(spellings[0]), AllBytes(spellings[1..]);
      StepOfSpelling(encoded, spellings[0], bytes[0], tail, canonical);
      assert (head + tail)[|head|..] == tail;
      assert bytes == [bytes[0]] + bytes[1..];
    }
  }

  lemma {:induction false} SpellingsOfDecode(encoded: string, written: seq<Byte>, canonical: bool)
    returns (spellings: seq<Spelling>)
    requires DecodeBytes(encoded, written, canonical).Ok?
    ensures SpellsAll(spellings, DecodeBytes(encoded, written, canonical).value, canonical)
    ensures AllBytes(spellings) == written
    decreases |written|
  {
    hide Spells, DecodeStep;
    if written == [] {
      spellings := [];
    } else {
      var size := DecodeStep(encoded, written, canonical).value.1;
      var first := SpellingOfStep(encoded, written, canonical);
      var rest := SpellingsOfDecode(encoded, written[size..], canonical);
      spellings := [first] + rest;
      assert spellings[1..] == rest;
      assert written == written[..size] + written[size..];
    }
  }

  /** The text spells the value: its bytes are spellings of the value's bytes. */
  ghost predicate IsSpelling(encoded: string, value: string, canonical: bool) {
    exists spellings ::
        AllBytes(spellings) == Utf8.Encode(encoded) && SpellsAll(spellings, Utf8.Encode(value), canonical)
  }

  /** The decoder returns a value exactly when the text spells it, canonically or in any way. */
  lemma DecodeExactly(encoded: string, value: string, canonical: bool)
    ensures Decode(encoded, canonical) == Ok(value) <==> IsSpelling(encoded, value, canonical)
  {
    hide DecodeBytes, SpellsAll, AllBytes, Utf8.Encode, Utf8.Decode;
    var written := Utf8.Encode(encoded);
    if Decode(encoded, canonical) == Ok(value) {
      var spellings := SpellingsOfDecode(encoded, written, canonical);
      Utf8.EncodeOfDecode(DecodeBytes(encoded, written, canonical).value);
    }
    if IsSpelling(encoded, value, canonical) {
      var spellings :| AllBytes(spellings) == written && SpellsAll(spellings, Utf8.Encode(value), canonical);
      DecodeOfSpellings(encoded, spellings, Utf8.Encode(value), canonical);
      Utf8.DecodeOfEncode(value);
    }
  }
}
