/**
 JSON strings (section 7 of RFC 8259): the quoting `serde_json` prints, the spellings it reads, and
 the scan that finds where a quoted word ends (crates/flotilla-address/src/condition.rs).
 */
module Json {
  import opened Outcomes
  import opened Text

  const QUOTE: char := '"'
  const BACKSLASH: char := '\\'

  /** A character as `serde_json` writes it inside a string. */
  function EscapeChar(c: char): string {
    var v := c as int;
    if c == QUOTE then [BACKSLASH, QUOTE]
    else if c == BACKSLASH then [BACKSLASH, BACKSLASH]
    else if v == 0x08 then [BACKSLASH, 'b']
    else if v == 0x0C then [BACKSLASH, 'f']
    else if v == 0x0A then [BACKSLASH, 'n']
    else if v == 0x0D then [BACKSLASH, 'r']
    else if v == 0x09 then [BACKSLASH, 't']
    else if v < 0x20 then [BACKSLASH, 'u', '0', '0', HexNibble(v / 16), HexNibble(v % 16)]
    else [c]
  }

  function Escape(s: string): string {
    if s == "" then "" else EscapeChar(s[0]) + Escape(s[1..])
  }

  function Quote(s: string): string {
    [QUOTE] + Escape(s) + [QUOTE]
  }

  function HexDigitValue(c: char): (r: Option<nat>)
    ensures r.Some? ==> r.value < 16 && c != QUOTE && c != BACKSLASH
  {
    if IsDigit(c) then Some(c as int - '0' as int)
    else if 'a' <= c <= 'f' then Some(c as int - 'a' as int + 10)
    else if 'A' <= c <= 'F' then Some(c as int - 'A' as int + 10)
    else None
  }

  /** The code unit `\uXXXX` names at the front of `body`. */
  function CodeUnit(body: string): (r: Option<nat>)
    ensures r.Some? ==> |body| >= 6 && r.value < 0x1_0000
  {
    if |body| < 6 || body[0] != BACKSLASH || body[1] != 'u' then None
    else
      match (HexDigitValue(body[2]), HexDigitValue(body[3]), HexDigitValue(body[4]), HexDigitValue(body[5]))
      case (Some(a), Some(b), Some(c), Some(d)) => Some(a * 4096 + b * 256 + c * 16 + d)
      case _ => None
  }

  function SimpleEscape(c: char): Option<char> {
    if c == QUOTE || c == BACKSLASH || c == '/' then Some(c)
    else if c == 'b' then Some(0x08 as char)
    else if c == 'f' then Some(0x0C as char)
    else if c == 'n' then Some('\n')
    else if c == 'r' then Some('\r')
    else if c == 't' then Some('\t')
    else None
  }

  function UnicodeEscape(body: string): Option<(char, nat)> {
    match CodeUnit(body)
    case None => None
    case Some(unit) =>
      if unit < 0xD800 || 0xE000 <= unit then Some((unit as char, 6))
      else if 0xDC00 <= unit then None
      else
        match CodeUnit(body[6..])
        case Some(low) =>
          if 0xDC00 <= low < 0xE000 then Some(((0x1_0000 + (unit - 0xD800) * 1024 + (low - 0xDC00)) as char, 12))
              else None
        case None => None
  }

  /** The first character a string body spells, and the length of its spelling. */
  function UnescapeStep(body: string): Option<(char, nat)>
    requires body != ""
  {
    if body[0] == QUOTE || (body[0] as int) < 0x20 then None
    else if body[0] != BACKSLASH then Some((body[0], 1))
    else if |body| < 2 then None
    else
      match SimpleEscape(body[1])
      case Some(c) => Some((c, 2))
      case None => UnicodeEscape(body)
  }

  lemma UnescapeStepSize(body: string)
    requires body != "" && UnescapeStep(body).Some?
    ensures 1 <= UnescapeStep(body).value.1 <= |body|
  {
  }

  function Unescape(body: string): Option<string>
    decreases |body|
  {
    if body == "" then Some("")
    else
      match UnescapeStep(body)
      case None => None
      case Some((c, size)) =>
        UnescapeStepSize(body);
        match Unescape(body[size..])
        case None => None
        case Some(rest) => Some([c] + rest)
  }

  /** The value of a JSON string spelling. */
  function Unquote(spelling: string): Option<string> {
    if |spelling| < 2 || spelling[0] != QUOTE || spelling[|spelling| - 1] != QUOTE then None
    else Unescape(spelling[1..|spelling| - 1])
  }

  // ---- Reading what was printed ----

  lemma StepOfEscape(c: char, rest: string)
    ensures EscapeChar(c) != "" && UnescapeStep(EscapeChar(c) + rest) == Some((c, |EscapeChar(c)|))
  {
    var v := c as int;
    assert v < 0x20 ==> v == v / 16 * 16 + v % 16 && v / 16 < 2;
  }

  lemma {:induction false} UnescapeOfEscape(s: string)
    ensures Unescape(Escape(s)) == Some(s)
  {
    if s != "" {
      var head, tail := EscapeChar(s[0]), Escape(s[1..]);
      StepOfEscape(s[0], tail);
      assert (head + tail)[|head|..] == tail;
      UnescapeOfEscape(s[1..]);
      assert s == [s[0]] + s[1..];
    }
  }

  /** Every string is read back from its quoting. */
  lemma UnquoteOfQuote(s: string)
    ensures Unquote(Quote(s)) == Some(s)
  {
    UnescapeOfEscape(s);
    assert Quote(s)[1..|Quote(s)| - 1] == Escape(s);
  }

  // ---- The closing quote ----

  function Add(n: nat, end: Option<nat>): Option<nat> {
    match end
    case None => None
    case Some(m) => Some(n + m)
  }

  /** The escape-tracking scan after an opening quote: how many characters end the string. */
  function ScanClose(s: string, escaped: bool): (r: Option<nat>)
    ensures r.Some? ==> 1 <= r.value <= |s|
    decreases |s|
  {
    if s == "" then None
    else if escaped then Add(1, ScanClose(s[1..], false))
    else if s[0] == BACKSLASH then Add(1, ScanClose(s[1..], true))
    else if s[0] == QUOTE then Some(1)
    else Add(1, ScanClose(s[1..], false))
  }

  lemma {:induction false} ScanPlain(s: string, k: nat)
    requires k <= |s| && forall i | 0 <= i < k :: s[i] != QUOTE && s[i] != BACKSLASH
    ensures ScanClose(s, false) == Add(k, ScanClose(s[k..], false))
  {
    if k > 0 {
      ScanPlain(s[1..], k - 1);
      assert s[1..][k - 1..] == s[k..];
    } else {
      assert s[0..] == s;
    }
  }

  lemma ScanEscape(s: string)
    requires |s| >= 2 && s[0] == BACKSLASH
    ensures ScanClose(s, false) == Add(2, ScanClose(s[2..], false))
  {
    assert s[1..][1..] == s[2..];
  }

  lemma ScanCodeUnit(s: string)
    requires CodeUnit(s).Some?
    ensures ScanClose(s, false) == Add(6, ScanClose(s[6..], false))
  {
    ScanEscape(s);
    ScanPlain(s[2..], 4);
    assert s[2..][4..] == s[6..];
  }

  lemma CodeUnitOfPrefix(body: string, tail: string)
    requires CodeUnit(body).Some?
    ensures CodeUnit(body + tail) == CodeUnit(body)
  {
  }

  /** One spelled character is scanned over whole: no quote inside it is taken for the closing one. */
  lemma ScanStep(body: string, tail: string)
    requires body != "" && UnescapeStep(body).Some?
    ensures var size := UnescapeStep(body).value.1;
            size <= |body| && ScanClose(body + tail, false) == Add(size, ScanClose(body[size..] + tail, false))
  {
    UnescapeStepSize(body);
    var size := UnescapeStep(body).value.1;
    var s := body + tail;
    assert s[size..] == body[size..] + tail;
    if body[0] == BACKSLASH {
      if SimpleEscape(body[1]).Some? {
        ScanEscape(s);
      } else {
        CodeUnitOfPrefix(body, tail);
        ScanCodeUnit(s);
        if size == 12 {
          assert s[6..] == body[6..] + tail;
          CodeUnitOfPrefix(body[6..], tail);
          ScanCodeUnit(s[6..]);
          assert s[6..][6..] == s[12..];
        }
      }
    }
  }

  lemma ScanQuote(tail: string)
    ensures ScanClose([QUOTE] + tail, false) == Some(1)
  {
  }

  lemma {:induction false} ScanBody(body: string, tail: string)
    requires Unescape(body).Some?
    ensures ScanClose(body + [QUOTE] + tail, false) == Some(|body| + 1)
    decreases |body|
  {
    hide ScanClose, UnescapeStep;
    if body == "" {
      assert body + [QUOTE] + tail == [QUOTE] + tail;
      ScanQuote(tail);
    } else {
      var size := UnescapeStep(body).value.1;
      UnescapeStepSize(body);
      ScanStep(body, [QUOTE] + tail);
      ScanBody(body[size..], tail);
      assert body + [QUOTE] + tail == body + ([QUOTE] + tail);
      assert body[size..] + [QUOTE] + tail == body[size..] + ([QUOTE] + tail);
    }
  }

  /** Where the quoted word at the front of `rest` ends, its quotes included. */
  function QuotedEnd(rest: string): (r: Option<nat>)
    requires rest != ""
    ensures r.Some? ==> 2 <= r.value <= |rest|
  {
    Add(1, ScanClose(rest[1..], false))
  }

  /** For every spelling JSON accepts, whatever follows it, the scan stops at its closing quote. */
  lemma ScanFindsClosingQuote(spelling: string, tail: string)
    requires Unquote(spelling).Some?
    ensures QuotedEnd(spelling + tail) == Some(|spelling|)
  {
    var body := spelling[1..|spelling| - 1];
    ScanBody(body, tail);
    assert (spelling + tail)[1..] == body + [QUOTE] + tail;
  }

  // ---- What a spelling means ----

  /** The characters with a two-character escape, by the letter that names each. */
  const NAMED: map<char, int> := map[
    '\"' := 0x22, '\\' := 0x5C, '/' := 0x2F, 'b' := 0x08, 'f' := 0x0C, 'n' := 0x0A, 'r' := 0x0D, 't' := 0x09]

  /** One way to write one character: itself, named, as a code unit, or as a surrogate pair. */
  datatype Unit = Bare(c: char) | Named(letter: char) | Coded(digits: string) | Paired(high: string, low: string)

  /** The digits are hex, in either case, of this value. */
  predicate IsHexOf(digit: char, value: int) {
    0 <= value < 16 && (digit == LOWER_HEX[value] || digit == UPPER_HEX[value])
  }

  /** Four hex digits of this value. */
  ghost predicate IsCode(digits: string, value: int) {
    |digits| == 4 && exists a, b, c, d ::
      && IsHexOf(digits[0], a) && IsHexOf(digits[1], b) && IsHexOf(digits[2], c) && IsHexOf(digits[3], d)
      && value == a * 4096 + b * 256 + c * 16 + d
  }

  function UnitText(unit: Unit): string {
    match unit
    case Bare(c) => [c]
    case Named(letter) => "\\" + [letter]
    case Coded(digits) => "\\u" + digits
    case Paired(high, low) => "\\u" + high + "\\u" + low
  }

  /** The unit writes the character. */
  ghost predicate Writes(unit: Unit, c: char) {
    match unit
    case Bare(bare) => c == bare && bare as int >= 0x20 && bare != '\"' && bare != '\\'
    case Named(letter) => letter in NAMED && c as int == NAMED[letter]
    case Coded(digits) => IsCode(digits, c as int)
    case Paired(high, low) =>
      exists x, y :: IsCode(high, x) && IsCode(low, y) && 0xD800 <= x < 0xDC00 && 0xDC00 <= y < 0xE000
        && c as int == 0x1_0000 + (x - 0xD800) * 0x400 + (y - 0xDC00)
  }

  function UnitTexts(units: seq<Unit>): string {
    if units == [] then "" else UnitText(units[0]) + UnitTexts(units[1..])
  }

  ghost predicate WritesAll(units: seq<Unit>, value: string) {
    |units| == |value| && forall i | 0 <= i < |units| :: Writes(units[i], value[i])
  }

  lemma HexDigitIs(digit: char, value: int)
    ensures IsHexOf(digit, value) <==> HexDigitValue(digit) == Some(value)
  {
  }

  lemma CodeUnitIs(digits: string, tail: string, value: int)
    requires |digits| == 4
    ensures IsCode(digits, value) <==> CodeUnit("\\u" + digits + tail) == Some(value)
  {
    hide HexDigitValue, IsHexOf;
    var body := "\\u" + digits + tail;
    assert body[2] == digits[0] && body[3] == digits[1] && body[4] == digits[2] && body[5] == digits[3];
    if CodeUnit(body) == Some(value) {
      CodeOfDigits(
        digits, HexDigitValue(digits[0]).value, HexDigitValue(digits[1]).value, HexDigitValue(digits[2]).value,
        HexDigitValue(digits[3]).value);
    }
    if IsCode(digits, value) {
      var a, b, c, d :|
        && IsHexOf(digits[0], a) && IsHexOf(digits[1], b) && IsHexOf(digits[2], c) && IsHexOf(digits[3], d)
        && value == a * 4096 + b * 256 + c * 16 + d;
      HexDigitIs(digits[0], a);
      HexDigitIs(digits[1], b);
      HexDigitIs(digits[2], c);
      HexDigitIs(digits[3], d);
    }
  }

  lemma CodeOfDigits(digits: string, a: int, b: int, c: int, d: int)
    requires |digits| == 4 && HexDigitValue(digits[0]) == Some(a) && HexDigitValue(digits[1]) == Some(b)
    requires HexDigitValue(digits[2]) == Some(c) && HexDigitValue(digits[3]) == Some(d)
    ensures IsCode(digits, a * 4096 + b * 256 + c * 16 + d)
  {
    hide HexDigitValue, IsHexOf;
    HexDigitIs(digits[0], a);
    HexDigitIs(digits[1], b);
    HexDigitIs(digits[2], c);
    HexDigitIs(digits[3], d);
  }

  lemma NamedIs(letter: char)
    ensures letter in NAMED <==> SimpleEscape(letter).Some?
    ensures letter in NAMED ==> SimpleEscape(letter).value as int == NAMED[letter]
  {
  }

  /** What a unit writes is what the reader makes of it. */
  lemma StepOfUnit(unit: Unit, c: char, tail: string)
    requires Writes(unit, c)
    ensures UnescapeStep(UnitText(unit) + tail) == Some((c, |UnitText(unit)|))
  {
    hide IsCode, CodeUnit;
    var body := UnitText(unit) + tail;
    match unit
    case Bare(_) =>
    case Named(letter) =>
      NamedIs(letter);
    case Coded(digits) =>
      CodeLength(digits, c as int);
      CodeUnitIs(digits, tail, c as int);
    case Paired(high, low) =>
      var x, y :| IsCode(high, x) && IsCode(low, y) && 0xD800 <= x < 0xDC00 && 0xDC00 <= y < 0xE000
        && c as int == 0x1_0000 + (x - 0xD800) * 0x400 + (y - 0xDC00);
      CodeLength(high, x);
      CodeLength(low, y);
      CodeUnitIs(high, "\\u" + low + tail, x);
      assert body == "\\u" + high + ("\\u" + low + tail);
      CodeUnitIs(low, tail, y);
      assert body[6..] == "\\u" + low + tail;
  }

  lemma CodeLength(digits: string, value: int)
    requires IsCode(digits, value)
    ensures |digits| == 4
  {
  }

  /** What the reader takes is a unit. */
  lemma UnitOfStep(body: string) returns (unit: Unit)
    requires body != "" && UnescapeStep(body).Some?
    ensures var (c, size) := UnescapeStep(body).value;
            Writes(unit, c) && size <= |body| && UnitText(unit) == body[..size]
  {
    hide IsCode, CodeUnit;
    var (c, size) := UnescapeStep(body).value;
    if body[0] != BACKSLASH {
      unit := Bare(body[0]);
    } else if SimpleEscape(body[1]).Some? {
      NamedIs(body[1]);
      unit := Named(body[1]);
    } else {
      UnescapeStepSize(body);
      var high := CodeUnit(body).value;
      var digits := CodeDigits(body);
      if size == 6 {
        unit := Coded(digits);
      } else {
        var low := CodeUnit(body[6..]).value;
        var more := CodeDigits(body[6..]);
        assert 0xD800 <= high < 0xDC00 && 0xDC00 <= low < 0xE000;
        unit := Paired(digits, more);
        assert body[..12] == body[..6] + body[6..][..6];
      }
    }
  }

  lemma CodeDigits(body: string) returns (digits: string)
    requires CodeUnit(body).Some?
    ensures |body| >= 6 && body[..6] == "\\u" + digits && IsCode(digits, CodeUnit(body).value)
  {
    digits := body[2..6];
    assert body == "\\u" + digits + body[6..];
    CodeUnitIs(digits, body[6..], CodeUnit(body).value);
  }

  lemma {:induction false} UnescapeOfUnits(units: seq<Unit>, value: string)
    requires WritesAll(units, value)
    ensures Unescape(UnitTexts(units)) == Some(value)
  {
    hide Writes, UnescapeStep;
    if units != [] {
      var head, tail := UnitText(units[0]), UnitTexts(units[1..]);
      StepOfUnit(units[0], value[0], tail);
      UnescapeStepSize(head + tail);
      assert (head + tail)[|head|..] == tail;
      UnescapeOfUnits(units[1..], value[1..]);
      assert value == [value[0]] + value[1..];
    }
  }

  lemma {:induction false} UnitsOfUnescape(body: string) returns (units: seq<Unit>)
    requires Unescape(body).Some?
    ensures UnitTexts(units) == body && WritesAll(units, Unescape(body).value)
    decreases |body|
  {
    hide Writes, UnescapeStep;
    if body == "" {
      units := [];
    } else {
      UnescapeStepSize(body);
      var size := UnescapeStep(body).value.1;
      var unit := UnitOfStep(body);
      var rest := UnitsOfUnescape(body[size..]);
      units := [unit] + rest;
      assert units[1..] == rest;
      assert body == body[..size] + body[size..];
    }
  }

  /** A JSON string spells a value exactly when its quotes hold units that write the value's characters. */
  lemma UnquoteExactly(spelling: string, value: string)
    ensures Unquote(spelling) == Some(value) <==>
            exists units :: spelling == "\"" + UnitTexts(units) + "\"" && WritesAll(units, value)
  {
    hide Unescape, UnitTexts, WritesAll;
    if Unquote(spelling) == Some(value) {
      var body := spelling[1..|spelling| - 1];
      var units := UnitsOfUnescape(body);
      assert spelling == "\"" + body + "\"";
    }
    if units :| spelling == "\"" + UnitTexts(units) + "\"" && WritesAll(units, value) {
      UnescapeOfUnits(units, value);
      assert spelling[1..|spelling| - 1] == UnitTexts(units);
    }
  }

  /** How a character is printed: named if it has to be escaped and has a name, coded below the space, else bare. */
  predicate IsPrinted(unit: Unit, c: char) {
    match unit
    case Bare(bare) => bare == c && c as int >= 0x20 && c != '\"' && c != '\\'
    case Named(letter) => letter != '/' && letter in NAMED && NAMED[letter] == c as int
    case Coded(digits) =>
      && (forall letter | letter in NAMED :: NAMED[letter] != c as int) && c as int < 0x20
      && digits == "00" + [LOWER_HEX[c as int / 16], LOWER_HEX[c as int % 16]]
    case Paired(_, _) => false
  }

  lemma EscapeCharIs(unit: Unit, c: char)
    requires IsPrinted(unit, c)
    ensures UnitText(unit) == EscapeChar(c)
  {
    if unit.Coded? {
      assert NAMED['b'] == 0x08 && NAMED['f'] == 0x0C && NAMED['n'] == 0x0A && NAMED['r'] == 0x0D && NAMED['t'] == 0x09;
    }
  }

  lemma HasPrinted(c: char) returns (unit: Unit)
    ensures IsPrinted(unit, c)
  {
    if letter :| letter in NAMED && NAMED[letter] == c as int && letter != '/' {
      unit := Named(letter);
    } else if c as int < 0x20 {
      unit := Coded("00" + [LOWER_HEX[c as int / 16], LOWER_HEX[c as int % 16]]);
      assert NAMED['/'] == 0x2F;
    } else {
      assert NAMED['\"'] == 0x22 && NAMED['\\'] == 0x5C;
      unit := Bare(c);
    }
  }

  ghost predicate PrintedAs(units: seq<Unit>, s: string) {
    |units| == |s| && forall i | 0 <= i < |s| :: IsPrinted(units[i], s[i])
  }

  lemma {:induction false} EscapeIs(s: string) returns (units: seq<Unit>)
    ensures PrintedAs(units, s) && Escape(s) == UnitTexts(units)
  {
    hide IsPrinted, EscapeChar;
    if s == "" {
      units := [];
    } else {
      var unit := HasPrinted(s[0]);
      EscapeCharIs(unit, s[0]);
      var rest := EscapeIs(s[1..]);
      units := [unit] + rest;
      assert units[1..] == rest;
    }
  }

  /** A value is quoted with each character printed in its one way. */
  lemma QuoteIs(s: string) returns (units: seq<Unit>)
    ensures PrintedAs(units, s) && Quote(s) == "\"" + UnitTexts(units) + "\""
  {
    hide Escape, UnitTexts;
    units := EscapeIs(s);
  }
}
