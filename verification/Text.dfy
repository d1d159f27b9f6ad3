/**
 The string operations the rest of the model is written in: the parts of Rust's `str` and Python's
 `str` that the source calls. A string is a sequence of Unicode scalar values.
 */
module Outcomes {

  datatype Option<+T> = None | Some(value: T)

  datatype Result<+T, +E> = Ok(value: T) | Err(error: E) {

    predicate IsFailure() {
      Err?
    }

    function PropagateFailure<U>(): Result<U, E>
      requires Err?
    {
      Err(error)
    }

    function Extract(): T
      requires Ok?
    {
      value
    }
  }
}

module Text {
  import opened Outcomes

  predicate IsDigit(c: char) {
    '0' <= c <= '9'
  }

  predicate IsLowerCase(c: char) {
    'a' <= c <= 'z'
  }

  predicate IsUpperCase(c: char) {
    'A' <= c <= 'Z'
  }

  predicate IsAlphanumeric(c: char) {
    IsDigit(c) || IsLowerCase(c) || IsUpperCase(c)
  }

  /** The Unicode White_Space property, which `char::is_whitespace` tests. */
  predicate IsWhitespace(c: char) {
    var v := c as int;
    || 0x9 <= v <= 0xD || v == 0x20 || v == 0x85 || v == 0xA0 || v == 0x1680
    || 0x2000 <= v <= 0x200A || v == 0x2028 || v == 0x2029 || v == 0x202F || v == 0x205F || v == 0x3000
  }

  predicate All(s: string, p: char -> bool) {
    forall i | 0 <= i < |s| :: p(s[i])
  }

  /** The index of the first character `p` holds of, or the length. */
  function Find(s: string, p: char -> bool): (i: nat)
    ensures i <= |s|
    ensures forall j | 0 <= j < i :: !p(s[j])
    ensures i < |s| ==> p(s[i])
  {
    if s == "" || p(s[0]) then 0 else 1 + Find(s[1..], p)
  }

  lemma FindIs(s: string, p: char -> bool, i: nat)
    requires i <= |s|
    requires forall j | 0 <= j < i :: !p(s[j])
    requires i < |s| ==> p(s[i])
    ensures Find(s, p) == i
  {
  }

  function TrimStart(s: string): string {
    if s != "" && IsWhitespace(s[0]) then TrimStart(s[1..]) else s
  }

  function TrimEnd(s: string): string {
    if s != "" && IsWhitespace(s[|s| - 1]) then TrimEnd(s[..|s| - 1]) else s
  }

  function Trim(s: string): string {
    TrimEnd(TrimStart(s))
  }

  predicate Trimmed(s: string) {
    s == "" || (!IsWhitespace(s[0]) && !IsWhitespace(s[|s| - 1]))
  }

  lemma TrimIsTrimmed(s: string)
    ensures Trimmed(Trim(s))
    ensures Trimmed(s) ==> Trim(s) == s
  {
    TrimStartStops(s);
    TrimEndStops(TrimStart(s));
  }

  lemma TrimStartStops(s: string)
    ensures TrimStart(s) == "" || !IsWhitespace(TrimStart(s)[0])
  {
  }

  lemma TrimEndStops(s: string)
    ensures TrimEnd(s) <= s
    ensures TrimEnd(s) == "" || !IsWhitespace(TrimEnd(s)[|TrimEnd(s)| - 1])
  {
  }

  function LowerAscii(c: char): char {
    if IsUpperCase(c) then (c as int + 32) as char else c
  }

  function ToAsciiLower(s: string): (r: string)
    ensures |r| == |s|
    ensures forall i | 0 <= i < |s| :: r[i] == LowerAscii(s[i])
  {
    seq(|s|, i requires 0 <= i < |s| => LowerAscii(s[i]))
  }

  lemma AsciiLowerFixed(s: string)
    requires forall i | 0 <= i < |s| :: !IsUpperCase(s[i])
    ensures ToAsciiLower(s) == s
  {
  }

  function StripPrefix(s: string, prefix: string): Option<string> {
    if prefix <= s then Some(s[|prefix|..]) else None
  }

  function StripSuffix(s: string, suffix: string): Option<string> {
    if |suffix| <= |s| && s[|s| - |suffix|..] == suffix then Some(s[..|s| - |suffix|]) else None
  }

  /** The index of the first `c`, or the length. */
  function IndexOf(s: string, c: char): (i: nat)
    ensures i <= |s|
    ensures c !in s[..i]
    ensures i < |s| ==> s[i] == c
    ensures i == |s| ==> c !in s
  {
    if s == "" || s[0] == c then 0 else
      var i := 1 + IndexOf(s[1..], c);
      assert s[..i] == [s[0]] + s[1..][..i - 1];
      assert s == [s[0]] + s[1..];
      i
  }

  function SplitOnce(s: string, c: char): (r: Option<(string, string)>)
    ensures r.Some? ==> s == r.value.0 + [c] + r.value.1 && c !in r.value.0
    ensures r.None? ==> c !in s
  {
    var i := IndexOf(s, c);
    if i < |s| then Some((s[..i], s[i + 1..])) else None
  }

  lemma SplitOnceOf(a: string, c: char, b: string)
    requires c !in a
    ensures SplitOnce(a + [c] + b, c) == Some((a, b))
  {
    var s := a + [c] + b;
    var i := IndexOf(s, c);
    assert forall j | 0 <= j < |a| :: s[j] == a[j];
    assert s[|a|] == c;
    assert i == |a|;
    assert s[..i] == a && s[i + 1..] == b;
  }

  function RSplitOnce(s: string, c: char): (r: Option<(string, string)>)
    ensures r.Some? ==> s == r.value.0 + [c] + r.value.1 && c !in r.value.1
    ensures r.None? ==> c !in s
  {
    if s == "" then None
    else if s[|s| - 1] == c then
      assert s == s[..|s| - 1] + [c] + "";
      Some((s[..|s| - 1], ""))
    else
      var last := s[|s| - 1];
      assert s == s[..|s| - 1] + [last];
      match RSplitOnce(s[..|s| - 1], c)
      case None => None
      case Some(pair) =>
        assert s == pair.0 + [c] + (pair.1 + [last]);
        Some((pair.0, pair.1 + [last]))
  }

  lemma {:induction false} RSplitOnceOf(a: string, c: char, b: string)
    requires c !in b
    ensures RSplitOnce(a + [c] + b, c) == Some((a, b))
  {
    var s := a + [c] + b;
    if b == "" {
      assert s[..|s| - 1] == a;
    } else {
      var init := b[..|b| - 1];
      RSplitOnceOf(a, c, init);
      assert s[..|s| - 1] == a + [c] + init;
      assert b == init + [b[|b| - 1]];
    }
  }

  function Split(s: string, sep: char): (parts: seq<string>)
    ensures |parts| >= 1
    ensures forall i | 0 <= i < |parts| :: sep !in parts[i]
    decreases |s|
  {
    match SplitOnce(s, sep)
    case None => [s]
    case Some(pair) => [pair.0] + Split(pair.1, sep)
  }

  function Join(parts: seq<string>, sep: char): string {
    if |parts| == 0 then ""
    else if |parts| == 1 then parts[0]
    else parts[0] + [sep] + Join(parts[1..], sep)
  }

  lemma {:induction false} JoinOfSplit(s: string, sep: char)
    ensures Join(Split(s, sep), sep) == s
    decreases |s|
  {
    match SplitOnce(s, sep)
    case None =>
    case Some(pair) =>
      JoinOfSplit(pair.1, sep);
      assert Split(s, sep)[1..] == Split(pair.1, sep);
  }

  lemma {:induction false} SplitOfJoin(parts: seq<string>, sep: char)
    requires |parts| >= 1
    requires forall i | 0 <= i < |parts| :: sep !in parts[i]
    ensures Split(Join(parts, sep), sep) == parts
  {
    hide SplitOnce;
    if |parts| > 1 {
      SplitOfJoin(parts[1..], sep);
      SplitOnceOf(parts[0], sep, Join(parts[1..], sep));
      assert parts == [parts[0]] + parts[1..];
    } else {
      assert parts == [parts[0]];
    }
  }

  lemma {:induction false} JoinAppend(a: seq<string>, b: seq<string>, sep: char)
    requires |a| >= 1 && |b| >= 1
    ensures Join(a + b, sep) == Join(a, sep) + [sep] + Join(b, sep)
  {
    if |a| == 1 {
      assert (a + b)[1..] == b;
    } else {
      JoinAppend(a[1..], b, sep);
      assert (a + b)[1..] == a[1..] + b;
    }
  }

  const UPPER_LETTERS := "ABCDEFGHIJKLMNOPQRSTUVWXYZ"
  const LOWER_LETTERS := "abcdefghijklmnopqrstuvwxyz"
  const DIGITS := "0123456789"

  lemma UpperCaseIs(c: char)
    ensures IsUpperCase(c) <==> c in UPPER_LETTERS
  {
    if IsUpperCase(c) {
      assert UPPER_LETTERS[c as int - 0x41] == c;
    }
  }

  lemma LowerCaseIs(c: char)
    ensures IsLowerCase(c) <==> c in LOWER_LETTERS
  {
    if IsLowerCase(c) {
      assert LOWER_LETTERS[c as int - 0x61] == c;
    }
  }

  lemma DigitIs(c: char)
    ensures IsDigit(c) <==> c in DIGITS
  {
    if IsDigit(c) {
      assert DIGITS[c as int - 0x30] == c;
    }
  }

  /** Lowering replaces each upper-case letter by the lower-case one in its place, and nothing else. */
  lemma LowerAsciiIs(c: char, i: nat)
    ensures i < 26 && c == UPPER_LETTERS[i] ==> LowerAscii(c) == LOWER_LETTERS[i]
    ensures c !in UPPER_LETTERS ==> LowerAscii(c) == c
  {
    UpperCaseIs(c);
  }

  const LOWER_HEX := "0123456789abcdef"
  const UPPER_HEX := "0123456789ABCDEF"

  /** A lowercase hex digit. */
  function HexNibble(d: nat): char
    requires d < 16
  {
    if d < 10 then ('0' as int + d) as char else ('a' as int + d - 10) as char
  }

  function TrimSlashes(path: string): string {
    if path != "" && path[|path| - 1] == '/' then TrimSlashes(path[..|path| - 1]) else path
  }

  function DigitChar(d: nat): char
    requires d < 10
  {
    ('0' as int + d) as char
  }

  /** Decimal text, as `to_string` prints an unsigned integer. */
  function NatText(n: nat): (s: string)
    ensures s != "" && forall i | 0 <= i < |s| :: IsDigit(s[i])
    ensures n > 0 ==> s[0] != '0'
  {
    if n < 10 then [DigitChar(n)] else NatText(n / 10) + [DigitChar(n % 10)]
  }

  function DigitValue(c: char): nat
    requires IsDigit(c)
  {
    c as int - '0' as int
  }

  /** The value of a digit string, most significant first; empty is zero. */
  function DigitsValue(s: string): nat
    requires forall i | 0 <= i < |s| :: IsDigit(s[i])
  {
    if s == "" then 0 else 10 * DigitsValue(s[..|s| - 1]) + DigitValue(s[|s| - 1])
  }

  predicate IsDigits(s: string) {
    forall i | 0 <= i < |s| :: IsDigit(s[i])
  }

  /** Decimal digits with no leading zero. */
  predicate CanonicalDigits(s: string) {
    IsDigits(s) && s != "" && (s == "0" || s[0] != '0')
  }

  /** Printing and reading decimal text are inverse on canonical digits. */
  lemma {:induction false} DigitsValueOfNatText(n: nat)
    ensures DigitsValue(NatText(n)) == n
    ensures CanonicalDigits(NatText(n))
  {
    if n >= 10 {
      DigitsValueOfNatText(n / 10);
      assert NatText(n)[..|NatText(n)| - 1] == NatText(n / 10);
    } else {
      assert NatText(n)[..0] == "";
    }
  }

  lemma {:induction false} NatTextOfDigitsValue(s: string)
    requires CanonicalDigits(s)
    ensures NatText(DigitsValue(s)) == s
  {
    var init, last := s[..|s| - 1], s[|s| - 1];
    assert s == init + [last];
    if |s| == 1 {
      assert DigitsValue(init) == 0;
    } else {
      assert s[0] == init[0] != '0';
      NatTextOfDigitsValue(init);
      PositiveDigits(init);
    }
  }

  lemma {:induction false} PositiveDigits(s: string)
    requires IsDigits(s) && s != "" && s[0] != '0'
    ensures DigitsValue(s) > 0
  {
    if |s| > 1 {
      PositiveDigits(s[..|s| - 1]);
    }
  }

  function Zeros(n: nat): string {
    seq(n, _ => '0')
  }

  lemma {:induction false} LeadingZeros(n: nat, digits: string)
    requires IsDigits(digits)
    ensures IsDigits(Zeros(n) + digits) && DigitsValue(Zeros(n) + digits) == DigitsValue(digits)
    decreases |digits|, n
  {
    var text := Zeros(n) + digits;
    if digits != "" {
      var init := digits[..|digits| - 1];
      LeadingZeros(n, init);
      assert text[..|text| - 1] == Zeros(n) + init;
    } else if n > 0 {
      LeadingZeros(n - 1, "");
      assert text[..|text| - 1] == Zeros(n - 1) + "";
    }
  }

  lemma {:induction false} WithoutZeros(digits: string) returns (n: nat)
    requires IsDigits(digits) && DigitsValue(digits) > 0
    ensures digits == Zeros(n) + NatText(DigitsValue(digits))
  {
    if digits != "" && digits[0] == '0' {
      var rest := digits[1..];
      assert digits == Zeros(1) + rest;
      LeadingZeros(1, rest);
      n := WithoutZeros(rest);
      assert Zeros(1) + Zeros(n) == Zeros(n + 1);
      n := n + 1;
    } else {
      n := 0;
      NatTextOfDigitsValue(digits);
    }
  }

  /** A positive number as `parse` reads it: a plus sign or none, zeros or none, and its digits. */
  ghost predicate IsPositive(word: string, number: nat) {
    number > 0 && exists n: nat :: word == Zeros(n) + NatText(number) || word == "+" + Zeros(n) + NatText(number)
  }

  function Unsigned(word: string): string {
    if word != "" && word[0] == '+' then word[1..] else word
  }

  lemma PositiveExactly(word: string, number: nat)
    requires number > 0
    ensures IsPositive(word, number) <==>
            var digits := Unsigned(word); digits != "" && IsDigits(digits) && DigitsValue(digits) == number
  {
    hide NatText, DigitsValue;
    DigitsValueOfNatText(number);
    var digits := Unsigned(word);
    if digits != "" && IsDigits(digits) && DigitsValue(digits) == number {
      var n := WithoutZeros(digits);
      assert word == digits || word == "+" + digits;
      assert "+" + (Zeros(n) + NatText(number)) == "+" + Zeros(n) + NatText(number);
    }
    if IsPositive(word, number) {
      var n: nat :| word == Zeros(n) + NatText(number) || word == "+" + Zeros(n) + NatText(number);
      LeadingZeros(n, NatText(number));
      assert IsDigit(NatText(number)[0]);
      assert word == Zeros(n) + NatText(number) ==> word != "" && IsDigit(word[0]);
      assert "+" + Zeros(n) + NatText(number) == "+" + (Zeros(n) + NatText(number));
      assert digits == Zeros(n) + NatText(number);
    }
  }
}
