/**
 The condition and template grammar (crates/flotilla-address/src/condition.rs): the printer, and
 the parser as functions of the text that remains, in its strict and its lenient mode.
 */
module Conditions {
  import opened Outcomes
  import opened Text
  import opened Casing
  import opened Errors
  import opened Forges
  import opened Json
  import opened Addresses
  import opened Containment
  import opened Lenient

  datatype Operator = Equal | NotEqual | LessThan | LessThanOrEqual | GreaterThan | GreaterThanOrEqual

  function OperatorText(operator: Operator): string {
    match operator
    case Equal => "=="
    case NotEqual => "!="
    case LessThan => "<"
    case LessThanOrEqual => "<="
    case GreaterThan => ">"
    case GreaterThanOrEqual => ">="
  }

  function ParseOperator(token: string): Result<Operator, Error> {
    if token == "==" then Ok(Equal)
    else if token == "!=" then Ok(NotEqual)
    else if token == "<" then Ok(LessThan)
    else if token == "<=" then Ok(LessThanOrEqual)
    else if token == ">" then Ok(GreaterThan)
    else if token == ">=" then Ok(GreaterThanOrEqual)
    else Err(UnknownOperator(token))
  }

  datatype Condition = Condition(address: Address, path: seq<string>, operator: Operator, literal: string)

  datatype Variable = Variable(name: string, arguments: seq<string>)

  datatype Template = Template(subject: Variable, path: seq<string>, operator: Operator, literal: string)

  datatype Mode = Strict | Lenient

  predicate IsNameChar(c: char) {
    IsLowerCase(c) || IsDigit(c) || c == '_' || c == '-'
  }

  predicate ValidName(name: string) {
    name != "" && IsLowerCase(name[0]) && All(name, IsNameChar)
  }

  function NewVariable(name: string, arguments: seq<string>): Result<Variable, Error> {
    if ValidName(name) then Ok(Variable(name, arguments)) else Err(InvalidVariable(name))
  }

  predicate IsSegmentChar(c: char) {
    IsAlphanumeric(c) || c == '_' || c == '-'
  }

  predicate IsLiteralChar(c: char) {
    IsAlphanumeric(c) || c in "_-.:/+@"
  }

  /** A field-path segment or variable argument that needs no quoting. */
  predicate IsBareSegment(word: string) {
    word != "" && All(word, IsSegmentChar)
  }

  /** A literal that needs no quoting. */
  predicate IsBareLiteral(word: string) {
    word != "" && All(word, IsLiteralChar)
  }

  predicate InAlphabet(c: char, more: string) {
    c in UPPER_LETTERS || c in LOWER_LETTERS || c in DIGITS || c in more
  }

  lemma CharIs(c: char)
    ensures IsSegmentChar(c) <==> InAlphabet(c, "_-")
    ensures IsLiteralChar(c) <==> InAlphabet(c, "_-.:/+@")
    ensures IsNameChar(c) <==> c in LOWER_LETTERS || c in DIGITS || c in "_-"
  {
    hide IsUpperCase, IsLowerCase, IsDigit;
    UpperCaseIs(c);
    LowerCaseIs(c);
    DigitIs(c);
  }

  /** What needs no quoting, and what names a variable, letter by letter. */
  lemma BareExactly(word: string)
    ensures IsBareSegment(word) <==> word != "" && forall i | 0 <= i < |word| :: InAlphabet(word[i], "_-")
    ensures IsBareLiteral(word) <==> word != "" && forall i | 0 <= i < |word| :: InAlphabet(word[i], "_-.:/+@")
    ensures ValidName(word) <==>
            && word != "" && word[0] in LOWER_LETTERS
            && forall i | 0 <= i < |word| :: word[i] in LOWER_LETTERS || word[i] in DIGITS || word[i] in "_-"
  {
    hide IsSegmentChar, IsLiteralChar, IsNameChar, InAlphabet, IsLowerCase;
    forall i | 0 <= i < |word|
      ensures IsSegmentChar(word[i]) <==> InAlphabet(word[i], "_-")
      ensures IsLiteralChar(word[i]) <==> InAlphabet(word[i], "_-.:/+@")
      ensures IsNameChar(word[i]) <==> word[i] in LOWER_LETTERS || word[i] in DIGITS || word[i] in "_-"
    {
      CharIs(word[i]);
    }
    if word != "" {
      LowerCaseIs(word[0]);
    }
  }

  // ---- The printer ----

  function PrintWord(word: string, bare: string -> bool): string {
    if bare(word) then word else Quote(word)
  }

  function PrintSegment(word: string): string {
    PrintWord(word, IsBareSegment)
  }

  function PrintLiteral(literal: string): string {
    PrintWord(literal, IsBareLiteral)
  }

  /** `.a."b c"`: each segment after a dot. */
  function PrintSegments(path: seq<string>): string {
    if path == [] then "" else "." + PrintSegment(path[0]) + PrintSegments(path[1..])
  }

  function PrintPath(path: seq<string>): string {
    if path == [] then "." else PrintSegments(path)
  }

  function PrintComparison(path: seq<string>, operator: Operator, literal: string): string {
    PrintPath(path) + " " + OperatorText(operator) + " " + PrintLiteral(literal)
  }

  function PrintCondition(condition: Condition): string {
    condition.address.text + " " + PrintComparison(condition.path, condition.operator, condition.literal)
  }

  /** The arguments after `(`, each but the last before a comma and the last before `)`. */
  function PrintArguments(arguments: seq<string>): string
    requires arguments != []
  {
    PrintSegment(arguments[0]) + if |arguments| == 1 then ")" else "," + PrintArguments(arguments[1..])
  }

  function PrintVariable(variable: Variable): string {
    "$" + variable.name + if variable.arguments == [] then "" else "(" + PrintArguments(variable.arguments)
  }

  function PrintTemplate(template: Template): string {
    PrintVariable(template.subject) + " " + PrintComparison(template.path, template.operator, template.literal)
  }

  // ---- The parser ----

  /** Everything up to the next whitespace, and the rest. */
  function TakeToken(rest: string): (string, string) {
    var end := Find(rest, IsWhitespace);
    (rest[..end], rest[end..])
  }

  /** One space, or in lenient mode any run of whitespace. */
  function TakeSeparator(mode: Mode, rest: string): Result<string, Error> {
    match mode
    case Strict => if rest != "" && rest[0] == ' ' then Ok(rest[1..]) else Err(Syntax("a space"))
    case Lenient => if TrimStart(rest) == rest then Err(Syntax("a space")) else Ok(TrimStart(rest))
  }

  function TakeQuoted(mode: Mode, rest: string, bare: string -> bool): (r: Result<(string, string), Error>)
    requires rest != ""
    ensures r.Ok? ==> |r.value.1| < |rest|
  {
    match QuotedEnd(rest)
    case None => Err(Syntax("a closing quote"))
    case Some(end) =>
      match Unquote(rest[..end])
      case None => Err(Syntax("a JSON string"))
      case Some(value) =>
        if mode == Strict && (bare(value) || Quote(value) != rest[..end]) then Err(NonCanonicalQuoting(rest[..end]))
        else Ok((value, rest[end..]))
  }

  predicate EndsStrictWord(c: char) {
    !IsSegmentChar(c)
  }

  predicate EndsLenientWord(c: char) {
    IsWhitespace(c) || c == '.' || c == ',' || c == '(' || c == ')' || c == QUOTE
  }

  /** Where a bare word ends: strict words are bare segments, lenient words run to a delimiter. */
  function WordEnd(mode: Mode, rest: string): (end: nat)
    ensures end <= |rest|
  {
    match mode
    case Strict => Find(rest, EndsStrictWord)
    case Lenient => Find(rest, EndsLenientWord)
  }

  function TakeWord(mode: Mode, rest: string, expected: string): (r: Result<(string, string), Error>)
    ensures r.Ok? ==> |r.value.1| < |rest|
  {
    if rest != "" && rest[0] == QUOTE then TakeQuoted(mode, rest, IsBareSegment)
    else
      var end := WordEnd(mode, rest);
      if end == 0 then Err(Syntax(expected)) else Ok((rest[..end], rest[end..]))
  }

  function TakeSegments(mode: Mode, rest: string, before: seq<string>): Result<(seq<string>, string), Error>
    decreases |rest|
  {
    var (word, after) :- TakeWord(mode, rest, "a bare or quoted field name");
    if after != "" && after[0] == '.' then TakeSegments(mode, after[1..], before + [word])
    else Ok((before + [word], after))
  }

  function TakePath(mode: Mode, rest: string): Result<(seq<string>, string), Error> {
    if rest == "" || rest[0] != '.' then Err(Syntax("a field path starting with `.`"))
    else if |rest| == 1 || rest[1] in " \t\n\r" then Ok(([], rest[1..]))
    else TakeSegments(mode, rest[1..], [])
  }

  /** The words of lenient text, joined by single spaces. */
  function JoinedWords(s: string): string
    decreases |s|
  {
    var start := TrimStart(s);
    TrimStartShrinks(s);
    if start == "" then ""
    else
      var (word, rest) := TakeToken(start);
      var more := if word == "" then "" else JoinedWords(rest);
      if more == "" then word else word + " " + more
  }

  predicate IsWord(word: string) {
    word != "" && forall i | 0 <= i < |word| :: !IsWhitespace(word[i])
  }

  predicate IsBlank(text: string) {
    forall i | 0 <= i < |text| :: IsWhitespace(text[i])
  }

  /** The text is these words, apart by any whitespace, perhaps with more around them. */
  ghost predicate SpacesOut(text: string, words: seq<string>)
    decreases |words|
  {
    if words == [] then IsBlank(text)
    else
      IsWord(words[0]) && exists blank, rest ::
        && text == blank + words[0] + rest && IsBlank(blank) && (rest == "" || IsWhitespace(rest[0]))
        && SpacesOut(rest, words[1..])
  }

  lemma {:induction false} TrimStartOf(blank: string, text: string)
    requires IsBlank(blank) && (text == "" || !IsWhitespace(text[0]))
    ensures TrimStart(blank + text) == text
  {
    if blank == "" {
      assert blank + text == text;
    } else {
      assert (blank + text)[1..] == blank[1..] + text;
      TrimStartOf(blank[1..], text);
    }
  }

  lemma JoinedWordsStep(blank: string, word: string, rest: string)
    requires IsBlank(blank) && IsWord(word) && (rest == "" || IsWhitespace(rest[0]))
    ensures var more := JoinedWords(rest);
            JoinedWords(blank + word + rest) == if more == "" then word else word + " " + more
  {
    hide TrimStart, TakeToken;
    assert blank + word + rest == blank + (word + rest) && (word + rest)[0] == word[0];
    TrimStartOf(blank, word + rest);
    TakeTokenOf(word, rest);
  }

  lemma NoWords(text: string)
    requires IsBlank(text)
    ensures JoinedWords(text) == ""
  {
    TrimStartOf(text, "");
    assert text + "" == text;
  }

  /** Words spaced out are joined with one space between them. */
  lemma {:induction false} JoinedWordsOf(text: string, words: seq<string>)
    requires SpacesOut(text, words)
    ensures JoinedWords(text) == Join(words, ' ') && (words != [] ==> Join(words, ' ') != "")
    decreases |words|
  {
    hide JoinedWords;
    if words == [] {
      NoWords(text);
    } else {
      var blank, rest :|
        && text == blank + words[0] + rest && IsBlank(blank) && (rest == "" || IsWhitespace(rest[0]))
        && SpacesOut(rest, words[1..]);
      JoinedWordsOf(rest, words[1..]);
      JoinedWordsStep(blank, words[0], rest);
      hide SpacesOut;
      assert |words| == 1 ==> words[1..] == [];
    }
  }

  lemma TrimStartShrinks(s: string)
    ensures |TrimStart(s)| <= |s|
    ensures TrimStart(s) == "" || !IsWhitespace(TrimStart(s)[0])
  {
  }

  /** The literal runs to the end of input. */
  function TakeLiteral(mode: Mode, rest: string): Result<string, Error> {
    if rest != "" && rest[0] == QUOTE then
      var (value, after) :- TakeQuoted(mode, rest, IsBareLiteral);
      if after == "" then Ok(value) else Err(Syntax("the end of input"))
    else if mode == Strict then
      if IsBareLiteral(rest) then Ok(rest) else Err(Syntax("a bare or quoted literal"))
    else
      var value := if |rest| >= 2 && rest[0] == '\'' && rest[|rest| - 1] == '\'' then rest[1..|rest| - 1]
          else JoinedWords(rest);
      if value == "" then Err(Syntax("a literal")) else Ok(value)
  }

  datatype Comparison = Comparison(path: seq<string>, operator: Operator, literal: string)

  /** `<field-path> <operator> <literal>` through the end of input. */
  function TakeComparison(mode: Mode, rest: string): Result<Comparison, Error> {
    var (path, afterPath) :- TakePath(mode, rest);
    var beforeOperator :- TakeSeparator(mode, afterPath);
    var (token, afterOperator) := TakeToken(beforeOperator);
    var operator :- ParseOperator(token);
    var beforeLiteral :- TakeSeparator(mode, afterOperator);
    var literal :- TakeLiteral(mode, beforeLiteral);
    Ok(Comparison(path, operator, literal))
  }

  function TakeArguments(mode: Mode, rest: string, before: seq<string>): (r: Result<(seq<string>, string), Error>)
    decreases |rest|
  {
    var (word, after) :- TakeWord(mode, rest, "a bare or quoted argument");
    if after == "" || (after[0] != ',' && after[0] != ')') then Err(Syntax("`,` or `)`"))
    else if after[0] == ',' then TakeArguments(mode, after[1..], before + [word])
    else Ok((before + [word], after[1..]))
  }

  predicate EndsName(c: char) {
    !IsNameChar(c)
  }

  /** `$name` or `$name(<argument>,…)`. */
  function TakeVariable(mode: Mode, rest: string): Result<(Variable, string), Error> {
    if rest == "" || rest[0] != '$' then Err(Syntax("a `$` variable"))
    else
      var end := Find(rest[1..], EndsName);
      var name, after := rest[1..][..end], rest[1..][end..];
      if after != "" && after[0] == '(' then
        var (arguments, more) :- TakeArguments(mode, after[1..], []);
        var variable :- NewVariable(name, arguments);
        Ok((variable, more))
      else
        var variable :- NewVariable(name, []);
        Ok((variable, after))
  }

  function ParsePath(text: string): Result<seq<string>, Error> {
    var (path, after) :- TakePath(Strict, text);
    if after == "" then Ok(path) else Err(Syntax("the end of input"))
  }

  function ParseCondition(lower: string -> string, text: string): Result<Condition, Error> {
    var (token, rest) := TakeToken(text);
    var address :- Parse(lower, token);
    var after :- TakeSeparator(Strict, rest);
    var comparison :- TakeComparison(Strict, after);
    Ok(Condition(address, comparison.path, comparison.operator, comparison.literal))
  }

  function ResolveCondition(lower: string -> string, forges: ForgeLookup, input: string): Result<Condition, Error> {
    var (token, rest) := TakeToken(Trim(input));
    var address :- Resolve(lower, forges, token);
    var after :- TakeSeparator(Mode.Lenient, rest);
    var comparison :- TakeComparison(Mode.Lenient, after);
    Ok(Condition(address, comparison.path, comparison.operator, comparison.literal))
  }

  function ParseTemplate(text: string): Result<Template, Error> {
    var (subject, rest) :- TakeVariable(Strict, text);
    var after :- TakeSeparator(Strict, rest);
    var comparison :- TakeComparison(Strict, after);
    Ok(Template(subject, comparison.path, comparison.operator, comparison.literal))
  }

  function ResolveTemplate(input: string): Result<Template, Error> {
    var (subject, rest) :- TakeVariable(Mode.Lenient, Trim(input));
    var after :- if rest != "" && rest[0] == '.' then Ok(rest) else TakeSeparator(Mode.Lenient, rest);
    var comparison :- TakeComparison(Mode.Lenient, after);
    Ok(Template(subject, comparison.path, comparison.operator, comparison.literal))
  }

  // ---- Reading what was printed, in either mode ----

  predicate WordStops(tail: string) {
    tail == "" || tail[0] == '.' || tail[0] == ' ' || tail[0] == ',' || tail[0] == ')'
  }

  lemma TakeQuotedOfQuote(mode: Mode, value: string, bare: string -> bool, tail: string)
    requires !bare(value)
    ensures TakeQuoted(mode, Quote(value) + tail, bare) == Ok((value, tail))
  {
    UnquoteOfQuote(value);
    ScanFindsClosingQuote(Quote(value), tail);
    var rest := Quote(value) + tail;
    assert rest[..|Quote(value)|] == Quote(value) && rest[|Quote(value)|..] == tail;
  }

  lemma WordEndOfBare(mode: Mode, word: string, tail: string)
    requires IsBareSegment(word) && WordStops(tail)
    ensures WordEnd(mode, word + tail) == |word|
  {
    var rest := word + tail;
    assert forall i | 0 <= i < |word| :: rest[i] == word[i];
    assert tail != "" ==> rest[|word|] == tail[0];
    match mode
    case Strict => FindIs(rest, EndsStrictWord, |word|);
    case Lenient => FindIs(rest, EndsLenientWord, |word|);
  }

  lemma TakeWordOfPrint(mode: Mode, word: string, tail: string, expected: string)
    requires WordStops(tail)
    ensures TakeWord(mode, PrintSegment(word) + tail, expected) == Ok((word, tail))
  {
    var rest := PrintSegment(word) + tail;
    if IsBareSegment(word) {
      WordEndOfBare(mode, word, tail);
      assert rest[0] == word[0];
      assert rest[..|word|] == word && rest[|word|..] == tail;
    } else {
      TakeQuotedOfQuote(mode, word, IsBareSegment, tail);
    }
  }

  predicate PathStops(tail: string) {
    tail == "" || tail[0] == ' '
  }

  lemma {:induction false} TakeSegmentsOfPrint(mode: Mode, path: seq<string>, tail: string, before: seq<string>)
    requires path != [] && PathStops(tail)
    ensures TakeSegments(mode, PrintSegment(path[0]) + PrintSegments(path[1..]) + tail, before) ==
              Ok((before + path, tail))
    decreases |path|
  {
    hide TakeWord, PrintSegment;
    var more := PrintSegments(path[1..]) + tail;
    assert PrintSegment(path[0]) + PrintSegments(path[1..]) + tail == PrintSegment(path[0]) + more;
    if |path| == 1 {
      assert more == tail && path == [path[0]];
      TakeWordOfPrint(mode, path[0], tail, "a bare or quoted field name");
    } else {
      var rest := path[1..];
      assert more == "." + (PrintSegment(rest[0]) + PrintSegments(rest[1..]) + tail);
      TakeWordOfPrint(mode, path[0], more, "a bare or quoted field name");
      TakeSegmentsOfPrint(mode, rest, tail, before + [path[0]]);
      assert before + [path[0]] + rest == before + path;
    }
  }

  lemma PrintSegmentStart(word: string)
    ensures PrintSegment(word) != "" && PrintSegment(word)[0] !in " \t\n\r."
  {
  }

  lemma TakeDotted(mode: Mode, inner: string)
    requires inner != "" && inner[0] !in " \t\n\r"
    ensures TakePath(mode, "." + inner) == TakeSegments(mode, inner, [])
  {
    hide TakeSegments;
    assert ("." + inner)[1..] == inner;
  }

  lemma TakePathOfPrint(mode: Mode, path: seq<string>, tail: string)
    requires PathStops(tail)
    ensures TakePath(mode, PrintPath(path) + tail) == Ok((path, tail))
  {
    hide TakeSegments, PrintSegment;
    if path == [] {
      assert (PrintPath(path) + tail)[1..] == tail;
    } else {
      hide TakePath;
      var inner := PrintSegment(path[0]) + PrintSegments(path[1..]) + tail;
      PrintSegmentStart(path[0]);
      assert PrintPath(path) + tail == "." + inner;
      TakeDotted(mode, inner);
      TakeSegmentsOfPrint(mode, path, tail, []);
      assert [] + path == path;
    }
  }

  lemma TakeSeparatorOfSpace(mode: Mode, rest: string)
    requires rest != "" && !IsWhitespace(rest[0])
    ensures TakeSeparator(mode, " " + rest) == Ok(rest)
  {
    assert (" " + rest)[1..] == rest;
    assert TrimStart(rest) == rest;
    assert TrimStart(" " + rest) == TrimStart(rest);
  }

  lemma TakeTokenOf(token: string, tail: string)
    requires forall i | 0 <= i < |token| :: !IsWhitespace(token[i])
    requires tail != "" ==> IsWhitespace(tail[0])
    ensures TakeToken(token + tail) == (token, tail)
  {
    var rest := token + tail;
    assert forall i | 0 <= i < |token| :: rest[i] == token[i];
    assert tail != "" ==> rest[|token|] == tail[0];
    FindIs(rest, IsWhitespace, |token|);
    assert rest[..|token|] == token && rest[|token|..] == tail;
  }

  lemma ParseOperatorOfText(operator: Operator)
    ensures ParseOperator(OperatorText(operator)) == Ok(operator)
    ensures OperatorText(operator) != "" && forall i | 0 <= i < |OperatorText(operator)| ::
              !IsWhitespace(OperatorText(operator)[i])
  {
  }

  lemma BareLiteralIsOneWord(literal: string)
    requires IsBareLiteral(literal)
    ensures JoinedWords(literal) == literal
    ensures literal[0] != QUOTE && literal[0] != '\''
  {
    assert forall i | 0 <= i < |literal| :: !IsWhitespace(literal[i]);
    assert TrimStart(literal) == literal;
    assert literal + "" == literal;
    TakeTokenOf(literal, "");
    assert JoinedWords("") == "";
  }

  lemma TakeLiteralOfPrint(mode: Mode, literal: string)
    ensures TakeLiteral(mode, PrintLiteral(literal)) == Ok(literal)
  {
    if IsBareLiteral(literal) {
      BareLiteralIsOneWord(literal);
    } else {
      TakeQuotedOfQuote(mode, literal, IsBareLiteral, "");
      assert Quote(literal) + "" == Quote(literal);
    }
  }

  lemma PrintLiteralEnds(literal: string)
    ensures var text := PrintLiteral(literal); text != "" && !IsWhitespace(text[0]) && !IsWhitespace(text[|text| - 1])
  {
  }

  /** Both modes read a printed comparison back exactly, whatever its path and literal hold. */
  lemma TakeComparisonOfPrint(mode: Mode, path: seq<string>, operator: Operator, literal: string)
    ensures TakeComparison(mode, PrintComparison(path, operator, literal)) == Ok(Comparison(path, operator, literal))
  {
    hide *;
    var value := PrintLiteral(literal);
    var afterOperator := " " + value;
    var beforeOperator := OperatorText(operator) + afterOperator;
    PrintLiteralEnds(literal);
    ParseOperatorOfText(operator);
    ComparisonText(path, operator, literal);
    SpaceStops(beforeOperator);
    TakePathOfPrint(mode, path, " " + beforeOperator);
    assert beforeOperator[0] == OperatorText(operator)[0];
    TakeSeparatorOfSpace(mode, beforeOperator);
    SpaceIsWhitespace();
    TakeTokenOf(OperatorText(operator), afterOperator);
    TakeSeparatorOfSpace(mode, value);
    TakeLiteralOfPrint(mode, literal);
    TakeComparisonSteps(mode, PrintComparison(path, operator, literal), path, " " + beforeOperator, beforeOperator,
                        OperatorText(operator), afterOperator, operator, value, literal);
  }

  lemma SpaceIsWhitespace()
    ensures IsWhitespace(' ')
  {
  }

  lemma SpaceStops(rest: string)
    ensures PathStops(" " + rest)
  {
  }

  lemma ComparisonText(path: seq<string>, operator: Operator, literal: string)
    ensures PrintComparison(path, operator, literal) == PrintPath(path)
            + (" " + (OperatorText(operator) + (" " + PrintLiteral(literal))))
  {
  }

  /** The steps of `comparison`, given what each one takes. */
  lemma TakeComparisonSteps(mode: Mode, rest: string, path: seq<string>, afterPath: string, beforeOperator: string,
                            token: string, afterOperator: string, operator: Operator, beforeLiteral: string,
                                literal: string)
    requires TakePath(mode, rest) == Ok((path, afterPath)) && TakeSeparator(mode, afterPath) == Ok(beforeOperator)
    requires TakeToken(beforeOperator) == (token, afterOperator) && ParseOperator(token) == Ok(operator)
    requires TakeSeparator(mode, afterOperator) == Ok(beforeLiteral) && TakeLiteral(mode, beforeLiteral) == Ok(literal)
    ensures TakeComparison(mode, rest) == Ok(Comparison(path, operator, literal))
  {
    hide TakePath, TakeSeparator, TakeToken, ParseOperator, TakeLiteral;
  }

  lemma PrintComparisonEnds(path: seq<string>, operator: Operator, literal: string)
    ensures var text := PrintComparison(path, operator, literal);
            text != "" && text[0] == '.' && !IsWhitespace(text[0]) && !IsWhitespace(text[|text| - 1])
  {
    hide PrintLiteral, PrintSegment, OperatorText;
    PrintLiteralEnds(literal);
    var text := PrintComparison(path, operator, literal);
    assert text[|text| - 1] == PrintLiteral(literal)[|PrintLiteral(literal)| - 1];
    assert text[0] == PrintPath(path)[0] == '.';
  }

  lemma AddressToken(lower: string -> string, address: Address, rest: string)
    requires Finished(lower, address)
    ensures TakeToken(address.text + " " + rest) == (address.text, " " + rest)
    ensures address.text != "" && !IsWhitespace(address.text[0])
  {
    hide TakeToken, Finished;
    TextIsAscii(lower, address);
    var text := address.text;
    forall i | 0 <= i < |text|
      ensures !IsWhitespace(text[i])
    {
      assert text[i] in text;
    }
    TakeTokenOf(text, " " + rest);
    assert text + " " + rest == text + (" " + rest);
    NonEmptyText(lower, address);
  }

  lemma NonEmptyText(lower: string -> string, address: Address)
    requires Finished(lower, address)
    ensures address.text != ""
  {
    SplitOfRender(address.segments, address.of);
  }

  /** Every condition is parsed back from its text, whatever strings its path and literal hold. */
  lemma ParseOfPrintedCondition(lower: string -> string, condition: Condition)
    requires Finished(lower, condition.address)
    ensures ParseCondition(lower, PrintCondition(condition)) == Ok(condition)
  {
    hide Finished, Parse, TakeToken, TakeSeparator, TakeComparison, PrintComparison;
    var comparison := PrintComparison(condition.path, condition.operator, condition.literal);
    AddressToken(lower, condition.address, comparison);
    ParseOfPrint(lower, condition.address);
    PrintComparisonEnds(condition.path, condition.operator, condition.literal);
    TakeSeparatorOfSpace(Strict, comparison);
    TakeComparisonOfPrint(Strict, condition.path, condition.operator, condition.literal);
  }

  /**
   Canonical text is lenient input: resolving a printed condition resolves its address and keeps the
   rest, so it agrees with strict parsing exactly when the address resolves to itself.
   */
  lemma ResolveOfPrintedCondition(lower: string -> string, forges: ForgeLookup, condition: Condition)
    requires Finished(lower, condition.address)
    ensures ResolveCondition(lower, forges, PrintCondition(condition)) ==
            match Resolve(lower, forges, condition.address.text)
            case Ok(address) => Ok(condition.(address := address))
            case Err(error) => Err(error)
  {
    hide Finished, Resolve, TakeToken, TakeSeparator, TakeComparison, PrintComparison, Trim;
    var comparison := PrintComparison(condition.path, condition.operator, condition.literal);
    AddressToken(lower, condition.address, comparison);
    PrintComparisonEnds(condition.path, condition.operator, condition.literal);
    SurroundedTrim(condition.address.text, " ", comparison);
    TakeSeparatorOfSpace(Mode.Lenient, comparison);
    TakeComparisonOfPrint(Mode.Lenient, condition.path, condition.operator, condition.literal);
  }

  lemma SurroundedTrim(a: string, b: string, c: string)
    requires a != "" && !IsWhitespace(a[0]) && c != "" && !IsWhitespace(c[|c| - 1])
    ensures Trim(a + b + c) == a + b + c
  {
    hide IsWhitespace;
    var s := a + b + c;
    assert s[0] == a[0] && s[|s| - 1] == c[|c| - 1];
    TrimIsTrimmed(s);
  }

  // ---- Variables ----

  lemma {:induction false} TakeArgumentsOfPrint(mode: Mode, arguments: seq<string>, tail: string, before: seq<string>)
    requires arguments != []
    ensures TakeArguments(mode, PrintArguments(arguments) + tail, before) == Ok((before + arguments, tail))
    decreases |arguments|
  {
    hide PrintSegment, TakeWord;
    var first := PrintSegment(arguments[0]);
    if |arguments| == 1 {
      assert PrintArguments(arguments) + tail == first + (")" + tail);
      TakeWordOfPrint(mode, arguments[0], ")" + tail, "a bare or quoted argument");
      assert arguments == [arguments[0]] && (")" + tail)[1..] == tail;
    } else {
      var more := PrintArguments(arguments[1..]) + tail;
      assert PrintArguments(arguments) + tail == first + ("," + more);
      TakeWordOfPrint(mode, arguments[0], "," + more, "a bare or quoted argument");
      assert ("," + more)[1..] == more;
      TakeArgumentsOfPrint(mode, arguments[1..], tail, before + [arguments[0]]);
      assert before + [arguments[0]] + arguments[1..] == before + arguments;
    }
  }

  lemma NameEnd(name: string, after: string)
    requires ValidName(name) && after != "" && EndsName(after[0])
    ensures Find(name + after, EndsName) == |name|
  {
    var rest := name + after;
    assert forall i | 0 <= i < |name| :: rest[i] == name[i];
    assert rest[|name|] == after[0];
    FindIs(rest, EndsName, |name|);
  }

  lemma TakeAfterName(mode: Mode, name: string, after: string)
    requires ValidName(name) && after != "" && EndsName(after[0])
    ensures TakeVariable(mode, "$" + (name + after)) ==
            if after[0] == '(' then
              var taken := TakeArguments(mode, after[1..], []);
              if taken.Err? then Err(taken.error) else Ok((Variable(name, taken.value.0), taken.value.1))
            else Ok((Variable(name, []), after))
  {
    hide TakeArguments, Find, EndsName;
    var rest := "$" + (name + after);
    assert rest[1..] == name + after;
    NameEnd(name, after);
    assert (name + after)[..|name|] == name && (name + after)[|name|..] == after;
  }

  lemma TakeCalled(mode: Mode, name: string, arguments: seq<string>, tail: string)
    requires ValidName(name) && arguments != []
    ensures TakeVariable(mode, "$" + (name + ("(" + (PrintArguments(arguments) + tail)))) ==
              Ok((Variable(name, arguments), tail))
  {
    assert EndsName('(');
    hide *;
    var inner := PrintArguments(arguments) + tail;
    assert ("(" + inner)[1..] == inner;
    TakeAfterName(mode, name, "(" + inner);
    TakeArgumentsOfPrint(mode, arguments, tail, []);
    assert [] + arguments == arguments;
  }

  lemma TakeVariableOfPrint(mode: Mode, variable: Variable, tail: string)
    requires ValidName(variable.name) && tail != "" && tail[0] == ' '
    ensures TakeVariable(mode, PrintVariable(variable) + tail) == Ok((variable, tail))
  {
    assert EndsName(' ');
    hide TakeVariable, PrintArguments, ValidName, EndsName;
    var name, arguments := variable.name, variable.arguments;
    if arguments == [] {
      assert PrintVariable(variable) + tail == "$" + (name + tail);
      TakeAfterName(mode, name, tail);
    } else {
      assert PrintVariable(variable) + tail == "$" + (name + ("(" + (PrintArguments(arguments) + tail)));
      TakeCalled(mode, name, arguments, tail);
    }
  }

  /** Every template is parsed back from its text, strictly and as lenient input. */
  lemma ParseOfPrintedTemplate(template: Template)
    requires ValidName(template.subject.name)
    ensures ParseTemplate(PrintTemplate(template)) == Ok(template)
    ensures ResolveTemplate(PrintTemplate(template)) == Ok(template)
  {
    hide TakeVariable, TakeSeparator, TakeComparison, PrintComparison, PrintVariable, Trim, ValidName;
    var comparison := PrintComparison(template.path, template.operator, template.literal);
    var variable := PrintVariable(template.subject);
    PrintComparisonEnds(template.path, template.operator, template.literal);
    assert PrintTemplate(template) == variable + (" " + comparison);
    VariableStarts(template.subject);
    SurroundedTrim(variable, " ", comparison);
    TakeVariableOfPrint(Strict, template.subject, " " + comparison);
    TakeVariableOfPrint(Mode.Lenient, template.subject, " " + comparison);
    TakeSeparatorOfSpace(Strict, comparison);
    TakeSeparatorOfSpace(Mode.Lenient, comparison);
    TakeComparisonOfPrint(Strict, template.path, template.operator, template.literal);
    TakeComparisonOfPrint(Mode.Lenient, template.path, template.operator, template.literal);
  }

  lemma VariableStarts(variable: Variable)
    ensures PrintVariable(variable) != "" && !IsWhitespace(PrintVariable(variable)[0])
  {
    assert PrintVariable(variable)[0] == '$';
  }

  lemma ParseOfPrintedPath(path: seq<string>)
    ensures ParsePath(PrintPath(path)) == Ok(path)
  {
    TakePathOfPrint(Strict, path, "");
    assert PrintPath(path) + "" == PrintPath(path);
  }

  // ---- Strict text is reprinted unchanged ----

  lemma PrintOfTakenQuoted(rest: string, bare: string -> bool)
    requires rest != "" && TakeQuoted(Strict, rest, bare).Ok?
    ensures var (value, after) := TakeQuoted(Strict, rest, bare).value; rest == PrintWord(value, bare) + after
  {
    var end := QuotedEnd(rest).value;
    assert rest == rest[..end] + rest[end..];
  }

  lemma PrintOfTakenWord(rest: string, expected: string)
    requires TakeWord(Strict, rest, expected).Ok?
    ensures var (word, after) := TakeWord(Strict, rest, expected).value; rest == PrintSegment(word) + after
  {
    if rest != "" && rest[0] == QUOTE {
      PrintOfTakenQuoted(rest, IsBareSegment);
    } else {
      var end := WordEnd(Strict, rest);
      assert forall i | 0 <= i < end :: rest[..end][i] == rest[i] && IsSegmentChar(rest[i]);
      assert IsBareSegment(rest[..end]);
      assert rest == rest[..end] + rest[end..];
    }
  }

  /** The text the words spell after the first dot. */
  function WordsText(words: seq<string>): string
    requires words != []
  {
    PrintSegment(words[0]) + PrintSegments(words[1..])
  }

  lemma {:induction false} PrintOfTakenSegments(rest: string, before: seq<string>)
    requires TakeSegments(Strict, rest, before).Ok?
    ensures var (path, after) := TakeSegments(Strict, rest, before).value;
            |before| < |path| && path[..|before|] == before && rest == WordsText(path[|before|..]) + after
    decreases |rest|
  {
    hide PrintSegment, TakeWord;
    PrintOfTakenWord(rest, "a bare or quoted field name");
    var (word, more) := TakeWord(Strict, rest, "a bare or quoted field name").value;
    var (path, after) := TakeSegments(Strict, rest, before).value;
    if more != "" && more[0] == '.' {
      PrintOfTakenSegments(more[1..], before + [word]);
      var words := path[|before|..];
      assert path[..|before|] == path[..|before| + 1][..|before|] == before;
      assert words[0] == path[..|before| + 1][|before|] == word;
      assert words[1..] == path[|before| + 1..];
      assert more == "." + more[1..];
      assert rest == PrintSegment(word) + ("." + (WordsText(words[1..]) + after));
      assert PrintSegments(words[1..]) == "." + PrintSegment(words[1..][0]) + PrintSegments(words[1..][1..]);
      assert PrintSegments(words[1..]) == "." + WordsText(words[1..]);
    } else {
      assert path[|before|..] == [word];
      assert WordsText([word]) == PrintSegment(word) + PrintSegments([]);
    }
  }

  lemma PrintOfTakenPath(rest: string)
    requires TakePath(Strict, rest).Ok?
    ensures var (path, after) := TakePath(Strict, rest).value; rest == PrintPath(path) + after
  {
    hide PrintSegment, TakeSegments;
    assert rest == "." + rest[1..];
    if !(|rest| == 1 || rest[1] in " \t\n\r") {
      PrintOfTakenSegments(rest[1..], []);
      var (path, after) := TakePath(Strict, rest).value;
      assert path[0..] == path;
      assert PrintPath(path) == "." + PrintSegment(path[0]) + PrintSegments(path[1..]);
      assert PrintPath(path) == "." + WordsText(path);
    }
  }

  lemma PrintOfTakenLiteral(rest: string)
    requires TakeLiteral(Strict, rest).Ok?
    ensures rest == PrintLiteral(TakeLiteral(Strict, rest).value)
  {
    if rest != "" && rest[0] == QUOTE {
      PrintOfTakenQuoted(rest, IsBareLiteral);
      var (value, after) := TakeQuoted(Strict, rest, IsBareLiteral).value;
      assert PrintLiteral(value) + after == PrintLiteral(value);
    }
  }

  lemma TextOfParsedOperator(token: string)
    requires ParseOperator(token).Ok?
    ensures OperatorText(ParseOperator(token).value) == token
  {
  }

  lemma PrintOfTakenComparison(rest: string)
    requires TakeComparison(Strict, rest).Ok?
    ensures var comparison := TakeComparison(Strict, rest).value;
            rest == PrintComparison(comparison.path, comparison.operator, comparison.literal)
  {
    hide TakePath, ParseOperator, TakeLiteral, PrintPath, PrintLiteral, OperatorText;
    PrintOfTakenPath(rest);
    var (path, afterPath) := TakePath(Strict, rest).value;
    var beforeOperator := TakeSeparator(Strict, afterPath).value;
    assert afterPath == " " + beforeOperator;
    var (token, afterOperator) := TakeToken(beforeOperator);
    assert beforeOperator == token + afterOperator;
    TextOfParsedOperator(token);
    var beforeLiteral := TakeSeparator(Strict, afterOperator).value;
    assert afterOperator == " " + beforeLiteral;
    PrintOfTakenLiteral(beforeLiteral);
    var literal := TakeLiteral(Strict, beforeLiteral).value;
    ComparisonText(path, ParseOperator(token).value, literal);
  }

  lemma TokenAndRest(text: string)
    ensures text == TakeToken(text).0 + TakeToken(text).1
  {
  }

  lemma OneSpace(rest: string)
    ensures TakeSeparator(Strict, rest).Ok? ==> rest == " " + TakeSeparator(Strict, rest).value
  {
  }

  /** Text the strict parser accepts is reprinted unchanged: a condition has one spelling. */
  lemma PrintOfParsedCondition(lower: string -> string, text: string)
    ensures ParseCondition(lower, text).Ok? ==>
              var condition := ParseCondition(lower, text).value;
              PrintCondition(condition) == text && Finished(lower, condition.address)
  {
    hide Parse, TakeComparison, PrintComparison, Finished, TakeToken, TakeSeparator;
    if ParseCondition(lower, text).Ok? {
      var (token, rest) := TakeToken(text);
      TokenAndRest(text);
      PrintOfParse(lower, token);
      OneSpace(rest);
      PrintOfTakenComparison(TakeSeparator(Strict, rest).value);
    }
  }

  lemma {:induction false} PrintOfTakenArguments(rest: string, before: seq<string>)
    requires TakeArguments(Strict, rest, before).Ok?
    ensures var (arguments, after) := TakeArguments(Strict, rest, before).value;
            |before| < |arguments| && arguments[..|before|] == before
                && rest == PrintArguments(arguments[|before|..]) + after
    decreases |rest|
  {
    hide PrintSegment, TakeWord;
    PrintOfTakenWord(rest, "a bare or quoted argument");
    var (word, more) := TakeWord(Strict, rest, "a bare or quoted argument").value;
    var (arguments, after) := TakeArguments(Strict, rest, before).value;
    if more[0] == ',' {
      PrintOfTakenArguments(more[1..], before + [word]);
      var words := arguments[|before|..];
      assert arguments[..|before|] == arguments[..|before| + 1][..|before|] == before;
      assert words[0] == arguments[..|before| + 1][|before|] == word;
      assert words[1..] == arguments[|before| + 1..];
      assert more == "," + more[1..];
      assert rest == PrintSegment(word) + ("," + (PrintArguments(words[1..]) + after));
    } else {
      assert arguments[|before|..] == [word];
      assert more == ")" + more[1..];
      assert rest == PrintSegment(word) + (")" + after);
    }
  }

  lemma PrintOfTakenVariable(rest: string)
    requires TakeVariable(Strict, rest).Ok?
    ensures var (variable, after) := TakeVariable(Strict, rest).value;
            ValidName(variable.name) && rest == PrintVariable(variable) + after
  {
    hide TakeArguments, PrintArguments, ValidName, Find, IsWhitespace;
    var end := Find(rest[1..], EndsName);
    var name, after := rest[1..][..end], rest[1..][end..];
    NameAndAfter(rest, end);
    if after != "" && after[0] == '(' {
      PrintOfTakenArguments(after[1..], []);
      var (arguments, more) := TakeArguments(Strict, after[1..], []).value;
      assert arguments[0..] == arguments;
      VariableText(name, arguments, more, after);
    } else {
      assert PrintVariable(Variable(name, [])) == "$" + name + "";
    }
  }

  lemma NameAndAfter(rest: string, end: nat)
    requires rest != "" && rest[0] == '$' && end <= |rest| - 1
    ensures rest == "$" + rest[1..][..end] + rest[1..][end..]
  {
  }

  lemma VariableText(name: string, arguments: seq<string>, more: string, after: string)
    requires arguments != [] && after != "" && after[0] == '(' && after[1..] == PrintArguments(arguments) + more
    ensures "$" + name + after == PrintVariable(Variable(name, arguments)) + more
  {
    hide PrintArguments;
    assert after == "(" + (PrintArguments(arguments) + more);
  }

  /** A template, too, has one spelling. */
  lemma PrintOfParsedTemplate(text: string)
    ensures ParseTemplate(text).Ok? ==>
              var template := ParseTemplate(text).value;
              PrintTemplate(template) == text && ValidName(template.subject.name)
  {
    hide TakeVariable, TakeComparison, PrintVariable, PrintComparison, ValidName;
    if ParseTemplate(text).Ok? {
      PrintOfTakenVariable(text);
      var (subject, rest) := TakeVariable(Strict, text).value;
      var after := TakeSeparator(Strict, rest).value;
      assert rest == " " + after;
      PrintOfTakenComparison(after);
    }
  }

  lemma PrintOfParsedPath(text: string)
    ensures ParsePath(text).Ok? ==> PrintPath(ParsePath(text).value) == text
  {
    hide TakePath, PrintPath;
    if ParsePath(text).Ok? {
      PrintOfTakenPath(text);
      var (path, after) := TakePath(Strict, text).value;
      assert PrintPath(path) + after == PrintPath(path);
    }
  }

  /** `bind`: the condition a template becomes once its subject is bound. */
  function Bind(template: Template, address: Address): Condition {
    Condition(address, template.path, template.operator, template.literal)
  }

  /** Binding the subject replaces the variable's text by the address's, and nothing else. */
  lemma BindText(lower: string -> string, template: Template, address: Address)
    requires Finished(lower, address) && ValidName(template.subject.name)
    ensures var rest := PrintTemplate(template)[|PrintVariable(template.subject)|..];
            ParseCondition(lower, address.text + rest) == Ok(Bind(template, address))
  {
    hide ParseCondition, PrintVariable, PrintComparison, Finished;
    var comparison := PrintComparison(template.path, template.operator, template.literal);
    var variable := PrintVariable(template.subject);
    assert PrintTemplate(template) == variable + (" " + comparison);
    assert PrintTemplate(template)[|variable|..] == " " + comparison;
    assert address.text + (" " + comparison) == address.text + " " + comparison;
    ParseOfPrintedCondition(lower, Bind(template, address));
  }
}
