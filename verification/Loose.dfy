/**
 What typed conditions and templates mean (crates/flotilla-address/src/condition.rs, `Condition::resolve` and
 `Template::resolve`): runs of whitespace, any JSON spelling, words that need no quotes, and literals in single
 quotes or of several words.
 */
module Loose {
  import opened Outcomes
  import opened Text
  import opened Casing
  import opened Errors
  import opened Forges
  import opened Json
  import opened Addresses
  import opened Lenient
  import opened Spelled
  import opened Conditions

  // ---- Words ----

  /** A run of characters that do not end a word: no whitespace, dot, comma, parenthesis or double quote. */
  predicate IsRun(text: string) {
    text != "" && forall i | 0 <= i < |text| :: !IsWhitespace(text[i]) && text[i] !in ".,()\""
  }

  /** The text spells the word, as it is or as a JSON string. */
  predicate SpellsWord(text: string, word: string) {
    (IsRun(text) && text == word) || Unquote(text) == Some(word)
  }

  predicate SpellsWords(texts: seq<string>, words: seq<string>) {
    |texts| == |words| && forall i | 0 <= i < |texts| :: SpellsWord(texts[i], words[i])
  }

  /** Nothing, or a character that ends a word. */
  predicate Stops(tail: string) {
    tail == "" || IsWhitespace(tail[0]) || tail[0] in ".,()\""
  }

  lemma EndsWordIs(c: char)
    ensures EndsLenientWord(c) <==> IsWhitespace(c) || c in ".,()\""
  {
    hide IsWhitespace;
  }

  lemma QuotedStart(text: string)
    ensures Unquote(text).Some? ==> |text| >= 2 && text[0] == '"'
  {
  }

  lemma WordOfText(text: string, word: string, tail: string, expected: string)
    requires SpellsWord(text, word) && Stops(tail)
    ensures TakeWord(Mode.Lenient, text + tail, expected) == Ok((word, tail))
  {
    hide IsWhitespace, Unquote, EndsLenientWord, QuotedEnd;
    var rest := text + tail;
    QuotedStart(text);
    assert rest[..|text|] == text && rest[|text|..] == tail;
    if Unquote(text) == Some(word) {
      ScanFindsClosingQuote(text, tail);
      assert rest[0] == text[0];
    } else {
      forall i | 0 <= i < |text|
        ensures !EndsLenientWord(rest[i])
      {
        assert rest[i] == text[i];
        EndsWordIs(rest[i]);
      }
      if tail != "" {
        assert rest[|text|] == tail[0];
        EndsWordIs(tail[0]);
      }
      FindIs(rest, EndsLenientWord, |text|);
      assert rest[0] == text[0] != '"';
    }
  }

  lemma TextOfWord(rest: string, expected: string) returns (text: string)
    requires TakeWord(Mode.Lenient, rest, expected).Ok?
    ensures var (word, after) := TakeWord(Mode.Lenient, rest, expected).value;
            SpellsWord(text, word) && rest == text + after
  {
    hide IsWhitespace, Unquote, EndsLenientWord;
    var (word, after) := TakeWord(Mode.Lenient, rest, expected).value;
    if rest != "" && rest[0] == QUOTE {
      text := rest[..QuotedEnd(rest).value];
    } else {
      var end := Find(rest, EndsLenientWord);
      text := rest[..end];
      forall i | 0 <= i < end
        ensures !IsWhitespace(text[i]) && text[i] !in ".,()\""
      {
        EndsWordIs(text[i]);
      }
    }
    assert rest == text + after;
  }

  // ---- Field paths ----

  /** A lone dot, or words each after a dot. */
  ghost predicate SpellsPath(text: string, path: seq<string>) {
    if path == [] then text == "."
    else exists texts :: SpellsWords(texts, path) && text == "." + Join(texts, '.')
  }

  /** What may follow a path: nothing, or whitespace, which after a lone dot must be ASCII. */
  predicate EndsPathText(path: seq<string>, tail: string) {
    tail == "" || (IsWhitespace(tail[0]) && (path == [] ==> tail[0] in " \t\n\r"))
  }

  lemma {:induction false} SegmentsOfTexts(texts: seq<string>, words: seq<string>, tail: string, before: seq<string>)
    requires SpellsWords(texts, words) && words != [] && (tail == "" || IsWhitespace(tail[0]))
    ensures TakeSegments(Mode.Lenient, Join(texts, '.') + tail, before) == Ok((before + words, tail))
    decreases |texts|
  {
    hide IsWhitespace, TakeWord, SpellsWord;
    var rest := Join(texts, '.') + tail;
    if |texts| == 1 {
      assert words == [words[0]];
      WordOfText(texts[0], words[0], tail, "a bare or quoted field name");
      WhitespaceIsNoDot(tail);
    } else {
      var more := "." + (Join(texts[1..], '.') + tail);
      assert rest == texts[0] + more && more[1..] == Join(texts[1..], '.') + tail;
      WordOfText(texts[0], words[0], more, "a bare or quoted field name");
      SegmentsOfTexts(texts[1..], words[1..], tail, before + [words[0]]);
      assert before + [words[0]] + words[1..] == before + words;
    }
  }

  lemma WhitespaceIsNoDot(tail: string)
    ensures tail != "" && IsWhitespace(tail[0]) ==> tail[0] !in ".,()'$\""
  {
  }

  lemma {:induction false} TextsOfSegments(rest: string, before: seq<string>)
    returns (texts: seq<string>, words: seq<string>)
    requires TakeSegments(Mode.Lenient, rest, before).Ok?
    ensures var (path, tail) := TakeSegments(Mode.Lenient, rest, before).value;
            && words != [] && SpellsWords(texts, words) && path == before + words && rest == Join(texts, '.') + tail
    decreases |rest|
  {
    hide TakeWord, SpellsWord, SpellsWords, Join;
    var (word, after) := TakeWord(Mode.Lenient, rest, "a bare or quoted field name").value;
    var text := TextOfWord(rest, "a bare or quoted field name");
    if after != "" && after[0] == '.' {
      var moreTexts, moreWords := TextsOfSegments(after[1..], before + [word]);
      texts, words := [text] + moreTexts, [word] + moreWords;
      var tail := TakeSegments(Mode.Lenient, rest, before).value.1;
      SpellsCons(text, word, moreTexts, moreWords);
      JoinFirst(text, moreTexts, '.');
      Longer(text, after, Join(moreTexts, '.'), tail);
      assert before + [word] + moreWords == before + words;
    } else {
      texts, words := [text], [word];
      SpellsCons(text, word, [], []);
      JoinFirst(text, [], '.');
      assert [text] + [] == [text] && [word] + [] == [word];
    }
  }

  lemma SpellsCons(text: string, word: string, texts: seq<string>, words: seq<string>)
    requires SpellsWord(text, word) && (texts == words == [] || SpellsWords(texts, words))
    ensures SpellsWords([text] + texts, [word] + words)
    ensures texts == [] <==> words == []
  {
    hide SpellsWord;
  }

  lemma Longer(text: string, after: string, inner: string, tail: string)
    requires after != "" && after[1..] == inner + tail
    ensures text + after == text + [after[0]] + inner + tail
  {
    assert after == [after[0]] + after[1..];
  }

  lemma JoinFirst(text: string, more: seq<string>, sep: char)
    ensures Join([text] + more, sep) == if more == [] then text else text + [sep] + Join(more, sep)
  {
    assert ([text] + more)[1..] == more;
  }

  lemma WordsStart(texts: seq<string>, words: seq<string>)
    requires SpellsWords(texts, words) && texts != []
    ensures Join(texts, '.') != "" && Join(texts, '.')[0] !in " \t\n\r"
  {
    QuotedStart(texts[0]);
    assert texts[0] != "" && texts[0][0] !in " \t\n\r";
    assert Join(texts, '.')[0] == texts[0][0];
  }

  lemma PathOfText(text: string, path: seq<string>, tail: string)
    requires SpellsPath(text, path) && EndsPathText(path, tail)
    ensures TakePath(Mode.Lenient, text + tail) == Ok((path, tail))
  {
    hide TakeSegments, SpellsWords, IsWhitespace;
    var rest := text + tail;
    if path == [] {
      assert rest[1..] == tail;
      assert tail != "" ==> rest[1] == tail[0];
    } else {
      var texts :| SpellsWords(texts, path) && text == "." + Join(texts, '.');
      SameLength(texts, path);
      WordsStart(texts, path);
      SegmentsOfTexts(texts, path, tail, []);
      assert [] + path == path;
      assert rest[1..] == Join(texts, '.') + tail;
    }
  }

  lemma SameLength(texts: seq<string>, words: seq<string>)
    requires SpellsWords(texts, words)
    ensures |texts| == |words|
  {
  }

  lemma TextOfPath(rest: string) returns (text: string)
    requires TakePath(Mode.Lenient, rest).Ok?
    ensures var (path, tail) := TakePath(Mode.Lenient, rest).value;
            && SpellsPath(text, path) && rest == text + tail && (path == [] && tail != "" ==> tail[0] in " \t\n\r")
  {
    hide TakeSegments, SpellsWords;
    var (path, tail) := TakePath(Mode.Lenient, rest).value;
    if |rest| == 1 || rest[1] in " \t\n\r" {
      text := ".";
      assert rest == "." + rest[1..];
    } else {
      var texts, words := TextsOfSegments(rest[1..], []);
      assert [] + words == words;
      text := "." + Join(texts, '.');
      assert rest == "." + rest[1..];
      assert text + tail == "." + (Join(texts, '.') + tail);
    }
  }

  // ---- Literals ----

  predicate SingleQuoted(text: string) {
    |text| >= 2 && text[0] == '\'' && text[|text| - 1] == '\''
  }

  /** The text spells the literal: a JSON string, something in single quotes, or words to be joined by single spaces. */
  ghost predicate SpellsLiteral(text: string, literal: string) {
    || Unquote(text) == Some(literal)
    || (text == "'" + literal + "'" && literal != "")
    || (text != "" && text[0] != '\"' && !IsWhitespace(text[0]) && !SingleQuoted(text)
        && exists words :: words != [] && SpacesOut(text, words) && literal == Join(words, ' '))
  }

  lemma {:induction false} HasWords(text: string) returns (words: seq<string>)
    ensures SpacesOut(text, words)
    decreases |text|
  {
    hide IsWhitespace;
    var start := TrimStart(text);
    TrimStartShrinks(text);
    var blank := Blanks(text);
    if start == "" {
      assert text == blank;
      words := [];
    } else {
      var end := Find(start, IsWhitespace);
      var word, rest := start[..end], start[end..];
      assert start == word + rest;
      var more := HasWords(rest);
      words := [word] + more;
      assert words[1..] == more;
      assert text == blank + word + rest;
      assert IsWord(word) && (rest == "" || IsWhitespace(rest[0]));
    }
  }

  lemma {:induction false} Blanks(text: string) returns (blank: string)
    ensures IsBlank(blank) && text == blank + TrimStart(text)
  {
    hide IsWhitespace;
    if text != "" && IsWhitespace(text[0]) {
      blank := Blanks(text[1..]);
      blank := [text[0]] + blank;
      assert text == [text[0]] + text[1..];
    } else {
      blank := "";
    }
  }

  lemma LiteralOfText(text: string, literal: string)
    requires SpellsLiteral(text, literal)
    ensures TakeLiteral(Mode.Lenient, text) == Ok(literal) && text != "" && !IsWhitespace(text[0])
  {
    hide Unquote, JoinedWords, SpacesOut, QuotedEnd;
    QuotedStart(text);
    if Unquote(text) == Some(literal) {
      ScanFindsClosingQuote(text, "");
      assert text + "" == text && text[..|text|] == text && text[|text|..] == "";
    } else if text == "'" + literal + "'" && literal != "" {
      assert text[1..|text| - 1] == literal;
    } else {
      var words :| words != [] && SpacesOut(text, words) && literal == Join(words, ' ');
      JoinedWordsOf(text, words);
    }
  }

  lemma TextOfLiteral(text: string, literal: string)
    requires TakeLiteral(Mode.Lenient, text) == Ok(literal) && text != "" && !IsWhitespace(text[0])
    ensures SpellsLiteral(text, literal)
  {
    hide Unquote, JoinedWords, SpacesOut, QuotedEnd, IsWhitespace;
    if text[0] == QUOTE {
      assert QuotedEnd(text) == Some(|text|);
      assert text[..|text|] == text;
    } else if SingleQuoted(text) {
      assert text == "'" + text[1..|text| - 1] + "'";
    } else {
      var words := HasWords(text);
      JoinedWordsOf(text, words);
    }
  }

  // ---- Comparisons ----

  predicate IsGap(text: string) {
    text != "" && IsBlank(text)
  }

  /** Whitespace after a path; after a lone dot it must be ASCII. */
  predicate IsPathGap(path: seq<string>, gap: string) {
    IsGap(gap) && (path == [] ==> gap[0] in " \t\n\r")
  }

  /** A path, an operator and a literal, with whitespace between them. */
  ghost predicate SpellsComparison(text: string, comparison: Comparison) {
    exists path, gap, gap', literal ::
      && text == path + gap + OperatorText(comparison.operator) + gap' + literal
      && IsPathGap(comparison.path, gap) && IsGap(gap')
      && SpellsPath(path, comparison.path) && SpellsLiteral(literal, comparison.literal)
  }

  lemma Regroup(a: string, b: string, c: string, d: string, e: string)
    ensures a + b + c + d + e == a + (b + (c + (d + e)))
  {
  }

  lemma GapTaken(gap: string, rest: string)
    requires IsGap(gap) && rest != "" && !IsWhitespace(rest[0])
    ensures TakeSeparator(Mode.Lenient, gap + rest) == Ok(rest)
  {
    hide IsWhitespace;
    TrimStartOf(gap, rest);
    assert |gap + rest| != |rest|;
  }

  lemma TakenGap(text: string) returns (gap: string)
    requires TakeSeparator(Mode.Lenient, text).Ok?
    ensures var rest := TakeSeparator(Mode.Lenient, text).value;
            IsGap(gap) && text == gap + rest && (rest == "" || !IsWhitespace(rest[0]))
  {
    hide IsWhitespace, TrimStart;
    gap := Blanks(text);
    TrimStartShrinks(text);
    assert gap == "" ==> gap + TrimStart(text) == TrimStart(text);
  }

  lemma TakenToken(text: string)
    ensures var (token, rest) := TakeToken(text);
            && text == token + rest && (rest == "" || IsWhitespace(rest[0]))
            && forall i | 0 <= i < |token| :: !IsWhitespace(token[i])
  {
    hide IsWhitespace;
    var end := Find(text, IsWhitespace);
    assert text == text[..end] + text[end..];
  }

  lemma OperatorIs(token: string, operator: Operator)
    ensures ParseOperator(token) == Ok(operator) <==> token == OperatorText(operator)
  {
    ParseOperatorOfText(operator);
  }

  lemma OperatorStarts(operator: Operator)
    ensures OperatorText(operator) != "" && !IsWhitespace(OperatorText(operator)[0])
    ensures forall i | 0 <= i < |OperatorText(operator)| :: !IsWhitespace(OperatorText(operator)[i])
  {
    ParseOperatorOfText(operator);
  }

  lemma ComparisonOfText(text: string, comparison: Comparison)
    requires SpellsComparison(text, comparison)
    ensures TakeComparison(Mode.Lenient, text) == Ok(comparison)
  {
    hide IsGap, IsPathGap, SpellsPath, SpellsLiteral, OperatorText, TakeComparison;
    var path, gap, gap', literal :|
      && text == path + gap + OperatorText(comparison.operator) + gap' + literal
      && IsPathGap(comparison.path, gap) && IsGap(gap')
      && SpellsPath(path, comparison.path) && SpellsLiteral(literal, comparison.literal);
    Regroup(path, gap, OperatorText(comparison.operator), gap', literal);
    ComparisonOfParts(path, gap, gap', literal, comparison);
  }

  lemma ComparisonOfParts(path: string, gap: string, gap': string, literal: string, comparison: Comparison)
    requires IsPathGap(comparison.path, gap) && IsGap(gap')
    requires SpellsPath(path, comparison.path) && SpellsLiteral(literal, comparison.literal)
    ensures TakeComparison(Mode.Lenient, path + (gap + (OperatorText(comparison.operator) + (gap' + literal)))) ==
            Ok(comparison)
  {
    hide IsWhitespace, TakePath, TakeSeparator, TakeToken, ParseOperator, TakeLiteral, SpellsPath, SpellsLiteral,
         OperatorText;
    var operator := OperatorText(comparison.operator);
    var afterOperator := gap' + literal;
    var beforeOperator := operator + afterOperator;
    var afterPath := gap + beforeOperator;
    LiteralOfText(literal, comparison.literal);
    OperatorStarts(comparison.operator);
    assert afterPath[0] == gap[0] && beforeOperator[0] == operator[0] && afterOperator[0] == gap'[0];
    PathOfText(path, comparison.path, afterPath);
    GapTaken(gap, beforeOperator);
    TakeTokenOf(operator, afterOperator);
    OperatorIs(operator, comparison.operator);
    GapTaken(gap', literal);
  }

  lemma TextOfComparison(text: string)
    requires TakeComparison(Mode.Lenient, text).Ok?
    ensures SpellsComparison(text, TakeComparison(Mode.Lenient, text).value)
  {
    hide IsWhitespace, TakePath, TakeSeparator, TakeToken, ParseOperator, TakeLiteral, SpellsPath, SpellsLiteral,
         OperatorText;
    var comparison := TakeComparison(Mode.Lenient, text).value;
    var (_, afterPath) := TakePath(Mode.Lenient, text).value;
    var path := TextOfPath(text);
    var gap := TakenGap(afterPath);
    var beforeOperator := TakeSeparator(Mode.Lenient, afterPath).value;
    var (operator, afterOperator) := TakeToken(beforeOperator);
    TakenToken(beforeOperator);
    OperatorIs(operator, comparison.operator);
    var gap' := TakenGap(afterOperator);
    var literal := TakeSeparator(Mode.Lenient, afterOperator).value;
    NoLiteral();
    TextOfLiteral(literal, comparison.literal);
    assert afterPath[0] == gap[0];
    Regroup(path, gap, operator, gap', literal);
    assert IsPathGap(comparison.path, gap);
  }

  lemma NoLiteral()
    ensures TakeLiteral(Mode.Lenient, "").Err?
  {
  }

  /** A typed comparison is read exactly as it is spelled. */
  lemma ComparisonExactly(text: string, comparison: Comparison)
    ensures TakeComparison(Mode.Lenient, text) == Ok(comparison) <==> SpellsComparison(text, comparison)
  {
    hide TakeComparison, SpellsComparison;
    if TakeComparison(Mode.Lenient, text) == Ok(comparison) {
      TextOfComparison(text);
    }
    if SpellsComparison(text, comparison) {
      ComparisonOfText(text, comparison);
    }
  }

  lemma ComparisonStarts(text: string, comparison: Comparison)
    requires SpellsComparison(text, comparison)
    ensures text != "" && text[0] == '.' && !IsWhitespace(text[0])
  {
    hide SpellsWords, SpellsLiteral, OperatorText;
  }

  // ---- Conditions ----

  /** No whitespace. */
  predicate IsSolid(token: string) {
    forall i | 0 <= i < |token| :: !IsWhitespace(token[i])
  }

  /** The input is an address as typed, and a comparison after whitespace. */
  ghost predicate SpellsCondition(lower: string -> string, forges: ForgeLookup, text: string, condition: Condition) {
    exists token, gap, rest ::
      && text == token + gap + rest && IsGap(gap) && IsSolid(token)
      && Means(lower, forges, Trim(token), condition.address)
      && SpellsComparison(rest, Comparison(condition.path, condition.operator, condition.literal))
  }

  lemma ConditionOfText(lower: string -> string, forges: ForgeLookup, input: string, condition: Condition)
    requires Lowercase(lower) && SpellsCondition(lower, forges, Trim(input), condition)
    ensures ResolveCondition(lower, forges, input) == Ok(condition)
  {
    hide IsSolid, IsGap, ResolveCondition, Means, SpellsComparison, Trim, Lowercase;
    var token, gap, rest :|
      && Trim(input) == token + gap + rest && IsGap(gap) && IsSolid(token)
      && Means(lower, forges, Trim(token), condition.address)
      && SpellsComparison(rest, Comparison(condition.path, condition.operator, condition.literal));
    assert Trim(input) == token + (gap + rest);
    ConditionOfParts(lower, forges, input, condition, token, gap, rest);
  }

  lemma ConditionOfParts(
    lower: string -> string, forges: ForgeLookup, input: string, condition: Condition, token: string, gap: string,
    rest: string)
    requires Lowercase(lower) && Trim(input) == token + (gap + rest) && IsGap(gap) && IsSolid(token)
    requires Means(lower, forges, Trim(token), condition.address)
    requires SpellsComparison(rest, Comparison(condition.path, condition.operator, condition.literal))
    ensures ResolveCondition(lower, forges, input) == Ok(condition)
  {
    hide IsWhitespace, TakeToken, TakeSeparator, TakeComparison, Resolve, Means, SpellsComparison, Trim, Lowercase;
    var comparison := Comparison(condition.path, condition.operator, condition.literal);
    assert (gap + rest)[0] == gap[0];
    TakeTokenOf(token, gap + rest);
    ResolveExactly(lower, forges, token, condition.address);
    ComparisonStarts(rest, comparison);
    GapTaken(gap, rest);
    ComparisonOfText(rest, comparison);
  }

  lemma TextOfCondition(lower: string -> string, forges: ForgeLookup, input: string)
    requires Lowercase(lower) && ResolveCondition(lower, forges, input).Ok?
    ensures SpellsCondition(lower, forges, Trim(input), ResolveCondition(lower, forges, input).value)
  {
    hide IsWhitespace, TakeToken, TakeSeparator, TakeComparison, Resolve, Means, SpellsComparison, Trim, Lowercase;
    var condition := ResolveCondition(lower, forges, input).value;
    var (token, after) := TakeToken(Trim(input));
    TakenToken(Trim(input));
    ResolveExactly(lower, forges, token, condition.address);
    var gap := TakenGap(after);
    var rest := TakeSeparator(Mode.Lenient, after).value;
    TextOfComparison(rest);
    assert token + (gap + rest) == token + gap + rest;
  }

  /** `Condition::resolve` returns a condition exactly when the trimmed input spells it. */
  lemma ResolveConditionExactly(lower: string -> string, forges: ForgeLookup, input: string, condition: Condition)
    requires Lowercase(lower)
    ensures ResolveCondition(lower, forges, input) == Ok(condition) <==>
            SpellsCondition(lower, forges, Trim(input), condition)
  {
    hide ResolveCondition, SpellsCondition, Lowercase;
    if ResolveCondition(lower, forges, input) == Ok(condition) {
      TextOfCondition(lower, forges, input);
    }
    if SpellsCondition(lower, forges, Trim(input), condition) {
      ConditionOfText(lower, forges, input, condition);
    }
  }

  // ---- Templates ----

  /** A variable: a dollar sign and a name, and its arguments, if any, in parentheses and separated by commas. */
  ghost predicate SpellsVariable(text: string, variable: Variable) {
    && ValidName(variable.name)
    && if variable.arguments == [] then text == "$" + variable.name
       else exists texts :: SpellsWords(texts, variable.arguments)
              && text == "$" + variable.name + "(" + Join(texts, ',') + ")"
  }

  lemma {:induction false} ArgumentsOfTexts(texts: seq<string>, words: seq<string>, tail: string, before: seq<string>)
    requires SpellsWords(texts, words) && words != []
    ensures TakeArguments(Mode.Lenient, Join(texts, ',') + ")" + tail, before) == Ok((before + words, tail))
    decreases |texts|
  {
    hide IsWhitespace, TakeWord, SpellsWord;
    var rest := Join(texts, ',') + ")" + tail;
    if |texts| == 1 {
      assert words == [words[0]] && rest == texts[0] + (")" + tail) && (")" + tail)[1..] == tail;
      WordOfText(texts[0], words[0], ")" + tail, "a bare or quoted argument");
    } else {
      var more := "," + (Join(texts[1..], ',') + ")" + tail);
      assert rest == texts[0] + more && more[1..] == Join(texts[1..], ',') + ")" + tail;
      WordOfText(texts[0], words[0], more, "a bare or quoted argument");
      ArgumentsOfTexts(texts[1..], words[1..], tail, before + [words[0]]);
      assert before + [words[0]] + words[1..] == before + words;
    }
  }

  lemma {:induction false} TextsOfArguments(rest: string, before: seq<string>)
    returns (texts: seq<string>, words: seq<string>)
    requires TakeArguments(Mode.Lenient, rest, before).Ok?
    ensures var (arguments, tail) := TakeArguments(Mode.Lenient, rest, before).value;
            && words != [] && SpellsWords(texts, words) && arguments == before + words
            && rest == Join(texts, ',') + (")" + tail)
    decreases |rest|
  {
    hide TakeWord, SpellsWord, SpellsWords, Join;
    var (word, after) := TakeWord(Mode.Lenient, rest, "a bare or quoted argument").value;
    var text := TextOfWord(rest, "a bare or quoted argument");
    if after[0] == ',' {
      var moreTexts, moreWords := TextsOfArguments(after[1..], before + [word]);
      texts, words := [text] + moreTexts, [word] + moreWords;
      var tail := TakeArguments(Mode.Lenient, rest, before).value.1;
      SpellsCons(text, word, moreTexts, moreWords);
      JoinFirst(text, moreTexts, ',');
      Longer(text, after, Join(moreTexts, ','), ")" + tail);
      assert before + [word] + moreWords == before + words;
    } else {
      texts, words := [text], [word];
      SpellsCons(text, word, [], []);
      JoinFirst(text, [], ',');
      assert [text] + [] == [text] && [word] + [] == [word];
      assert after == ")" + after[1..];
    }
  }

  lemma NameEnds(name: string, tail: string)
    requires ValidName(name) && (tail == "" || IsWhitespace(tail[0]) || tail[0] == '.' || tail[0] == '(')
    ensures Find(name + tail, EndsName) == |name|
  {
    var rest := name + tail;
    assert forall i | 0 <= i < |name| :: rest[i] == name[i];
    assert tail != "" ==> rest[|name|] == tail[0];
    FindIs(rest, EndsName, |name|);
  }

  lemma VariableOfText(text: string, variable: Variable, tail: string)
    requires SpellsVariable(text, variable) && tail != "" && (IsWhitespace(tail[0]) || tail[0] == '.')
    ensures TakeVariable(Mode.Lenient, text + tail) == Ok((variable, tail))
  {
    hide IsWhitespace, TakeArguments, SpellsWords, ValidName, Find;
    WhitespaceIsNoDot(tail);
    var rest, name := text + tail, variable.name;
    if variable.arguments == [] {
      NameEnds(name, tail);
      assert rest[1..] == name + tail && (name + tail)[..|name|] == name && (name + tail)[|name|..] == tail;
      assert variable == Variable(name, []);
    } else {
      var texts :| SpellsWords(texts, variable.arguments) && text == "$" + name + "(" + Join(texts, ',') + ")";
      var inner := Join(texts, ',') + ")" + tail;
      var after := "(" + inner;
      assert rest == "$" + (name + after);
      assert rest[1..] == name + after && (name + after)[..|name|] == name && (name + after)[|name|..] == after;
      assert after[1..] == inner;
      NameEnds(name, after);
      ArgumentsOfTexts(texts, variable.arguments, tail, []);
      assert [] + variable.arguments == variable.arguments;
    }
  }

  lemma TextOfVariable(rest: string) returns (text: string)
    requires TakeVariable(Mode.Lenient, rest).Ok?
    ensures var (variable, tail) := TakeVariable(Mode.Lenient, rest).value;
            SpellsVariable(text, variable) && rest == text + tail
  {
    hide TakeArguments, SpellsWords, ValidName, Find;
    var (variable, tail) := TakeVariable(Mode.Lenient, rest).value;
    var end := Find(rest[1..], EndsName);
    var name, after := rest[1..][..end], rest[1..][end..];
    text := "$" + name;
    assert rest == text + after;
    if after != "" && after[0] == '(' {
      var inner := TextOfArguments(after[1..]);
      text := text + "(" + inner + ")";
      assert after == "(" + after[1..];
      assert rest == text + tail;
    }
  }

  lemma TextOfArguments(rest: string) returns (inner: string)
    requires TakeArguments(Mode.Lenient, rest, []).Ok?
    ensures var (arguments, tail) := TakeArguments(Mode.Lenient, rest, []).value;
            && arguments != [] && rest == inner + ")" + tail
            && exists texts :: SpellsWords(texts, arguments) && inner == Join(texts, ',')
  {
    hide TakeArguments, SpellsWords;
    var texts, words := TextsOfArguments(rest, []);
    assert [] + words == words;
    inner := Join(texts, ',');
    var tail := TakeArguments(Mode.Lenient, rest, []).value.1;
    assert inner + (")" + tail) == inner + ")" + tail;
  }

  /** The input is a variable and a comparison, with whitespace between them or none. */
  ghost predicate SpellsTemplate(text: string, template: Template) {
    exists subject, gap, rest ::
      && text == subject + gap + rest && IsBlank(gap) && SpellsVariable(subject, template.subject)
      && SpellsComparison(rest, Comparison(template.path, template.operator, template.literal))
  }

  lemma TemplateOfText(input: string, template: Template)
    requires SpellsTemplate(Trim(input), template)
    ensures ResolveTemplate(input) == Ok(template)
  {
    hide IsWhitespace, TakeVariable, TakeSeparator, TakeComparison, SpellsVariable, SpellsComparison, Trim;
    var subject, gap, rest :|
      && Trim(input) == subject + gap + rest && IsBlank(gap) && SpellsVariable(subject, template.subject)
      && SpellsComparison(rest, Comparison(template.path, template.operator, template.literal));
    var tail := gap + rest;
    assert Trim(input) == subject + tail;
    ComparisonStarts(rest, Comparison(template.path, template.operator, template.literal));
    ComparisonOfText(rest, Comparison(template.path, template.operator, template.literal));
    if gap == "" {
      assert tail == rest;
    } else {
      assert tail[0] == gap[0];
      WhitespaceIsNoDot(tail);
      GapTaken(gap, rest);
    }
    VariableOfText(subject, template.subject, tail);
  }

  lemma TextOfTemplate(input: string)
    requires ResolveTemplate(input).Ok?
    ensures SpellsTemplate(Trim(input), ResolveTemplate(input).value)
  {
    hide IsWhitespace, TakeVariable, TakeSeparator, TakeComparison, SpellsVariable, SpellsComparison, Trim;
    var template := ResolveTemplate(input).value;
    var (_, tail) := TakeVariable(Mode.Lenient, Trim(input)).value;
    var subject := TextOfVariable(Trim(input));
    if tail != "" && tail[0] == '.' {
      TextOfComparison(tail);
      assert Trim(input) == subject + "" + tail && IsBlank("");
    } else {
      var gap := TakenGap(tail);
      var rest := TakeSeparator(Mode.Lenient, tail).value;
      TextOfComparison(rest);
      assert subject + (gap + rest) == subject + gap + rest;
    }
  }

  /** `Template::resolve` returns a template exactly when the trimmed input spells it. */
  lemma ResolveTemplateExactly(input: string, template: Template)
    ensures ResolveTemplate(input) == Ok(template) <==> SpellsTemplate(Trim(input), template)
  {
    hide ResolveTemplate, SpellsTemplate;
    if ResolveTemplate(input) == Ok(template) {
      TextOfTemplate(input);
    }
    if SpellsTemplate(Trim(input), template) {
      TemplateOfText(input, template);
    }
  }
}
