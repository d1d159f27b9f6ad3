/**
 The parser as the source runs it: a cursor whose position advances over the text
 (crates/flotilla-address/src/condition.rs, `Cursor`). Each method takes exactly what the function
 of the same step takes from the remaining text, and leaves exactly the rest.
 */
module Cursors {
  import opened Outcomes
  import opened Text
  import opened Casing
  import opened Errors
  import opened Forges
  import opened Json
  import opened Addresses
  import opened Lenient
  import C = Conditions

  class Cursor {
    const text: string
    const mode: C.Mode
    var position: nat

    ghost predicate Valid()
      reads this
    {
      position <= |text|
    }

    function Rest(): string
      requires Valid()
      reads this
    {
      text[position..]
    }

    constructor (text: string, mode: C.Mode)
      ensures Valid() && Rest() == text && this.mode == mode
    {
      this.text := text;
      this.mode := mode;
      position := 0;
    }

    method Advance(count: nat)
      requires Valid() && count <= |Rest()|
      modifies this
      ensures Valid() && Rest() == old(Rest())[count..]
    {
      assert text[position..][count..] == text[position + count..];
      position := position + count;
    }

    method Token() returns (token: string)
      requires Valid()
      modifies this
      ensures Valid() && (token, Rest()) == C.TakeToken(old(Rest()))
    {
      var rest := Rest();
      var end := Find(rest, IsWhitespace);
      Advance(end);
      token := rest[..end];
    }

    method Separator() returns (r: Result<(), Error>)
      requires Valid()
      modifies this
      ensures Valid()
      ensures match C.TakeSeparator(mode, old(Rest()))
              case Ok(after) => r == Ok(()) && Rest() == after
              case Err(error) => r == Err(error)
    {
      var rest := Rest();
      var skipped: nat := 0;
      match mode {
        case Strict => skipped := if rest != "" && rest[0] == ' ' then 1 else 0;
        case Lenient =>
          TrimStartIsSuffix(rest);
          skipped := |rest| - |TrimStart(rest)|;
      }
      if skipped == 0 {
        return Err(Syntax("a space"));
      }
      Advance(skipped);
      r := Ok(());
    }

    method End() returns (r: Result<(), Error>)
      requires Valid()
      ensures r == if Rest() == "" then Ok(()) else Err(Syntax("the end of input"))
    {
      r := if position == |text| then Ok(()) else Err(Syntax("the end of input"));
    }

    method Quoted(bare: string -> bool) returns (r: Result<string, Error>)
      requires Valid() && Rest() != ""
      modifies this
      ensures Valid()
      ensures match C.TakeQuoted(mode, old(Rest()), bare)
              case Ok((value, after)) => r == Ok(value) && Rest() == after
              case Err(error) => r == Err(error)
    {
      var rest := Rest();
      var escaped := false;
      var index := 1;
      var end: Option<nat> := None;
      while index < |rest| && end == None
        invariant 1 <= index <= |rest|
        invariant end == None ==> QuotedEnd(rest) == Add(index, ScanClose(rest[index..], escaped))
        invariant end.Some? ==> QuotedEnd(rest) == end
        decreases |rest| - index, if end == None then 1 else 0
      {
        assert rest[index..][1..] == rest[index + 1..];
        if escaped {
          escaped := false;
          index := index + 1;
        } else if rest[index] == BACKSLASH {
          escaped := true;
          index := index + 1;
        } else if rest[index] == QUOTE {
          end := Some(index + 1);
        } else {
          index := index + 1;
        }
      }
      if end == None {
        assert rest[index..] == "";
        return Err(Syntax("a closing quote"));
      }
      var spelling := rest[..end.value];
      var value := Unquote(spelling);
      if value == None {
        return Err(Syntax("a JSON string"));
      }
      if mode == C.Strict && (bare(value.value) || Quote(value.value) != spelling) {
        return Err(NonCanonicalQuoting(spelling));
      }
      Advance(end.value);
      r := Ok(value.value);
    }

    method Word(expected: string) returns (r: Result<string, Error>)
      requires Valid()
      modifies this
      ensures Valid()
      ensures match C.TakeWord(mode, old(Rest()), expected)
              case Ok((word, after)) => r == Ok(word) && Rest() == after
              case Err(error) => r == Err(error)
    {
      var rest := Rest();
      if rest != "" && rest[0] == QUOTE {
        r := Quoted(C.IsBareSegment);
        return;
      }
      var end := C.WordEnd(mode, rest);
      if end == 0 {
        return Err(Syntax(expected));
      }
      Advance(end);
      r := Ok(rest[..end]);
    }

    method FieldPath() returns (r: Result<seq<string>, Error>)
      requires Valid()
      modifies this
      ensures Valid()
      ensures match C.TakePath(mode, old(Rest()))
              case Ok((path, after)) => r == Ok(path) && Rest() == after
              case Err(error) => r == Err(error)
    {
      var rest := Rest();
      if rest == "" || rest[0] != '.' {
        return Err(Syntax("a field path starting with `.`"));
      }
      Advance(1);
      if |rest| == 1 || rest[1] in " \t\n\r" {
        return Ok([]);
      }
      var segments: seq<string> := [];
      while true
        invariant Valid()
        invariant C.TakePath(mode, rest) == C.TakeSegments(mode, Rest(), segments)
        decreases |Rest()|
      {
        var before := Rest();
        var word := Word("a bare or quoted field name");
        if word.Err? {
          return Err(word.error);
        }
        segments := segments + [word.value];
        if Rest() == "" || Rest()[0] != '.' {
          return Ok(segments);
        }
        Advance(1);
      }
    }

    method Literal() returns (r: Result<string, Error>)
      requires Valid()
      modifies this
      ensures Valid() && r == C.TakeLiteral(mode, old(Rest()))
      ensures r.Ok? ==> Rest() == ""
    {
      var rest := Rest();
      if rest != "" && rest[0] == QUOTE {
        var value := Quoted(C.IsBareLiteral);
        if value.Err? {
          return Err(value.error);
        }
        var end := End();
        if end.Err? {
          return Err(end.error);
        }
        return value;
      }
      if mode == C.Strict {
        if C.IsBareLiteral(rest) {
          Advance(|rest|);
          return Ok(rest);
        }
        return Err(Syntax("a bare or quoted literal"));
      }
      var value := if |rest| >= 2 && rest[0] == '\'' && rest[|rest| - 1] == '\'' then rest[1..|rest| - 1]
          else C.JoinedWords(rest);
      if value == "" {
        return Err(Syntax("a literal"));
      }
      Advance(|rest|);
      r := Ok(value);
    }

    method Comparison() returns (r: Result<C.Comparison, Error>)
      requires Valid()
      modifies this
      ensures Valid() && r == C.TakeComparison(mode, old(Rest()))
      ensures r.Ok? ==> Rest() == ""
    {
      var path := FieldPath();
      if path.Err? {
        return Err(path.error);
      }
      var separator := Separator();
      if separator.Err? {
        return Err(separator.error);
      }
      var token := Token();
      var operator := C.ParseOperator(token);
      if operator.Err? {
        return Err(operator.error);
      }
      separator := Separator();
      if separator.Err? {
        return Err(separator.error);
      }
      var literal := Literal();
      if literal.Err? {
        return Err(literal.error);
      }
      r := Ok(C.Comparison(path.value, operator.value, literal.value));
    }

    method Arguments() returns (r: Result<seq<string>, Error>)
      requires Valid()
      modifies this
      ensures Valid()
      ensures match C.TakeArguments(mode, old(Rest()), [])
              case Ok((arguments, after)) => r == Ok(arguments) && Rest() == after
              case Err(error) => r == Err(error)
    {
      ghost var rest := Rest();
      var arguments: seq<string> := [];
      while true
        invariant Valid()
        invariant C.TakeArguments(mode, rest, []) == C.TakeArguments(mode, Rest(), arguments)
        decreases |Rest()|
      {
        var word := Word("a bare or quoted argument");
        if word.Err? {
          return Err(word.error);
        }
        arguments := arguments + [word.value];
        var after := Rest();
        if after == "" || (after[0] != ',' && after[0] != ')') {
          return Err(Syntax("`,` or `)`"));
        }
        Advance(1);
        if after[0] == ')' {
          return Ok(arguments);
        }
      }
    }

    method Variable() returns (r: Result<C.Variable, Error>)
      requires Valid()
      modifies this
      ensures Valid()
      ensures match C.TakeVariable(mode, old(Rest()))
              case Ok((variable, after)) => r == Ok(variable) && Rest() == after
              case Err(error) => r == Err(error)
    {
      var rest := Rest();
      if rest == "" || rest[0] != '$' {
        return Err(Syntax("a `$` variable"));
      }
      Advance(1);
      var end := Find(rest[1..], C.EndsName);
      var name := rest[1..][..end];
      Advance(end);
      var arguments: seq<string> := [];
      if Rest() != "" && Rest()[0] == '(' {
        Advance(1);
        var taken := Arguments();
        if taken.Err? {
          return Err(taken.error);
        }
        arguments := taken.value;
      }
      r := C.NewVariable(name, arguments);
    }
  }

  lemma TrimStartIsSuffix(s: string)
    ensures |TrimStart(s)| <= |s| && s[|s| - |TrimStart(s)|..] == TrimStart(s)
  {
  }

  /** `Condition::from_str`. */
  method ParseConditionText(lower: string -> string, text: string) returns (r: Result<C.Condition, Error>)
    ensures r == C.ParseCondition(lower, text)
  {
    var cursor := new Cursor(text, C.Strict);
    var token := cursor.Token();
    var address := ParseLoop(lower, token);
    if address.Err? {
      return Err(address.error);
    }
    var separator := cursor.Separator();
    if separator.Err? {
      return Err(separator.error);
    }
    var comparison := cursor.Comparison();
    if comparison.Err? {
      return Err(comparison.error);
    }
    r := Ok(C.Condition(address.value, comparison.value.path, comparison.value.operator, comparison.value.literal));
  }

  /** `Condition::resolve`. */
  method ResolveConditionText(
    lower: string -> string, forges: ForgeLookup, input: string)
    returns (r: Result<C.Condition, Error>)
    ensures r == C.ResolveCondition(lower, forges, input)
  {
    var cursor := new Cursor(Trim(input), C.Mode.Lenient);
    var token := cursor.Token();
    var address := Resolve(lower, forges, token);
    if address.Err? {
      return Err(address.error);
    }
    var separator := cursor.Separator();
    if separator.Err? {
      return Err(separator.error);
    }
    var comparison := cursor.Comparison();
    if comparison.Err? {
      return Err(comparison.error);
    }
    r := Ok(C.Condition(address.value, comparison.value.path, comparison.value.operator, comparison.value.literal));
  }

  /** `Template::from_str`. */
  method ParseTemplateText(text: string) returns (r: Result<C.Template, Error>)
    ensures r == C.ParseTemplate(text)
  {
    var cursor := new Cursor(text, C.Strict);
    var subject := cursor.Variable();
    if subject.Err? {
      return Err(subject.error);
    }
    var separator := cursor.Separator();
    if separator.Err? {
      return Err(separator.error);
    }
    var comparison := cursor.Comparison();
    if comparison.Err? {
      return Err(comparison.error);
    }
    r := Ok(C.Template(subject.value, comparison.value.path, comparison.value.operator, comparison.value.literal));
  }

  /** `Template::resolve`: a field path may follow the variable with no space. */
  method ResolveTemplateText(input: string) returns (r: Result<C.Template, Error>)
    ensures r == C.ResolveTemplate(input)
  {
    var cursor := new Cursor(Trim(input), C.Mode.Lenient);
    var subject := cursor.Variable();
    if subject.Err? {
      return Err(subject.error);
    }
    if cursor.Rest() == "" || cursor.Rest()[0] != '.' {
      var separator := cursor.Separator();
      if separator.Err? {
        return Err(separator.error);
      }
    }
    var comparison := cursor.Comparison();
    if comparison.Err? {
      return Err(comparison.error);
    }
    r := Ok(C.Template(subject.value, comparison.value.path, comparison.value.operator, comparison.value.literal));
  }
}
