/**
 Component pins and their composition into a fleet generation
 (ci/fleet-candidates/generation_validation.py, `validate_component`, `validate_composition` and
 `validate_generation_v2`). A manifest is taken as its fields, already of the right JSON types.
 */
module Composition {
  import opened Outcomes
  import opened Text

  const LINUX := "linux-x86_64-gnu2.36"
  const DARWIN := "darwin-aarch64"
  const INDEPENDENT := "platform-independent"

  datatype Component = Component(
    name: string, sourceSha: string, platform: string, recipeSha: string, archiveSha: string,
    offers: seq<string>, requirements: seq<string>)

  // ---- Names, facts and requirements ----

  predicate IsHex(s: string, length: nat) {
    |s| == length && forall i | 0 <= i < |s| :: IsDigit(s[i]) || 'a' <= s[i] <= 'f'
  }

  predicate IsNameChar(c: char) {
    IsLowerCase(c) || IsDigit(c) || c == '-'
  }

  /** `[a-z][a-z0-9-]*` */
  predicate IsComponentName(s: string) {
    s != "" && IsLowerCase(s[0]) && All(s, IsNameChar)
  }

  predicate IsFactChar(c: char) {
    IsLowerCase(c) || IsDigit(c) || c in "_.-"
  }

  predicate IsKeyPart(s: string) {
    s != "" && (IsLowerCase(s[0]) || IsDigit(s[0])) && All(s, IsFactChar)
  }

  /** A component-style name, and one or more `:`-separated parts after it. */
  predicate IsKey(s: string) {
    var parts := Split(s, ':');
    |parts| >= 2 && IsComponentName(parts[0]) && forall i | 1 <= i < |parts| :: IsKeyPart(parts[i])
  }

  datatype Fact = Fact(key: string, number: Option<nat>)

  /** `<key>` or `<key>=<number>`. */
  function ParseFact(s: string): Option<Fact> {
    match SplitOnce(s, '=')
    case None => if IsKey(s) then Some(Fact(s, None)) else None
    case Some((key, number)) =>
      if IsKey(key) && CanonicalDigits(number) then Some(Fact(key, Some(DigitsValue(number)))) else None
  }

  datatype Bound = Present | Exactly(number: nat) | AtLeast(number: nat)

  datatype Requirement = Requirement(key: string, bound: Bound)

  /** `<key>`, `<key>=<number>` or `<key>>=<number>`. */
  function ParseRequirement(s: string): Option<Requirement> {
    match SplitOnce(s, '=')
    case None => if IsKey(s) then Some(Requirement(s, Present)) else None
    case Some((before, number)) =>
      if !CanonicalDigits(number) then None
      else if before != "" && before[|before| - 1] == '>' then
        if IsKey(before[..|before| - 1])
            then Some(Requirement(before[..|before| - 1], AtLeast(DigitsValue(number)))) else None
      else if IsKey(before) then Some(Requirement(before, Exactly(DigitsValue(number)))) else None
  }

  // ---- What the texts mean ----

  lemma KeyChars(key: string)
    requires IsKey(key)
    ensures '=' !in key && '>' !in key && key != ""
  {
    var parts := Split(key, ':');
    JoinOfSplit(key, ':');
    assert IsComponentName(parts[0]);
    forall i | 0 <= i < |parts|
      ensures All(parts[i], IsFactChar)
    {
    }
    JoinedChars(parts);
  }

  lemma {:induction false} JoinedChars(parts: seq<string>)
    requires forall i | 0 <= i < |parts| :: All(parts[i], IsFactChar)
    ensures forall c | c in Join(parts, ':') :: IsFactChar(c) || c == ':'
  {
    if |parts| == 1 {
      assert forall c | c in parts[0] :: IsFactChar(c);
    } else if |parts| > 1 {
      assert forall c | c in parts[0] :: IsFactChar(c);
      JoinedChars(parts[1..]);
    }
  }

  /** A component name and one or more parts, joined by colons, are a key. */
  lemma KeyIsJoined(name: string, parts: seq<string>)
    requires IsComponentName(name) && parts != [] && forall i | 0 <= i < |parts| :: IsKeyPart(parts[i])
    ensures IsKey(name + ":" + Join(parts, ':'))
  {
    hide Split, Join, IsComponentName, IsKeyPart;
    var all := [name] + parts;
    assert all[1..] == parts && forall i | 1 <= i < |all| :: all[i] == parts[i - 1];
    forall i | 0 <= i < |all|
      ensures ':' !in all[i]
    {
      NoColon(all[i]);
    }
    JoinCons(name, parts);
    SplitOfJoin(all, ':');
  }

  lemma NoColon(s: string)
    ensures IsComponentName(s) || IsKeyPart(s) ==> ':' !in s
  {
  }

  lemma JoinCons(first: string, rest: seq<string>)
    requires rest != []
    ensures Join([first] + rest, ':') == first + ":" + Join(rest, ':')
  {
    assert ([first] + rest)[1..] == rest;
  }

  function FactText(fact: Fact): string {
    fact.key + if fact.number.None? then "" else "=" + NatText(fact.number.value)
  }

  function RequirementText(requirement: Requirement): string {
    requirement.key +
    match requirement.bound
    case Present => ""
    case Exactly(number) => "=" + NatText(number)
    case AtLeast(number) => ">=" + NatText(number)
  }

  /** Every fact on a key is read from its text. */
  lemma ParseOfFactText(fact: Fact)
    requires IsKey(fact.key)
    ensures ParseFact(FactText(fact)) == Some(fact)
  {
    KeyChars(fact.key);
    hide IsKey, SplitOnce;
    if fact.number.None? {
      assert fact.key + "" == fact.key;
      NoSplit(fact.key, '=');
    } else {
      var number := NatText(fact.number.value);
      assert fact.key + ("=" + number) == fact.key + "=" + number;
      SplitOnceOf(fact.key, '=', number);
      DigitsValueOfNatText(fact.number.value);
    }
  }

  lemma NoSplit(s: string, c: char)
    requires c !in s
    ensures SplitOnce(s, c) == None
  {
  }

  /** An accepted fact text is the text of a fact on a key. */
  lemma FactTextOfParse(text: string)
    ensures ParseFact(text).Some? ==> IsKey(ParseFact(text).value.key) && FactText(ParseFact(text).value) == text
  {
    hide IsKey;
    if SplitOnce(text, '=').Some? && ParseFact(text).Some? {
      var (key, number) := SplitOnce(text, '=').value;
      NatTextOfDigitsValue(number);
    }
  }

  /** Every requirement on a key is read from its text: `k`, `k=n` or `k>=n`. */
  lemma ParseOfRequirementText(requirement: Requirement)
    requires IsKey(requirement.key)
    ensures ParseRequirement(RequirementText(requirement)) == Some(requirement)
  {
    var key := requirement.key;
    KeyChars(key);
    hide IsKey, SplitOnce;
    match requirement.bound
    case Present =>
      assert key + "" == key;
      NoSplit(key, '=');
    case Exactly(number) =>
      assert key + ("=" + NatText(number)) == key + "=" + NatText(number);
      SplitOnceOf(key, '=', NatText(number));
      DigitsValueOfNatText(number);
    case AtLeast(number) =>
      var before := key + ">";
      assert key + (">=" + NatText(number)) == before + "=" + NatText(number);
      assert before[..|before| - 1] == key;
      SplitOnceOf(before, '=', NatText(number));
      DigitsValueOfNatText(number);
  }

  /** An accepted requirement text is the text of a requirement on a key. */
  lemma RequirementTextOfParse(text: string)
    ensures ParseRequirement(text).Some? ==>
              && IsKey(ParseRequirement(text).value.key)
              && RequirementText(ParseRequirement(text).value) == text
  {
    hide IsKey, NatText, DigitsValue, SplitOnce;
    match SplitOnce(text, '=')
    case None =>
      assert text + "" == text;
    case Some((before, number)) =>
      if CanonicalDigits(number) {
        NatTextOfDigitsValue(number);
        assert text == before + ("=" + number);
        if before != "" && before[|before| - 1] == '>' {
          var key := before[..|before| - 1];
          assert before == key + ">";
          assert text == key + (">=" + number);
        }
      }
  }

  predicate Distinct(values: seq<string>) {
    forall i, j | 0 <= i < j < |values| :: values[i] != values[j]
  }

  predicate FactsParse(offers: seq<string>) {
    forall i | 0 <= i < |offers| :: ParseFact(offers[i]).Some?
  }

  predicate RequirementsParse(requirements: seq<string>) {
    forall i | 0 <= i < |requirements| :: ParseRequirement(requirements[i]).Some?
  }

  /** Every provided key is in the component's own namespace, and no key is provided twice. */
  predicate Owned(name: string, offers: seq<string>)
    requires FactsParse(offers)
  {
    && (forall i | 0 <= i < |offers| :: name + ":" <= ParseFact(offers[i]).value.key)
    && (forall i, j | 0 <= i < j < |offers| :: ParseFact(offers[i]).value.key != ParseFact(offers[j]).value.key)
  }

  predicate ValidComponent(c: Component) {
    && IsComponentName(c.name) && IsHex(c.sourceSha, 40)
    && (c.platform == LINUX || c.platform == DARWIN || c.platform == INDEPENDENT)
    && IsHex(c.recipeSha, 64) && IsHex(c.archiveSha, 64)
    && FactsParse(c.offers) && Distinct(c.offers)
    && RequirementsParse(c.requirements) && Distinct(c.requirements)
    && Owned(c.name, c.offers)
  }

  // ---- What a valid component is, on its texts ----

  /** A name: a lower-case letter, and then letters, digits and hyphens. */
  predicate IsName(s: string) {
    && s != "" && s[0] in LOWER_LETTERS
    && forall i | 0 <= i < |s| :: s[i] in LOWER_LETTERS || s[i] in DIGITS || s[i] == '-'
  }

  lemma NameIs(s: string)
    ensures IsComponentName(s) <==> IsName(s)
  {
    hide IsLowerCase, IsDigit;
    forall i | 0 <= i < |s|
      ensures IsLowerCase(s[i]) <==> s[i] in LOWER_LETTERS
      ensures IsDigit(s[i]) <==> s[i] in DIGITS
    {
      LowerCaseIs(s[i]);
      DigitIs(s[i]);
    }
  }

  /** A part of a key: a letter or digit, and then letters, digits, underscores, dots and hyphens. */
  predicate IsPart(s: string) {
    && s != "" && (s[0] in LOWER_LETTERS || s[0] in DIGITS)
    && forall i | 0 <= i < |s| :: s[i] in LOWER_LETTERS || s[i] in DIGITS || s[i] == '_' || s[i] == '.' || s[i] == '-'
  }

  lemma PartIs(s: string)
    ensures IsKeyPart(s) <==> IsPart(s)
  {
    hide IsLowerCase, IsDigit;
    forall i | 0 <= i < |s|
      ensures IsLowerCase(s[i]) <==> s[i] in LOWER_LETTERS
      ensures IsDigit(s[i]) <==> s[i] in DIGITS
    {
      LowerCaseIs(s[i]);
      DigitIs(s[i]);
    }
  }

  /** A key is a name and one or more parts, joined by colons. */
  lemma KeyExactly(key: string)
    ensures IsKey(key) <==>
            exists name, parts :: IsName(name) && parts != [] && (forall i | 0 <= i < |parts| :: IsPart(parts[i]))
              && key == name + ":" + Join(parts, ':')
  {
    hide Split, Join, IsComponentName, IsKeyPart, IsName, IsPart;
    if IsKey(key) {
      var all := Split(key, ':');
      var name, parts := all[0], all[1..];
      NameIs(name);
      forall i | 0 <= i < |parts|
        ensures IsPart(parts[i])
      {
        assert IsKeyPart(all[i + 1]);
        PartIs(parts[i]);
      }
      JoinOfSplit(key, ':');
      assert [name] + parts == all;
      JoinCons(name, parts);
    }
    if name, parts :| IsName(name) && parts != [] && (forall i | 0 <= i < |parts| :: IsPart(parts[i])) &&
                      key == name + ":" + Join(parts, ':')
    {
      NameIs(name);
      forall i | 0 <= i < |parts|
        ensures IsKeyPart(parts[i])
      {
        PartIs(parts[i]);
      }
      KeyIsJoined(name, parts);
    }
  }

  /** A digest in lower-case hex. */
  predicate IsDigest(s: string, length: nat) {
    |s| == length && forall i | 0 <= i < |s| :: s[i] in LOWER_HEX
  }

  lemma DigestIs(s: string, length: nat)
    ensures IsHex(s, length) <==> IsDigest(s, length)
  {
    forall i | 0 <= i < |s|
      ensures IsDigit(s[i]) || 'a' <= s[i] <= 'f' <==> s[i] in LOWER_HEX
    {
      HexCharIs(s[i]);
    }
  }

  lemma HexCharIs(c: char)
    ensures IsDigit(c) || 'a' <= c <= 'f' <==> c in LOWER_HEX
  {
    if IsDigit(c) || 'a' <= c <= 'f' {
      assert LOWER_HEX[if IsDigit(c) then c as int - 0x30 else c as int - 0x61 + 10] == c;
    }
  }

  /** The texts are of these facts, each under the component's own name and no key twice. */
  predicate OffersAre(name: string, offers: seq<string>, facts: seq<Fact>) {
    && |facts| == |offers|
    && (forall i | 0 <= i < |offers| :: IsKey(facts[i].key) && offers[i] == FactText(facts[i]))
    && (forall i | 0 <= i < |facts| :: name + ":" <= facts[i].key)
    && (forall i, j | 0 <= i < |facts| && 0 <= j < |facts| && i != j :: facts[i].key != facts[j].key)
  }

  /** The texts are of these requirements, none twice. */
  predicate RequirementsAre(texts: seq<string>, requirements: seq<Requirement>) {
    && |requirements| == |texts|
    && (forall i | 0 <= i < |texts| :: IsKey(requirements[i].key) && texts[i] == RequirementText(requirements[i]))
    && (forall i, j | 0 <= i < |texts| && 0 <= j < |texts| && i != j :: requirements[i] != requirements[j])
  }

  lemma OffersExactly(name: string, offers: seq<string>)
    ensures (FactsParse(offers) && Distinct(offers) && Owned(name, offers)) <==>
            exists facts :: OffersAre(name, offers, facts)
  {
    hide ParseFact, FactText, IsKey;
    if FactsParse(offers) && Distinct(offers) && Owned(name, offers) {
      var facts := seq(|offers|, i requires 0 <= i < |offers| => ParseFact(offers[i]).value);
      forall i | 0 <= i < |offers|
        ensures IsKey(facts[i].key) && offers[i] == FactText(facts[i])
      {
        FactTextOfParse(offers[i]);
      }
      assert OffersAre(name, offers, facts);
    }
    if facts :| OffersAre(name, offers, facts) {
      forall i | 0 <= i < |offers|
        ensures ParseFact(offers[i]) == Some(facts[i])
      {
        ParseOfFactText(facts[i]);
      }
    }
  }

  lemma RequirementsExactly(texts: seq<string>)
    ensures RequirementsParse(texts) && Distinct(texts) <==> exists requirements :: RequirementsAre(texts, requirements)
  {
    hide ParseRequirement, RequirementText, IsKey;
    if RequirementsParse(texts) && Distinct(texts) {
      var requirements := seq(|texts|, i requires 0 <= i < |texts| => ParseRequirement(texts[i]).value);
      forall i | 0 <= i < |texts|
        ensures IsKey(requirements[i].key) && texts[i] == RequirementText(requirements[i])
      {
        RequirementTextOfParse(texts[i]);
      }
      assert RequirementsAre(texts, requirements);
    }
    if requirements :| RequirementsAre(texts, requirements) {
      forall i | 0 <= i < |texts|
        ensures ParseRequirement(texts[i]) == Some(requirements[i])
      {
        ParseOfRequirementText(requirements[i]);
      }
    }
  }

  /** A component is valid exactly when its fields and the texts it lists are of these forms. */
  lemma ValidComponentExactly(c: Component)
    ensures ValidComponent(c) <==>
            && IsName(c.name) && IsDigest(c.sourceSha, 40) && IsDigest(c.recipeSha, 64) && IsDigest(c.archiveSha, 64)
            && c.platform in {"linux-x86_64-gnu2.36", "darwin-aarch64", "platform-independent"}
            && (exists facts :: OffersAre(c.name, c.offers, facts))
            && (exists requirements :: RequirementsAre(c.requirements, requirements))
  {
    hide IsComponentName, IsName, IsHex, IsDigest, FactsParse, RequirementsParse, Distinct, Owned, OffersAre,
         RequirementsAre;
    NameIs(c.name);
    DigestIs(c.sourceSha, 40);
    DigestIs(c.recipeSha, 64);
    DigestIs(c.archiveSha, 64);
    OffersExactly(c.name, c.offers);
    RequirementsExactly(c.requirements);
  }

  /** `validate_component`, with its loop collecting the keys seen so far. */
  method ValidateComponent(c: Component) returns (ok: bool)
    ensures ok <==> ValidComponent(c)
  {
    if !IsComponentName(c.name) || !IsHex(c.sourceSha, 40) || !IsHex(c.recipeSha, 64) || !IsHex(c.archiveSha, 64) {
      return false;
    }
    if c.platform != LINUX && c.platform != DARWIN && c.platform != INDEPENDENT {
      return false;
    }
    if !FactsParse(c.offers) || !Distinct(c.offers) || !RequirementsParse(c.requirements) || !Distinct(c.requirements) {
      return false;
    }
    ok := ValidateOwnership(c.name, c.offers);
  }

  method ValidateOwnership(name: string, offers: seq<string>) returns (ok: bool)
    requires FactsParse(offers)
    ensures ok <==> Owned(name, offers)
  {
    hide ParseFact;
    var keys: set<string> := {};
    for i := 0 to |offers|
      invariant forall k | 0 <= k < i :: name + ":" <= ParseFact(offers[k]).value.key
      invariant forall k, l | 0 <= k < l < i :: ParseFact(offers[k]).value.key != ParseFact(offers[l]).value.key
      invariant keys == set k | 0 <= k < i :: ParseFact(offers[k]).value.key
    {
      var key := ParseFact(offers[i]).value.key;
      if !(name + ":" <= key) || key in keys {
        return false;
      }
      keys := keys + {key};
    }
    return true;
  }

  // ---- The fact table ----

  type Table = map<string, Option<nat>>

  function AddFacts(table: Table, offers: seq<string>): Table
    requires FactsParse(offers)
    decreases |offers|
  {
    if offers == [] then table
    else
      var fact := ParseFact(offers[|offers| - 1]).value;
      AddFacts(table, offers[..|offers| - 1])[fact.key := fact.number]
  }

  predicate AllFactsParse(components: seq<Component>) {
    forall i | 0 <= i < |components| :: FactsParse(components[i].offers)
  }

  /** The last-wins table of every provided fact. */
  function Facts(components: seq<Component>): Table
    requires AllFactsParse(components)
    decreases |components|
  {
    if components == [] then map[]
    else AddFacts(Facts(components[..|components| - 1]), components[|components| - 1].offers)
  }

  predicate Met(table: Table, requirement: Requirement) {
    match requirement.bound
    case Present => requirement.key in table
    case Exactly(number) => requirement.key in table && table[requirement.key] == Some(number)
    case AtLeast(number) =>
      requirement.key in table && table[requirement.key].Some? && table[requirement.key].value >= number
  }

  predicate AllValid(components: seq<Component>) {
    forall i | 0 <= i < |components| :: ValidComponent(components[i])
  }

  lemma ValidParses(components: seq<Component>)
    requires AllValid(components)
    ensures AllFactsParse(components) && AllRequirementsParse(components)
  {
    hide FactsParse, RequirementsParse, Owned;
  }

  predicate ComponentMet(table: Table, requirements: seq<string>)
    requires RequirementsParse(requirements)
  {
    forall j | 0 <= j < |requirements| :: Met(table, ParseRequirement(requirements[j]).value)
  }

  predicate AllRequirementsParse(components: seq<Component>) {
    forall i | 0 <= i < |components| :: RequirementsParse(components[i].requirements)
  }

  predicate AllMet(table: Table, components: seq<Component>)
    requires AllRequirementsParse(components)
  {
    forall i | 0 <= i < |components| :: ComponentMet(table, components[i].requirements)
  }

  predicate Composes(components: seq<Component>)
    requires AllFactsParse(components) && AllRequirementsParse(components)
  {
    AllMet(Facts(components), components)
  }

  method FillFacts(before: Table, offers: seq<string>) returns (facts: Table)
    requires FactsParse(offers)
    ensures facts == AddFacts(before, offers)
  {
    hide ParseFact;
    facts := before;
    for j := 0 to |offers|
      invariant FactsParse(offers[..j]) && facts == AddFacts(before, offers[..j])
    {
      var fact := ParseFact(offers[j]).value;
      assert offers[..j + 1][..j] == offers[..j];
      facts := facts[fact.key := fact.number];
    }
    assert offers[..|offers|] == offers;
  }

  method CheckRequirements(facts: Table, requirements: seq<string>) returns (ok: bool)
    requires RequirementsParse(requirements)
    ensures ok <==> ComponentMet(facts, requirements)
  {
    hide ParseRequirement, Met;
    for j := 0 to |requirements|
      invariant forall l | 0 <= l < j :: Met(facts, ParseRequirement(requirements[l]).value)
    {
      if !Met(facts, ParseRequirement(requirements[j]).value) {
        return false;
      }
    }
    return true;
  }

  /** `validate_composition`: fill the table, then check every requirement against it. */
  method ValidateComposition(components: seq<Component>) returns (ok: bool)
    requires AllFactsParse(components) && AllRequirementsParse(components)
    ensures ok <==> Composes(components)
  {
    hide FactsParse, RequirementsParse, ComponentMet;
    var facts: Table := map[];
    for i := 0 to |components|
      invariant AllFactsParse(components[..i]) && facts == Facts(components[..i])
    {
      assert components[..i + 1][..i] == components[..i];
      facts := FillFacts(facts, components[i].offers);
    }
    assert components[..|components|] == components;
    for i := 0 to |components|
      invariant forall k | 0 <= k < i :: ComponentMet(facts, components[k].requirements)
    {
      var met := CheckRequirements(facts, components[i].requirements);
      if !met {
        return false;
      }
    }
    return true;
  }

  // ---- One provider per fact ----

  predicate DistinctNames(components: seq<Component>) {
    forall i, j | 0 <= i < j < |components| :: components[i].name != components[j].name
  }

  predicate Pins(components: seq<Component>) {
    AllValid(components) && DistinctNames(components)
  }

  function KeyAt(components: seq<Component>, i: nat, k: nat): string
    requires AllFactsParse(components) && i < |components| && k < |components[i].offers|
  {
    ParseFact(components[i].offers[k]).value.key
  }

  function NumberAt(components: seq<Component>, i: nat, k: nat): Option<nat>
    requires AllFactsParse(components) && i < |components| && k < |components[i].offers|
  {
    ParseFact(components[i].offers[k]).value.number
  }

  /** A key names its namespace: two component names that both start it are the same name. */
  lemma NamespaceUnique(key: string, a: string, b: string)
    requires IsComponentName(a) && IsComponentName(b) && a + ":" <= key && b + ":" <= key
    ensures a == b
  {
    assert ':' !in a && ':' !in b;
    assert key == a + ":" + key[|a| + 1..] && key == b + ":" + key[|b| + 1..];
    SplitOnceOf(a, ':', key[|a| + 1..]);
    SplitOnceOf(b, ':', key[|b| + 1..]);
  }

  /** No two provided facts of a pin set share a key. */
  lemma OneProvider(components: seq<Component>, i: nat, k: nat, j: nat, l: nat)
    requires Pins(components) && AllFactsParse(components)
    requires i < |components| && k < |components[i].offers| && j < |components| && l < |components[j].offers|
    requires KeyAt(components, i, k) == KeyAt(components, j, l)
    ensures i == j && k == l
  {
    assert ValidComponent(components[i]) && ValidComponent(components[j]);
    NamespaceUnique(KeyAt(components, i, k), components[i].name, components[j].name);
  }

  /** `key` is provided with `number` by some fact of the components. */
  ghost predicate Provided(components: seq<Component>, key: string, number: Option<nat>)
    requires AllFactsParse(components)
  {
    exists i, k | 0 <= i < |components| && 0 <= k < |components[i].offers| ::
      KeyAt(components, i, k) == key && NumberAt(components, i, k) == number
  }

  lemma {:induction false} AddedFacts(table: Table, offers: seq<string>, key: string)
    requires FactsParse(offers)
    ensures key in AddFacts(table, offers) <==>
            key in table || exists k | 0 <= k < |offers| :: ParseFact(offers[k]).value.key == key
    ensures key in AddFacts(table, offers) ==>
              || (exists k | 0 <= k < |offers| ::
                   ParseFact(offers[k]).value.key == key
                       && ParseFact(offers[k]).value.number == AddFacts(table, offers)[key])
              || (key in table && AddFacts(table, offers)[key] == table[key])
    decreases |offers|
  {
    hide ParseFact;
    if offers != [] {
      var n := |offers| - 1;
      var init := offers[..n];
      AddedFacts(table, init, key);
      assert forall k | 0 <= k < n :: init[k] == offers[k];
      assert ParseFact(offers[n]).value.key == key ==>
               exists k | 0 <= k < |offers| :: ParseFact(offers[k]).value.key == key;
    }
  }

  lemma {:induction false} FactsAreProvided(components: seq<Component>, key: string)
    requires AllFactsParse(components)
    ensures key in Facts(components) ==> Provided(components, key, Facts(components)[key])
    ensures forall number :: Provided(components, key, number) ==> key in Facts(components)
    decreases |components|
  {
    hide ParseFact;
    if components != [] {
      var n := |components| - 1;
      var init, offers := components[..n], components[n].offers;
      FactsAreProvided(init, key);
      AddedFacts(Facts(init), offers, key);
      assert forall i | 0 <= i < n :: init[i] == components[i];
      if key in Facts(components) {
        var number := Facts(components)[key];
        if k :| 0 <= k < |offers|
                && ParseFact(offers[k]).value.key == key && ParseFact(offers[k]).value.number == number {
          assert KeyAt(components, n, k) == key && NumberAt(components, n, k) == number;
        } else {
          var i, k :| 0 <= i < n && 0 <= k < |init[i].offers| && KeyAt(init, i, k) == key
              && NumberAt(init, i, k) == number;
          assert KeyAt(components, i, k) == key && NumberAt(components, i, k) == number;
        }
      }
      forall number | Provided(components, key, number)
        ensures key in Facts(components)
      {
        var i, k :| 0 <= i < |components| && 0 <= k < |components[i].offers| && KeyAt(components, i, k) == key
            && NumberAt(components, i, k) == number;
        if i < n {
          assert KeyAt(init, i, k) == key && NumberAt(init, i, k) == number;
          assert Provided(init, key, number);
        }
      }
    }
  }

  /** In a pin set the table holds, for each key, exactly the number of its one provider. */
  lemma FactsAreTheProviders(components: seq<Component>, key: string, number: Option<nat>)
    requires Pins(components) && AllFactsParse(components)
    ensures key in Facts(components) && Facts(components)[key] == number <==> Provided(components, key, number)
  {
    FactsAreProvided(components, key);
    if Provided(components, key, number) {
      var i, k :| 0 <= i < |components| && 0 <= k < |components[i].offers| && KeyAt(components, i, k) == key
          && NumberAt(components, i, k) == number;
      var found := Facts(components)[key];
      var j, l :| 0 <= j < |components| && 0 <= l < |components[j].offers| && KeyAt(components, j, l) == key
          && NumberAt(components, j, l) == found;
      OneProvider(components, i, k, j, l);
    }
  }

  lemma ProvidedByElements(a: seq<Component>, b: seq<Component>, key: string, number: Option<nat>)
    requires AllFactsParse(a) && AllFactsParse(b) && forall c :: c in a ==> c in b
    ensures Provided(a, key, number) ==> Provided(b, key, number)
  {
    if Provided(a, key, number) {
      var i, k :| 0 <= i < |a| && 0 <= k < |a[i].offers| && KeyAt(a, i, k) == key && NumberAt(a, i, k) == number;
      assert a[i] in b;
      var j :| 0 <= j < |b| && b[j] == a[i];
      assert KeyAt(b, j, k) == key && NumberAt(b, j, k) == number;
    }
  }

  /** The last-wins table does not depend on the order of the pins. */
  lemma FactsIgnoreOrder(a: seq<Component>, b: seq<Component>)
    requires Pins(a) && Pins(b) && AllFactsParse(a) && AllFactsParse(b)
    requires forall c :: c in a <==> c in b
    ensures Facts(a) == Facts(b)
  {
    forall key
      ensures key in Facts(a) <==> key in Facts(b)
      ensures key in Facts(a) ==> Facts(a)[key] == Facts(b)[key]
    {
      if key in Facts(a) {
        FactsAreTheProviders(a, key, Facts(a)[key]);
        ProvidedByElements(a, b, key, Facts(a)[key]);
        FactsAreTheProviders(b, key, Facts(a)[key]);
      }
      if key in Facts(b) {
        FactsAreTheProviders(b, key, Facts(b)[key]);
        ProvidedByElements(b, a, key, Facts(b)[key]);
        FactsAreTheProviders(a, key, Facts(b)[key]);
      }
    }
  }

  predicate Satisfies(number: Option<nat>, bound: Bound) {
    match bound
    case Present => true
    case Exactly(wanted) => number == Some(wanted)
    case AtLeast(wanted) => number.Some? && number.value >= wanted
  }

  /** The fact at (j, l) provides what the requirement asks, in key and number. */
  predicate Answers(components: seq<Component>, j: nat, l: nat, requirement: Requirement)
    requires AllFactsParse(components) && j < |components| && l < |components[j].offers|
  {
    KeyAt(components, j, l) == requirement.key && Satisfies(NumberAt(components, j, l), requirement.bound)
  }

  ghost predicate Answered(components: seq<Component>, requirement: Requirement)
    requires AllFactsParse(components)
  {
    exists j, l | 0 <= j < |components| && 0 <= l < |components[j].offers| :: Answers(components, j, l, requirement)
  }

  /** Some pinned fact answers the requirement, and no other has its key. */
  ghost predicate AnsweredAlone(components: seq<Component>, requirement: Requirement)
    requires AllFactsParse(components)
  {
    exists j, l | 0 <= j < |components| && 0 <= l < |components[j].offers| ::
      Answers(components, j, l, requirement) && OnlyFact(components, j, l)
  }

  ghost predicate OnlyFact(components: seq<Component>, j: nat, l: nat)
    requires AllFactsParse(components) && j < |components| && l < |components[j].offers|
  {
    forall i, k | 0 <= i < |components| && 0 <= k < |components[i].offers|
        && KeyAt(components, i, k) == KeyAt(components, j, l) ::
      i == j && k == l
  }

  lemma AnsweredIsAlone(components: seq<Component>, requirement: Requirement)
    requires Pins(components) && AllFactsParse(components) && Answered(components, requirement)
    ensures AnsweredAlone(components, requirement)
  {
    hide Answers, ParseFact, Pins;
    var j, l :| 0 <= j < |components| && 0 <= l < |components[j].offers| && Answers(components, j, l, requirement);
    forall i, k | 0 <= i < |components| && 0 <= k < |components[i].offers|
        && KeyAt(components, i, k) == KeyAt(components, j, l)
      ensures i == j && k == l
    {
      OneProvider(components, i, k, j, l);
    }
  }

  /** A requirement is met exactly when some pinned component's fact answers it. */
  lemma MetByItsProvider(components: seq<Component>, requirement: Requirement)
    requires Pins(components) && AllFactsParse(components)
    ensures Met(Facts(components), requirement) <==> Answered(components, requirement)
  {
    var key := requirement.key;
    if key in Facts(components) {
      FactsAreTheProviders(components, key, Facts(components)[key]);
      var j, l :| 0 <= j < |components| && 0 <= l < |components[j].offers|
                  && KeyAt(components, j, l) == key && NumberAt(components, j, l) == Facts(components)[key];
      assert Met(Facts(components), requirement) ==> Answers(components, j, l, requirement);
    }
    if j, l :| 0 <= j < |components| && 0 <= l < |components[j].offers| && Answers(components, j, l, requirement) {
      assert Provided(components, key, NumberAt(components, j, l));
      FactsAreTheProviders(components, key, NumberAt(components, j, l));
    }
  }

  // ---- A generation ----

  datatype PlatformEntry = PlatformEntry(target: string, state: string, components: seq<Component>)

  datatype Generation = Generation(version: int, platforms: seq<PlatformEntry>, shared: seq<Component>)

  /** The doors a generation is validated at: one platform or all of them, installable or not. */
  datatype Request = Request(flotilla: string, cleat: string, platform: Option<string>, installable: bool)

  function NamesOf(components: seq<Component>): set<string> {
    set i | 0 <= i < |components| :: components[i].name
  }

  predicate OnPlatform(components: seq<Component>, expected: string) {
    forall i | 0 <= i < |components| :: components[i].platform == expected
  }

  predicate PinList(components: seq<Component>, expected: string) {
    Pins(components) && OnPlatform(components, expected)
  }

  /** `pins`: every component valid, on its platform, and named once. */
  method CheckPins(components: seq<Component>, expected: string) returns (names: Option<set<string>>)
    ensures names.Some? <==> PinList(components, expected)
    ensures names.Some? ==> names.value == NamesOf(components)
  {
    hide ValidComponent;
    var seen: set<string> := {};
    for i := 0 to |components|
      invariant forall k | 0 <= k < i :: ValidComponent(components[k]) && components[k].platform == expected
      invariant forall k, l | 0 <= k < l < i :: components[k].name != components[l].name
      invariant seen == set k | 0 <= k < i :: components[k].name
    {
      var valid := ValidateComponent(components[i]);
      if !valid || components[i].platform != expected || components[i].name in seen {
        return None;
      }
      seen := seen + {components[i].name};
    }
    return Some(seen);
  }

  /** What a platform's pins are checked and composed with: its own and the shared ones. */
  function Effective(entry: PlatformEntry, shared: seq<Component>): seq<Component> {
    entry.components + shared
  }

  function ProtocolFact(version: int): string
    requires version >= 0
  {
    "flotilla:protocol=" + NatText(version)
  }

  predicate SpeaksProtocol(components: seq<Component>, version: int)
    requires version >= 0
  {
    forall i | 0 <= i < |components| && components[i].name == "flotilla" ::
        ProtocolFact(version) in components[i].offers
  }

  predicate RequiredState(entry: PlatformEntry, request: Request) {
    && (entry.state == "candidate" || entry.state == "installable-internal")
    && (request.installable && (request.platform == None || request.platform == Some(entry.target)) ==>
          entry.state == "installable-internal")
  }

  predicate EntryAccepted(entry: PlatformEntry, shared: seq<Component>, version: int, request: Request)
    requires version >= 0
  {
    && RequiredState(entry, request)
    && PinList(entry.components, entry.target)
    && NamesOf(entry.components) !! NamesOf(shared)
    && "flotilla" in NamesOf(entry.components) && "cleat" in NamesOf(entry.components) && "skills" in NamesOf(shared)
    && EffectiveComposes(entry, shared)
    && SpeaksProtocol(entry.components, version)
  }

  predicate EffectiveComposes(entry: PlatformEntry, shared: seq<Component>) {
    var components := Effective(entry, shared);
    AllFactsParse(components) && AllRequirementsParse(components) && Composes(components)
  }

  /** Disjoint pin lists make one pin set: no two effective components share a name. */
  lemma EffectivePins(entry: PlatformEntry, shared: seq<Component>)
    requires PinList(entry.components, entry.target) && PinList(shared, INDEPENDENT)
    requires NamesOf(entry.components) !! NamesOf(shared)
    ensures Pins(Effective(entry, shared))
    ensures AllFactsParse(Effective(entry, shared)) && AllRequirementsParse(Effective(entry, shared))
  {
    hide ValidComponent;
    var components := Effective(entry, shared);
    forall i, j | 0 <= i < j < |components|
      ensures components[i].name != components[j].name
    {
      if i < |entry.components| <= j {
        assert components[i].name in NamesOf(entry.components);
        assert components[j] == shared[j - |entry.components|];
        assert components[j].name in NamesOf(shared);
      }
    }
    ValidParses(components);
  }

  // ---- Source pins across platforms ----

  /** Every effective component of the platforms, in the order they are visited. */
  function Visited(platforms: seq<PlatformEntry>, shared: seq<Component>): seq<Component>
    decreases |platforms|
  {
    if platforms == [] then []
    else Visited(platforms[..|platforms| - 1], shared) + Effective(platforms[|platforms| - 1], shared)
  }

  predicate OneSourceEach(components: seq<Component>) {
    forall i, j | 0 <= i < |components| && 0 <= j < |components| ::
      components[i].name == components[j].name ==> components[i].sourceSha == components[j].sourceSha
  }

  function Sources(components: seq<Component>): map<string, string>
    decreases |components|
  {
    if components == [] then map[]
    else
      var last := components[|components| - 1];
      Sources(components[..|components| - 1])[last.name := last.sourceSha]
  }

  lemma {:induction false} SourcesSpec(components: seq<Component>)
    ensures Sources(components).Keys == NamesOf(components)
    ensures OneSourceEach(components) ==>
              forall i | 0 <= i < |components| :: Sources(components)[components[i].name] == components[i].sourceSha
    decreases |components|
  {
    hide NamesOf;
    NamesAt(components);
    if components != [] {
      var n := |components| - 1;
      var init, last := components[..n], components[n];
      SourcesSpec(init);
      NamesAt(init);
      assert components == init + [last];
      NamesSnoc(init, last);
      assert forall i | 0 <= i < n :: init[i] == components[i];
    } else {
      NamesOfNone();
    }
  }

  lemma NamesAt(components: seq<Component>)
    ensures forall i | 0 <= i < |components| :: components[i].name in NamesOf(components)
  {
  }

  lemma NamesOfNone()
    ensures NamesOf([]) == {}
  {
  }

  lemma NamesSnoc(init: seq<Component>, last: Component)
    ensures NamesOf(init + [last]) == NamesOf(init) + {last.name}
  {
    var components := init + [last];
    forall name | name in NamesOf(init) + {last.name}
      ensures name in NamesOf(components)
    {
      if name == last.name {
        assert components[|init|].name == name;
      } else {
        var i :| 0 <= i < |init| && init[i].name == name;
        assert components[i].name == name;
      }
    }
  }

  /** One more component keeps the pins agreeing exactly when its pin is new or the recorded one. */
  lemma SourceSnoc(done: seq<Component>, c: Component)
    requires OneSourceEach(done)
    ensures Sources(done + [c]) == Sources(done)[c.name := c.sourceSha]
    ensures OneSourceEach(done + [c]) <==> (c.name in Sources(done) ==> Sources(done)[c.name] == c.sourceSha)
  {
    SourcesSnoc(done, c);
    SourcesSpec(done);
    hide Sources;
    var all := done + [c];
    assert all[|done|] == c && forall i | 0 <= i < |done| :: all[i] == done[i] && done[i].name in NamesOf(done);
    if c.name in Sources(done) {
      var i :| 0 <= i < |done| && done[i].name == c.name;
      assert all[i].name == all[|done|].name;
    }
  }

  lemma SourcesSnoc(done: seq<Component>, c: Component)
    ensures Sources(done + [c]) == Sources(done)[c.name := c.sourceSha]
  {
    assert (done + [c])[..|done|] == done;
  }

  lemma OneSourcePrefix(a: seq<Component>, b: seq<Component>)
    ensures OneSourceEach(a + b) ==> OneSourceEach(a)
  {
    assert forall i | 0 <= i < |a| :: (a + b)[i] == a[i];
  }

  /** The loop that records each component's source pin and refuses a second, different one. */
  method MergeSources(ghost visited: seq<Component>, before: map<string, string>, effective: seq<Component>)
    returns (sources: Option<map<string, string>>)
    requires OneSourceEach(visited) && before == Sources(visited)
    ensures sources.Some? <==> OneSourceEach(visited + effective)
    ensures sources.Some? ==> sources.value == Sources(visited + effective)
  {
    hide OneSourceEach, Sources;
    var merged := before;
    assert visited + effective[..0] == visited;
    for k := 0 to |effective|
      invariant OneSourceEach(visited + effective[..k]) && merged == Sources(visited + effective[..k])
    {
      ghost var done := visited + effective[..k];
      var component := effective[k];
      SourceSnoc(done, component);
      assert visited + effective[..k + 1] == done + [component];
      if component.name in merged && merged[component.name] != component.sourceSha {
        OneSourcePrefix(done + [component], effective[k + 1..]);
        assert done + [component] + effective[k + 1..] == visited + effective;
        return None;
      }
      merged := merged[component.name := component.sourceSha];
    }
    assert effective[..|effective|] == effective;
    return Some(merged);
  }

  /** What acceptance means, with no reference to the order of the checks. */
  predicate GenerationAccepted(g: Generation, request: Request) {
    && g.version >= 1
    && g.platforms != []
      && (forall i | 0 <= i < |g.platforms| :: g.platforms[i].target == LINUX || g.platforms[i].target == DARWIN)
    && PinList(g.shared, INDEPENDENT)
    && (forall i | 0 <= i < |g.platforms| :: EntryAccepted(g.platforms[i], g.shared, g.version, request))
    && OneSourceEach(Visited(g.platforms, g.shared))
    && IdentityMatches(Sources(Visited(g.platforms, g.shared)), request)
    && (request.platform.Some? ==> exists i | 0 <= i < |g.platforms| :: g.platforms[i].target == request.platform.value)
  }

  predicate IdentityMatches(sources: map<string, string>, request: Request) {
    && "flotilla" in sources && |sources["flotilla"]| >= 12 && sources["flotilla"][..12] == request.flotilla
    && "cleat" in sources && |sources["cleat"]| >= 12 && sources["cleat"][..12] == request.cleat
  }

  method CheckEntry(
    entry: PlatformEntry, shared: seq<Component>, sharedNames: set<string>, version: int, request: Request)
    returns (ok: bool)
    requires version >= 0 && PinList(shared, INDEPENDENT) && sharedNames == NamesOf(shared)
    ensures ok <==> EntryAccepted(entry, shared, version, request)
  {
    hide PinList, Composes, AllFactsParse, AllRequirementsParse;
    if entry.state != "candidate" && entry.state != "installable-internal" {
      return false;
    }
    var names := CheckPins(entry.components, entry.target);
    if names == None || !(names.value !! sharedNames) {
      return false;
    }
    if "flotilla" !in names.value || "cleat" !in names.value || "skills" !in sharedNames {
      return false;
    }
    EffectivePins(entry, shared);
    var composes := ValidateComposition(Effective(entry, shared));
    if !composes || !SpeaksProtocol(entry.components, version) {
      return false;
    }
    return !(request.installable && (request.platform == None || request.platform == Some(entry.target))
             && entry.state != "installable-internal");
  }

  /** `validate_generation_v2`: the loop over platforms, filling the source pins as it goes. */
  method ValidateGeneration(g: Generation, request: Request) returns (sources: Option<map<string, string>>)
    ensures sources.Some? <==> GenerationAccepted(g, request)
    ensures sources.Some? ==> sources.value == Sources(Visited(g.platforms, g.shared))
  {
    hide EntryAccepted, PinList, Sources, Visited, OneSourceEach, IdentityMatches;
    if g.version < 1 || g.platforms == [] || exists i | 0 <= i < |g.platforms| ::
        g.platforms[i].target != LINUX && g.platforms[i].target != DARWIN {
      return None;
    }
    var sharedNames := CheckPins(g.shared, INDEPENDENT);
    if sharedNames == None {
      return None;
    }
    var merged: map<string, string> := map[];
    NothingVisited(g.shared);
    assert g.platforms[..0] == [];
    for i := 0 to |g.platforms|
      invariant forall k | 0 <= k < i :: EntryAccepted(g.platforms[k], g.shared, g.version, request)
      invariant OneSourceEach(Visited(g.platforms[..i], g.shared))
                && merged == Sources(Visited(g.platforms[..i], g.shared))
    {
      var entry := g.platforms[i];
      var ok := CheckEntry(entry, g.shared, sharedNames.value, g.version, request);
      if !ok {
        return None;
      }
      ghost var visited := Visited(g.platforms[..i], g.shared);
      var next := MergeSources(visited, merged, Effective(entry, g.shared));
      VisitedSnoc(g.platforms, g.shared, i);
      if next == None {
        VisitedPrefix(g.platforms, g.shared, i + 1);
        return None;
      }
      merged := next.value;
    }
    assert g.platforms[..|g.platforms|] == g.platforms;
    if !IdentityMatches(merged, request) {
      return None;
    }
    if request.platform.Some? && forall i | 0 <= i < |g.platforms| :: g.platforms[i].target != request.platform.value {
      return None;
    }
    return Some(merged);
  }

  lemma NothingVisited(shared: seq<Component>)
    ensures OneSourceEach(Visited([], shared)) && Sources(Visited([], shared)) == map[]
  {
  }

  lemma VisitedSnoc(platforms: seq<PlatformEntry>, shared: seq<Component>, i: nat)
    requires i < |platforms|
    ensures Visited(platforms[..i + 1], shared) == Visited(platforms[..i], shared) + Effective(platforms[i], shared)
  {
    assert platforms[..i + 1][..i] == platforms[..i];
  }

  lemma {:induction false} VisitedPrefix(platforms: seq<PlatformEntry>, shared: seq<Component>, n: nat)
    requires n <= |platforms|
    ensures Visited(platforms[..n], shared) <= Visited(platforms, shared)
    ensures OneSourceEach(Visited(platforms, shared)) ==> OneSourceEach(Visited(platforms[..n], shared))
    decreases |platforms|
  {
    if n == |platforms| {
      assert platforms[..n] == platforms;
    } else {
      var init := platforms[..|platforms| - 1];
      VisitedPrefix(init, shared, n);
      assert init[..n] == platforms[..n];
      assert Visited(init, shared) <= Visited(platforms, shared);
    }
    var p, x := Visited(platforms[..n], shared), Visited(platforms, shared);
    assert forall i | 0 <= i < |p| :: p[i] == x[i];
  }

  /**
   An accepted generation, platform by platform: no two pinned components provide the same fact key,
   and every requirement is answered by a fact of a pinned component, the only one with its key.
   */
  lemma AcceptedGenerationComposes(g: Generation, request: Request, p: nat)
    requires GenerationAccepted(g, request) && p < |g.platforms|
    ensures var components := Effective(g.platforms[p], g.shared);
            && Pins(components) && AllFactsParse(components) && AllRequirementsParse(components)
            && forall i, j | 0 <= i < |components| && 0 <= j < |components[i].requirements| ::
                 AnsweredAlone(components, ParseRequirement(components[i].requirements[j]).value)
  {
    hide ParseRequirement, ParseFact, Met, Answered, AnsweredAlone, Pins;
    var entry := g.platforms[p];
    assert EntryAccepted(entry, g.shared, g.version, request);
    EffectivePins(entry, g.shared);
    var components := Effective(entry, g.shared);
    forall i, j | 0 <= i < |components| && 0 <= j < |components[i].requirements|
      ensures AnsweredAlone(components, ParseRequirement(components[i].requirements[j]).value)
    {
      assert ComponentMet(Facts(components), components[i].requirements);
      MetByItsProvider(components, ParseRequirement(components[i].requirements[j]).value);
      AnsweredIsAlone(components, ParseRequirement(components[i].requirements[j]).value);
    }
  }

  /** What a fact must say to meet a requirement. */
  predicate Meets(fact: Fact, requirement: Requirement) {
    && fact.key == requirement.key
    && match requirement.bound
       case Present => true
       case Exactly(number) => fact.number == Some(number)
       case AtLeast(number) => fact.number.Some? && fact.number.value >= number
  }

  /** On texts: a requirement pinned in an accepted generation is met by the text of a fact pinned beside it. */
  lemma AcceptedRequirementMet(g: Generation, request: Request, p: nat, i: nat, requirement: Requirement)
    returns (j: nat, fact: Fact)
    requires GenerationAccepted(g, request) && p < |g.platforms| && i < |Effective(g.platforms[p], g.shared)|
    requires IsKey(requirement.key)
    requires RequirementText(requirement) in Effective(g.platforms[p], g.shared)[i].requirements
    ensures j < |Effective(g.platforms[p], g.shared)|
    ensures Meets(fact, requirement) && FactText(fact) in Effective(g.platforms[p], g.shared)[j].offers
  {
    hide GenerationAccepted, RequirementText, FactText, ParseFact, ParseRequirement, IsKey, Pins;
    var components := Effective(g.platforms[p], g.shared);
    AcceptedGenerationComposes(g, request, p);
    ParseOfRequirementText(requirement);
    var k :| 0 <= k < |components[i].requirements| && components[i].requirements[k] == RequirementText(requirement);
    assert AnsweredAlone(components, requirement);
    var l: nat;
    j, l :| j < |components| && l < |components[j].offers| && Answers(components, j, l, requirement);
    fact := ParseFact(components[j].offers[l]).value;
    FactTextOfParse(components[j].offers[l]);
  }

  /** A pinned `k>=n` has a pinned `k=m` with a number at least as great. */
  lemma AcceptedAtLeast(g: Generation, request: Request, p: nat, i: nat, key: string, n: nat) returns (j: nat, m: nat)
    requires GenerationAccepted(g, request) && p < |g.platforms| && i < |Effective(g.platforms[p], g.shared)|
    requires IsKey(key) && key + ">=" + NatText(n) in Effective(g.platforms[p], g.shared)[i].requirements
    ensures j < |Effective(g.platforms[p], g.shared)| && m >= n
    ensures key + "=" + NatText(m) in Effective(g.platforms[p], g.shared)[j].offers
  {
    hide GenerationAccepted, IsKey;
    var requirement := Requirement(key, AtLeast(n));
    assert RequirementText(requirement) == key + ">=" + NatText(n);
    var fact;
    j, fact := AcceptedRequirementMet(g, request, p, i, requirement);
    m := fact.number.value;
    assert FactText(fact) == key + "=" + NatText(m);
  }

  /** A component has one source pin wherever it is pinned, and the generation's identity names it. */
  lemma AcceptedGenerationSources(g: Generation, request: Request, p: nat, c: Component)
    requires p < |g.platforms| && c in Effective(g.platforms[p], g.shared)
    ensures GenerationAccepted(g, request) ==>
              var sources := Sources(Visited(g.platforms, g.shared));
                  c.name in sources && sources[c.name] == c.sourceSha
  {
    var visited := Visited(g.platforms, g.shared);
    SourcesSpec(visited);
    VisitedHolds(g.platforms, g.shared, p, c);
    var i :| 0 <= i < |visited| && visited[i] == c;
    assert c.name in NamesOf(visited);
  }

  /**
   In an accepted generation every pin of the daemon and of the session host is from the requested sources, and
   a platform's daemon offers the generation's protocol version.
   */
  lemma AcceptedIdentity(g: Generation, request: Request, p: nat, c: Component)
    requires GenerationAccepted(g, request) && p < |g.platforms| && c in Effective(g.platforms[p], g.shared)
    ensures c.name == "flotilla" ==> |c.sourceSha| >= 12 && c.sourceSha[..12] == request.flotilla
    ensures c.name == "cleat" ==> |c.sourceSha| >= 12 && c.sourceSha[..12] == request.cleat
    ensures c in g.platforms[p].components && c.name == "flotilla" ==>
              "flotilla:protocol=" + NatText(g.version) in c.offers
  {
    hide Visited, Sources, OneSourceEach, PinList, EffectiveComposes, NatText;
    AcceptedGenerationSources(g, request, p, c);
    assert EntryAccepted(g.platforms[p], g.shared, g.version, request);
  }

  /** Every platform of an accepted generation pins a daemon and a session host of its own, and skills are shared. */
  lemma AcceptedNames(g: Generation, request: Request, p: nat)
    returns (daemon: Component, host: Component, skills: Component)
    requires GenerationAccepted(g, request) && p < |g.platforms|
    ensures daemon in g.platforms[p].components && daemon.name == "flotilla"
    ensures host in g.platforms[p].components && host.name == "cleat"
    ensures skills in g.shared && skills.name == "skills"
    ensures daemon.platform == host.platform == g.platforms[p].target && skills.platform == "platform-independent"
    ensures g.platforms[p].target in {"linux-x86_64-gnu2.36", "darwin-aarch64"}
  {
    hide Visited, Sources, OneSourceEach, Pins, EffectiveComposes, NatText, IdentityMatches;
    var entry := g.platforms[p];
    assert EntryAccepted(entry, g.shared, g.version, request);
    daemon := NamedIn(entry.components, "flotilla");
    host := NamedIn(entry.components, "cleat");
    skills := NamedIn(g.shared, "skills");
  }

  lemma NamedIn(components: seq<Component>, name: string) returns (c: Component)
    requires name in NamesOf(components)
    ensures c in components && c.name == name
  {
    var i :| 0 <= i < |components| && components[i].name == name;
    c := components[i];
  }

  lemma {:induction false} VisitedHolds(platforms: seq<PlatformEntry>, shared: seq<Component>, p: nat, c: Component)
    requires p < |platforms| && c in Effective(platforms[p], shared)
    ensures c in Visited(platforms, shared)
    decreases |platforms|
  {
    if p < |platforms| - 1 {
      VisitedHolds(platforms[..|platforms| - 1], shared, p, c);
    }
  }
}
