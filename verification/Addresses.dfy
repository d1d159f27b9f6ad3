/**
 Addresses: typed segments with one canonical text (crates/flotilla-address/src/address.rs). The
 text is grown beside the segments, as the source grows it, and proved to be determined by them.
 */
module Addresses {
  import opened Outcomes
  import opened Text
  import opened Casing
  import opened Kinds
  import opened Errors
  import opened Forges
  import opened Encoding

  datatype Segment = Segment(kind: Kind, value: string)

  datatype Address = Address(segments: seq<Segment>, of: Option<string>, text: string)

  const U64_LIMIT: nat := 0x1_0000_0000_0000_0000

  function LastKind(segments: seq<Segment>): Option<Kind> {
    if segments == [] then None else Some(segments[|segments| - 1].kind)
  }

  /** The value of the first segment of `kind`. */
  function Get(segments: seq<Segment>, kind: Kind): Option<string> {
    if segments == [] then None
    else if segments[0].kind == kind then Some(segments[0].value)
    else Get(segments[1..], kind)
  }

  function NormaliseUsage(lower: string -> string, value: string): string {
    lower(Trim(value))
  }

  predicate IsLowerHex(c: char) {
    IsDigit(c) || 'a' <= c <= 'f'
  }

  /** Values are non-empty; numbers, forge ids, usage providers and commits have stricter forms. */
  predicate ValueAdmitted(lower: string -> string, kind: Kind, value: string) {
    && value != ""
    && match kind
       case Forge => ValidForgeId(value)
       case Usage => NormaliseUsage(lower, value) == value
       case ChangeRequest | Issue => CanonicalDigits(value) && DigitsValue(value) < U64_LIMIT
       case Commit => All(value, IsLowerHex) && (|value| == 40 || |value| == 64)
       case _ => true
  }

  /** A repository on public GitHub is `owner/repo` in lowercase. */
  predicate GithubRepositoryAdmitted(lower: string -> string, segments: seq<Segment>, kind: Kind, value: string) {
    kind == Repo && segments != [] && segments[0].value == GITHUB_FORGE_ID ==>
      ValidRepository(value) && NormaliseRepository(lower, Github, value) == value
  }

  function SegmentText(kind: Kind, value: string): string {
    Token(kind) + ":" + Encode(value)
  }

  const EMPTY_ADDRESS := Address([], None, "")

  /** The address with one more segment, its text grown as `push` grows it. */
  function Grown(address: Address, segment: Segment): Address {
    var separator := if address.text == "" then "" else "/";
    Address(address.segments + [segment], None, address.text + separator + SegmentText(segment.kind, segment.value))
  }

  function Push(lower: string -> string, address: Address, kind: Kind, value: string): Result<Address, Error> {
    var parent := LastKind(address.segments);
    if address.of.Some? then Err(OfNotLast)
    else if !MayFollow(kind, parent) then Err(Shape(kind, parent))
    else if kind == Account && parent == Some(Usage) && NormaliseUsage(lower, value) != value
        then Err(InvalidValue(kind, value))
    else if !ValueAdmitted(lower, kind, value) then Err(InvalidValue(kind, value))
    else if !GithubRepositoryAdmitted(lower, address.segments, kind, value) then Err(InvalidValue(kind, value))
    else Ok(Grown(address, Segment(kind, value)))
  }

  function Child(lower: string -> string, address: Address, kind: Kind, value: string): Result<Address, Error> {
    if kind == Repo then Err(RepositoryNeedsForge) else Push(lower, address, kind, value)
  }

  function Root(lower: string -> string, kind: Kind, value: string): Result<Address, Error> {
    Child(lower, EMPTY_ADDRESS, kind, value)
  }

  function ArtifactOf(lower: string -> string, role: Address, kind: string, subject: string): Result<Address, Error> {
    var address :- Child(lower, role, Artifact, kind);
    if subject == "" then Err(InvalidValue(Artifact, subject))
    else Ok(Address(address.segments, Some(subject), address.text + "/" + OfText(subject)))
  }

  function OfText(subject: string): string {
    "of:" + Encode(subject)
  }

  /** `forge:<id>`; a `Forge` holds a validated id, so this cannot be refused. */
  function ForgeAddress(forge: Forge): Address {
    Address([Segment(Kind.Forge, forge.id)], None, SegmentText(Kind.Forge, forge.id))
  }

  lemma ForgeAddressIsRoot(lower: string -> string, forge: Forge)
    ensures Root(lower, Kind.Forge, forge.id) == Ok(ForgeAddress(forge))
  {
    assert "" + "" + SegmentText(Kind.Forge, forge.id) == SegmentText(Kind.Forge, forge.id);
    assert [] + [Segment(Kind.Forge, forge.id)] == [Segment(Kind.Forge, forge.id)];
  }

  function Repository(lower: string -> string, forge: Forge, repository: string): Result<Address, Error> {
    if !ValidRepository(repository) then Err(InvalidValue(Repo, repository))
    else Push(lower, ForgeAddress(forge), Repo, NormaliseRepository(lower, forge.kind, repository))
  }

  function Numbered(
    lower: string -> string, forge: Forge, repository: string, kind: Kind, number: nat): Result<Address, Error>
  {
    var address :- Repository(lower, forge, repository);
    Child(lower, address, kind, NatText(number))
  }

  function UsageAddress(lower: string -> string, provider: string, account: string): Result<Address, Error> {
    var address :- Root(lower, Usage, NormaliseUsage(lower, provider));
    Child(lower, address, Account, NormaliseUsage(lower, account))
  }

  function Finish(address: Address): Result<Address, Error> {
    match LastKind(address.segments)
    case None => Err(Empty)
    case Some(kind) => if kind == Artifact && address.of.None? then Err(ArtifactWithoutSubject) else Ok(address)
  }

  // ---- The canonical text ----

  function SegmentTexts(segments: seq<Segment>): (parts: seq<string>)
    ensures |parts| == |segments|
  {
    seq(|segments|, i requires 0 <= i < |segments| => SegmentText(segments[i].kind, segments[i].value))
  }

  /** The `/`-separated parts of an address: one per segment, and the subject's. */
  function Parts(segments: seq<Segment>, of: Option<string>): seq<string> {
    SegmentTexts(segments) + if of.Some? then [OfText(of.value)] else []
  }

  function Render(segments: seq<Segment>, of: Option<string>): string {
    Join(Parts(segments, of), '/')
  }

  /** The address with these segments and no subject. */
  function Plain(segments: seq<Segment>): Address {
    Address(segments, None, Render(segments, None))
  }

  predicate SegmentAdmitted(lower: string -> string, before: seq<Segment>, segment: Segment) {
    && MayFollow(segment.kind, LastKind(before))
    && (segment.kind == Account && LastKind(before) == Some(Usage) ==>
      NormaliseUsage(lower, segment.value) == segment.value)
    && ValueAdmitted(lower, segment.kind, segment.value)
    && GithubRepositoryAdmitted(lower, before, segment.kind, segment.value)
  }

  predicate Admitted(lower: string -> string, segments: seq<Segment>) {
    segments == [] ||
    (Admitted(lower, segments[..|segments| - 1])
        && SegmentAdmitted(lower, segments[..|segments| - 1], segments[|segments| - 1]))
  }

  /** Every segment of an admitted sequence was admitted after the ones before it. */
  lemma {:induction false} AdmittedAt(lower: string -> string, segments: seq<Segment>, i: nat)
    requires Admitted(lower, segments) && i < |segments|
    ensures Admitted(lower, segments[..i]) && SegmentAdmitted(lower, segments[..i], segments[i])
    decreases |segments|
  {
    var before := segments[..|segments| - 1];
    if i < |before| {
      AdmittedAt(lower, before, i);
      assert before[..i] == segments[..i];
    } else {
      assert segments[..i] == before;
    }
  }

  lemma ShapeAt(lower: string -> string, segments: seq<Segment>, i: nat)
    requires Admitted(lower, segments) && i < |segments|
    ensures MayFollow(segments[i].kind, if i == 0 then None else Some(segments[i - 1].kind))
    ensures ValueAdmitted(lower, segments[i].kind, segments[i].value)
  {
    AdmittedAt(lower, segments, i);
  }

  /** What every constructor keeps: an admitted shape, and the text its segments and subject spell. */
  predicate WellFormed(lower: string -> string, address: Address) {
    && Admitted(lower, address.segments)
    && (address.of.Some? ==> LastKind(address.segments) == Some(Artifact) && address.of.value != "")
    && address.text == Render(address.segments, address.of)
  }

  /** A whole address: an artifact names its subject. */
  predicate Finished(lower: string -> string, address: Address) {
    && WellFormed(lower, address)
    && address.segments != []
    && (LastKind(address.segments) == Some(Artifact) ==> address.of.Some?)
  }

  predicate IsTextChar(c: char) {
    IsEncodedChar(c) || c == ':'
  }

  lemma SegmentTextChars(kind: Kind, value: string)
    ensures SegmentText(kind, value) != "" && All(SegmentText(kind, value), IsTextChar)
    ensures SplitOnce(SegmentText(kind, value), ':') == Some((Token(kind), Encode(value)))
  {
    TokenIsLowerCase(kind);
    EncodedChars(value);
    assert ':' !in Token(kind);
    SplitOnceOf(Token(kind), ':', Encode(value));
  }

  lemma OfTextChars(subject: string)
    ensures OfText(subject) != "" && All(OfText(subject), IsTextChar)
    ensures SplitOnce(OfText(subject), ':') == Some(("of", Encode(subject)))
  {
    EncodedChars(subject);
    assert ':' !in "of";
    SplitOnceOf("of", ':', Encode(subject));
    assert OfText(subject) == "of" + ":" + Encode(subject);
  }

  lemma PartsChars(segments: seq<Segment>, of: Option<string>)
    ensures forall i | 0 <= i < |Parts(segments, of)| ::
              Parts(segments, of)[i] != "" && All(Parts(segments, of)[i], IsTextChar) && '/' !in Parts(segments, of)[i]
  {
    forall i | 0 <= i < |segments|
      ensures SegmentTexts(segments)[i] != "" && All(SegmentTexts(segments)[i], IsTextChar)
    {
      SegmentTextChars(segments[i].kind, segments[i].value);
    }
    if of.Some? {
      OfTextChars(of.value);
    }
  }

  /** The text splits at its slashes into exactly the parts, whatever the values hold. */
  lemma SplitOfRender(segments: seq<Segment>, of: Option<string>)
    requires segments != []
    ensures Split(Render(segments, of), '/') == Parts(segments, of)
    ensures Render(segments, of) != ""
  {
    PartsChars(segments, of);
    SplitOfJoin(Parts(segments, of), '/');
    assert Split("", '/') == [""];
  }

  lemma RenderSnoc(segments: seq<Segment>, of: Option<string>, part: string, parts: seq<string>)
    requires parts == Parts(segments, of) + [part]
    ensures Join(parts, '/') == if segments == [] && of.None? then part else Render(segments, of) + "/" + part
  {
    if segments == [] && of.None? {
      assert parts == [part];
    } else {
      JoinAppend(Parts(segments, of), [part], '/');
    }
  }

  lemma SegmentTextsAppend(a: seq<Segment>, b: seq<Segment>)
    ensures SegmentTexts(a + b) == SegmentTexts(a) + SegmentTexts(b)
  {
  }

  /** The text of joined segments is the joined texts. */
  lemma RenderAppend(a: seq<Segment>, b: seq<Segment>, of: Option<string>)
    requires a != [] && b != []
    ensures Render(a + b, of) == Render(a, None) + "/" + Render(b, of)
  {
    SegmentTextsAppend(a, b);
    assert Parts(a, None) == SegmentTexts(a);
    assert Parts(a + b, of) == Parts(a, None) + Parts(b, of);
    JoinAppend(Parts(a, None), Parts(b, of), '/');
  }

  /** `push` appends exactly one admitted segment and keeps the address well formed. */
  lemma PushWellFormed(lower: string -> string, address: Address, kind: Kind, value: string)
    requires WellFormed(lower, address)
    ensures Push(lower, address, kind, value).Ok? <==>
            address.of.None? && SegmentAdmitted(lower, address.segments, Segment(kind, value))
    ensures Push(lower, address, kind, value).Ok? ==>
              && WellFormed(lower, Plain(address.segments + [Segment(kind, value)]))
              && Push(lower, address, kind, value).value == Plain(address.segments + [Segment(kind, value)])
  {
    PushAdmits(lower, address, kind, value);
    if Push(lower, address, kind, value).Ok? {
      var segments := address.segments + [Segment(kind, value)];
      assert segments[..|segments| - 1] == address.segments;
      PlainSnoc(address.segments, Segment(kind, value));
    }
  }

  lemma PushAdmits(lower: string -> string, address: Address, kind: Kind, value: string)
    ensures Push(lower, address, kind, value).Ok? <==>
            address.of.None? && SegmentAdmitted(lower, address.segments, Segment(kind, value))
    ensures Push(lower, address, kind, value).Ok? ==>
              Push(lower, address, kind, value).value == Grown(address, Segment(kind, value))
  {
  }

  lemma PartsSnoc(segments: seq<Segment>, segment: Segment)
    ensures Parts(segments + [segment], None) == Parts(segments, None) + [SegmentText(segment.kind, segment.value)]
  {
  }

  lemma PlainSnoc(segments: seq<Segment>, segment: Segment)
    ensures Grown(Plain(segments), segment) == Plain(segments + [segment])
  {
    var part := SegmentText(segment.kind, segment.value);
    PartsSnoc(segments, segment);
    RenderSnoc(segments, None, part, Parts(segments + [segment], None));
    if segments == [] {
      assert Parts(segments, None) == [];
      assert "" + "" + part == part;
    } else {
      SplitOfRender(segments, None);
    }
  }

  /** Pushing the segments of an admitted sequence one by one rebuilds it. */
  lemma PushAt(lower: string -> string, segments: seq<Segment>, k: nat)
    requires Admitted(lower, segments) && k < |segments|
    ensures Push(lower, Plain(segments[..k]), segments[k].kind, segments[k].value) == Ok(Plain(segments[..k + 1]))
  {
    hide *;
    AdmittedAt(lower, segments, k);
    PushPlain(lower, segments[..k], segments[k]);
    assert segments[..k] + [segments[k]] == segments[..k + 1];
  }

  lemma PushPlain(lower: string -> string, before: seq<Segment>, segment: Segment)
    requires SegmentAdmitted(lower, before, segment)
    ensures Push(lower, Plain(before), segment.kind, segment.value) == Ok(Plain(before + [segment]))
  {
    PushAdmits(lower, Plain(before), segment.kind, segment.value);
    PlainSnoc(before, segment);
  }

  lemma PlainSegments(segments: seq<Segment>)
    ensures Plain(segments).segments == segments && Plain(segments).of == None
    ensures segments == [] ==> Plain(segments) == EMPTY_ADDRESS
  {
  }

  /** A child is refused exactly when its segment is not admitted; a repository is never added as a child. */
  lemma ChildOf(lower: string -> string, before: seq<Segment>, kind: Kind, value: string)
    ensures Child(lower, Plain(before), kind, value).Ok? <==>
            kind != Repo && SegmentAdmitted(lower, before, Segment(kind, value))
    ensures Child(lower, Plain(before), kind, value).Ok? ==>
              Child(lower, Plain(before), kind, value) == Ok(Plain(before + [Segment(kind, value)]))
  {
    hide Grown, Plain, MayFollow, ValueAdmitted;
    PushAdmits(lower, Plain(before), kind, value);
    PlainSnoc(before, Segment(kind, value));
    PlainSegments(before);
  }

  lemma ArtifactWellFormed(lower: string -> string, role: Address, kind: string, subject: string)
    requires WellFormed(lower, role)
    ensures ArtifactOf(lower, role, kind, subject).Ok? <==>
            role.of == None && SegmentAdmitted(lower, role.segments, Segment(Artifact, kind)) && subject != ""
    ensures ArtifactOf(lower, role, kind, subject).Ok? ==>
              var artifact := ArtifactOf(lower, role, kind, subject).value;
              && Finished(lower, artifact)
              && artifact.segments == role.segments + [Segment(Artifact, kind)] && artifact.of == Some(subject)
  {
    PushWellFormed(lower, role, Artifact, kind);
    if ArtifactOf(lower, role, kind, subject).Ok? {
      var address := Child(lower, role, Artifact, kind).value;
      SubjectWellFormed(lower, address, subject);
    }
  }

  lemma SubjectWellFormed(lower: string -> string, address: Address, subject: string)
    requires WellFormed(lower, address) && address.of == None
    requires LastKind(address.segments) == Some(Artifact) && subject != ""
    ensures Finished(lower, Address(address.segments, Some(subject), address.text + "/" + OfText(subject)))
  {
    var parts := Parts(address.segments, Some(subject));
    assert parts == Parts(address.segments, None) + [OfText(subject)];
    RenderSnoc(address.segments, None, OfText(subject), parts);
  }

  // ---- The strict parser ----

  /** What one `/`-separated part says: a segment, or an artifact's subject. */
  datatype Item = Typed(segment: Segment) | Subject(value: string)

  function ItemText(item: Item): string {
    match item
    case Typed(segment) => SegmentText(segment.kind, segment.value)
    case Subject(value) => OfText(value)
  }

  function ParseItem(raw: string): Result<Item, Error> {
    match SplitOnce(raw, ':')
    case None => Err(MalformedSegment(raw))
    case Some((token, encoded)) =>
      var value :- DecodeCanonical(encoded);
      if token == "of" then Ok(Subject(value))
      else
        match FromToken(token)
        case None => Err(UnknownKind(token))
        case Some(kind) => Ok(Typed(Segment(kind, value)))
  }

  function Extend(lower: string -> string, address: Address, item: Item): Result<Address, Error> {
    match item
    case Typed(segment) => Push(lower, address, segment.kind, segment.value)
    case Subject(value) =>
      if LastKind(address.segments) != Some(Artifact) then Err(OfNotAfterArtifact)
      else if value == "" then Err(InvalidValue(Artifact, value))
      else Ok(Address(address.segments, Some(value), address.text + "/" + OfText(value)))
  }

  /** One part, on top of what is parsed so far. */
  function ParsePart(lower: string -> string, address: Address, raw: string): Result<Address, Error> {
    if address.of.Some? then Err(OfNotLast)
    else
      var item :- ParseItem(raw);
      Extend(lower, address, item)
  }

  function ParseParts(lower: string -> string, address: Address, parts: seq<string>): Result<Address, Error>
    decreases |parts|
  {
    if parts == [] then Ok(address)
    else
      var next :- ParsePart(lower, address, parts[0]);
      ParseParts(lower, next, parts[1..])
  }

  /** Parses canonical text, with no lookups; any other spelling is refused. */
  function Parse(lower: string -> string, text: string): Result<Address, Error> {
    var address :- ParseParts(lower, EMPTY_ADDRESS, Split(text, '/'));
    Finish(address)
  }

  /** A part is read only from its one canonical spelling. */
  lemma TextOfParseItem(raw: string)
    requires ParseItem(raw).Ok?
    ensures ItemText(ParseItem(raw).value) == raw
  {
    var (token, encoded) := SplitOnce(raw, ':').value;
    EncodeOfDecode(encoded);
    var value := DecodeCanonical(encoded).value;
    assert raw == token + ":" + Encode(value);
    if token == "of" {
      assert raw == OfText(value);
    }
  }

  lemma ParseItemOfText(item: Item)
    ensures ParseItem(ItemText(item)) == Ok(item)
  {
    match item
    case Typed(segment) =>
      SegmentTextChars(segment.kind, segment.value);
      DecodeOfEncode(segment.value);
      FromTokenOfToken(segment.kind);
    case Subject(value) =>
      OfTextChars(value);
      DecodeOfEncode(value);
  }

  lemma ExtendWellFormed(lower: string -> string, address: Address, item: Item)
    requires WellFormed(lower, address) && address.of == None
    ensures Extend(lower, address, item).Ok? ==>
              var extended := Extend(lower, address, item).value;
              WellFormed(lower, extended)
                  && Parts(extended.segments, extended.of) == Parts(address.segments, None) + [ItemText(item)]
  {
    match item
    case Typed(segment) =>
      PushWellFormed(lower, address, segment.kind, segment.value);
      PartsSnoc(address.segments, segment);
    case Subject(value) =>
      if Extend(lower, address, item).Ok? {
        SubjectWellFormed(lower, address, value);
      }
  }

  /** A parsed part is appended as it was written. */
  lemma ParsePartWellFormed(lower: string -> string, address: Address, raw: string)
    requires WellFormed(lower, address)
    ensures ParsePart(lower, address, raw).Ok? ==> Appended(lower, address, [raw], ParsePart(lower, address, raw).value)
  {
    if ParsePart(lower, address, raw).Ok? {
      TextOfParseItem(raw);
      ExtendWellFormed(lower, address, ParseItem(raw).value);
    }
  }

  /** `longer` is well formed and spelled as `address` followed by `parts`. */
  predicate Appended(lower: string -> string, address: Address, parts: seq<string>, longer: Address) {
    WellFormed(lower, longer) && Parts(longer.segments, longer.of) == Parts(address.segments, address.of) + parts
  }

  lemma AppendedTwice(lower: string -> string, a: Address, b: Address, c: Address, parts: seq<string>)
    requires parts != [] && Appended(lower, a, [parts[0]], b) && Appended(lower, b, parts[1..], c)
    ensures Appended(lower, a, parts, c)
  {
    HeadAndTail(Parts(a.segments, a.of), parts);
  }

  lemma HeadAndTail(before: seq<string>, parts: seq<string>)
    requires parts != []
    ensures before + [parts[0]] + parts[1..] == before + parts
  {
  }

  lemma {:induction false} ParsePartsWellFormed(lower: string -> string, address: Address, parts: seq<string>)
    requires WellFormed(lower, address)
    ensures ParseParts(lower, address, parts).Ok? ==>
              Appended(lower, address, parts, ParseParts(lower, address, parts).value)
    decreases |parts|
  {
    if parts == [] {
      assert Parts(address.segments, address.of) + parts == Parts(address.segments, address.of);
    } else if ParseParts(lower, address, parts).Ok? {
      var next := ParsePart(lower, address, parts[0]).value;
      ParsePartWellFormed(lower, address, parts[0]);
      ParsePartsWellFormed(lower, next, parts[1..]);
      AppendedTwice(lower, address, next, ParseParts(lower, address, parts).value, parts);
    }
  }

  /** Text the strict parser accepts is reprinted unchanged, and names a finished address. */
  lemma PrintOfParse(lower: string -> string, text: string)
    ensures Parse(lower, text).Ok? ==> var address := Parse(lower, text).value;
            Finished(lower, address) && address.text == text
  {
    if Parse(lower, text).Ok? {
      assert Parts([], None) == [];
      ParsePartsWellFormed(lower, EMPTY_ADDRESS, Split(text, '/'));
      var address := Parse(lower, text).value;
      assert Parts(address.segments, address.of) == Split(text, '/');
      JoinOfSplit(text, '/');
    }
  }

  lemma {:induction false} ParsePartsAppend(lower: string -> string, address: Address, parts: seq<string>, last: string)
    ensures ParseParts(lower, address, parts + [last]) ==
            match ParseParts(lower, address, parts)
            case Ok(parsed) => ParsePart(lower, parsed, last)
            case Err(error) => Err(error)
    decreases |parts|
  {
    if parts == [] {
      assert parts + [last] == [last];
      assert [last][1..] == [];
    } else {
      assert (parts + [last])[1..] == parts[1..] + [last];
      if ParsePart(lower, address, parts[0]).Ok? {
        ParsePartsAppend(lower, ParsePart(lower, address, parts[0]).value, parts[1..], last);
      }
    }
  }

  lemma ParsePartOfSegment(lower: string -> string, before: seq<Segment>, segment: Segment)
    requires Admitted(lower, before + [segment])
    ensures ParsePart(lower, Plain(before), SegmentText(segment.kind, segment.value)) == Ok(Plain(before + [segment]))
  {
    assert (before + [segment])[..|before|] == before;
    ParseItemOfText(Typed(segment));
    PushWellFormed(lower, Plain(before), segment.kind, segment.value);
  }

  lemma SegmentTextsSnoc(before: seq<Segment>, last: Segment)
    ensures SegmentTexts(before + [last]) == SegmentTexts(before) + [SegmentText(last.kind, last.value)]
  {
    SegmentTextsAppend(before, [last]);
  }

  lemma AdmittedInit(lower: string -> string, before: seq<Segment>, last: Segment)
    requires Admitted(lower, before + [last])
    ensures Admitted(lower, before)
  {
    assert (before + [last])[..|before|] == before;
  }

  lemma ParseOfNone(lower: string -> string)
    ensures ParseParts(lower, EMPTY_ADDRESS, SegmentTexts([])) == Ok(Plain([]))
  {
    assert Parts([], None) == [];
  }

  lemma {:induction false} ParseOfSegments(lower: string -> string, segments: seq<Segment>)
    requires Admitted(lower, segments)
    ensures ParseParts(lower, EMPTY_ADDRESS, SegmentTexts(segments)) == Ok(Plain(segments))
    decreases |segments|
  {
    hide *;
    if segments == [] {
      ParseOfNone(lower);
    } else {
      var before, last := segments[..|segments| - 1], segments[|segments| - 1];
      assert segments == before + [last];
      AdmittedInit(lower, before, last);
      ParseOfSegments(lower, before);
      SegmentTextsSnoc(before, last);
      ParsePartsAppend(lower, EMPTY_ADDRESS, SegmentTexts(before), SegmentText(last.kind, last.value));
      ParsePartOfSegment(lower, before, last);
    }
  }

  lemma ParsePartOfSubject(lower: string -> string, segments: seq<Segment>, subject: string)
    requires LastKind(segments) == Some(Artifact) && subject != ""
    ensures ParsePart(lower, Plain(segments), OfText(subject)) ==
            Ok(Address(segments, Some(subject), Render(segments, Some(subject))))
  {
    ParseItemOfText(Subject(subject));
    var parts := Parts(segments, Some(subject));
    assert parts == Parts(segments, None) + [OfText(subject)];
    RenderSnoc(segments, None, OfText(subject), parts);
  }

  /** Every finished address is parsed back from its text: the same segments and the same subject. */
  lemma ParseOfPrint(lower: string -> string, address: Address)
    requires Finished(lower, address)
    ensures Parse(lower, address.text) == Ok(address)
  {
    var segments, of := address.segments, address.of;
    SplitOfRender(segments, of);
    ParseOfSegments(lower, segments);
    if of.Some? {
      ParsePartsAppend(lower, EMPTY_ADDRESS, SegmentTexts(segments), OfText(of.value));
      ParsePartOfSubject(lower, segments, of.value);
    } else {
      assert Parts(segments, of) == SegmentTexts(segments);
    }
  }

  /** Text equality is structural equality: one address has one spelling. */
  lemma TextIsIdentity(lower: string -> string, a: Address, b: Address)
    requires Finished(lower, a) && Finished(lower, b)
    ensures a.text == b.text <==> a.segments == b.segments && a.of == b.of
  {
    ParseOfPrint(lower, a);
    ParseOfPrint(lower, b);
  }

  /** `from_str`: the loop over the parts, growing the address. */
  method ParseLoop(lower: string -> string, text: string) returns (r: Result<Address, Error>)
    ensures r == Parse(lower, text)
  {
    var parts := Split(text, '/');
    var address := EMPTY_ADDRESS;
    var i := 0;
    assert parts[0..] == parts;
    while i < |parts|
      invariant 0 <= i <= |parts|
      invariant ParseParts(lower, EMPTY_ADDRESS, parts) == ParseParts(lower, address, parts[i..])
    {
      var raw := parts[i];
      assert parts[i..][1..] == parts[i + 1..];
      if address.of.Some? {
        return Err(OfNotLast);
      }
      var pair := SplitOnce(raw, ':');
      if pair == None {
        return Err(MalformedSegment(raw));
      }
      var decoded := DecodeLoop(pair.value.1, true);
      if decoded.Err? {
        return Err(decoded.error);
      }
      if pair.value.0 == "of" {
        if LastKind(address.segments) != Some(Artifact) {
          return Err(OfNotAfterArtifact);
        }
        if decoded.value == "" {
          return Err(InvalidValue(Artifact, decoded.value));
        }
        TextOfParseItem(raw);
        address := Address(address.segments, Some(decoded.value), address.text + "/" + raw);
      } else {
        var kind := FromToken(pair.value.0);
        if kind == None {
          return Err(UnknownKind(pair.value.0));
        }
        var pushed := Push(lower, address, kind.value, decoded.value);
        if pushed.Err? {
          return Err(pushed.error);
        }
        address := pushed.value;
      }
      i := i + 1;
    }
    assert parts[i..] == [];
    r := Finish(address);
  }

  // ---- What an address may hold ----

  function KindsOf(segments: seq<Segment>): seq<Kind> {
    seq(|segments|, i requires 0 <= i < |segments| => segments[i].kind)
  }

  /** A lowercase DNS label: letters, digits and inner hyphens, at most 63. */
  predicate IsLabel(id: string) {
    && 1 <= |id| <= 63 && id[0] != '-' && id[|id| - 1] != '-'
    && forall i | 0 <= i < |id| :: id[i] in LOWER_LETTERS || id[i] in DIGITS || id[i] == '-'
  }

  lemma LabelIs(id: string)
    ensures ValidForgeId(id) <==> IsLabel(id)
  {
    hide IsLowerCase, IsDigit;
    forall i | 0 <= i < |id|
      ensures IsLowerCase(id[i]) <==> id[i] in LOWER_LETTERS
      ensures IsDigit(id[i]) <==> id[i] in DIGITS
    {
      LowerCaseIs(id[i]);
      DigitIs(id[i]);
    }
    if id != "" {
      LabelEnd(id[0]);
      LabelEnd(id[|id| - 1]);
    }
  }

  lemma LabelEnd(c: char)
    ensures IsLowerCase(c) || IsDigit(c) || c == '-' ==> (IsAlphanumeric(c) <==> c != '-')
  {
  }

  /** The decimal text of a 64-bit number. */
  ghost predicate IsNumber(value: string) {
    exists n: nat :: n < 0x1_0000_0000_0000_0000 && value == NatText(n)
  }

  lemma NumberIs(value: string)
    ensures CanonicalDigits(value) && DigitsValue(value) < U64_LIMIT <==> IsNumber(value)
  {
    if CanonicalDigits(value) {
      NatTextOfDigitsValue(value);
    }
    if n: nat :| n < 0x1_0000_0000_0000_0000 && value == NatText(n) {
      DigitsValueOfNatText(n);
    }
  }

  /** A SHA-1 or SHA-256 in lowercase hex. */
  predicate IsSha(value: string) {
    (|value| == 40 || |value| == 64) && forall i | 0 <= i < |value| :: value[i] in LOWER_HEX
  }

  lemma ShaIs(value: string)
    ensures All(value, IsLowerHex) && (|value| == 40 || |value| == 64) <==> IsSha(value)
  {
    hide IsLowerHex;
    forall i | 0 <= i < |value|
      ensures IsLowerHex(value[i]) <==> value[i] in LOWER_HEX
    {
      LowerHexIs(value[i]);
    }
  }

  lemma LowerHexIs(c: char)
    ensures IsLowerHex(c) <==> c in LOWER_HEX
  {
    if IsLowerHex(c) {
      assert LOWER_HEX[if IsDigit(c) then c as int - 0x30 else c as int - 0x61 + 10] == c;
    }
  }

  /** An owner and a repository on public GitHub, in lower case. */
  predicate IsGithubRepository(lower: string -> string, value: string) {
    ValidRepository(value) && lower(value) == value
  }

  /** What the value of each kind must be, given the segments before it. */
  ghost predicate ValueFits(lower: string -> string, segments: seq<Segment>, i: nat)
    requires i < |segments|
  {
    var value := segments[i].value;
    && value != ""
    && match segments[i].kind
       case Forge => IsLabel(value)
       case Usage => lower(Trim(value)) == value
       case Account => i == 0 || segments[i - 1].kind != Usage || lower(Trim(value)) == value
       case ChangeRequest => IsNumber(value)
       case Issue => IsNumber(value)
       case Commit => IsSha(value)
       case Repo => i == 0 || segments[0].value != "github" || IsGithubRepository(lower, value)
       case _ => true
  }

  lemma SegmentFits(lower: string -> string, segments: seq<Segment>, i: nat)
    requires i < |segments|
    ensures SegmentAdmitted(lower, segments[..i], segments[i]) <==>
            MayFollow(segments[i].kind, ParentAt(KindsOf(segments), i)) && ValueFits(lower, segments, i)
  {
    hide MayFollow, ValidForgeId, IsLabel, CanonicalDigits, DigitsValue, IsNumber, IsSha, IsLowerHex, Trim,
        ValidRepository;
    var value := segments[i].value;
    LabelIs(value);
    NumberIs(value);
    ShaIs(value);
    assert LastKind(segments[..i]) == ParentAt(KindsOf(segments), i);
    assert i > 0 ==> segments[..i][0] == segments[0];
  }

  lemma {:induction false} AdmittedAll(lower: string -> string, segments: seq<Segment>)
    ensures Admitted(lower, segments) <==>
            forall i | 0 <= i < |segments| :: SegmentAdmitted(lower, segments[..i], segments[i])
    decreases |segments|
  {
    hide SegmentAdmitted;
    if segments != [] {
      var n := |segments| - 1;
      AdmittedAll(lower, segments[..n]);
      assert forall i | 0 <= i < n :: segments[..n][..i] == segments[..i] && segments[..n][i] == segments[i];
    }
  }

  /** Segments are admitted exactly when their kinds make one of the shapes and every value is of its kind's form. */
  lemma AdmittedExactly(lower: string -> string, segments: seq<Segment>)
    ensures Admitted(lower, segments) <==>
            || segments == []
            || (IsShape(KindsOf(segments)) && forall i | 0 <= i < |segments| :: ValueFits(lower, segments, i))
  {
    hide Admitted, SegmentAdmitted, MayFollow, ValueFits, IsShape;
    AdmittedAll(lower, segments);
    ShapesExactly(KindsOf(segments));
    forall i | 0 <= i < |segments|
      ensures SegmentAdmitted(lower, segments[..i], segments[i]) <==>
              MayFollow(segments[i].kind, ParentAt(KindsOf(segments), i)) && ValueFits(lower, segments, i)
    {
      SegmentFits(lower, segments, i);
    }
    var kinds := KindsOf(segments);
    assert forall i | 0 <= i < |segments| :: kinds[i] == segments[i].kind;
  }
}
