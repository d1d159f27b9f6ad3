/**
 What typed input means (crates/flotilla-address/src/lenient.rs): segments in any spelling, short forms, and
 with pasted links the whole of `resolve`.
 */
module Spelled {
  import opened Outcomes
  import opened Text
  import opened Casing
  import opened Kinds
  import opened Errors
  import opened Forges
  import opened Encoding
  import opened Addresses
  import opened Containment
  import opened Lenient
  import opened Pasted

  // ---- Forge names ----

  /** The forge a name stands for, by its id or else by its host; `github` is always public GitHub. */
  predicate Named(forges: ForgeLookup, name: string, forge: Forge) {
    var lowered := ToAsciiLower(name);
    if lowered == "github" then forge == ForgeRecord("github", Github)
    else
      match forges.byId(lowered)
      case Some(found) => forge == found
      case None => Hosted(forges, lowered, forge)
  }

  lemma NamedExactly(forges: ForgeLookup, name: string, forge: Forge)
    ensures Lookup(forges, name) == Ok(forge) <==> Named(forges, name, forge)
  {
    HostedExactly(forges, ToAsciiLower(name), forge);
  }

  // ---- Rebuilding ----

  /** The value a segment is rebuilt with: forges by id, usage and repositories in lower case, others as they are. */
  ghost predicate ValueIs(lower: string -> string, forges: ForgeLookup, read: seq<Segment>, i: nat, value: string)
    requires i < |read|
  {
    match read[i].kind
    case Forge =>
      if i == 0 then exists forge :: Named(forges, read[0].value, forge) && value == forge.id
      else value == read[i].value
    case Usage => value == if i == 0 then lower(Trim(read[0].value)) else read[i].value
    case Account => value == if i == 1 && read[0].kind == Usage then lower(Trim(read[1].value)) else read[i].value
    case Repo =>
      if i == 1 && read[0].kind == Kind.Forge
      then ValidRepository(read[1].value) && value == lower(read[1].value)
      else value == read[i].value
    case _ => value == read[i].value
  }

  /** The segments read, rebuilt. */
  ghost predicate IsRebuilt(lower: string -> string, forges: ForgeLookup, read: seq<Segment>, segments: seq<Segment>) {
    && |segments| == |read|
    && forall i: nat | i < |read| ::
         segments[i].kind == read[i].kind && ValueIs(lower, forges, read, i, segments[i].value)
  }

  /** How many segments the head takes. */
  function HeadSize(read: seq<Segment>): nat
    requires read != []
  {
    if |read| > 1 && (read[0].kind == Usage || read[0].kind == Kind.Forge) then 2 else 1
  }

  ghost predicate IsHead(
    lower: string -> string, forges: ForgeLookup, read: seq<Segment>, segments: seq<Segment>, n: nat)
    requires n <= |read|
  {
    && |segments| == n
    && forall i: nat | i < n :: segments[i].kind == read[i].kind && ValueIs(lower, forges, read, i, segments[i].value)
  }

  lemma HeadOfUsage(lower: string -> string, forges: ForgeLookup, read: seq<Segment>)
    requires read != [] && read[0].kind == Usage
    ensures RebuildStart(lower, forges, read).Ok? ==>
              var (start, n) := RebuildStart(lower, forges, read).value;
              n == HeadSize(read) && IsHead(lower, forges, read, start.segments, n)
  {
    hide Root, UsageAddress, Trim, Built;
    RootBuilt(lower, Usage, NormaliseUsage(lower, read[0].value));
    if |read| > 1 {
      UsageBuilt(lower, read[0].value, read[1].value);
    }
  }

  lemma HeadOfForge(lower: string -> string, forges: ForgeLookup, read: seq<Segment>)
    requires Lowercase(lower) && read != [] && read[0].kind == Kind.Forge
    ensures RebuildStart(lower, forges, read).Ok? ==>
              var (start, n) := RebuildStart(lower, forges, read).value;
              n == HeadSize(read) && IsHead(lower, forges, read, start.segments, n)
  {
    hide Lookup, Push, ValidRepository, Built, Named, Lowercase;
    if Lookup(forges, read[0].value).Ok? {
      var forge := Lookup(forges, read[0].value).value;
      NamedExactly(forges, read[0].value, forge);
      if |read| > 1 {
        RepositoryBuilt(lower, forge, read[1].value);
      }
    }
  }

  lemma HeadOfOther(lower: string -> string, forges: ForgeLookup, read: seq<Segment>)
    requires read != [] && read[0].kind != Usage && read[0].kind != Kind.Forge
    ensures RebuildStart(lower, forges, read).Ok? ==>
              var (start, n) := RebuildStart(lower, forges, read).value;
              n == HeadSize(read) && IsHead(lower, forges, read, start.segments, n)
  {
    hide Root, Built;
    RootBuilt(lower, read[0].kind, read[0].value);
  }

  lemma HeadIs(lower: string -> string, forges: ForgeLookup, read: seq<Segment>)
    requires Lowercase(lower) && read != []
    ensures RebuildStart(lower, forges, read).Ok? ==>
              var (start, n) := RebuildStart(lower, forges, read).value;
              n == HeadSize(read) && IsHead(lower, forges, read, start.segments, n)
  {
    hide *;
    if read[0].kind == Usage {
      HeadOfUsage(lower, forges, read);
    } else if read[0].kind == Kind.Forge {
      HeadOfForge(lower, forges, read);
    } else {
      HeadOfOther(lower, forges, read);
    }
  }

  /** Past the head, values stay as they were read. */
  lemma PastHead(lower: string -> string, forges: ForgeLookup, read: seq<Segment>, i: nat, value: string)
    requires read != [] && HeadSize(read) <= i < |read|
    ensures ValueIs(lower, forges, read, i, value) <==> value == read[i].value
  {
  }

  lemma RebuildReads(lower: string -> string, forges: ForgeLookup, read: seq<Segment>, of: Option<string>)
    requires Lowercase(lower) && Rebuild(lower, forges, read, of).Ok?
    ensures var address := Rebuild(lower, forges, read, of).value;
            IsRebuilt(lower, forges, read, address.segments) && address.of == of && Finished(lower, address)
  {
    hide RebuildStart, AddChildren, AddSubject, Built, Finished, ValueIs, Lowercase, HeadSize;
    StartBuilt(lower, forges, read);
    HeadIs(lower, forges, read);
    var (start, n) := RebuildStart(lower, forges, read).value;
    ChildrenBuilt(lower, start, read[n..]);
    var built := AddChildren(lower, start, read[n..]).value;
    SubjectBuilt(lower, built, of);
    var segments := built.segments;
    forall i: nat | i < |read|
      ensures segments[i].kind == read[i].kind && ValueIs(lower, forges, read, i, segments[i].value)
    {
      if i < n {
        assert segments[i] == start.segments[i];
      } else {
        assert segments[i] == read[n..][i - n] == read[i];
        PastHead(lower, forges, read, i, read[i].value);
      }
    }
  }

  lemma StartIsUsage(lower: string -> string, forges: ForgeLookup, read: seq<Segment>, segments: seq<Segment>)
    requires read != [] && read[0].kind == Usage && IsRebuilt(lower, forges, read, segments)
    requires Admitted(lower, segments)
    ensures RebuildStart(lower, forges, read) == Ok((Plain(segments[..HeadSize(read)]), HeadSize(read)))
  {
    hide Child, Root, Plain, Admitted, Trim;
    assert segments[0].kind == Usage && ValueIs(lower, forges, read, 0, segments[0].value);
    FirstPlain(lower, segments);
    if |read| > 1 {
      StartOfAccount(lower, segments);
      assert read[1].kind == Account && ValueIs(lower, forges, read, 1, segments[1].value);
    }
  }

  lemma StartIsForge(lower: string -> string, forges: ForgeLookup, read: seq<Segment>, segments: seq<Segment>)
    requires read != [] && read[0].kind == Kind.Forge && IsRebuilt(lower, forges, read, segments)
    requires Admitted(lower, segments)
    ensures RebuildStart(lower, forges, read) == Ok((Plain(segments[..HeadSize(read)]), HeadSize(read)))
  {
    hide Child, Root, Plain, Admitted, Lookup, Push, Named, ForgeAddress, ValidRepository;
    assert segments[0].kind == Kind.Forge && ValueIs(lower, forges, read, 0, segments[0].value);
    var forge :| Named(forges, read[0].value, forge) && segments[0].value == forge.id;
    NamedExactly(forges, read[0].value, forge);
    ForgeIsPlain(forge);
    assert segments[..1] == [Segment(Kind.Forge, forge.id)];
    if |read| > 1 {
      ShapeAt(lower, segments, 1);
      assert read[1].kind == Repo && ValueIs(lower, forges, read, 1, segments[1].value);
      PushAt(lower, segments, 1);
    }
  }

  lemma StartIsOther(lower: string -> string, forges: ForgeLookup, read: seq<Segment>, segments: seq<Segment>)
    requires read != [] && read[0].kind != Usage && read[0].kind != Kind.Forge
    requires IsRebuilt(lower, forges, read, segments) && Admitted(lower, segments)
    ensures RebuildStart(lower, forges, read) == Ok((Plain(segments[..HeadSize(read)]), HeadSize(read)))
  {
    hide Root, Plain, Admitted;
    assert ValueIs(lower, forges, read, 0, segments[0].value);
    FirstPlain(lower, segments);
  }

  lemma StartIs(lower: string -> string, forges: ForgeLookup, read: seq<Segment>, segments: seq<Segment>)
    requires read != [] && IsRebuilt(lower, forges, read, segments) && Admitted(lower, segments)
    ensures RebuildStart(lower, forges, read) == Ok((Plain(segments[..HeadSize(read)]), HeadSize(read)))
  {
    hide *;
    if read[0].kind == Usage {
      StartIsUsage(lower, forges, read, segments);
    } else if read[0].kind == Kind.Forge {
      StartIsForge(lower, forges, read, segments);
    } else {
      StartIsOther(lower, forges, read, segments);
    }
  }

  lemma NoRepositoryPastHead(lower: string -> string, read: seq<Segment>, segments: seq<Segment>, i: nat)
    requires read != [] && |segments| == |read| && segments[0].kind == read[0].kind && Admitted(lower, segments)
    requires HeadSize(read) <= i < |segments|
    ensures segments[i].kind != Repo
  {
    hide Admitted;
    if segments[i].kind == Repo {
      RepositoryPosition(lower, segments, i);
    }
  }

  lemma ReadsRebuild(lower: string -> string, forges: ForgeLookup, read: seq<Segment>, address: Address)
    requires IsRebuilt(lower, forges, read, address.segments) && Finished(lower, address)
    ensures Rebuild(lower, forges, read, address.of) == Ok(address)
  {
    hide RebuildStart, AddChildren, AddSubject, ValueIs, HeadSize, Admitted, Plain, Render;
    var segments, n := address.segments, HeadSize(read);
    StartIs(lower, forges, read, segments);
    forall i: nat | n <= i < |read|
      ensures segments[i] == read[i] && segments[i].kind != Repo
    {
      assert ValueIs(lower, forges, read, i, segments[i].value);
      PastHead(lower, forges, read, i, segments[i].value);
      NoRepositoryPastHead(lower, read, segments, i);
    }
    HeadFits(read);
    assert read[n..] == segments[n..];
    AddChildrenOf(lower, segments, n);
    SubjectOf(lower, address);
  }

  lemma HeadFits(read: seq<Segment>)
    requires read != []
    ensures 1 <= HeadSize(read) <= |read|
  {
  }

  /** Segments rebuild to an address exactly when it is finished and is those segments with their names resolved. */
  lemma RebuildExactly(
    lower: string -> string, forges: ForgeLookup, read: seq<Segment>, of: Option<string>, address: Address)
    requires Lowercase(lower)
    ensures Rebuild(lower, forges, read, of) == Ok(address) <==>
            IsRebuilt(lower, forges, read, address.segments) && address.of == of && Finished(lower, address)
  {
    hide Rebuild, IsRebuilt, Finished, Lowercase;
    if Rebuild(lower, forges, read, of) == Ok(address) {
      RebuildReads(lower, forges, read, of);
    }
    if IsRebuilt(lower, forges, read, address.segments) && address.of == of && Finished(lower, address) {
      ReadsRebuild(lower, forges, read, address);
    }
  }

  // ---- Typed segments ----

  /** The part spells the segment: the kind's token in any case, and the value in any escape spelling. */
  ghost predicate SpellsSegment(part: string, segment: Segment) {
    exists token, encoded ::
      && part == token + ":" + encoded && ':' !in token && ToAsciiLower(token) == Token(segment.kind)
      && DecodeLenient(encoded) == Ok(segment.value)
  }

  /** The part spells the subject of an artifact. */
  ghost predicate SpellsSubject(part: string, subject: string) {
    exists encoded :: part == "of:" + encoded && DecodeLenient(encoded) == Ok(subject)
  }

  /** The parts spell the segments in order, and last a subject when there is one. */
  ghost predicate SpellsAll(parts: seq<string>, segments: seq<Segment>, of: Option<string>) {
    && |parts| == |segments| + (if of.Some? then 1 else 0)
    && (forall i | 0 <= i < |segments| :: SpellsSegment(parts[i], segments[i]))
    && (of.Some? ==> SpellsSubject(parts[|segments|], of.value))
  }

  /** What a part is read as. */
  function ReadPart(part: string): Option<Item> {
    match SplitOnce(part, ':')
    case None => None
    case Some((token, encoded)) =>
      match DecodeLenient(encoded)
      case Err(_) => None
      case Ok(value) =>
        if token == "of" then Some(Subject(value))
        else
          match FromToken(ToAsciiLower(token))
          case None => None
          case Some(kind) => Some(Typed(Segment(kind, value)))
  }

  lemma ReadPartExactly(part: string)
    ensures forall segment :: ReadPart(part) == Some(Typed(segment)) <==> SpellsSegment(part, segment)
    ensures forall subject :: ReadPart(part) == Some(Subject(subject)) <==> SpellsSubject(part, subject)
  {
    forall segment
      ensures ReadPart(part) == Some(Typed(segment)) <==> SpellsSegment(part, segment)
    {
      ReadSegmentExactly(part, segment);
    }
    forall subject
      ensures ReadPart(part) == Some(Subject(subject)) <==> SpellsSubject(part, subject)
    {
      ReadSubjectExactly(part, subject);
    }
  }

  lemma ReadSegmentExactly(part: string, segment: Segment)
    ensures ReadPart(part) == Some(Typed(segment)) <==> SpellsSegment(part, segment)
  {
    hide DecodeLenient, SplitOnce, FromToken, ToAsciiLower, Token;
    FromTokenOfToken(segment.kind);
    LowerOf();
    if ReadPart(part) == Some(Typed(segment)) {
      var (token, encoded) := SplitOnce(part, ':').value;
      assert part == token + ":" + encoded;
    }
    if SpellsSegment(part, segment) {
      var token, encoded :|
        && part == token + ":" + encoded && ':' !in token && ToAsciiLower(token) == Token(segment.kind)
        && DecodeLenient(encoded) == Ok(segment.value);
      SplitOnceOf(token, ':', encoded);
    }
  }

  lemma LowerOf()
    ensures ToAsciiLower("of") == "of"
  {
    AsciiLowerFixed("of");
  }

  lemma ReadSubjectExactly(part: string, subject: string)
    ensures ReadPart(part) == Some(Subject(subject)) <==> SpellsSubject(part, subject)
  {
    hide DecodeLenient, SplitOnce, FromToken, ToAsciiLower;
    if ReadPart(part) == Some(Subject(subject)) {
      var encoded := SplitOnce(part, ':').value.1;
      assert part == "of" + ":" + encoded == "of:" + encoded;
    }
    if SpellsSubject(part, subject) {
      var encoded :| part == "of:" + encoded && DecodeLenient(encoded) == Ok(subject);
      SplitOnceOf("of", ':', encoded);
      assert part == "of" + ":" + encoded;
    }
  }

  /** One more part, read. */
  lemma ReadStep(parts: seq<string>, before: seq<Segment>)
    requires parts != []
    ensures ReadSegments(parts, before, None).Ok? ==> ReadPart(parts[0]).Some?
    ensures ReadPart(parts[0]).Some? && ReadPart(parts[0]).value.Typed? ==>
              ReadSegments(parts, before, None) ==
              ReadSegments(parts[1..], before + [ReadPart(parts[0]).value.segment], None)
    ensures ReadPart(parts[0]).Some? && ReadPart(parts[0]).value.Subject? ==>
              (ReadSegments(parts, before, None).Ok? <==> |parts| == 1)
    ensures ReadPart(parts[0]).Some? && ReadPart(parts[0]).value.Subject? && |parts| == 1 ==>
              ReadSegments(parts, before, None) == Ok((before, Some(ReadPart(parts[0]).value.value)))
  {
    hide DecodeLenient, SplitOnce, FromToken, ToAsciiLower;
  }

  /** The loop over the parts reads exactly what they spell. */
  lemma {:induction false} ReadExactly(
    parts: seq<string>, before: seq<Segment>, segments: seq<Segment>, of: Option<string>)
    ensures ReadSegments(parts, before, None) == Ok((before + segments, of)) <==> SpellsAll(parts, segments, of)
    decreases |parts|
  {
    hide ReadPart, SpellsSegment, SpellsSubject;
    if parts == [] {
      assert segments == [] ==> before + segments == before;
      assert before + segments == before ==> |segments| == 0;
    } else {
      ReadStep(parts, before);
      hide ReadSegments;
      var rest := parts[1..];
      match ReadPart(parts[0])
      case None =>
        ReadPartExactly(parts[0]);
      case Some(Subject(subject)) =>
        ReadPartExactly(parts[0]);
        assert before + segments == before ==> |segments| == 0;
        assert segments == [] ==> before + segments == before;
      case Some(Typed(segment)) =>
        hide SpellsAll;
        if segments != [] && segments[0] == segment {
          ReadExactly(rest, before + [segment], segments[1..], of);
          assert before + [segment] + segments[1..] == before + segments;
          ReadSegmentExactly(parts[0], segment);
          SpellsTail(parts, segments, of);
        } else {
          ReadKeeps(rest, before + [segment]);
          SameHead(before, segment, segments);
          NotSpelled(parts, segments, of, segment);
        }
    }
  }

  lemma NotSpelled(parts: seq<string>, segments: seq<Segment>, of: Option<string>, segment: Segment)
    requires parts != [] && ReadPart(parts[0]) == Some(Typed(segment)) && !(segments != [] && segments[0] == segment)
    ensures !SpellsAll(parts, segments, of)
  {
    hide ReadPart, SpellsSegment, SpellsSubject;
    ReadPartExactly(parts[0]);
  }

  lemma SameHead(before: seq<Segment>, segment: Segment, segments: seq<Segment>)
    ensures before + [segment] <= before + segments ==> segments != [] && segments[0] == segment
  {
    if before + [segment] <= before + segments {
      assert (before + [segment])[|before|] == (before + segments)[|before|];
    }
  }

  lemma SpellsTail(parts: seq<string>, segments: seq<Segment>, of: Option<string>)
    requires parts != [] && segments != [] && SpellsSegment(parts[0], segments[0])
    ensures SpellsAll(parts, segments, of) <==> SpellsAll(parts[1..], segments[1..], of)
  {
    hide SpellsSegment, SpellsSubject;
    var rest, tail := parts[1..], segments[1..];
    if SpellsAll(rest, tail, of) {
      forall i | 0 <= i < |segments|
        ensures SpellsSegment(parts[i], segments[i])
      {
        if i > 0 {
          assert SpellsSegment(rest[i - 1], tail[i - 1]);
        }
      }
    }
  }

  /** What was read stays read. */
  lemma {:induction false} ReadKeeps(parts: seq<string>, before: seq<Segment>)
    ensures ReadSegments(parts, before, None).Ok? ==> before <= ReadSegments(parts, before, None).value.0
    decreases |parts|
  {
    hide ReadPart;
    if parts != [] {
      ReadStep(parts, before);
      match ReadPart(parts[0])
      case None =>
      case Some(Typed(segment)) => ReadKeeps(parts[1..], before + [segment]);
      case Some(Subject(_)) =>
    }
  }

  // ---- Short forms ----

  datatype Short =
    | OfProject(name: string) | OfFleet(name: string) | OfConvoy(name: string)
    | OfUsage(provider: string, account: string)
    | OfChange(service: string, owner: string, repo: string, number: nat)
    | OfIssue(service: string, owner: string, repo: string, number: nat)
    | OfArtifact(convoy: string, role: string, kind: string, subject: seq<string>)

  function ShortParts(short: Short): seq<string> {
    match short
    case OfProject(name) => ["project", name]
    case OfFleet(name) => ["fleet", name]
    case OfConvoy(name) => ["convoy", name]
    case OfUsage(provider, account) => ["usage", provider, account]
    case OfChange(service, owner, repo, number) => ["cr", service, owner, repo, NatText(number)]
    case OfIssue(service, owner, repo, number) => ["issue", service, owner, repo, NatText(number)]
    case OfArtifact(convoy, role, kind, subject) => ["artifact", convoy, role, kind] + subject
  }

  ghost predicate IsNumbered(
    lower: string -> string, forges: ForgeLookup, service: string, owner: string, repo: string, segment: Segment,
    address: Address)
  {
    && ValidNames(owner, repo)
    && exists forge :: Named(forges, service, forge) && address == Plain(
         [Segment(Kind.Forge, forge.id), Segment(Repo, lower(owner + "/" + repo)), segment])
  }

  /** The address a short form stands for. */
  ghost predicate IsShort(lower: string -> string, forges: ForgeLookup, short: Short, address: Address) {
    match short
    case OfProject(name) => name != "" && address == Plain([Segment(Project, name)])
    case OfFleet(name) => name != "" && address == Plain([Segment(Fleet, name)])
    case OfConvoy(name) => name != "" && address == Plain([Segment(Convoy, name)])
    case OfUsage(provider, account) =>
      var (usage, holder) := (lower(Trim(provider)), lower(Trim(account)));
      usage != "" && holder != "" && address == Plain([Segment(Usage, usage), Segment(Account, holder)])
    case OfChange(service, owner, repo, number) =>
      number < U64_LIMIT
          && IsNumbered(lower, forges, service, owner, repo, Segment(ChangeRequest, NatText(number)), address)
    case OfIssue(service, owner, repo, number) =>
      number < U64_LIMIT && IsNumbered(lower, forges, service, owner, repo, Segment(Issue, NatText(number)), address)
    case OfArtifact(convoy, role, kind, subject) =>
      var segments := [Segment(Convoy, convoy), Segment(Role, role), Segment(Artifact, kind)];
      && convoy != "" && role != "" && kind != "" && Join(subject, '/') != ""
      && address == Address(segments, Some(Join(subject, '/')), Render(segments, Some(Join(subject, '/'))))
  }

  /** The parts spell the values, in any escape spelling. */
  predicate Decodes(parts: seq<string>, values: seq<string>) {
    |values| == |parts| && forall i | 0 <= i < |parts| :: DecodeLenient(parts[i]) == Ok(values[i])
  }

  lemma {:induction false} DecodeAllExactly(parts: seq<string>, values: seq<string>)
    ensures DecodeAll(parts) == Ok(values) <==> Decodes(parts, values)
  {
    hide DecodeLenient;
    if parts != [] && values != [] {
      DecodeAllExactly(parts[1..], values[1..]);
      assert values == [values[0]] + values[1..];
      if Decodes(parts[1..], values[1..]) && DecodeLenient(parts[0]) == Ok(values[0]) {
        forall i | 0 <= i < |parts|
          ensures DecodeLenient(parts[i]) == Ok(values[i])
        {
          assert i > 0 ==> DecodeLenient(parts[1..][i - 1]) == Ok(values[1..][i - 1]);
        }
      }
    }
  }

  lemma RootIs(lower: string -> string, kind: Kind, value: string, address: Address)
    requires kind in {Project, Fleet, Convoy}
    ensures Root(lower, kind, value) == Ok(address) <==> value != "" && address == Plain([Segment(kind, value)])
  {
    hide Child, Plain;
    PlainSegments([]);
    ChildOf(lower, [], kind, value);
    assert [] + [Segment(kind, value)] == [Segment(kind, value)];
  }

  lemma UsageIs(lower: string -> string, provider: string, account: string, address: Address)
    requires Lowercase(lower)
    ensures UsageAddress(lower, provider, account) == Ok(address) <==>
            var (usage, holder) := (lower(Trim(provider)), lower(Trim(account)));
            usage != "" && holder != "" && address == Plain([Segment(Usage, usage), Segment(Account, holder)])
  {
    hide Child, Plain, Trim, Lowercase, SegmentAdmitted;
    var usage, holder := NormaliseUsage(lower, provider), NormaliseUsage(lower, account);
    PlainSegments([]);
    ChildOf(lower, [], Usage, usage);
    assert [] + [Segment(Usage, usage)] == [Segment(Usage, usage)];
    ChildOf(lower, [Segment(Usage, usage)], Account, holder);
    UsageAdmitted(lower, provider, account);
    assert [Segment(Usage, usage)] + [Segment(Account, holder)] == [Segment(Usage, usage), Segment(Account, holder)];
  }

  lemma UsageAdmitted(lower: string -> string, provider: string, account: string)
    requires Lowercase(lower)
    ensures var (usage, holder) := (NormaliseUsage(lower, provider), NormaliseUsage(lower, account));
            && (SegmentAdmitted(lower, [], Segment(Usage, usage)) <==> usage != "")
            && (SegmentAdmitted(lower, [Segment(Usage, usage)], Segment(Account, holder)) <==> holder != "")
  {
    hide Trim, NormaliseUsage;
    NormalisedUsage(lower, provider);
    NormalisedUsage(lower, account);
  }

  lemma NormalisedUsage(lower: string -> string, value: string)
    requires Lowercase(lower)
    ensures NormaliseUsage(lower, NormaliseUsage(lower, value)) == NormaliseUsage(lower, value)
  {
    hide Trim;
    TrimIsTrimmed(value);
    TrimIsTrimmed(lower(Trim(value)));
  }

  lemma ArtifactIs(
    lower: string -> string, convoy: string, role: string, kind: string, subject: string, address: Address)
    requires convoy != "" && role != ""
    ensures var segments := [Segment(Convoy, convoy), Segment(Role, role)];
            ArtifactOf(lower, Plain(segments), kind, subject) == Ok(address) <==>
            var whole := segments + [Segment(Artifact, kind)];
            kind != "" && subject != "" && address == Address(whole, Some(subject), Render(whole, Some(subject)))
  {
    hide Child, Render;
    var segments := [Segment(Convoy, convoy), Segment(Role, role)];
    var whole := segments + [Segment(Artifact, kind)];
    ChildOf(lower, segments, Artifact, kind);
    SubjectText(whole, subject);
  }

  lemma RoleIs(lower: string -> string, convoy: string, role: string)
    requires convoy != ""
    ensures Child(lower, Plain([Segment(Convoy, convoy)]), Role, role).Ok? <==> role != ""
    ensures role != "" ==>
              Child(lower, Plain([Segment(Convoy, convoy)]), Role, role) ==
              Ok(Plain([Segment(Convoy, convoy), Segment(Role, role)]))
  {
    hide Child, Plain;
    ChildOf(lower, [Segment(Convoy, convoy)], Role, role);
    assert [Segment(Convoy, convoy)] + [Segment(Role, role)] == [Segment(Convoy, convoy), Segment(Role, role)];
  }

  lemma ServiceIs(
    lower: string -> string, forges: ForgeLookup, service: string, owner: string, repo: string, kind: Kind,
    number: string, address: Address)
    requires Lowercase(lower) && kind in {ChangeRequest, Issue}
    ensures (var forge :- Lookup(forges, service);
             var parsed :- ParseNumber(number);
             Numbered(lower, forge, owner + "/" + repo, kind, parsed)) == Ok(address) <==>
            exists n: nat :: n < U64_LIMIT && number == NatText(n)
              && IsNumbered(lower, forges, service, owner, repo, Segment(kind, NatText(n)), address)
  {
    hide Lookup, ParseNumber, Numbered, Named, Plain, Lowercase, NatText;
    if Lookup(forges, service).Ok? && ParseNumber(number).Ok? {
      var forge, n := Lookup(forges, service).value, ParseNumber(number).value;
      NamedExactly(forges, service, forge);
      ParseNumberExactly(number, n);
      NumberedIs(lower, forge, owner, repo, kind, n);
      if Numbered(lower, forge, owner + "/" + repo, kind, n) == Ok(address) {
        assert IsNumbered(lower, forges, service, owner, repo, Segment(kind, NatText(n)), address);
      }
    }
    if n: nat :| n < U64_LIMIT && number == NatText(n) &&
                 IsNumbered(lower, forges, service, owner, repo, Segment(kind, NatText(n)), address)
    {
      var forge :| Named(forges, service, forge) && address == Plain(
          [Segment(Kind.Forge, forge.id), Segment(Repo, lower(owner + "/" + repo)), Segment(kind, NatText(n))]);
      NamedExactly(forges, service, forge);
      ParseNumberExactly(number, n);
      NumberedIs(lower, forge, owner, repo, kind, n);
    }
  }

  /** What a short form in its decoded parts resolves to. */
  lemma ShortIs(lower: string -> string, forges: ForgeLookup, short: Short, text: string, address: Address)
    requires Lowercase(lower) && DecodeAll(Split(text, '/')) == Ok(ShortParts(short))
    ensures ResolveShort(lower, forges, text) == Ok(address) <==> IsShort(lower, forges, short, address)
  {
    hide Split, DecodeAll, Root, UsageAddress, Numbered, ParseNumber, Lookup, Join, Plain, Render, Child, ArtifactOf,
         Lowercase, NatText, IsNumbered, Trim;
    match short
    case OfProject(name) => RootIs(lower, Project, name, address);
    case OfFleet(name) => RootIs(lower, Fleet, name, address);
    case OfConvoy(name) => RootIs(lower, Convoy, name, address);
    case OfUsage(provider, account) => UsageIs(lower, provider, account, address);
    case OfChange(_, _, _, _) =>
      NumberedShortIs(lower, forges, short, text, address);
    case OfIssue(_, _, _, _) =>
      NumberedShortIs(lower, forges, short, text, address);
    case OfArtifact(convoy, role, kind, subject) =>
      ArtifactShortIs(lower, forges, short, text, address);
  }

  lemma NumberedShortIs(lower: string -> string, forges: ForgeLookup, short: Short, text: string, address: Address)
    requires Lowercase(lower) && (short.OfChange? || short.OfIssue?)
    requires DecodeAll(Split(text, '/')) == Ok(ShortParts(short))
    ensures ResolveShort(lower, forges, text) == Ok(address) <==> IsShort(lower, forges, short, address)
  {
    hide Split, DecodeAll, Root, UsageAddress, Numbered, ParseNumber, Lookup, Join, Child, ArtifactOf, Lowercase,
         NatText, IsNumbered;
    var parts, kind := ShortParts(short), if short.OfChange? then ChangeRequest else Issue;
    assert |parts| == 5 && parts[1] == short.service && parts[2] == short.owner && parts[3] == short.repo;
    assert parts[4] == NatText(short.number) && (parts[0] == "cr" <==> short.OfChange?);
    assert short.OfIssue? ==> parts[0] == "issue";
    ServiceIs(lower, forges, parts[1], parts[2], parts[3], kind, parts[4], address);
    NatTextInjective();
  }

  lemma NatTextInjective()
    ensures forall m: nat, n: nat | NatText(m) == NatText(n) :: m == n
  {
    forall m: nat, n: nat | NatText(m) == NatText(n)
      ensures m == n
    {
      DigitsValueOfNatText(m);
      DigitsValueOfNatText(n);
    }
  }

  lemma ArtifactShortIs(lower: string -> string, forges: ForgeLookup, short: Short, text: string, address: Address)
    requires short.OfArtifact? && DecodeAll(Split(text, '/')) == Ok(ShortParts(short))
    ensures ResolveShort(lower, forges, text) == Ok(address) <==> IsShort(lower, forges, short, address)
  {
    hide Split, DecodeAll, Root, Plain, Render, Child, ArtifactOf;
    var OfArtifact(convoy, role, kind, subject) := short;
    var parts := ShortParts(short);
    assert parts[4..] == subject;
    RootIs(lower, Convoy, convoy, Plain([Segment(Convoy, convoy)]));
    if Root(lower, Convoy, convoy).Ok? {
      RootIs(lower, Convoy, convoy, Root(lower, Convoy, convoy).value);
      RoleIs(lower, convoy, role);
      if role != "" {
        ArtifactIs(lower, convoy, role, kind, Join(subject, '/'), address);
        assert [Segment(Convoy, convoy), Segment(Role, role)] + [Segment(Artifact, kind)] ==
               [Segment(Convoy, convoy), Segment(Role, role), Segment(Artifact, kind)];
      }
    }
  }

  /** Parts that resolve are those of a short form. */
  lemma PartsOfShort(lower: string -> string, forges: ForgeLookup, text: string, parts: seq<string>)
    returns (short: Short)
    requires DecodeAll(Split(text, '/')) == Ok(parts) && ResolveShort(lower, forges, text).Ok?
    ensures ShortParts(short) == parts
  {
    hide Split, DecodeAll, Root, UsageAddress, Numbered, ParseNumber, Lookup, Join, ArtifactOf, Child, NatText;
    if |parts| == 2 {
      short := if parts[0] == "project" then OfProject(parts[1])
        else if parts[0] == "fleet" then OfFleet(parts[1]) else OfConvoy(parts[1]);
    } else if |parts| == 3 {
      short := OfUsage(parts[1], parts[2]);
    } else if parts[0] == "artifact" {
      short := OfArtifact(parts[1], parts[2], parts[3], parts[4..]);
    } else {
      var number := ParseNumber(parts[4]).value;
      ParseNumberExactly(parts[4], number);
      short := if parts[0] == "cr" then OfChange(parts[1], parts[2], parts[3], number)
        else OfIssue(parts[1], parts[2], parts[3], number);
    }
  }

  /** The text is a short form in some spelling, and this is the address it stands for. */
  ghost predicate IsShortForm(lower: string -> string, forges: ForgeLookup, text: string, address: Address) {
    exists short :: Decodes(Split(text, '/'), ShortParts(short)) && IsShort(lower, forges, short, address)
  }

  lemma ShortExactly(lower: string -> string, forges: ForgeLookup, text: string, address: Address)
    requires Lowercase(lower)
    ensures ResolveShort(lower, forges, text) == Ok(address) <==> IsShortForm(lower, forges, text, address)
  {
    hide IsShort, Split, Decodes, ShortParts, Lowercase;
    if ResolveShort(lower, forges, text) == Ok(address) {
      var parts := DecodeAll(Split(text, '/')).value;
      DecodeAllExactly(Split(text, '/'), parts);
      var short := PartsOfShort(lower, forges, text, parts);
      ShortIs(lower, forges, short, text, address);
    }
    if short :| Decodes(Split(text, '/'), ShortParts(short)) && IsShort(lower, forges, short, address) {
      DecodeAllExactly(Split(text, '/'), ShortParts(short));
      ShortIs(lower, forges, short, text, address);
    }
  }

  // ---- The whole of `resolve` ----

  /** The text is segments in some spelling, and this is the address they rebuild. */
  ghost predicate IsTyped(lower: string -> string, forges: ForgeLookup, text: string, address: Address) {
    && Finished(lower, address)
    && exists read :: SpellsAll(Split(text, '/'), read, address.of) && IsRebuilt(lower, forges, read, address.segments)
  }

  lemma TypedExactly(lower: string -> string, forges: ForgeLookup, text: string, address: Address)
    requires Lowercase(lower)
    ensures ResolveSegments(lower, forges, text) == Ok(address) <==> IsTyped(lower, forges, text, address)
  {
    hide Split, ReadSegments, Rebuild, IsRebuilt, SpellsAll, Finished, Lowercase;
    var parts := Split(text, '/');
    if ResolveSegments(lower, forges, text) == Ok(address) {
      var (read, of) := ReadSegments(parts, [], None).value;
      assert [] + read == read;
      ReadExactly(parts, [], read, of);
      RebuildExactly(lower, forges, read, of, address);
    }
    if IsTyped(lower, forges, text, address) {
      var read :| SpellsAll(parts, read, address.of) && IsRebuilt(lower, forges, read, address.segments);
      assert [] + read == read;
      ReadExactly(parts, [], read, address.of);
      RebuildExactly(lower, forges, read, address.of, address);
    }
  }

  /** The text is a finished address's own, which stands for itself, in its forge's case when the forge is known. */
  ghost predicate IsOwnText(lower: string -> string, forges: ForgeLookup, written: Address, address: Address) {
    if ForgeKnown(forges, written)
    then IsRebuilt(lower, forges, written.segments, address.segments) && address.of == written.of
        && Finished(lower, address)
    else address == written
  }

  /** What text means: its own address, a pasted link, typed segments or a short form, in this order. */
  ghost predicate Means(lower: string -> string, forges: ForgeLookup, text: string, address: Address) {
    if exists written :: Finished(lower, written) && written.text == text
    then exists written ::
        Finished(lower, written) && written.text == text && IsOwnText(lower, forges, written, address)
    else if HostAndPath(text).Some? then IsPasted(lower, forges, text, address)
    else if ':' in Split(text, '/')[0] then IsTyped(lower, forges, text, address)
    else IsShortForm(lower, forges, text, address)
  }

  lemma ParseExactly(lower: string -> string, text: string, address: Address)
    ensures Parse(lower, text) == Ok(address) <==> Finished(lower, address) && address.text == text
  {
    hide Parse, Finished;
    PrintOfParse(lower, text);
    if Finished(lower, address) {
      ParseOfPrint(lower, address);
    }
  }

  /** `resolve` returns an address exactly when its input, trimmed, means that address. */
  lemma ResolveExactly(lower: string -> string, forges: ForgeLookup, input: string, address: Address)
    requires Lowercase(lower)
    ensures Resolve(lower, forges, input) == Ok(address) <==> Means(lower, forges, Trim(input), address)
  {
    hide Parse, Finished, ForgeKnown, Rebuild, IsRebuilt, Trim, HostAndPath, Split, ResolveSegments, ResolveShort,
         IsPasted, IsTyped, IsShortForm, Lowercase;
    var text := Trim(input);
    if Parse(lower, text).Ok? {
      var written := Parse(lower, text).value;
      ParseExactly(lower, text, written);
      ResolveWritten(lower, forges, written, input);
      RebuildExactly(lower, forges, written.segments, written.of, address);
      forall other | Finished(lower, other) && other.text == text
        ensures other == written
      {
        ParseExactly(lower, text, other);
      }
    } else {
      forall written
        ensures !(Finished(lower, written) && written.text == text)
      {
        ParseExactly(lower, text, written);
      }
      if HostAndPath(text).Some? {
        PastedExactly(lower, forges, input, address);
      } else {
        ResolveOther(lower, forges, input);
        TypedExactly(lower, forges, text, address);
        ShortExactly(lower, forges, text, address);
      }
    }
  }

  lemma ResolveWritten(lower: string -> string, forges: ForgeLookup, written: Address, input: string)
    requires Parse(lower, Trim(input)) == Ok(written)
    ensures Resolve(lower, forges, input) ==
            if ForgeKnown(forges, written) then Rebuild(lower, forges, written.segments, written.of) else Ok(written)
  {
    hide Parse, Trim, Rebuild;
  }

  lemma ResolveOther(lower: string -> string, forges: ForgeLookup, input: string)
    requires Parse(lower, Trim(input)).Err? && HostAndPath(Trim(input)).None?
    ensures var text := Trim(input);
            Resolve(lower, forges, input) ==
            if ':' in Split(text, '/')[0] then ResolveSegments(lower, forges, text)
                else ResolveShort(lower, forges, text)
  {
    hide Parse, Trim, HostAndPath, ResolveSegments, ResolveShort;
  }
}
