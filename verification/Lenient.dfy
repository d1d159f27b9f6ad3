/**
 Lenient input: short forms, URLs, hosts and mixed case, resolved to the canonical form
 (crates/flotilla-address/src/lenient.rs).
 */
module Lenient {
  import opened Outcomes
  import opened Text
  import opened Casing
  import opened Kinds
  import opened Errors
  import opened Forges
  import opened Encoding
  import opened Addresses
  import opened Containment

  /** A forge named by id, or by host, URL authority or SSH alias. */
  function Lookup(forges: ForgeLookup, name: string): Result<Forge, Error> {
    var lowered := ToAsciiLower(name);
    match ForgeById(forges, lowered)
    case Some(forge) => Ok(forge)
    case None =>
      match ForgeByHost(forges, lowered)
      case Some(forge) => Ok(forge)
      case None => Err(UnresolvedForge(name))
  }

  // ---- Rebuilding from decoded segments ----

  /** The head of the address, and how many segments it took. */
  function RebuildStart(
    lower: string -> string, forges: ForgeLookup, segments: seq<Segment>): (r: Result<(Address, nat), Error>)
    requires segments != []
    ensures r.Ok? ==> 1 <= r.value.1 <= |segments|
  {
    var Segment(kind, value) := segments[0];
    if kind == Usage then
      if |segments| == 1 then
        var address :- Root(lower, kind, NormaliseUsage(lower, value));
        Ok((address, 1))
      else if segments[1].kind == Account then
        var address :- UsageAddress(lower, value, segments[1].value);
        Ok((address, 2))
      else Err(Shape(segments[1].kind, Some(Usage)))
    else if kind == Kind.Forge then
      var forge :- Lookup(forges, value);
      if |segments| == 1 then Ok((ForgeAddress(forge), 1))
      else if segments[1].kind == Repo then
        var address :- Repository(lower, forge, segments[1].value);
        Ok((address, 2))
      else Err(Shape(segments[1].kind, Some(Kind.Forge)))
    else
      var address :- Root(lower, kind, value);
      Ok((address, 1))
  }

  function AddChildren(lower: string -> string, address: Address, segments: seq<Segment>): Result<Address, Error>
    decreases |segments|
  {
    if segments == [] then Ok(address)
    else
      var next :- Child(lower, address, segments[0].kind, segments[0].value);
      AddChildren(lower, next, segments[1..])
  }

  function AddSubject(lower: string -> string, address: Address, of: Option<string>): Result<Address, Error> {
    match of
    case None => if LastKind(address.segments) == Some(Artifact) then Err(ArtifactWithoutSubject) else Ok(address)
    case Some(subject) =>
      match Parent(address)
      case None => Err(OfNotAfterArtifact)
      case Some(role) =>
        if LastKind(address.segments) != Some(Artifact) then Err(OfNotAfterArtifact)
        else ArtifactOf(lower, role, address.segments[|address.segments| - 1].value, subject)
  }

  function Rebuild(
    lower: string -> string, forges: ForgeLookup, segments: seq<Segment>, of: Option<string>): Result<Address, Error>
  {
    if segments == [] then Err(Empty)
    else
      var (start, taken) :- RebuildStart(lower, forges, segments);
      var address :- AddChildren(lower, start, segments[taken..]);
      AddSubject(lower, address, of)
  }

  method RebuildLoop(lower: string -> string, forges: ForgeLookup, segments: seq<Segment>, of: Option<string>)
    returns (r: Result<Address, Error>)
    ensures r == Rebuild(lower, forges, segments, of)
  {
    hide RebuildStart, Child, AddSubject;
    if segments == [] {
      return Err(Empty);
    }
    var start := RebuildStart(lower, forges, segments);
    if start.Err? {
      return Err(start.error);
    }
    var (address, i) := start.value;
    while i < |segments|
      invariant start.value.1 <= i <= |segments|
      invariant AddChildren(lower, start.value.0, segments[start.value.1..]) ==
                  AddChildren(lower, address, segments[i..])
    {
      assert segments[i..][1..] == segments[i + 1..];
      var next := Child(lower, address, segments[i].kind, segments[i].value);
      if next.Err? {
        return Err(next.error);
      }
      address := next.value;
      i := i + 1;
    }
    assert segments[i..] == [];
    r := AddSubject(lower, address, of);
  }

  /** Text in canonical shape still takes a known forge's case rule. */
  function Renormalise(lower: string -> string, forges: ForgeLookup, address: Address): Result<Address, Error> {
    match Get(address.segments, Kind.Forge)
    case None => Ok(address)
    case Some(id) =>
      if ForgeById(forges, id).None? then Ok(address)
      else Rebuild(lower, forges, address.segments, address.of)
  }

  // ---- Typed segments in any spelling ----

  function ReadSegments(
    parts: seq<string>, segments: seq<Segment>, of: Option<string>): Result<(seq<Segment>, Option<string>), Error>
    decreases |parts|
  {
    if parts == [] then Ok((segments, of))
    else
      match SplitOnce(parts[0], ':')
      case None => Err(MalformedSegment(parts[0]))
      case Some((token, encoded)) =>
        var value :- DecodeLenient(encoded);
        if of.Some? then Err(OfNotLast)
        else if token == "of" then ReadSegments(parts[1..], segments, Some(value))
        else
          match FromToken(ToAsciiLower(token))
          case None => Err(UnknownKind(ToAsciiLower(token)))
          case Some(kind) => ReadSegments(parts[1..], segments + [Segment(kind, value)], of)
  }

  function ResolveSegments(lower: string -> string, forges: ForgeLookup, input: string): Result<Address, Error> {
    var (segments, of) :- ReadSegments(Split(input, '/'), [], None);
    Rebuild(lower, forges, segments, of)
  }

  method ResolveSegmentsLoop(
    lower: string -> string, forges: ForgeLookup, input: string)
    returns (r: Result<Address, Error>)
    ensures r == ResolveSegments(lower, forges, input)
  {
    var parts := Split(input, '/');
    var segments: seq<Segment>, of: Option<string> := [], None;
    var i := 0;
    assert parts[0..] == parts;
    while i < |parts|
      invariant 0 <= i <= |parts|
      invariant ReadSegments(parts, [], None) == ReadSegments(parts[i..], segments, of)
    {
      assert parts[i..][1..] == parts[i + 1..];
      var pair := SplitOnce(parts[i], ':');
      if pair == None {
        return Err(MalformedSegment(parts[i]));
      }
      var decoded := DecodeLoop(pair.value.1, false);
      if decoded.Err? {
        return Err(decoded.error);
      }
      if of.Some? {
        return Err(OfNotLast);
      }
      if pair.value.0 == "of" {
        of := Some(decoded.value);
      } else {
        var token := ToAsciiLower(pair.value.0);
        var kind := FromToken(token);
        if kind == None {
          return Err(UnknownKind(token));
        }
        segments := segments + [Segment(kind.value, decoded.value)];
      }
      i := i + 1;
    }
    assert parts[i..] == [];
    r := RebuildLoop(lower, forges, segments, of);
  }

  // ---- Short forms and URLs ----

  /** Numbers in lenient input are still numbers: a sign or a leading zero is refused. */
  function ParseNumber(value: string): Result<nat, Error> {
    if CanonicalDigits(value) && DigitsValue(value) < U64_LIMIT then Ok(DigitsValue(value))
        else Err(InvalidValue(ChangeRequest, value))
  }

  function DecodeAll(parts: seq<string>): (r: Result<seq<string>, Error>)
    ensures r.Ok? ==> |r.value| == |parts|
  {
    if parts == [] then Ok([])
    else
      var first :- DecodeLenient(parts[0]);
      var rest :- DecodeAll(parts[1..]);
      Ok([first] + rest)
  }

  function ResolveShort(lower: string -> string, forges: ForgeLookup, input: string): Result<Address, Error> {
    var parts :- DecodeAll(Split(input, '/'));
    if |parts| == 2 && parts[0] == "project" then Root(lower, Project, parts[1])
    else if |parts| == 2 && parts[0] == "fleet" then Root(lower, Fleet, parts[1])
    else if |parts| == 2 && parts[0] == "convoy" then Root(lower, Convoy, parts[1])
    else if |parts| == 3 && parts[0] == "usage" then UsageAddress(lower, parts[1], parts[2])
    else if |parts| == 5 && (parts[0] == "cr" || parts[0] == "issue") then
      var forge :- Lookup(forges, parts[1]);
      var number :- ParseNumber(parts[4]);
      Numbered(lower, forge, parts[2] + "/" + parts[3], if parts[0] == "cr" then ChangeRequest else Issue, number)
    else if |parts| > 4 && parts[0] == "artifact" then
      var convoy :- Root(lower, Convoy, parts[1]);
      var role :- Child(lower, convoy, Role, parts[2]);
      ArtifactOf(lower, role, parts[3], Join(parts[4..], '/'))
    else Err(Unrecognised(input))
  }

  function AfterAt(authority: string): string {
    match RSplitOnce(authority, '@')
    case Some((_, host)) => host
    case None => authority
  }

  /** The host and path of a URL or an `user@host:path` remote. */
  function HostAndPath(input: string): Option<(string, string)> {
    var rest := match StripPrefix(input, "https://")
      case Some(rest) => Some(rest)
      case None =>
        match StripPrefix(input, "http://")
        case Some(rest) => Some(rest)
        case None => StripPrefix(input, "ssh://");
    match rest
    case Some(rest) =>
      var (authority, path) := match SplitOnce(rest, '/') case Some(pair) => pair case None => (rest, "");
      var host := AfterAt(authority);
      Some(((match SplitOnce(host, ':') case Some((name, _)) => name case None => host), path))
    case None =>
      match SplitOnce(input, ':')
      case Some((userHost, path)) => if '@' in userHost then Some((AfterAt(userHost), path)) else None
      case None => None
  }

  /** Where a link's query or fragment begins. */
  predicate EndsPath(c: char) {
    c == '?' || c == '#'
  }

  function PathParts(path: string): seq<string> {
    Split(TrimSlashes(path[..Find(path, EndsPath)]), '/')
  }

  function ResolveUrl(lower: string -> string, forges: ForgeLookup, input: string): Result<Option<Address>, Error> {
    match HostAndPath(input)
    case None => Ok(None)
    case Some((host, path)) =>
      match ForgeByHost(forges, host)
      case None => Err(UnresolvedForge(host))
      case Some(forge) =>
        var address :- ResolvePath(lower, forge, PathParts(path), input);
        Ok(Some(address))
  }

  function ResolvePath(
    lower: string -> string, forge: Forge, parts: seq<string>, input: string): Result<Address, Error>
  {
    if |parts| == 2 then
      var name := match StripSuffix(parts[1], ".git") case Some(name) => name case None => parts[1];
      Repository(lower, forge, parts[0] + "/" + name)
    else if |parts| >= 4 && (parts[2] == "pull" || parts[2] == "pulls") then
      var number :- ParseNumber(parts[3]);
      Numbered(lower, forge, parts[0] + "/" + parts[1], ChangeRequest, number)
    else if |parts| >= 4 && parts[2] == "issues" then
      var number :- ParseNumber(parts[3]);
      Numbered(lower, forge, parts[0] + "/" + parts[1], Issue, number)
    else if |parts| == 4 && parts[2] == "commit" then
      var repository :- Repository(lower, forge, parts[0] + "/" + parts[1]);
      Child(lower, repository, Commit, ToAsciiLower(parts[3]))
    else Err(Unrecognised(input))
  }

  /** Resolves typed or pasted input to a canonical address. */
  function Resolve(lower: string -> string, forges: ForgeLookup, input: string): Result<Address, Error> {
    var text := Trim(input);
    match Parse(lower, text)
    case Ok(address) => Renormalise(lower, forges, address)
    case Err(_) =>
      match ResolveUrl(lower, forges, text)
      case Err(error) => Err(error)
      case Ok(Some(address)) => Ok(address)
      case Ok(None) =>
        if ':' in Split(text, '/')[0] then ResolveSegments(lower, forges, text) else ResolveShort(lower, forges, text)
  }

  // ---- Everything resolved is canonical ----

  /** A repository segment is `owner/repo` in its forge's case. */
  predicate RepositoryNormal(lower: string -> string, segments: seq<Segment>) {
    forall i | 0 <= i < |segments| && segments[i].kind == Repo ::
      ValidRepository(segments[i].value) && lower(segments[i].value) == segments[i].value
  }

  /** What the constructors build: a well-formed address whose repository is in its forge's case. */
  predicate Built(lower: string -> string, address: Address) {
    WellFormed(lower, address) && RepositoryNormal(lower, address.segments)
  }

  lemma ChildBuilt(lower: string -> string, address: Address, kind: Kind, value: string)
    requires Built(lower, address)
    ensures Child(lower, address, kind, value).Ok? ==>
              var child := Child(lower, address, kind, value).value;
              Built(lower, child) && child.segments == address.segments + [Segment(kind, value)] && child.of == None
  {
    PushWellFormed(lower, address, kind, value);
    if kind != Repo {
      NormalSnoc(lower, address.segments, Segment(kind, value));
    }
  }

  lemma EmptyBuilt(lower: string -> string)
    ensures Built(lower, EMPTY_ADDRESS)
  {
    assert Parts([], None) == [];
  }

  lemma RootBuilt(lower: string -> string, kind: Kind, value: string)
    ensures Root(lower, kind, value).Ok? ==>
              var root := Root(lower, kind, value).value;
              Built(lower, root) && root.segments == [Segment(kind, value)] && root.of == None
  {
    EmptyBuilt(lower);
    ChildBuilt(lower, EMPTY_ADDRESS, kind, value);
    assert [] + [Segment(kind, value)] == [Segment(kind, value)];
  }

  lemma ForgeBuilt(lower: string -> string, forge: Forge)
    ensures Built(lower, ForgeAddress(forge))
  {
    ForgeAddressIsRoot(lower, forge);
    RootBuilt(lower, Kind.Forge, forge.id);
  }

  lemma RepositoryBuilt(lower: string -> string, forge: Forge, repository: string)
    requires Lowercase(lower)
    ensures Repository(lower, forge, repository).Ok? ==>
              var address := Repository(lower, forge, repository).value;
              && Built(lower, address) && address.of == None
              && address.segments == [Segment(Kind.Forge, forge.id), Segment(Repo, lower(repository))]
  {
    if ValidRepository(repository) {
      NormalisedRepository(lower, repository);
      NormalRepositoryBuilt(lower, forge, lower(repository));
    }
  }

  lemma NormalRepositoryBuilt(lower: string -> string, forge: Forge, repository: string)
    requires ValidRepository(repository) && lower(repository) == repository
    ensures Push(lower, ForgeAddress(forge), Repo, repository).Ok? ==>
              var address := Push(lower, ForgeAddress(forge), Repo, repository).value;
              && Built(lower, address) && address.of == None
              && address.segments == [Segment(Kind.Forge, forge.id), Segment(Repo, repository)]
  {
    ForgeBuilt(lower, forge);
    PushWellFormed(lower, ForgeAddress(forge), Repo, repository);
    assert [Segment(Kind.Forge, forge.id)] + [Segment(Repo, repository)] ==
             [Segment(Kind.Forge, forge.id), Segment(Repo, repository)];
  }

  lemma NumberedBuilt(lower: string -> string, forge: Forge, repository: string, kind: Kind, number: nat)
    requires Lowercase(lower)
    ensures Numbered(lower, forge, repository, kind, number).Ok? ==>
              var address := Numbered(lower, forge, repository, kind, number).value;
              Built(lower, address) && address.of == None && LastKind(address.segments) == Some(kind)
  {
    RepositoryBuilt(lower, forge, repository);
    if Repository(lower, forge, repository).Ok? {
      ChildBuilt(lower, Repository(lower, forge, repository).value, kind, NatText(number));
    }
  }

  lemma UsageBuilt(lower: string -> string, provider: string, account: string)
    ensures UsageAddress(lower, provider, account).Ok? ==>
              var address := UsageAddress(lower, provider, account).value;
              && Built(lower, address) && address.of == None
              && address.segments ==
                [Segment(Usage, NormaliseUsage(lower, provider)), Segment(Account, NormaliseUsage(lower, account))]
  {
    var root := Root(lower, Usage, NormaliseUsage(lower, provider));
    RootBuilt(lower, Usage, NormaliseUsage(lower, provider));
    if root.Ok? {
      ChildBuilt(lower, root.value, Account, NormaliseUsage(lower, account));
    }
  }

  lemma ArtifactBuilt(lower: string -> string, role: Address, kind: string, subject: string)
    requires Built(lower, role)
    ensures ArtifactOf(lower, role, kind, subject).Ok? ==>
              var artifact := ArtifactOf(lower, role, kind, subject).value;
              && Built(lower, artifact) && Finished(lower, artifact)
              && artifact.segments == role.segments + [Segment(Artifact, kind)] && artifact.of == Some(subject)
  {
    ArtifactWellFormed(lower, role, kind, subject);
    NormalSnoc(lower, role.segments, Segment(Artifact, kind));
  }

  lemma NormalSnoc(lower: string -> string, segments: seq<Segment>, segment: Segment)
    requires RepositoryNormal(lower, segments) && segment.kind != Repo
    ensures RepositoryNormal(lower, segments + [segment])
  {
  }

  lemma StartBuilt(lower: string -> string, forges: ForgeLookup, segments: seq<Segment>)
    requires Lowercase(lower) && segments != []
    ensures RebuildStart(lower, forges, segments).Ok? ==>
              var (start, _) := RebuildStart(lower, forges, segments).value;
              Built(lower, start) && start.segments != [] && start.of == None
  {
    var Segment(kind, value) := segments[0];
    if kind == Usage {
      RootBuilt(lower, kind, NormaliseUsage(lower, value));
      if |segments| > 1 {
        UsageBuilt(lower, value, segments[1].value);
      }
    } else if kind == Kind.Forge {
      if Lookup(forges, value).Ok? {
        var forge := Lookup(forges, value).value;
        ForgeBuilt(lower, forge);
        if |segments| > 1 {
          RepositoryBuilt(lower, forge, segments[1].value);
        }
      }
    } else {
      RootBuilt(lower, kind, value);
    }
  }

  lemma {:induction false} ChildrenBuilt(lower: string -> string, address: Address, segments: seq<Segment>)
    requires Built(lower, address) && address.segments != [] && address.of == None
    ensures AddChildren(lower, address, segments).Ok? ==>
              var built := AddChildren(lower, address, segments).value;
              && Built(lower, built) && built.segments != [] && built.of == None
              && built.segments == address.segments + segments
    decreases |segments|
  {
    hide Child, Built;
    if segments != [] {
      ChildBuilt(lower, address, segments[0].kind, segments[0].value);
      var child := Child(lower, address, segments[0].kind, segments[0].value);
      if child.Ok? {
        ChildrenBuilt(lower, child.value, segments[1..]);
        assert [Segment(segments[0].kind, segments[0].value)] + segments[1..] == segments;
      }
    }
  }

  lemma SubjectBuilt(lower: string -> string, address: Address, of: Option<string>)
    requires Built(lower, address) && address.segments != [] && address.of == None
    ensures AddSubject(lower, address, of).Ok? ==>
              var whole := AddSubject(lower, address, of).value;
              Built(lower, whole) && Finished(lower, whole) && whole.segments == address.segments && whole.of == of
  {
    hide Admitted, Render, Child;
    ParentIsOneUp(lower, address);
    if of.Some? && |address.segments| > 1 {
      var role := Parent(address).value;
      ArtifactBuilt(lower, role, address.segments[|address.segments| - 1].value, of.value);
    }
  }

  /** Every rebuilt address is finished, with its repository in its forge's case. */
  lemma RebuildBuilt(lower: string -> string, forges: ForgeLookup, segments: seq<Segment>, of: Option<string>)
    requires Lowercase(lower)
    ensures Rebuild(lower, forges, segments, of).Ok? ==>
              var address := Rebuild(lower, forges, segments, of).value;
                  Built(lower, address) && Finished(lower, address)
  {
    if Rebuild(lower, forges, segments, of).Ok? {
      StartBuilt(lower, forges, segments);
      var (start, taken) := RebuildStart(lower, forges, segments).value;
      ChildrenBuilt(lower, start, segments[taken..]);
      SubjectBuilt(lower, AddChildren(lower, start, segments[taken..]).value, of);
    }
  }

  lemma ShortBuilt(lower: string -> string, forges: ForgeLookup, input: string)
    requires Lowercase(lower) && ResolveShort(lower, forges, input).Ok?
    ensures var address := ResolveShort(lower, forges, input).value; Built(lower, address) && Finished(lower, address)
  {
    hide Built, Split, DecodeAll, Push, UsageAddress, Numbered, ParseNumber, Lookup, Join;
    var parts := DecodeAll(Split(input, '/')).value;
    if |parts| == 2 {
      RootBuilt(lower, Project, parts[1]);
      RootBuilt(lower, Fleet, parts[1]);
      RootBuilt(lower, Convoy, parts[1]);
    } else if |parts| == 3 {
      UsageBuilt(lower, parts[1], parts[2]);
    } else if parts[0] != "artifact" {
      var forge, number := Lookup(forges, parts[1]).value, ParseNumber(parts[4]).value;
      NumberedBuilt(lower, forge, parts[2] + "/" + parts[3], if parts[0] == "cr" then ChangeRequest else Issue, number);
    } else {
      RootBuilt(lower, Convoy, parts[1]);
      var convoy := Root(lower, Convoy, parts[1]).value;
      ChildBuilt(lower, convoy, Role, parts[2]);
      ArtifactBuilt(lower, Child(lower, convoy, Role, parts[2]).value, parts[3], Join(parts[4..], '/'));
    }
  }

  lemma PathBuilt(lower: string -> string, forge: Forge, parts: seq<string>, input: string)
    requires Lowercase(lower) && ResolvePath(lower, forge, parts, input).Ok?
    ensures var address := ResolvePath(lower, forge, parts, input).value;
            Built(lower, address) && Finished(lower, address)
  {
    hide Child, Built, Repository, Numbered, ParseNumber, Admitted, Render;
    if |parts| == 2 {
      var name := match StripSuffix(parts[1], ".git") case Some(name) => name case None => parts[1];
      RepositoryBuilt(lower, forge, parts[0] + "/" + name);
    } else {
      var repository := parts[0] + "/" + parts[1];
      if parts[2] == "commit" {
        RepositoryBuilt(lower, forge, repository);
        ChildBuilt(lower, Repository(lower, forge, repository).value, Commit, ToAsciiLower(parts[3]));
      } else {
        var number := ParseNumber(parts[3]).value;
        NumberedBuilt(lower, forge, repository, if parts[2] == "issues" then Issue else ChangeRequest, number);
      }
    }
  }

  // ---- Canonical text resolves to itself ----

  lemma {:induction false} AddChildrenOf(lower: string -> string, segments: seq<Segment>, k: nat)
    requires Admitted(lower, segments) && 1 <= k <= |segments|
    requires forall i | k <= i < |segments| :: segments[i].kind != Repo
    ensures AddChildren(lower, Plain(segments[..k]), segments[k..]) == Ok(Plain(segments))
    decreases |segments| - k
  {
    hide Push, Plain;
    if k == |segments| {
      assert segments[..k] == segments;
    } else {
      PushAt(lower, segments, k);
      assert segments[k..][1..] == segments[k + 1..];
      AddChildrenOf(lower, segments, k + 1);
    }
  }

  lemma SubjectOf(lower: string -> string, address: Address)
    requires Finished(lower, address)
    ensures AddSubject(lower, Plain(address.segments), address.of) == Ok(address)
  {
    hide Admitted, Render, Push;
    var segments := address.segments;
    if address.of.Some? {
      var before, last := segments[..|segments| - 1], segments[|segments| - 1];
      assert segments == before + [last];
      ParentIsOneUp(lower, Plain(segments));
      ShapeAt(lower, segments, |segments| - 1);
      PushWellFormed(lower, Plain(before), Artifact, last.value);
      assert last == Segment(Artifact, last.value);
      SubjectText(segments, address.of.value);
    }
  }

  lemma SubjectText(segments: seq<Segment>, subject: string)
    requires segments != []
    ensures Render(segments, Some(subject)) == Render(segments, None) + "/" + OfText(subject)
  {
    var parts := Parts(segments, Some(subject));
    assert parts == Parts(segments, None) + [OfText(subject)];
    RenderSnoc(segments, None, OfText(subject), parts);
  }

  lemma LookupOfKnown(forges: ForgeLookup, id: string)
    requires forges.Faithful() && ValidForgeId(id) && ForgeById(forges, id).Some?
    ensures Lookup(forges, id).Ok? && Lookup(forges, id).value.id == id
  {
    AsciiLowerFixed(id);
  }

  lemma RootPlain(lower: string -> string, segment: Segment)
    requires Admitted(lower, [segment])
    ensures segment.kind != Repo && Root(lower, segment.kind, segment.value) == Ok(Plain([segment]))
  {
    AdmittedAt(lower, [segment], 0);
    EmptyBuilt(lower);
    PushWellFormed(lower, EMPTY_ADDRESS, segment.kind, segment.value);
    assert [] + [segment] == [segment];
  }

  lemma StartOfForge(lower: string -> string, forges: ForgeLookup, segments: seq<Segment>)
    requires forges.Faithful()
    requires Admitted(lower, segments) && RepositoryNormal(lower, segments)
    requires segments != [] && segments[0].kind == Kind.Forge && ForgeById(forges, segments[0].value).Some?
    ensures var k := if |segments| == 1 then 1 else 2;
            RebuildStart(lower, forges, segments) == Ok((Plain(segments[..k]), k))
  {
    hide Plain, Admitted, RepositoryNormal, Repository, Lookup, Push, Child;
    var id := segments[0].value;
    ShapeAt(lower, segments, 0);
    LookupOfKnown(forges, id);
    var forge := Lookup(forges, id).value;
    FirstPlain(lower, segments);
    ForgeAddressIsRoot(lower, forge);
    assert ForgeAddress(forge) == Plain(segments[..1]);
    if |segments| > 1 {
      StartOfRepository(lower, forge, segments);
    }
  }

  lemma FirstPlain(lower: string -> string, segments: seq<Segment>)
    requires Admitted(lower, segments) && segments != []
    ensures segments[0].kind != Repo && Root(lower, segments[0].kind, segments[0].value) == Ok(Plain(segments[..1]))
    ensures WellFormed(lower, Plain(segments[..1]))
  {
    assert segments[..1] == [segments[0]];
    if |segments| > 1 {
      AdmittedAt(lower, segments, 1);
    } else {
      assert segments[..1] == segments;
    }
    RootPlain(lower, segments[0]);
  }

  lemma StartOfRepository(lower: string -> string, forge: Forge, segments: seq<Segment>)
    requires Admitted(lower, segments) && RepositoryNormal(lower, segments) && |segments| > 1
    requires segments[0] == Segment(Kind.Forge, forge.id) && ForgeAddress(forge) == Plain(segments[..1])
    ensures segments[1].kind == Repo && Repository(lower, forge, segments[1].value) == Ok(Plain(segments[..2]))
  {
    hide Push, Plain, Admitted, ValidRepository, ForgeAddress;
    ShapeAt(lower, segments, 1);
    assert segments[1].kind == Repo;
    PushAt(lower, segments, 1);
  }

  lemma StartOfUsage(lower: string -> string, forges: ForgeLookup, segments: seq<Segment>)
    requires Admitted(lower, segments) && segments != [] && segments[0].kind == Usage
    ensures var k := if |segments| == 1 then 1 else 2;
            RebuildStart(lower, forges, segments) == Ok((Plain(segments[..k]), k))
  {
    hide Child, Root, Plain, Admitted;
    ShapeAt(lower, segments, 0);
    FirstPlain(lower, segments);
    if |segments| > 1 {
      StartOfAccount(lower, segments);
    }
  }

  lemma AccountUnderUsage(lower: string -> string, segments: seq<Segment>)
    requires Admitted(lower, segments) && |segments| > 1 && segments[0].kind == Usage
    ensures segments[1].kind == Account && NormaliseUsage(lower, segments[1].value) == segments[1].value
  {
    AdmittedAt(lower, segments, 1);
    assert LastKind(segments[..1]) == Some(Usage);
  }

  lemma StartOfAccount(lower: string -> string, segments: seq<Segment>)
    requires Admitted(lower, segments) && |segments| > 1 && segments[0].kind == Usage
    ensures segments[1].kind == Account && NormaliseUsage(lower, segments[1].value) == segments[1].value
    ensures Child(lower, Plain(segments[..1]), Account, segments[1].value) == Ok(Plain(segments[..2]))
  {
    hide Push, Plain;
    AccountUnderUsage(lower, segments);
    PushAt(lower, segments, 1);
  }

  lemma StartOfOther(lower: string -> string, forges: ForgeLookup, segments: seq<Segment>)
    requires Admitted(lower, segments) && segments != [] && segments[0].kind != Usage && segments[0].kind != Kind.Forge
    ensures RebuildStart(lower, forges, segments) == Ok((Plain(segments[..1]), 1))
  {
    FirstPlain(lower, segments);
  }

  /** A repository stands only directly under a forge at the root. */
  lemma RepositoryPosition(lower: string -> string, segments: seq<Segment>, i: nat)
    requires Admitted(lower, segments) && i < |segments| && segments[i].kind == Repo
    ensures i == 1 && segments[0].kind == Kind.Forge
  {
    ShapeAt(lower, segments, i);
    if i > 0 {
      ShapeAt(lower, segments, i - 1);
    }
  }

  /** Rebuilding a finished address whose repository is normal gives the address back. */
  lemma RebuildOf(lower: string -> string, forges: ForgeLookup, address: Address)
    requires forges.Faithful()
    requires Finished(lower, address) && RepositoryNormal(lower, address.segments)
    requires address.segments[0].kind == Kind.Forge ==> ForgeById(forges, address.segments[0].value).Some?
    ensures Rebuild(lower, forges, address.segments, address.of) == Ok(address)
  {
    var segments := address.segments;
    forall i | 0 <= i < |segments| && segments[i].kind == Repo
      ensures i == 1 && segments[0].kind == Kind.Forge
    {
      RepositoryPosition(lower, segments, i);
    }
    if segments[0].kind == Usage {
      StartOfUsage(lower, forges, segments);
    } else if segments[0].kind == Kind.Forge {
      StartOfForge(lower, forges, segments);
    } else {
      StartOfOther(lower, forges, segments);
    }
    var k := RebuildStart(lower, forges, segments).value.1;
    AddChildrenOf(lower, segments, k);
    SubjectOf(lower, address);
  }

  lemma GetForge(lower: string -> string, segments: seq<Segment>)
    requires Admitted(lower, segments) && segments != []
    ensures Get(segments, Kind.Forge) == if segments[0].kind == Kind.Forge then Some(segments[0].value) else None
  {
    forall i | 0 < i < |segments|
      ensures segments[i].kind != Kind.Forge
    {
      ShapeAt(lower, segments, i);
    }
    if segments[0].kind != Kind.Forge {
      GetNone(segments, Kind.Forge);
    }
  }

  lemma {:induction false} GetNone(segments: seq<Segment>, kind: Kind)
    requires forall i | 0 <= i < |segments| :: segments[i].kind != kind
    ensures Get(segments, kind) == None
  {
    if segments != [] {
      GetNone(segments[1..], kind);
    }
  }

  /** Whether the lookup knows the forge an address is on. */
  predicate ForgeKnown(forges: ForgeLookup, address: Address) {
    match Get(address.segments, Kind.Forge)
    case None => false
    case Some(id) => ForgeById(forges, id).Some?
  }

  lemma TextIsTrimmed(lower: string -> string, address: Address)
    requires Finished(lower, address)
    ensures Trim(address.text) == address.text
  {
    TextIsAscii(lower, address);
    TextCharsTrimmed(address.text);
    TrimIsTrimmed(address.text);
  }

  lemma TextCharsTrimmed(text: string)
    requires forall c | c in text :: IsTextChar(c) || c == '/'
    ensures Trimmed(text)
  {
    if text != "" {
      var first, last := text[0], text[|text| - 1];
      assert first in text && last in text;
    }
  }

  /** Canonical text takes the first path of `resolve`: parse, then the known forge's case rule. */
  lemma ResolveOfText(lower: string -> string, forges: ForgeLookup, address: Address)
    requires Finished(lower, address)
    ensures Resolve(lower, forges, address.text) ==
            if ForgeKnown(forges, address) then Rebuild(lower, forges, address.segments, address.of) else Ok(address)
  {
    TextIsTrimmed(lower, address);
    ParseOfPrint(lower, address);
  }

  /**
   A finished address resolves to itself exactly when its forge is unknown to the lookup or its
   repository is an `owner/repo` in the forge's case. Constructor-built addresses always are.
   */
  lemma ResolvesToItself(lower: string -> string, forges: ForgeLookup, address: Address)
    requires Lowercase(lower) && forges.Faithful() && Finished(lower, address)
    ensures Resolve(lower, forges, address.text) == Ok(address) <==>
            !ForgeKnown(forges, address) || RepositoryNormal(lower, address.segments)
  {
    ResolveOfText(lower, forges, address);
    GetForge(lower, address.segments);
    if ForgeKnown(forges, address) {
      RebuildBuilt(lower, forges, address.segments, address.of);
      if RepositoryNormal(lower, address.segments) {
        RebuildOf(lower, forges, address);
      }
    }
  }

  lemma OtherCaseFinished(lower: string -> string)
    ensures Finished(lower, Plain([Segment(Kind.Forge, "lab"), Segment(Repo, "A/b")]))
  {
    hide Render;
    var segments := [Segment(Kind.Forge, "lab"), Segment(Repo, "A/b")];
    assert segments[..1] == [segments[0]] && segments[..1][..0] == [];
    assert Admitted(lower, segments[..1][..0]) && Admitted(lower, segments[..1]);
  }

  /**
   A finished address under a known forge that resolves to something else: its repository has an
   upper-case letter.
   */
  lemma OtherCaseResolvesElsewhere(lower: string -> string, forges: ForgeLookup)
    requires Lowercase(lower) && lower("A/b") != "A/b" && forges.Faithful() && forges.byId("lab").Some?
    ensures var address := Plain([Segment(Kind.Forge, "lab"), Segment(Repo, "A/b")]);
            Finished(lower, address) && Resolve(lower, forges, address.text) != Ok(address)
  {
    OtherCaseFinished(lower);
    hide Render, Resolve, Finished;
    var segments := [Segment(Kind.Forge, "lab"), Segment(Repo, "A/b")];
    assert !RepositoryNormal(lower, segments) by {
      assert segments[1].kind == Repo;
    }
    ResolvesToItself(lower, forges, Plain(segments));
  }

  /** Whatever `resolve` returns is finished, and its forge is unknown or its repository normal. */
  lemma ResolvedIsBuilt(lower: string -> string, forges: ForgeLookup, input: string)
    requires Lowercase(lower)
    ensures Resolve(lower, forges, input).Ok? ==>
              var address := Resolve(lower, forges, input).value;
              Finished(lower, address) && (!ForgeKnown(forges, address) || RepositoryNormal(lower, address.segments))
  {
    var text := Trim(input);
    if Resolve(lower, forges, input).Err? {
      return;
    } else if Parse(lower, text).Ok? {
      PrintOfParse(lower, text);
      var parsed := Parse(lower, text).value;
      RebuildBuilt(lower, forges, parsed.segments, parsed.of);
    } else if ResolveUrl(lower, forges, text).value.Some? {
      var (host, path) := HostAndPath(text).value;
      PathBuilt(lower, ForgeByHost(forges, host).value, PathParts(path), text);
    } else if ':' in Split(text, '/')[0] {
      var (segments, of) := ReadSegments(Split(text, '/'), [], None).value;
      RebuildBuilt(lower, forges, segments, of);
    } else {
      ShortBuilt(lower, forges, text);
    }
  }

  /**
   With a lookup that returns a forge under its own id, every address `resolve` returns, from
   segments, a URL or a short form, passes the strict parser and resolves to itself.
   */
  lemma ResolveIsCanonical(lower: string -> string, forges: ForgeLookup, input: string)
    requires Lowercase(lower) && forges.Faithful()
    ensures Resolve(lower, forges, input).Ok? ==>
              var address := Resolve(lower, forges, input).value;
              Parse(lower, address.text) == Ok(address) && Resolve(lower, forges, address.text) == Ok(address)
  {
    hide *;
    if Resolve(lower, forges, input).Ok? {
      ResolvedIsBuilt(lower, forges, input);
      var address := Resolve(lower, forges, input).value;
      ParseOfPrint(lower, address);
      ResolvesToItself(lower, forges, address);
    }
  }
}
