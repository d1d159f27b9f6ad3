/**
 The join from an address to a stored record's name (crates/flotilla-address/src/record.rs). The
 digest is a parameter: the claims are about what is fed to it.
 */
module RecordNames {
  import opened Outcomes
  import opened Text
  import opened Kinds
  import opened Forges
  import opened Utf8
  import opened Addresses

  /** Lowercase hex of the bytes, two digits each. */
  function HexBytes(bytes: seq<Byte>): string {
    if bytes == [] then "" else [HexNibble(bytes[0] / 16), HexNibble(bytes[0] % 16)] + HexBytes(bytes[1..])
  }

  function Hex(value: string): string {
    HexBytes(Utf8.Encode(value))
  }

  const GITHUB_RECORD_SERVICE := "github.com"

  function Service(forge: string): string {
    if forge == GITHUB_FORGE_ID then GITHUB_RECORD_SERVICE else forge
  }

  /** `<prefix>-<hex service>-<hex owner/repo>-<number>`. */
  function ForgeRecordName(prefix: string, address: Address): Option<string> {
    match (Get(address.segments, Kind.Forge), Get(address.segments, Repo), LastKind(address.segments))
    case (Some(forge), Some(repository), Some(_)) =>
      var number := address.segments[|address.segments| - 1].value;
      if !IsDigits(number) then None
      else Some(prefix + "-" + Hex(Service(forge)) + "-" + Hex(repository) + "-" + NatText(DigitsValue(number)))
    case _ => None
  }

  /** Eight bytes, most significant first, as `u64::to_be_bytes` writes a length. */
  function BigEndian(n: nat, size: nat): (bytes: seq<Byte>)
    ensures |bytes| == size
    decreases size
  {
    if size == 0 then [] else BigEndian(n / 256, size - 1) + [n % 256]
  }

  /** Each component's length in bytes and then its bytes: what the hash is fed. */
  function Framed(components: seq<string>): seq<Byte> {
    if components == [] then []
    else
      var bytes := Utf8.Encode(components[0]);
      BigEndian(|bytes|, 8) + bytes + Framed(components[1..])
  }

  method FeedComponents(components: seq<string>) returns (input: seq<Byte>)
    ensures input == Framed(components)
  {
    hide BigEndian, Framed, Utf8.Encode;
    input := [];
    assert components[..0] == [];
    FramedNone();
    for i := 0 to |components|
      invariant input == Framed(components[..i])
    {
      var bytes := Utf8.Encode(components[i]);
      input := input + BigEndian(|bytes|, 8);
      input := input + bytes;
      FramedSnoc(components[..i], components[i]);
      assert components[..i + 1] == components[..i] + [components[i]];
    }
    assert components[..|components|] == components;
  }

  lemma FramedNone()
    ensures Framed([]) == []
  {
  }

  lemma {:induction false} FramedSnoc(components: seq<string>, last: string)
    ensures Framed(components + [last]) == Framed(components) + BigEndian(|Utf8.Encode(last)|, 8) + Utf8.Encode(last)
  {
    hide BigEndian, Utf8.Encode;
    if components == [] {
      assert components + [last] == [last] && [last][1..] == [];
    } else {
      assert (components + [last])[1..] == components[1..] + [last];
      FramedSnoc(components[1..], last);
    }
  }

  /** The components of an artifact slot's record: its convoy, role, kind and subject. */
  function ArtifactComponents(address: Address): Option<seq<string>> {
    match (Get(address.segments, Convoy), Get(address.segments, Role), LastKind(address.segments), address.of)
    case (Some(convoy), Some(role), Some(_), Some(subject)) =>
      Some([convoy, role, address.segments[|address.segments| - 1].value, subject])
    case _ => None
  }

  function RecordName(digest: seq<Byte> -> string, lower: string -> string, address: Address): Option<string> {
    match LastKind(address.segments)
    case None => None
    case Some(kind) =>
      var name := address.segments[|address.segments| - 1].value;
      match kind
      case ChangeRequest => ForgeRecordName("cr", address)
      case Issue => ForgeRecordName("issue", address)
      case Artifact =>
        (match ArtifactComponents(address)
         case Some(components) => Some("artifact-" + digest(Framed(components)))
         case None => None)
      case Account =>
        (match Get(address.segments, Usage)
         case Some(provider) =>
           var input := Utf8.Encode("usage-account-v2\0" + lower(Trim(provider)) + "\0" + lower(Trim(name)));
           Some("usage-" + if |digest(input)| <= 54 then digest(input) else digest(input)[..54])
         case None => None)
      case Project | Convoy | Host => Some(name)
      case _ => None
  }

  function MessageRecordName(
    digest: seq<Byte> -> string, receiver: string, sender: string, producerKey: string): string
  {
    "message-" + digest(Framed([receiver, sender, producerKey]))
  }

  // ---- Change requests and issues ----

  /** A change request or issue is a forge, a repository on it and a number. */
  lemma NumberedShape(lower: string -> string, address: Address)
    requires Finished(lower, address)
    requires LastKind(address.segments) == Some(ChangeRequest) || LastKind(address.segments) == Some(Issue)
    ensures var s := address.segments;
            |s| == 3 && s[0].kind == Kind.Forge && s[1].kind == Repo && ValidForgeId(s[0].value)
                && CanonicalDigits(s[2].value)
    ensures address.of == None
  {
    var last := |address.segments| - 1;
    ShapeAt(lower, address.segments, last);
    ShapeAt(lower, address.segments, last - 1);
    ShapeAt(lower, address.segments, last - 2);
  }

  lemma {:induction false} HexChars(bytes: seq<Byte>)
    ensures '-' !in HexBytes(bytes) && |HexBytes(bytes)| == 2 * |bytes|
  {
    if bytes != [] {
      HexChars(bytes[1..]);
    }
  }

  lemma {:induction false} HexInjective(a: seq<Byte>, b: seq<Byte>)
    requires HexBytes(a) == HexBytes(b)
    ensures a == b
  {
    HexChars(a);
    HexChars(b);
    if a != [] {
      assert HexBytes(a)[0] == HexBytes(b)[0] && HexBytes(a)[1] == HexBytes(b)[1];
      assert a[0] / 16 == b[0] / 16 && a[0] % 16 == b[0] % 16;
      assert HexBytes(a)[2..] == HexBytes(a[1..]) && HexBytes(b)[2..] == HexBytes(b[1..]);
      HexInjective(a[1..], b[1..]);
      assert a == [a[0]] + a[1..] && b == [b[0]] + b[1..];
    }
  }

  lemma HexTextInjective(a: string, b: string)
    requires Hex(a) == Hex(b)
    ensures a == b
  {
    HexInjective(Utf8.Encode(a), Utf8.Encode(b));
    DecodeOfEncode(a);
    DecodeOfEncode(b);
  }

  /** `github.com` is no legal forge id, so standing in for `github` it meets no other forge. */
  lemma ServiceInjective(a: string, b: string)
    requires ValidForgeId(a) && ValidForgeId(b) && Service(a) == Service(b)
    ensures a == b
  {
    assert GITHUB_RECORD_SERVICE[6] == '.';
  }

  function NameParts(prefix: string, service: string, repository: string, number: string): seq<string> {
    [prefix, Hex(service), Hex(repository), number]
  }

  lemma NameIsJoined(prefix: string, service: string, repository: string, number: string)
    requires '-' !in prefix && '-' !in number
    ensures var name := prefix + "-" + Hex(service) + "-" + Hex(repository) + "-" + number;
            Split(name, '-') == NameParts(prefix, service, repository, number)
  {
    hide Split, Utf8.Encode, HexBytes;
    var parts := NameParts(prefix, service, repository, number);
    var name := prefix + "-" + Hex(service) + "-" + Hex(repository) + "-" + number;
    HexChars(Utf8.Encode(service));
    HexChars(Utf8.Encode(repository));
    assert parts[1..] == [Hex(service), Hex(repository), number];
    assert parts[1..][1..] == [Hex(repository), number];
    assert Join([Hex(repository), number], '-') == Hex(repository) + "-" + number;
    assert Join(parts[1..], '-') == Hex(service) + "-" + (Hex(repository) + "-" + number);
    assert name == Join(parts, '-');
    SplitOfJoin(parts, '-');
  }

  function NumberedParts(s: seq<Segment>): seq<string>
    requires |s| == 3
  {
    NameParts(if s[2].kind == Issue then "issue" else "cr", Service(s[0].value), s[1].value, s[2].value)
  }

  /** The parts a numbered address's record name is read back into. */
  lemma NumberedName(lower: string -> string, digest: seq<Byte> -> string, address: Address)
    requires Finished(lower, address)
    requires LastKind(address.segments) == Some(ChangeRequest) || LastKind(address.segments) == Some(Issue)
    ensures |address.segments| == 3 && RecordName(digest, lower, address).Some?
    ensures Split(RecordName(digest, lower, address).value, '-') == NumberedParts(address.segments)
  {
    hide Split, Hex, Service, Finished, NatText, DigitsValue;
    NumberedShape(lower, address);
    var s := address.segments;
    var prefix := if s[2].kind == Issue then "issue" else "cr";
    assert s[1..][0] == s[1];
    assert Get(s, Kind.Forge) == Some(s[0].value) && Get(s[1..], Repo) == Some(s[1].value);
    NatTextOfDigitsValue(s[2].value);
    assert '-' !in prefix && '-' !in s[2].value;
    NameIsJoined(prefix, Service(s[0].value), s[1].value, s[2].value);
  }

  lemma NumberedPartsInjective(s: seq<Segment>, t: seq<Segment>)
    requires |s| == |t| == 3 && ValidForgeId(s[0].value) && ValidForgeId(t[0].value)
    requires NumberedParts(s) == NumberedParts(t)
    ensures s[0].value == t[0].value && s[1].value == t[1].value && s[2].value == t[2].value
    ensures s[2].kind == Issue <==> t[2].kind == Issue
  {
    var x, y := NumberedParts(s), NumberedParts(t);
    assert x[0] == y[0] && x[1] == y[1] && x[2] == y[2] && x[3] == y[3];
    HexTextInjective(Service(s[0].value), Service(t[0].value));
    HexTextInjective(s[1].value, t[1].value);
    ServiceInjective(s[0].value, t[0].value);
    assert "issue"[0] != "cr"[0];
  }

  /** Two change requests or issues have one record name only if they are the same address. */
  lemma RecordNameInjective(lower: string -> string, digest: seq<Byte> -> string, a: Address, b: Address)
    requires Finished(lower, a) && Finished(lower, b)
    requires LastKind(a.segments) == Some(ChangeRequest) || LastKind(a.segments) == Some(Issue)
    requires LastKind(b.segments) == Some(ChangeRequest) || LastKind(b.segments) == Some(Issue)
    ensures RecordName(digest, lower, a).Some? && RecordName(digest, lower, b).Some?
    ensures RecordName(digest, lower, a) == RecordName(digest, lower, b) <==> a == b
  {
    NumberedName(lower, digest, a);
    NumberedName(lower, digest, b);
    NumberedShape(lower, a);
    NumberedShape(lower, b);
    if RecordName(digest, lower, a) == RecordName(digest, lower, b) {
      NumberedPartsInjective(a.segments, b.segments);
      SameThree(a.segments, b.segments);
    }
  }

  lemma SameThree(s: seq<Segment>, t: seq<Segment>)
    requires |s| == |t| == 3 && s[0] == t[0] && s[1] == t[1] && s[2] == t[2]
    ensures s == t
  {
  }

  /** The two digits of each byte, the high one first. */
  lemma {:induction false} HexAt(bytes: seq<Byte>, i: nat)
    requires i < |bytes|
    ensures |HexBytes(bytes)| == 2 * |bytes|
    ensures HexBytes(bytes)[2 * i] == LOWER_HEX[bytes[i] / 16] && HexBytes(bytes)[2 * i + 1] == LOWER_HEX[bytes[i] % 16]
  {
    HexChars(bytes);
    if i > 0 {
      HexAt(bytes[1..], i - 1);
    }
  }

  /** The record name of a change request or issue; public GitHub's service is its host. */
  lemma NumberedNameIs(lower: string -> string, digest: seq<Byte> -> string, address: Address)
    requires Finished(lower, address)
    requires LastKind(address.segments) == Some(ChangeRequest) || LastKind(address.segments) == Some(Issue)
    ensures |address.segments| == 3
    ensures var s := address.segments;
            RecordName(digest, lower, address) ==
            Some((if s[2].kind == Issue then "issue-" else "cr-") +
                 Hex(if s[0].value == "github" then "github.com" else s[0].value) + "-" + Hex(s[1].value) + "-" +
                 s[2].value)
  {
    hide Split, Hex, RecordName, Finished, Join;
    NumberedName(lower, digest, address);
    var name, parts := RecordName(digest, lower, address).value, NumberedParts(address.segments);
    JoinOfSplit(name, '-');
    JoinFour(parts[0], parts[1], parts[2], parts[3]);
    assert parts == [parts[0], parts[1], parts[2], parts[3]];
    assert "issue" + "-" == "issue-" && "cr" + "-" == "cr-";
  }

  lemma JoinFour(a: string, b: string, c: string, d: string)
    ensures Join([a, b, c, d], '-') == a + "-" + b + "-" + c + "-" + d
  {
    assert [a, b, c, d][1..] == [b, c, d] && [b, c, d][1..] == [c, d] && [c, d][1..] == [d];
    assert Join([c, d], '-') == c + "-" + d;
    assert Join([b, c, d], '-') == b + "-" + (c + "-" + d);
    assert Join([a, b, c, d], '-') == a + "-" + (b + "-" + (c + "-" + d));
  }

  /** What a usage account's name is a digest of. */
  function UsageInput(provider: string, account: string): string {
    "usage-account-v2\0" + provider + "\0" + account
  }

  lemma UsageShape(lower: string -> string, address: Address)
    requires Finished(lower, address) && LastKind(address.segments) == Some(Account)
    ensures Get(address.segments, Usage).Some? <==> |address.segments| == 2
    ensures |address.segments| == 2 ==>
              && address.segments[0].kind == Usage && Get(address.segments, Usage) == Some(address.segments[0].value)
              && lower(Trim(address.segments[0].value)) == address.segments[0].value
              && lower(Trim(address.segments[1].value)) == address.segments[1].value
  {
    hide Trim, Admitted, Render, ValidForgeId, CanonicalDigits, DigitsValue, GithubRepositoryAdmitted, IsLowerHex;
    var s := address.segments;
    var last := |s| - 1;
    ShapeAt(lower, s, last);
    if last > 0 {
      AdmittedAt(lower, s, last);
      ShapeAt(lower, s, last - 1);
      assert LastKind(s[..last]) == Some(s[last - 1].kind);
    } else {
      assert s[1..] == [];
    }
  }

  /** The record name of a usage account; an account that stands alone has none. */
  lemma UsageNameIs(lower: string -> string, digest: seq<Byte> -> string, address: Address)
    requires Finished(lower, address) && LastKind(address.segments) == Some(Account)
    ensures RecordName(digest, lower, address).Some? <==> |address.segments| == 2
    ensures |address.segments| == 2 ==>
              var hash := digest(Utf8.Encode(UsageInput(address.segments[0].value, address.segments[1].value)));
              RecordName(digest, lower, address) == Some("usage-" + if |hash| <= 54 then hash else hash[..54])
  {
    hide Finished, Trim, Utf8.Encode, Get;
    UsageShape(lower, address);
  }

  /** Digested inputs tell usage accounts apart when no provider has the separator in it. */
  lemma UsageInputInjective(a: (string, string), b: (string, string))
    requires '\0' !in a.0 && '\0' !in b.0
    ensures UsageInput(a.0, a.1) == UsageInput(b.0, b.1) <==> a == b
  {
    var prefix := "usage-account-v2\0";
    var x, y := a.0 + "\0" + a.1, b.0 + "\0" + b.1;
    assert UsageInput(a.0, a.1) == prefix + x && UsageInput(b.0, b.1) == prefix + y;
    SamePrefix(prefix, x, y);
    SplitOnceOf(a.0, '\0', a.1);
    SplitOnceOf(b.0, '\0', b.1);
  }

  /** With the separator in a provider, two accounts can have one input. */
  lemma UsageInputsCollide()
    ensures UsageInput("a\0b", "c") == UsageInput("a", "b\0c")
  {
    assert "a\0b" + "\0" + "c" == "a" + "\0" + "b\0c";
  }

  /** Projects, convoys and hosts are recorded under their names, and the remaining kinds not at all. */
  lemma PlainNameIs(lower: string -> string, digest: seq<Byte> -> string, address: Address)
    requires address.segments != []
    ensures var last := address.segments[|address.segments| - 1];
            && (last.kind in {Project, Convoy, Host} ==> RecordName(digest, lower, address) == Some(last.value))
            && (RecordName(digest, lower, address).Some? ==>
                  last.kind in {Project, Convoy, Host, ChangeRequest, Issue, Artifact, Account})
  {
  }

  // ---- Length-framed hash inputs ----

  function Pow256(size: nat): nat {
    if size == 0 then 1 else 256 * Pow256(size - 1)
  }

  lemma {:induction false} BigEndianInjective(n: nat, m: nat, size: nat)
    requires n < Pow256(size) && m < Pow256(size) && BigEndian(n, size) == BigEndian(m, size)
    ensures n == m
    decreases size
  {
    if size > 0 {
      var x, y := BigEndian(n, size), BigEndian(m, size);
      assert x[..size - 1] == BigEndian(n / 256, size - 1) && y[..size - 1] == BigEndian(m / 256, size - 1);
      assert x[size - 1] == n % 256 && y[size - 1] == m % 256;
      BigEndianInjective(n / 256, m / 256, size - 1);
    }
  }

  /** The number that bytes spell, most significant first. */
  function Spelt(bytes: seq<Byte>): nat {
    if bytes == [] then 0 else bytes[0] * Pow256(|bytes| - 1) + Spelt(bytes[1..])
  }

  lemma {:induction false} SpeltSnoc(bytes: seq<Byte>, last: Byte)
    ensures Spelt(bytes + [last]) == 256 * Spelt(bytes) + last
  {
    if bytes == [] {
      assert bytes + [last] == [last] && [last][1..] == [];
    } else {
      SpeltSnoc(bytes[1..], last);
      assert (bytes + [last])[1..] == bytes[1..] + [last];
      assert bytes[0] * (256 * Pow256(|bytes| - 1)) == 256 * (bytes[0] * Pow256(|bytes| - 1));
    }
  }

  /** A length is framed as its own number, most significant byte first. */
  lemma {:induction false} BigEndianSpells(n: nat, size: nat)
    requires n < Pow256(size)
    ensures Spelt(BigEndian(n, size)) == n
    decreases size
  {
    if size > 0 {
      BigEndianSpells(n / 256, size - 1);
      SpeltSnoc(BigEndian(n / 256, size - 1), n % 256);
    }
  }

  /** Every component's byte length fits the eight bytes it is framed with. */
  predicate Framable(components: seq<string>) {
    forall i | 0 <= i < |components| :: |Utf8.Encode(components[i])| < U64_LIMIT
  }

  lemma EightBytes()
    ensures Pow256(8) == U64_LIMIT
  {
    assert Pow256(4) == 0x1_0000_0000;
  }

  /** Framed inputs are equal only component by component: no boundary can move. */
  lemma {:induction false} FramedInjective(a: seq<string>, b: seq<string>)
    requires Framable(a) && Framable(b)
    requires Framed(a) == Framed(b)
    ensures a == b
  {
    hide BigEndian, Utf8.Encode;
    assert a != [] ==> |Framed(a)| >= 8;
    assert b != [] ==> |Framed(b)| >= 8;
    if a != [] {
      EightBytes();
      var x, y := Utf8.Encode(a[0]), Utf8.Encode(b[0]);
      assert Framed(a)[..8] == BigEndian(|x|, 8) && Framed(b)[..8] == BigEndian(|y|, 8);
      BigEndianInjective(|x|, |y|, 8);
      assert Framed(a)[8..8 + |x|] == x && Framed(b)[8..8 + |y|] == y;
      assert Framed(a)[8 + |x|..] == Framed(a[1..]) && Framed(b)[8 + |y|..] == Framed(b[1..]);
      DecodeOfEncode(a[0]);
      DecodeOfEncode(b[0]);
      FramedInjective(a[1..], b[1..]);
      assert a == [a[0]] + a[1..] && b == [b[0]] + b[1..];
    }
  }

  /** The segments that take part in an artifact's record: its convoy's project does not. */
  function WithoutProject(segments: seq<Segment>): seq<Segment> {
    if segments != [] && segments[0].kind == Project then segments[1..] else segments
  }

  /** An artifact under a convoy is that convoy, a role and the artifact, below at most a project. */
  lemma ArtifactShape(lower: string -> string, address: Address)
    requires Finished(lower, address) && LastKind(address.segments) == Some(Artifact)
    requires Get(address.segments, Convoy).Some?
    ensures var s := WithoutProject(address.segments);
            && |s| == 3 && s[0].kind == Convoy && s[1].kind == Role && s[2].kind == Artifact
            && address.of.Some?
              && ArtifactComponents(address) == Some([s[0].value, s[1].value, s[2].value, address.of.value])
  {
    var s := address.segments;
    ArtifactDepth(lower, address);
    if |s| == 3 {
      GetOfThree(s);
    } else {
      GetOfFour(s);
    }
  }

  lemma ArtifactDepth(lower: string -> string, address: Address)
    requires Finished(lower, address) && LastKind(address.segments) == Some(Artifact)
    ensures var s := address.segments;
            || (|s| == 3 && s[0].kind in {Fleet, Project, Convoy} && s[1].kind == Role)
            || (|s| == 4 && s[0].kind == Project && s[1].kind == Convoy && s[2].kind == Role)
  {
    var s := address.segments;
    var last := |s| - 1;
    ShapeAt(lower, s, last);
    ShapeAt(lower, s, last - 1);
    ShapeAt(lower, s, last - 2);
    if last > 2 {
      ShapeAt(lower, s, last - 3);
    }
  }

  lemma GetOfThree(s: seq<Segment>)
    requires |s| == 3 && s[1].kind == Role && s[2].kind == Artifact && s[0].kind != Role
    ensures Get(s, Convoy).Some? <==> s[0].kind == Convoy
    ensures s[0].kind == Convoy ==> Get(s, Convoy) == Some(s[0].value)
    ensures Get(s, Role) == Some(s[1].value)
  {
    var rest := s[1..];
    assert rest[0] == s[1] && rest[1..][0] == s[2] && rest[1..][1..] == [];
    assert Get(rest[1..], Convoy) == None;
    assert Get(rest, Convoy) == None;
  }

  lemma GetOfFour(s: seq<Segment>)
    requires |s| == 4 && s[0].kind == Project && s[1].kind == Convoy && s[2].kind == Role && s[3].kind == Artifact
    ensures Get(s, Convoy) == Some(s[1].value) && Get(s, Role) == Some(s[2].value)
  {
    GetOfThree(s[1..]);
  }

  /**
   With a digest that does not collide on their inputs, two artifacts under convoys share a record
   exactly when they differ at most in the project above their convoy.
   */
  lemma ArtifactNameInjective(lower: string -> string, digest: seq<Byte> -> string, a: Address, b: Address)
    requires Finished(lower, a) && LastKind(a.segments) == Some(Artifact) && Get(a.segments, Convoy).Some?
    requires Finished(lower, b) && LastKind(b.segments) == Some(Artifact) && Get(b.segments, Convoy).Some?
    requires ArtifactComponents(a).Some? && Framable(ArtifactComponents(a).value)
    requires ArtifactComponents(b).Some? && Framable(ArtifactComponents(b).value)
    requires digest(Framed(ArtifactComponents(a).value)) == digest(Framed(ArtifactComponents(b).value)) ==>
               Framed(ArtifactComponents(a).value) == Framed(ArtifactComponents(b).value)
    ensures RecordName(digest, lower, a) == RecordName(digest, lower, b) <==>
            WithoutProject(a.segments) == WithoutProject(b.segments) && a.of == b.of
  {
    hide Finished, Framed, Framable, Get, Trim;
    ArtifactShape(lower, a);
    ArtifactShape(lower, b);
    var x, y := ArtifactComponents(a).value, ArtifactComponents(b).value;
    if RecordName(digest, lower, a) == RecordName(digest, lower, b) {
      SamePrefix("artifact-", digest(Framed(x)), digest(Framed(y)));
      FramedInjective(x, y);
      assert x[0] == y[0] && x[1] == y[1] && x[2] == y[2] && x[3] == y[3];
      SameThree(WithoutProject(a.segments), WithoutProject(b.segments));
    }
  }

  lemma SamePrefix(prefix: string, a: string, b: string)
    ensures prefix + a == prefix + b <==> a == b
  {
    assert (prefix + a)[|prefix|..] == a && (prefix + b)[|prefix|..] == b;
  }

  /** With a digest that does not collide on their inputs, equal message names mean equal keys. */
  lemma MessageNameInjective(digest: seq<Byte> -> string, a: (string, string, string), b: (string, string, string))
    requires Framable([a.0, a.1, a.2]) && Framable([b.0, b.1, b.2])
    requires digest(Framed([a.0, a.1, a.2])) == digest(Framed([b.0, b.1, b.2])) ==>
               Framed([a.0, a.1, a.2]) == Framed([b.0, b.1, b.2])
    ensures MessageRecordName(digest, a.0, a.1, a.2) == MessageRecordName(digest, b.0, b.1, b.2) <==> a == b
  {
    var x, y := [a.0, a.1, a.2], [b.0, b.1, b.2];
    if MessageRecordName(digest, a.0, a.1, a.2) == MessageRecordName(digest, b.0, b.1, b.2) {
      SamePrefix("message-", digest(Framed(x)), digest(Framed(y)));
      FramedInjective(x, y);
      assert x[0] == y[0] && x[1] == y[1] && x[2] == y[2];
    }
  }
}
