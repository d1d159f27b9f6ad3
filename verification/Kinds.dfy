/** The closed set of segment kinds and the shape grammar (crates/flotilla-address/src/kind.rs). */
module Kinds {
  import opened Outcomes
  import opened Text

  datatype Kind =
    | Project | Fleet | Host | Provider | Convoy | Vessel | Role | Artifact | Message | Session
    | Forge | Repo | ChangeRequest | Issue | Comment | Commit | Ref | Usage | Account

  /** The token printed before `:`. */
  function Token(kind: Kind): string {
    match kind
    case Host => "host"
    case Provider => "provider"
    case Project => "project"
    case Fleet => "fleet"
    case Convoy => "convoy"
    case Vessel => "vessel"
    case Role => "role"
    case Artifact => "artifact"
    case Message => "message"
    case Session => "session"
    case Forge => "forge"
    case Repo => "repo"
    case ChangeRequest => "cr"
    case Issue => "issue"
    case Comment => "comment"
    case Commit => "commit"
    case Ref => "ref"
    case Usage => "usage"
    case Account => "account"
  }

  /** The kind a token names: the search over every kind for the one with that token. */
  function FromToken(token: string): (r: Option<Kind>)
    ensures r.Some? ==> Token(r.value) == token
  {
    if token == "host" then Some(Host)
    else if token == "provider" then Some(Provider)
    else if token == "project" then Some(Project)
    else if token == "fleet" then Some(Fleet)
    else if token == "convoy" then Some(Convoy)
    else if token == "vessel" then Some(Vessel)
    else if token == "role" then Some(Role)
    else if token == "artifact" then Some(Artifact)
    else if token == "message" then Some(Message)
    else if token == "session" then Some(Session)
    else if token == "forge" then Some(Forge)
    else if token == "repo" then Some(Repo)
    else if token == "cr" then Some(ChangeRequest)
    else if token == "issue" then Some(Issue)
    else if token == "comment" then Some(Comment)
    else if token == "commit" then Some(Commit)
    else if token == "ref" then Some(Ref)
    else if token == "usage" then Some(Usage)
    else if token == "account" then Some(Account)
    else None
  }

  /** A kind's token names that kind and no other; no kind is called `of`. */
  lemma FromTokenOfToken(kind: Kind)
    ensures FromToken(Token(kind)) == Some(kind)
    ensures Token(kind) != "of"
  {
    match kind
    case Host =>
    case Provider =>
    case Project =>
    case Fleet =>
    case Convoy =>
    case Vessel =>
    case Role =>
    case Artifact =>
    case Message =>
    case Session =>
    case Forge =>
    case Repo =>
    case ChangeRequest =>
    case Issue =>
    case Comment =>
    case Commit =>
    case Ref =>
    case Usage =>
    case Account =>
  }

  lemma TokenIsLowerCase(kind: Kind)
    ensures Token(kind) != "" && All(Token(kind), IsLowerCase)
  {
  }

  /** Whether a segment of `kind` may directly follow `parent`, or start an address after none. */
  predicate MayFollow(kind: Kind, parent: Option<Kind>) {
    match kind
    case Fleet | Project | Forge | Usage | Host => parent == None
    case Convoy => parent == None || parent == Some(Project)
    case Vessel => parent == Some(Convoy)
    case Role => parent == Some(Fleet) || parent == Some(Project) || parent == Some(Convoy)
    case Artifact | Message | Session => parent == Some(Role)
    case Repo => parent == Some(Forge)
    case ChangeRequest | Issue | Comment | Commit | Ref => parent == Some(Repo)
    case Account => parent == None || parent == Some(Usage)
    case Provider => parent == Some(Host) || parent == Some(Account)
  }

  // ---- The shapes ----

  function ParentAt(kinds: seq<Kind>, i: nat): Option<Kind>
    requires i < |kinds|
  {
    if i == 0 then None else Some(kinds[i - 1])
  }

  /** Each kind may follow the one before it. */
  predicate Follows(kinds: seq<Kind>) {
    kinds != [] && forall i | 0 <= i < |kinds| :: MayFollow(kinds[i], ParentAt(kinds, i))
  }

  /** The first `n` kinds are where roles stand: a fleet, a project, or a convoy with or without its project. */
  predicate IsPlace(kinds: seq<Kind>, n: nat)
    requires n <= |kinds|
  {
    (n == 1 && kinds[0] in {Fleet, Project, Convoy}) || (n == 2 && kinds[0] == Project && kinds[1] == Convoy)
  }

  /** A place, a role in its place, or what a role holds. */
  predicate IsRoleShape(kinds: seq<Kind>) {
    var n := |kinds|;
    || IsPlace(kinds, n)
    || (n >= 2 && kinds[n - 1] == Role && IsPlace(kinds, n - 1))
    || (n >= 3 && kinds[n - 1] in {Artifact, Message, Session} && kinds[n - 2] == Role && IsPlace(kinds, n - 2))
  }

  /** All the shapes an address can have. */
  predicate IsShape(kinds: seq<Kind>) {
    || IsRoleShape(kinds)
    || kinds == [Convoy, Vessel] || kinds == [Project, Convoy, Vessel]
    || kinds == [Forge] || kinds == [Forge, Repo]
    || (|kinds| == 3 && kinds[0] == Forge && kinds[1] == Repo
        && kinds[2] in {ChangeRequest, Issue, Comment, Commit, Ref})
    || kinds == [Usage] || kinds == [Usage, Account] || kinds == [Usage, Account, Provider]
    || kinds == [Account] || kinds == [Account, Provider] || kinds == [Host] || kinds == [Host, Provider]
  }

  lemma FollowsAt(kinds: seq<Kind>, i: nat)
    requires Follows(kinds) && i < |kinds|
    ensures MayFollow(kinds[i], if i == 0 then None else Some(kinds[i - 1]))
  {
    assert MayFollow(kinds[i], ParentAt(kinds, i));
  }

  lemma ShapeFollows(kinds: seq<Kind>)
    requires IsShape(kinds)
    ensures Follows(kinds) && |kinds| <= 4
  {
  }

  lemma FollowsShape(kinds: seq<Kind>)
    requires Follows(kinds)
    ensures IsShape(kinds)
  {
    hide Follows;
    assert kinds != [] by { FollowsSome(kinds); }
    FollowsAt(kinds, 0);
    if |kinds| > 1 {
      FollowsAt(kinds, 1);
    }
    if |kinds| > 2 {
      FollowsAt(kinds, 2);
    }
    if |kinds| > 3 {
      FollowsAt(kinds, 3);
    }
    if |kinds| > 4 {
      FollowsAt(kinds, 4);
    }
  }

  lemma FollowsSome(kinds: seq<Kind>)
    requires Follows(kinds)
    ensures kinds != []
  {
  }

  /** The grammar of parents admits exactly these shapes, none longer than four kinds. */
  lemma ShapesExactly(kinds: seq<Kind>)
    ensures Follows(kinds) <==> IsShape(kinds)
    ensures Follows(kinds) ==> |kinds| <= 4
  {
    hide Follows, IsShape;
    if Follows(kinds) {
      FollowsShape(kinds);
    }
    if IsShape(kinds) {
      ShapeFollows(kinds);
    }
  }
}

/** Why text did not parse or a value was refused (crates/flotilla-address/src/lib.rs). */
module Errors {
  import opened Outcomes
  import opened Kinds

  datatype Error =
    | Empty
    | MalformedSegment(raw: string)
    | UnknownKind(token: string)
    | Shape(kind: Kind, parent: Option<Kind>)
    | InvalidValue(kind: Kind, value: string)
    | InvalidEscape(encoded: string)
    | NonCanonicalEncoding(encoded: string)
    | OfNotAfterArtifact
    | OfNotLast
    | ArtifactWithoutSubject
    | RepositoryNeedsForge
    | UnresolvedForge(name: string)
    | Unrecognised(input: string)
    | MissingRevision(input: string)
    | EmptyRevision
    | UnknownOperator(token: string)
    | InvalidVariable(name: string)
    | NonCanonicalQuoting(spelling: string)
    | Syntax(expected: string)
}
