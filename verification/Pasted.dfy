/**
 What pasted links mean (crates/flotilla-address/src/lenient.rs, `resolve_url`): the pages of a repository,
 the links to them, and the address each link resolves to.
 */
module Pasted {
  import opened Outcomes
  import opened Text
  import opened Casing
  import opened Kinds
  import opened Errors
  import opened Forges
  import opened Addresses
  import opened Containment
  import opened Lenient

  // ---- Pages ----

  /** What a link can show of a repository. */
  datatype Page =
    | Front | Clone | Change(plural: bool, number: nat) | Ticket(number: nat) | Revision(sha: string)

  predicate IsHexDigit(c: char) {
    IsDigit(c) || 'a' <= c <= 'f' || 'A' <= c <= 'F'
  }

  predicate ValidPage(page: Page, repo: string) {
    match page
    case Front => StripSuffix(repo, ".git").None?
    case Clone => true
    case Change(_, number) => number < U64_LIMIT
    case Ticket(number) => number < U64_LIMIT
    case Revision(sha) => (|sha| == 40 || |sha| == 64) && All(sha, IsHexDigit)
  }

  /** The page's path: what follows the number of a change or ticket does not matter. */
  function PageParts(owner: string, repo: string, page: Page, more: seq<string>): seq<string> {
    match page
    case Front => [owner, repo]
    case Clone => [owner, repo + ".git"]
    case Change(plural, number) => [owner, repo, if plural then "pulls" else "pull", NatText(number)] + more
    case Ticket(number) => [owner, repo, "issues", NatText(number)] + more
    case Revision(sha) => [owner, repo, "commit", sha]
  }

  function PageSegments(lower: string -> string, forge: Forge, owner: string, repo: string, page: Page): seq<Segment> {
    [Segment(Kind.Forge, forge.id), Segment(Repo, lower(owner + "/" + repo))] +
    match page
    case Front | Clone => []
    case Change(_, number) => [Segment(ChangeRequest, NatText(number))]
    case Ticket(number) => [Segment(Issue, NatText(number))]
    case Revision(sha) => [Segment(Commit, ToAsciiLower(sha))]
  }

  /** An owner and a repository: two names, without a slash. */
  predicate ValidNames(owner: string, repo: string) {
    owner != "" && repo != "" && '/' !in owner && '/' !in repo
  }

  lemma NamesAreValid(owner: string, repo: string)
    ensures ValidRepository(owner + "/" + repo) <==> ValidNames(owner, repo)
  {
    if '/' in owner {
      var (before, after) := SplitOnce(owner, '/').value;
      SplitOnceOf(before, '/', after + "/" + repo);
      assert owner + "/" + repo == before + "/" + (after + "/" + repo);
      assert (after + "/" + repo)[|after|] == '/';
    } else {
      SplitOnceOf(owner, '/', repo);
    }
  }

  /** A repository is refused exactly for its names; otherwise its address is the forge and the lowered names. */
  lemma RepositoryIs(lower: string -> string, forge: Forge, owner: string, repo: string)
    requires Lowercase(lower)
    ensures Repository(lower, forge, owner + "/" + repo).Ok? <==> ValidNames(owner, repo)
    ensures ValidNames(owner, repo) ==>
              Repository(lower, forge, owner + "/" + repo) ==
              Ok(Plain([Segment(Kind.Forge, forge.id), Segment(Repo, lower(owner + "/" + repo))]))
  {
    NamesAreValid(owner, repo);
    if ValidNames(owner, repo) {
      hide ValidRepository, Plain, Push, ForgeAddress, Repository;
      RepositoryPushed(lower, forge, owner + "/" + repo);
    }
  }

  lemma RepositoryPushed(lower: string -> string, forge: Forge, repository: string)
    requires Lowercase(lower) && ValidRepository(repository)
    ensures Repository(lower, forge, repository) ==
            Ok(Plain([Segment(Kind.Forge, forge.id), Segment(Repo, lower(repository))]))
  {
    hide ValidRepository, Plain, Render, Lowercase, Push, ForgeAddress;
    NormalisedRepository(lower, repository);
    var root, child := Segment(Kind.Forge, forge.id), Segment(Repo, lower(repository));
    ForgeIsPlain(forge);
    assert SegmentAdmitted(lower, [root], child);
    PushPlain(lower, [root], child);
    assert [root] + [child] == [root, child];
  }

  lemma ForgeIsPlain(forge: Forge)
    ensures ForgeAddress(forge) == Plain([Segment(Kind.Forge, forge.id)])
  {
    assert Parts([Segment(Kind.Forge, forge.id)], None) == [SegmentText(Kind.Forge, forge.id)];
  }

  /** A child of a repository, of a kind that stands under one. */
  lemma UnderRepository(lower: string -> string, before: seq<Segment>, segment: Segment)
    requires LastKind(before) == Some(Repo) && segment.kind in {ChangeRequest, Issue, Commit}
    ensures Child(lower, Plain(before), segment.kind, segment.value).Ok? <==>
            ValueAdmitted(lower, segment.kind, segment.value)
    ensures Child(lower, Plain(before), segment.kind, segment.value).Ok? ==>
              Child(lower, Plain(before), segment.kind, segment.value) == Ok(Plain(before + [segment]))
  {
    hide Child, Plain, ValueAdmitted;
    ChildOf(lower, before, segment.kind, segment.value);
  }

  lemma NumberedIs(lower: string -> string, forge: Forge, owner: string, repo: string, kind: Kind, number: nat)
    requires Lowercase(lower) && kind in {ChangeRequest, Issue} && number < U64_LIMIT
    ensures Numbered(lower, forge, owner + "/" + repo, kind, number).Ok? <==> ValidNames(owner, repo)
    ensures ValidNames(owner, repo) ==>
              Numbered(lower, forge, owner + "/" + repo, kind, number) ==
              Ok(Plain([Segment(Kind.Forge, forge.id), Segment(Repo, lower(owner + "/" + repo)),
                        Segment(kind, NatText(number))]))
  {
    hide Repository, Plain, Child;
    RepositoryIs(lower, forge, owner, repo);
    var before := [Segment(Kind.Forge, forge.id), Segment(Repo, lower(owner + "/" + repo))];
    DigitsValueOfNatText(number);
    UnderRepository(lower, before, Segment(kind, NatText(number)));
    assert before + [Segment(kind, NatText(number))] ==
           [Segment(Kind.Forge, forge.id), Segment(Repo, lower(owner + "/" + repo)), Segment(kind, NatText(number))];
  }

  /** The number parser reads back exactly the printed 64-bit numbers. */
  lemma ParseNumberExactly(text: string, number: nat)
    ensures ParseNumber(text) == Ok(number) <==> text == NatText(number) && number < U64_LIMIT
    ensures ParseNumber(text).Err? ==> ParseNumber(text) == Err(InvalidValue(ChangeRequest, text))
  {
    DigitsValueOfNatText(number);
    if CanonicalDigits(text) {
      NatTextOfDigitsValue(text);
    }
  }

  lemma NumberedResolves(
    lower: string -> string, forge: Forge, owner: string, repo: string, page: Page, more: seq<string>, input: string)
    requires Lowercase(lower) && ValidNames(owner, repo) && ValidPage(page, repo) && (page.Change? || page.Ticket?)
    ensures ResolvePath(lower, forge, PageParts(owner, repo, page, more), input) ==
            Ok(Plain(PageSegments(lower, forge, owner, repo, page)))
  {
    hide Repository, Numbered, Plain, ParseNumber, NatText, StripSuffix, Lowercase;
    var parts := PageParts(owner, repo, page, more);
    assert |parts| >= 4 && parts[0] == owner && parts[1] == repo && parts[3] == NatText(page.number);
    assert parts[2] == if page.Ticket? then "issues" else if page.plural then "pulls" else "pull";
    ParseNumberExactly(parts[3], page.number);
    var kind := if page.Ticket? then Issue else ChangeRequest;
    NumberedIs(lower, forge, owner, repo, kind, page.number);
    assert PageSegments(lower, forge, owner, repo, page) ==
           [Segment(Kind.Forge, forge.id), Segment(Repo, lower(owner + "/" + repo)),
               Segment(kind, NatText(page.number))];
  }

  /** Every valid page resolves to its segments. */
  lemma PageResolves(
    lower: string -> string, forge: Forge, owner: string, repo: string, page: Page, more: seq<string>, input: string)
    requires Lowercase(lower) && ValidNames(owner, repo) && ValidPage(page, repo)
    ensures ResolvePath(lower, forge, PageParts(owner, repo, page, more), input) ==
            Ok(Plain(PageSegments(lower, forge, owner, repo, page)))
  {
    hide Repository, Numbered, Plain, Child, ParseNumber, NatText;
    RepositoryIs(lower, forge, owner, repo);
    var before := [Segment(Kind.Forge, forge.id), Segment(Repo, lower(owner + "/" + repo))];
    match page
    case Front =>
      assert before + [] == before;
    case Clone =>
      assert (repo + ".git")[..|repo|] == repo;
      assert before + [] == before;
    case Change(_, _) =>
      NumberedResolves(lower, forge, owner, repo, page, more, input);
    case Ticket(_) =>
      NumberedResolves(lower, forge, owner, repo, page, more, input);
    case Revision(sha) =>
      ShaAdmitted(lower, sha);
      UnderRepository(lower, before, Segment(Commit, ToAsciiLower(sha)));
  }

  lemma ShaAdmitted(lower: string -> string, sha: string)
    ensures ValueAdmitted(lower, Commit, ToAsciiLower(sha)) <==>
            (|sha| == 40 || |sha| == 64) && All(sha, IsHexDigit)
  {
    var lowered := ToAsciiLower(sha);
    assert forall i | 0 <= i < |sha| :: IsLowerHex(lowered[i]) <==> IsHexDigit(sha[i]);
  }

  /** This path is a page's, and this is its address. */
  ghost predicate IsPage(lower: string -> string, forge: Forge, parts: seq<string>, address: Address) {
    exists owner, repo, page, more: seq<string> ::
      && parts == PageParts(owner, repo, page, more) && ValidNames(owner, repo) && ValidPage(page, repo)
      && address == Plain(PageSegments(lower, forge, owner, repo, page))
  }

  /** The repository a two-part path names. */
  lemma TwoParts(lower: string -> string, forge: Forge, parts: seq<string>, input: string)
    requires Lowercase(lower) && |parts| == 2 && '/' !in parts[0] && '/' !in parts[1]
    requires ResolvePath(lower, forge, parts, input).Ok?
    ensures IsPage(lower, forge, parts, ResolvePath(lower, forge, parts, input).value)
  {
    hide Repository, Plain, PageSegments;
    var owner := parts[0];
    match StripSuffix(parts[1], ".git")
    case Some(repo) =>
      assert parts[1] == repo + ".git";
      RepositoryIs(lower, forge, owner, repo);
      PageResolves(lower, forge, owner, repo, Clone, [], input);
      assert parts == PageParts(owner, repo, Clone, []);
    case None =>
      RepositoryIs(lower, forge, owner, parts[1]);
      PageResolves(lower, forge, owner, parts[1], Front, [], input);
      assert parts == PageParts(owner, parts[1], Front, []);
  }

  lemma NumberedParts(lower: string -> string, forge: Forge, parts: seq<string>, input: string, page: Page, number: nat)
    requires Lowercase(lower) && |parts| >= 4 && (forall i | 0 <= i < |parts| :: '/' !in parts[i])
    requires ParseNumber(parts[3]) == Ok(number)
    requires || (parts[2] == "pull" && page == Change(false, number))
             || (parts[2] == "pulls" && page == Change(true, number))
             || (parts[2] == "issues" && page == Ticket(number))
    requires ResolvePath(lower, forge, parts, input).Ok?
    ensures IsPage(lower, forge, parts, ResolvePath(lower, forge, parts, input).value)
  {
    hide Repository, Numbered, Plain, PageSegments, ParseNumber, NatText;
    var owner, repo := parts[0], parts[1];
    ParseNumberExactly(parts[3], number);
    NumberedIs(lower, forge, owner, repo, if page.Ticket? then Issue else ChangeRequest, number);
    assert parts == PageParts(owner, repo, page, parts[4..]);
    PageResolves(lower, forge, owner, repo, page, parts[4..], input);
  }

  lemma CommitParts(lower: string -> string, forge: Forge, parts: seq<string>, input: string)
    requires Lowercase(lower) && |parts| == 4 && (forall i | 0 <= i < |parts| :: '/' !in parts[i])
    requires parts[2] == "commit" && ResolvePath(lower, forge, parts, input).Ok?
    ensures IsPage(lower, forge, parts, ResolvePath(lower, forge, parts, input).value)
  {
    hide Repository, Child, Plain, PageSegments;
    var owner, repo, sha := parts[0], parts[1], parts[3];
    RepositoryIs(lower, forge, owner, repo);
    var before := [Segment(Kind.Forge, forge.id), Segment(Repo, lower(owner + "/" + repo))];
    UnderRepository(lower, before, Segment(Commit, ToAsciiLower(sha)));
    ShaAdmitted(lower, sha);
    assert parts == PageParts(owner, repo, Revision(sha), []);
    PageResolves(lower, forge, owner, repo, Revision(sha), [], input);
  }

  /** A path resolves exactly when it is a valid page's, and to that page's address. */
  lemma PathExactly(lower: string -> string, forge: Forge, parts: seq<string>, input: string, address: Address)
    requires Lowercase(lower) && forall i | 0 <= i < |parts| :: '/' !in parts[i]
    ensures ResolvePath(lower, forge, parts, input) == Ok(address) <==> IsPage(lower, forge, parts, address)
  {
    if ResolvePath(lower, forge, parts, input) == Ok(address) {
      if |parts| == 2 {
        TwoParts(lower, forge, parts, input);
      } else if parts[2] == "commit" {
        CommitParts(lower, forge, parts, input);
      } else {
        hide Repository, Numbered, Plain, PageSegments, ParseNumber, IsPage;
        var number := ParseNumber(parts[3]).value;
        var page := if parts[2] == "issues" then Ticket(number) else Change(parts[2] == "pulls", number);
        NumberedParts(lower, forge, parts, input, page, number);
      }
    }
    if IsPage(lower, forge, parts, address) {
      hide Repository, Numbered, Plain, PageSegments, ParseNumber, ResolvePath;
      var owner, repo, page, more: seq<string> :|
        && parts == PageParts(owner, repo, page, more) && ValidNames(owner, repo) && ValidPage(page, repo)
        && address == Plain(PageSegments(lower, forge, owner, repo, page));
      PageResolves(lower, forge, owner, repo, page, more, input);
    }
  }

  // ---- Links ----

  /** A web address, or a remote as `git` writes it. */
  datatype Link =
    | Web(scheme: string, user: Option<string>, host: string, port: Option<string>)
    | Remote(login: string, host: string)

  predicate ValidLink(link: Link) {
    match link
    case Web(scheme, user, host, port) =>
      && scheme in {"https", "http", "ssh"} && '/' !in host && '@' !in host && ':' !in host
      && (user.Some? ==> '/' !in user.value) && (port.Some? ==> '/' !in port.value && '@' !in port.value)
    case Remote(user, host) => ':' !in user && ':' !in host && '@' !in host
  }

  function HostAndPort(host: string, port: Option<string>): string {
    if port.Some? then host + ":" + port.value else host
  }

  function Authority(user: Option<string>, host: string, port: Option<string>): string {
    if user.Some? then user.value + "@" + HostAndPort(host, port) else HostAndPort(host, port)
  }

  function LinkText(link: Link, path: string): string {
    match link
    case Web(scheme, user, host, port) => scheme + "://" + Authority(user, host, port) + "/" + path
    case Remote(user, host) => user + "@" + host + ":" + path
  }

  lemma SchemeStripped(scheme: string, rest: string)
    requires scheme in {"https", "http", "ssh"}
    ensures HostAndPath(scheme + "://" + rest) ==
              var (authority, path) := match SplitOnce(rest, '/') case Some(pair) => pair case None => (rest, "");
              var host := AfterAt(authority);
              Some(((match SplitOnce(host, ':') case Some((name, _)) => name case None => host), path))
  {
    hide SplitOnce, AfterAt;
    var text := scheme + "://" + rest;
    assert text[|scheme| + 3..] == rest && text[..|scheme| + 3] == scheme + "://";
    if scheme == "https" {
      assert "https://" == "https" + "://" && "https://" <= text;
    } else if scheme == "http" {
      assert text[4] == ':' && "https://"[4] == 's';
      assert !("https://" <= text);
      assert "http://" == "http" + "://" && "http://" <= text;
    } else {
      assert text[0] == 's' && "https://"[0] == 'h' && "http://"[0] == 'h';
      assert !("https://" <= text) && !("http://" <= text);
      assert "ssh://" == "ssh" + "://" && "ssh://" <= text;
    }
  }

  lemma NotSplit(s: string, c: char)
    requires c !in s
    ensures SplitOnce(s, c) == None && RSplitOnce(s, c) == None
  {
  }

  lemma AuthorityHost(user: Option<string>, host: string, port: Option<string>)
    requires '@' !in host && ':' !in host && (port.Some? ==> '@' !in port.value)
    ensures AfterAt(Authority(user, host, port)) == HostAndPort(host, port)
    ensures SplitOnce(HostAndPort(host, port), ':') == if port.Some? then Some((host, port.value)) else None
  {
    hide SplitOnce, RSplitOnce;
    assert '@' !in HostAndPort(host, port);
    if user.Some? {
      RSplitOnceOf(user.value, '@', HostAndPort(host, port));
    } else {
      NotSplit(HostAndPort(host, port), '@');
    }
    if port.Some? {
      SplitOnceOf(host, ':', port.value);
    } else {
      NotSplit(host, ':');
    }
  }

  lemma SchemeSplit(scheme: string, text: string)
    requires ':' !in scheme
    ensures scheme + "://" <= text ==> SplitOnce(text, ':').Some? && SplitOnce(text, ':').value.0 == scheme
  {
    if scheme + "://" <= text {
      var n := |scheme|;
      assert text[..n + 3] == scheme + "://" && text[..n] == scheme && text[n] == ':';
      assert text == scheme + ":" + text[n + 1..];
      SplitOnceOf(scheme, ':', text[n + 1..]);
    }
  }

  lemma NotScheme(before: string, path: string)
    requires ':' !in before && '@' in before
    ensures var text := before + ":" + path;
            StripPrefix(text, "https://") == StripPrefix(text, "http://") == StripPrefix(text, "ssh://") == None
    ensures SplitOnce(before + ":" + path, ':') == Some((before, path))
  {
    hide SplitOnce;
    var text := before + ":" + path;
    SplitOnceOf(before, ':', path);
    SchemeSplit("https", text);
    SchemeSplit("http", text);
    SchemeSplit("ssh", text);
    assert "https" + "://" == "https://" && "http" + "://" == "http://" && "ssh" + "://" == "ssh://";
    assert before != "https" && before != "http" && before != "ssh";
  }

  /** A link's host and path are found in its text. */
  lemma LinkRead(link: Link, path: string)
    requires ValidLink(link)
    ensures HostAndPath(LinkText(link, path)) == Some((link.host, path))
  {
    hide SplitOnce, RSplitOnce, AfterAt;
    match link
    case Web(scheme, user, host, port) =>
      var authority := Authority(user, host, port);
      AuthorityChars(user, host, port);
      assert LinkText(link, path) == scheme + "://" + (authority + "/" + path);
      SchemeStripped(scheme, authority + "/" + path);
      SplitOnceOf(authority, '/', path);
      AuthorityHost(user, host, port);
    case Remote(user, host) =>
      var before := user + "@" + host;
      RemoteHost(user, host);
      NotScheme(before, path);
  }

  lemma RemoteHost(user: string, host: string)
    requires '@' !in host
    ensures AfterAt(user + "@" + host) == host && '@' in user + "@" + host
  {
    RSplitOnceOf(user, '@', host);
    assert (user + "@" + host)[|user|] == '@';
  }

  lemma AuthorityChars(user: Option<string>, host: string, port: Option<string>)
    requires '/' !in host && (user.Some? ==> '/' !in user.value) && (port.Some? ==> '/' !in port.value)
    ensures '/' !in Authority(user, host, port)
  {
  }

  /** Every text with a host and a path is a link's. */
  lemma ReadLink(text: string, host: string, path: string) returns (link: Link)
    requires HostAndPath(text) == Some((host, path)) && path != ""
    ensures ValidLink(link) && link.host == host && text == LinkText(link, path)
  {
    hide SplitOnce, RSplitOnce, ValidLink, LinkText, AfterAt;
    if "https://" <= text {
      link := ReadScheme("https", text, host, path);
    } else if "http://" <= text {
      link := ReadScheme("http", text, host, path);
    } else if "ssh://" <= text {
      link := ReadScheme("ssh", text, host, path);
    } else {
      var (before, _) := SplitOnce(text, ':').value;
      link := ReadRemote(before, path);
    }
  }

  lemma ReadRemote(before: string, path: string) returns (link: Link)
    requires ':' !in before && '@' in before
    ensures ValidLink(link) && link.host == AfterAt(before) && before + ":" + path == LinkText(link, path)
  {
    var (user, host) := RSplitOnce(before, '@').value;
    assert before == user + "@" + host;
    assert forall c | c in user || c in host :: c in before;
    link := Remote(user, host);
  }

  lemma ReadScheme(scheme: string, text: string, host: string, path: string) returns (link: Link)
    requires scheme in {"https", "http", "ssh"} && path != "" && scheme + "://" <= text
    requires HostAndPath(text) == Some((host, path))
    ensures ValidLink(link) && link.host == host && text == LinkText(link, path)
  {
    var rest := text[|scheme| + 3..];
    assert text == scheme + "://" + rest;
    link := ReadWeb(scheme, rest, host, path);
  }

  lemma ReadWeb(scheme: string, rest: string, host: string, path: string) returns (link: Link)
    requires scheme in {"https", "http", "ssh"} && path != ""
    requires HostAndPath(scheme + "://" + rest) == Some((host, path))
    ensures ValidLink(link) && link.host == host && scheme + "://" + rest == LinkText(link, path)
  {
    hide HostAndPath;
    SchemeStripped(scheme, rest);
    var (authority, _) := SplitOnce(rest, '/').value;
    var after := AfterAt(authority);
    var user := match RSplitOnce(authority, '@') case Some((user, _)) => Some(user) case None => None;
    var port := match SplitOnce(after, ':') case Some((_, port)) => Some(port) case None => None;
    link := Web(scheme, user, host, port);
    assert after == HostAndPort(host, port);
    assert authority == Authority(user, host, port);
    AuthorityParts(user, host, port);
    assert '@' !in after;
    assert scheme + "://" + (authority + "/" + path) == scheme + "://" + authority + "/" + path;
  }

  lemma AuthorityParts(user: Option<string>, host: string, port: Option<string>)
    ensures forall c | c in host :: c in HostAndPort(host, port)
    ensures port.Some? ==> forall c | c in port.value :: c in HostAndPort(host, port)
    ensures forall c | c in HostAndPort(host, port) :: c in Authority(user, host, port)
    ensures user.Some? ==> forall c | c in user.value :: c in Authority(user, host, port)
  {
  }

  // ---- Paths ----

  function Slashes(n: nat): string {
    seq(n, _ => '/')
  }

  /** Nothing, or a query or a fragment. */
  predicate IsQuery(query: string) {
    query == "" || query[0] == '?' || query[0] == '#'
  }

  /** A path with these parts: joined by slashes, perhaps with slashes, a query or a fragment after them. */
  ghost predicate IsPath(path: string, parts: seq<string>) {
    && |parts| > 0 && parts[|parts| - 1] != "" && (forall i | 0 <= i < |parts| :: '/' !in parts[i])
    && var base := Join(parts, '/');
       && '?' !in base && '#' !in base
       && exists n: nat, query: string ::
            path == base + Slashes(n) + query && IsQuery(query)
  }

  lemma {:induction false} TrimOfSlashes(base: string, n: nat)
    requires base != "" && base[|base| - 1] != '/'
    ensures TrimSlashes(base + Slashes(n)) == base
  {
    var text := base + Slashes(n);
    if n == 0 {
      assert text == base;
    } else {
      assert text[..|text| - 1] == base + Slashes(n - 1);
      TrimOfSlashes(base, n - 1);
    }
  }

  lemma {:induction false} SlashesTrimmed(path: string) returns (n: nat)
    ensures path == TrimSlashes(path) + Slashes(n)
    ensures TrimSlashes(path) == "" || TrimSlashes(path)[|TrimSlashes(path)| - 1] != '/'
  {
    if path != "" && path[|path| - 1] == '/' {
      n := SlashesTrimmed(path[..|path| - 1]);
      n := n + 1;
      assert Slashes(n) == Slashes(n - 1) + "/";
    } else {
      n := 0;
    }
  }

  /** Joined parts end as the last part does. */
  lemma JoinEnds(parts: seq<string>)
    requires |parts| > 0
    ensures var last, text := parts[|parts| - 1], Join(parts, '/');
            if last != "" then text != "" && text[|text| - 1] == last[|last| - 1]
            else text == "" || text[|text| - 1] == '/'
  {
    var n := |parts| - 1;
    if n > 0 {
      JoinAppend(parts[..n], parts[n..], '/');
      assert parts[..n] + parts[n..] == parts && parts[n..] == [parts[n]];
    }
  }

  /** The parts of a path, exactly. */
  lemma PathPartsExactly(path: string, parts: seq<string>)
    ensures PathParts(path) == parts && |parts| > 0 && parts[|parts| - 1] != "" <==> IsPath(path, parts)
  {
    if IsPath(path, parts) {
      PathRead(path, parts);
    }
    if PathParts(path) == parts && parts[|parts| - 1] != "" {
      ReadPath(path);
    }
  }

  lemma PathRead(path: string, parts: seq<string>)
    requires IsPath(path, parts)
    ensures PathParts(path) == parts
  {
    hide Split;
    var base := Join(parts, '/');
    var n: nat, query: string :|
      path == base + Slashes(n) + query && IsQuery(query);
    var head := base + Slashes(n);
    assert forall j | 0 <= j < |head| :: path[j] == head[j] && !EndsPath(head[j]);
    assert query != "" ==> path[|head|] == query[0];
    FindIs(path, EndsPath, |head|);
    assert path[..|head|] == head;
    JoinEnds(parts);
    TrimOfSlashes(base, n);
    SplitOfJoin(parts, '/');
  }

  lemma ReadPath(path: string)
    requires var parts := PathParts(path); parts[|parts| - 1] != ""
    ensures IsPath(path, PathParts(path))
  {
    hide Split, TrimSlashes;
    var k := Find(path, EndsPath);
    var head, query := path[..k], path[k..];
    var base := TrimSlashes(head);
    var n := SlashesTrimmed(head);
    JoinOfSplit(base, '/');
    forall j | 0 <= j < |base|
      ensures !EndsPath(base[j])
    {
      assert base[j] == head[j] == path[j];
    }
    assert path == base + Slashes(n) + query;
    assert IsQuery(query) by {
      assert query != "" ==> query[0] == path[k];
    }
    assert '?' !in base && '#' !in base;
    assert Join(PathParts(path), '/') == base;
  }

  /** A trimmed path is empty or ends in a part. */
  lemma LastPart(path: string)
    ensures var parts := PathParts(path); parts == [""] || parts[|parts| - 1] != ""
  {
    hide Split, TrimSlashes, Find;
    var head := path[..Find(path, EndsPath)];
    var base := TrimSlashes(head);
    var n := SlashesTrimmed(head);
    JoinOfSplit(base, '/');
    JoinEnds(Split(base, '/'));
    EmptySplit();
  }

  lemma EmptySplit()
    ensures Split("", '/') == [""]
  {
    NotSplit("", '/');
  }

  // ---- What a pasted link resolves to ----

  /** The forge that serves a host: the one the lookup has for it, or public GitHub under its own names. */
  predicate Hosted(forges: ForgeLookup, host: string, forge: Forge) {
    var name := ToAsciiLower(host);
    match forges.byHost(name)
    case Some(found) => forge == found
    case None => name in {"github.com", "www.github.com", "ssh.github.com"} && forge == ForgeRecord("github", Github)
  }

  lemma HostedExactly(forges: ForgeLookup, host: string, forge: Forge)
    ensures ForgeByHost(forges, host) == Some(forge) <==> Hosted(forges, host, forge)
  {
  }

  /** The text of an address has no empty part and no `@`. */
  lemma ParsedText(lower: string -> string, text: string)
    requires Parse(lower, text).Ok?
    ensures '@' !in text && forall i | 0 <= i < |Split(text, '/')| :: Split(text, '/')[i] != ""
  {
    hide Parse, Split, Render, Parts;
    PrintOfParse(lower, text);
    var address := Parse(lower, text).value;
    TextIsAscii(lower, address);
    SplitOfRender(address.segments, address.of);
    PartsChars(address.segments, address.of);
  }

  /** No link is an address: its text has an empty part or an `@`. */
  lemma LinksDoNotParse(lower: string -> string, text: string)
    requires HostAndPath(text).Some?
    ensures Parse(lower, text).Err?
  {
    hide Parse, Split, SplitOnce, AfterAt;
    EmptyPart("https:", text);
    EmptyPart("http:", text);
    EmptyPart("ssh:", text);
    assert "https:" + "//" == "https://" && "http:" + "//" == "http://" && "ssh:" + "//" == "ssh://";
    if SplitOnce(text, ':').Some? {
      assert forall c | c in SplitOnce(text, ':').value.0 :: c in text;
    }
    if Parse(lower, text).Ok? {
      ParsedText(lower, text);
    }
  }

  lemma EmptyPart(scheme: string, text: string)
    requires '/' !in scheme
    ensures scheme + "//" <= text ==> |Split(text, '/')| > 1 && Split(text, '/')[1] == ""
  {
    if scheme + "//" <= text {
      var n := |scheme|;
      assert text[..n + 2] == scheme + "//" && text[..n] == scheme && text[n] == text[n + 1] == '/';
      var rest := text[n + 1..];
      assert text == scheme + "/" + rest && rest == "" + "/" + rest[1..];
      SplitOnceOf(scheme, '/', rest);
      SplitOnceOf("", '/', rest[1..]);
    }
  }

  /** The text is a link to a page of a repository, and this is the page's address. */
  ghost predicate IsPasted(lower: string -> string, forges: ForgeLookup, text: string, address: Address) {
    exists link, path, parts, forge ::
      && ValidLink(link) && text == LinkText(link, path) && IsPath(path, parts)
      && Hosted(forges, link.host, forge) && IsPage(lower, forge, parts, address)
  }

  /** A pasted link resolves exactly when it is to a page of a repository on a known host, and to that page. */
  lemma PastedExactly(lower: string -> string, forges: ForgeLookup, input: string, address: Address)
    requires Lowercase(lower) && HostAndPath(Trim(input)).Some?
    ensures Resolve(lower, forges, input) == Ok(address) <==> IsPasted(lower, forges, Trim(input), address)
  {
    hide HostAndPath, PathParts, ResolvePath, IsPath, IsPage, Parse, ForgeByHost, Hosted, LinkText, Trim, ValidLink;
    var text := Trim(input);
    LinksDoNotParse(lower, text);
    var (host, path) := HostAndPath(text).value;
    var parts := PathParts(path);
    if Resolve(lower, forges, input) == Ok(address) {
      var forge := ForgeByHost(forges, host).value;
      HostedExactly(forges, host, forge);
      PartsHaveNoSlash(path);
      PathExactly(lower, forge, parts, text, address);
      NonEmptyPage(lower, forge, path, address);
      PathPartsExactly(path, parts);
      var link := ReadLink(text, host, path);
      assert ValidLink(link) && text == LinkText(link, path) && IsPath(path, parts);
      assert Hosted(forges, link.host, forge) && IsPage(lower, forge, parts, address);
    }
    if IsPasted(lower, forges, text, address) {
      var link, path', parts', forge :|
        && ValidLink(link) && text == LinkText(link, path') && IsPath(path', parts')
        && Hosted(forges, link.host, forge) && IsPage(lower, forge, parts', address);
      LinkRead(link, path');
      PathPartsExactly(path', parts');
      HostedExactly(forges, host, forge);
      PartsHaveNoSlash(path);
      PathExactly(lower, forge, parts, text, address);
      assert ResolveUrl(lower, forges, text) == Ok(Some(address));
    }
  }

  lemma PartsHaveNoSlash(path: string)
    ensures forall i | 0 <= i < |PathParts(path)| :: '/' !in PathParts(path)[i]
  {
  }

  lemma NonEmptyPage(lower: string -> string, forge: Forge, path: string, address: Address)
    requires IsPage(lower, forge, PathParts(path), address)
    ensures path != "" && |PathParts(path)| > 1 && PathParts(path)[|PathParts(path)| - 1] != ""
  {
    hide Split, TrimSlashes, Find, NatText;
    LastPart(path);
    assert |PathParts(path)| > 1;
    if path == "" {
      EmptyPath();
    }
  }

  lemma EmptyPath()
    ensures PathParts("") == [""]
  {
    EmptySplit();
  }

  /**
   Whatever the forge, link, names and page, and whatever follows in the path, a page's link is that
   page's address.
   */
  lemma PastedResolves(
    lower: string -> string, forges: ForgeLookup, forge: Forge, link: Link, owner: string, repo: string, page: Page,
    more: seq<string>, path: string, input: string)
    requires Lowercase(lower) && Hosted(forges, link.host, forge) && ValidLink(link)
    requires ValidNames(owner, repo) && ValidPage(page, repo)
    requires IsPath(path, PageParts(owner, repo, page, more)) && Trim(input) == LinkText(link, path)
    ensures Resolve(lower, forges, input) == Ok(Plain(PageSegments(lower, forge, owner, repo, page)))
  {
    hide HostAndPath, Resolve, IsPath, Hosted, LinkText, Trim, ValidLink, PageParts, PageSegments, Plain, Lowercase;
    LinkRead(link, path);
    var address := Plain(PageSegments(lower, forge, owner, repo, page));
    assert IsPage(lower, forge, PageParts(owner, repo, page, more), address);
    PastedExactly(lower, forges, input, address);
  }

  predicate PathText(text: string) {
    forall c | c in text :: c != '/' && c != '?' && c != '#'
  }

  lemma PlainPath(parts: seq<string>)
    requires |parts| > 0 && parts[|parts| - 1] != "" && forall i | 0 <= i < |parts| :: PathText(parts[i])
    ensures IsPath(Join(parts, '/'), parts)
  {
    var base := Join(parts, '/');
    JoinedText(parts);
    assert base == base + Slashes(0) + "";
    assert IsQuery("");
  }

  lemma {:induction false} JoinedText(parts: seq<string>)
    requires forall i | 0 <= i < |parts| :: PathText(parts[i])
    ensures forall c | c in Join(parts, '/') :: c != '?' && c != '#'
  {
    if |parts| > 1 {
      JoinedText(parts[1..]);
    }
  }

  lemma NumberPath(owner: string, repo: string, word: string, number: nat)
    requires PathText(owner) && PathText(repo) && PathText(word)
    ensures var parts := [owner, repo, word, NatText(number)];
            && parts + [] == parts
            && IsPath(owner + "/" + repo + "/" + word + "/" + NatText(number), parts)
  {
    hide NatText, IsPath;
    var parts := [owner, repo, word, NatText(number)];
    assert parts[1..] == [repo, word, NatText(number)] && parts[1..][1..] == [word, NatText(number)];
    assert [word, NatText(number)][1..] == [NatText(number)];
    assert Join([word, NatText(number)], '/') == word + "/" + NatText(number);
    assert Join([repo, word, NatText(number)], '/') == repo + "/" + (word + "/" + NatText(number));
    assert Join(parts, '/') == owner + "/" + repo + "/" + word + "/" + NatText(number);
    PlainPath(parts);
  }

  /** On a known host, `https://host/owner/repo/pull/N` is change request N and `.../issues/N` is issue N. */
  lemma NumberedLink(
    lower: string -> string, forges: ForgeLookup, forge: Forge, host: string, owner: string, repo: string, number: nat)
    requires Lowercase(lower) && Hosted(forges, host, forge) && number < U64_LIMIT
    requires ValidNames(owner, repo) && PathText(owner) && PathText(repo)
    requires '/' !in host && '@' !in host && ':' !in host
    ensures var repository := [Segment(Kind.Forge, forge.id), Segment(Repo, lower(owner + "/" + repo))];
            && Resolve(lower, forges, "https://" + host + "/" + owner + "/" + repo + "/pull/" + NatText(number)) ==
               Ok(Plain(repository + [Segment(ChangeRequest, NatText(number))]))
            && Resolve(lower, forges, "https://" + host + "/" + owner + "/" + repo + "/issues/" + NatText(number)) ==
               Ok(Plain(repository + [Segment(Issue, NatText(number))]))
  {
    hide Resolve, Hosted, NatText, IsPath, Plain, Lowercase;
    NumberPath(owner, repo, "pull", number);
    assert "/pull/" == "/" + "pull" + "/" && "/issues/" == "/" + "issues" + "/";
    assert owner + "/" + repo + "/pull/" + NatText(number) == owner + "/" + repo + "/" + "pull" + "/" + NatText(number);
    WebResolves(
      lower, forges, forge, host, owner, repo, Change(false, number),
      owner + "/" + repo + "/pull/" + NatText(number),
      "https://" + host + "/" + owner + "/" + repo + "/pull/" + NatText(number));
    NumberPath(owner, repo, "issues", number);
    assert owner + "/" + repo + "/issues/" + NatText(number) ==
           owner + "/" + repo + "/" + "issues" + "/" + NatText(number);
    WebResolves(
      lower, forges, forge, host, owner, repo, Ticket(number),
      owner + "/" + repo + "/issues/" + NatText(number),
      "https://" + host + "/" + owner + "/" + repo + "/issues/" + NatText(number));
  }

  lemma WebResolves(
    lower: string -> string, forges: ForgeLookup, forge: Forge, host: string, owner: string, repo: string, page: Page,
    path: string, input: string)
    requires Lowercase(lower) && Hosted(forges, host, forge) && ValidNames(owner, repo) && ValidPage(page, repo)
    requires '/' !in host && '@' !in host && ':' !in host
    requires IsPath(path, PageParts(owner, repo, page, [])) && input == "https://" + host + "/" + path
    requires path != "" && !IsWhitespace(path[|path| - 1])
    ensures Resolve(lower, forges, input) == Ok(Plain(PageSegments(lower, forge, owner, repo, page)))
  {
    hide Resolve, Hosted, IsPath, Plain, Lowercase, PageParts, PageSegments, ValidPage, ValidNames;
    var link := Web("https", None, host, None);
    assert input == LinkText(link, path) by {
      assert "https" + "://" == "https://";
    }
    assert Trim(input) == input by {
      assert input[0] == 'h' && input[|input| - 1] == path[|path| - 1];
      TrimIsTrimmed(input);
    }
    PastedResolves(lower, forges, forge, link, owner, repo, page, [], path, input);
  }

  /** A remote `git@host:owner/repo.git` is the repository. */
  lemma RemoteResolves(
    lower: string -> string, forges: ForgeLookup, forge: Forge, host: string, owner: string, repo: string)
    requires Lowercase(lower) && Hosted(forges, host, forge)
    requires ValidNames(owner, repo) && PathText(owner) && PathText(repo) && '@' !in host && ':' !in host
    ensures Resolve(lower, forges, "git@" + host + ":" + owner + "/" + repo + ".git") ==
            Ok(Plain([Segment(Kind.Forge, forge.id), Segment(Repo, lower(owner + "/" + repo))]))
  {
    hide Resolve, Hosted, IsPath, Plain, Lowercase;
    var input := "git@" + host + ":" + owner + "/" + repo + ".git";
    var link, path := Remote("git", host), owner + "/" + repo + ".git";
    var parts := [owner, repo + ".git"];
    assert Join(parts, '/') == owner + "/" + (repo + ".git") == path;
    PlainPath(parts);
    assert input == LinkText(link, path) by {
      assert "git" + "@" == "git@";
    }
    assert Trim(input) == input by {
      assert input[0] == 'g' && input[|input| - 1] == 't';
      TrimIsTrimmed(input);
    }
    PastedResolves(lower, forges, forge, link, owner, repo, Clone, [], path, input);
    var segments := [Segment(Kind.Forge, forge.id), Segment(Repo, lower(owner + "/" + repo))];
    assert segments + [] == segments;
  }
}
