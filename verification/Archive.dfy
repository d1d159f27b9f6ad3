/**
 Links inside a release archive, resolved in the archive's own namespace before anything is read or
 written (ci/fleet-candidates/generation_validation.py, `checked_archive_members`). The archive is
 taken as its sequence of entries, each name already split into parts.
 */
module Archive {
  import opened Outcomes

  /** Path parts as `PurePosixPath` yields them: it drops `.`, and keeps `..`. */
  type Parts = parts: seq<string> | "." !in parts

  datatype EntryKind = Regular | Directory | Symlink | Hardlink | Special

  datatype LinkTarget = NoTarget | AbsoluteTarget | RelativeTarget(parts: Parts)

  datatype Entry = Entry(name: Parts, absolute: bool, kind: EntryKind, target: LinkTarget, content: seq<int>)

  datatype ArchiveError =
    | UnsafeOrDuplicatePath | UnsupportedEntry | NoBundleDirectory | ChainTooDeep | EscapesBundle | LinkCycle
    | AbsoluteOrEmptyLink | DescendsThroughFile | MissingTarget | FileIsImplicitDirectory

  predicate IsLink(entry: Entry) {
    entry.kind == Symlink || entry.kind == Hardlink
  }

  type Members = map<seq<string>, Entry>

  // ---- Collecting the members ----

  function CollectOne(root: string, members: Members, entry: Entry): Result<Members, ArchiveError> {
    if entry.absolute || ".." in entry.name || entry.name == [] || entry.name[0] != root || entry.name in members then
      Err(UnsafeOrDuplicatePath)
    else if entry.kind == Special then Err(UnsupportedEntry)
    else Ok(members[entry.name := entry])
  }

  function Collect(root: string, members: Members, entries: seq<Entry>): Result<Members, ArchiveError>
    decreases |entries|
  {
    if entries == [] then Ok(members)
    else
      var next :- CollectOne(root, members, entries[0]);
      Collect(root, next, entries[1..])
  }

  function Names(entries: seq<Entry>): set<seq<string>> {
    set i | 0 <= i < |entries| :: entries[i].name
  }

  /** What collecting establishes: names are distinct, relative, under the root and free of dots. */
  predicate Collected(root: string, members: Members) {
    forall name | name in members ::
      && name != [] && name[0] == root && "." !in name && ".." !in name
      && members[name].name == name && members[name].kind != Special
  }

  lemma {:induction false} CollectSpec(root: string, members: Members, entries: seq<Entry>)
    requires Collected(root, members)
    ensures Collect(root, members, entries).Ok? ==>
              var collected := Collect(root, members, entries).value;
              && Collected(root, collected)
              && collected.Keys == members.Keys + Names(entries)
              && (forall name | name in members :: collected[name] == members[name])
              && (forall i | 0 <= i < |entries| ::
                entries[i].name !in members && collected[entries[i].name] == entries[i])
    decreases |entries|
  {
    if entries != [] && CollectOne(root, members, entries[0]).Ok? {
      var next := CollectOne(root, members, entries[0]).value;
      CollectSpec(root, next, entries[1..]);
      if Collect(root, members, entries).Ok? {
        var collected := Collect(root, members, entries).value;
        forall i | 0 <= i < |entries|
          ensures entries[i].name !in members && collected[entries[i].name] == entries[i]
        {
          if i > 0 {
            assert entries[i] == entries[1..][i - 1];
          } else {
            assert entries[0].name in next;
          }
        }
        assert forall i | 0 < i < |entries| :: entries[i] == entries[1..][i - 1];
        assert next.Keys == members.Keys + {entries[0].name};
        NamesCons(entries);
      }
    }
  }

  lemma NamesCons(entries: seq<Entry>)
    requires entries != []
    ensures Names(entries) == {entries[0].name} + Names(entries[1..])
  {
    forall name | name in Names(entries)
      ensures name in {entries[0].name} + Names(entries[1..])
    {
      var i :| 0 <= i < |entries| && entries[i].name == name;
      if i > 0 {
        assert entries[1..][i - 1].name == name;
      }
    }
    forall name | name in Names(entries[1..])
      ensures name in Names(entries)
    {
      var i :| 0 <= i < |entries| - 1 && entries[1..][i].name == name;
      assert entries[i + 1].name == name;
    }
  }

  // ---- Resolving ----

  /** The archive's links and its implicit directories: every proper non-empty prefix of a name. */
  function LinkNames(members: Members): set<seq<string>> {
    set name | name in members && IsLink(members[name])
  }

  predicate IsDirectoryName(members: Members, path: seq<string>) {
    path != [] && exists name | name in members :: path < name
  }

  function LinkBase(current: seq<string>, kind: EntryKind): seq<string>
    requires current != []
  {
    if kind == Symlink then current[..|current| - 1] else []
  }

  /** `resolve`: the nested resolver, with the links being followed in `active`. */
  function Resolve(
    root: string, members: Members, parts: seq<string>, active: set<seq<string>>): Result<seq<string>, ArchiveError>
    decreases LinkNames(members) - active, |parts|, 1
  {
    if |active| > 128 then Err(ChainTooDeep)
    else
      var path :- Walk(root, members, [], parts, active);
      if path in members || IsDirectoryName(members, path) then Ok(path) else Err(MissingTarget)
  }

  /** The loop of `resolve`: parts taken from `pending` onto `current`, links replaced by what they resolve to. */
  function Walk(root: string, members: Members, current: seq<string>, pending: seq<string>, active: set<seq<string>>)
    : Result<seq<string>, ArchiveError>
    decreases LinkNames(members) - active, |pending|, 0
  {
    if pending == [] then Ok(current)
    else
      var part, rest := pending[0], pending[1..];
      if part == "." then Walk(root, members, current, rest, active)
      else if part == ".." then
        if |current| <= 1 then Err(EscapesBundle) else Walk(root, members, current[..|current| - 1], rest, active)
      else
        var name := current + [part];
        if name in members && IsLink(members[name]) then
          if name in active then Err(LinkCycle)
          else
            match members[name].target
            case NoTarget => Err(AbsoluteOrEmptyLink)
            case AbsoluteTarget => Err(AbsoluteOrEmptyLink)
            case RelativeTarget(target) =>
              assert name in LinkNames(members) - active;
              var resolved :- Resolve(root, members, LinkBase(name, members[name].kind) + target, active + {name});
              if resolved != [] && resolved[0] != root then Err(EscapesBundle)
              else Walk(root, members, resolved, rest, active)
        else if name in members && members[name].kind != Directory && rest != [] then Err(DescendsThroughFile)
        else if name[0] != root then Err(EscapesBundle)
        else Walk(root, members, name, rest, active)
  }

  /** No non-empty prefix of `path`, itself included, is a symlink or hard link. */
  predicate LinkFree(members: Members, path: seq<string>) {
    forall k | 0 < k <= |path| :: path[..k] in members ==> !IsLink(members[path[..k]])
  }

  /** A path the walk may stand on: under the root, through no link, with no dots left in it. */
  predicate Settled(root: string, members: Members, path: seq<string>) {
    path == [] || (path[0] == root && "." !in path && ".." !in path && LinkFree(members, path))
  }

  lemma SettledPrefix(root: string, members: Members, path: seq<string>, n: nat)
    requires Settled(root, members, path) && n <= |path|
    ensures Settled(root, members, path[..n])
  {
    assert forall k | 0 < k <= n :: path[..n][..k] == path[..k];
  }

  lemma SettledSnoc(root: string, members: Members, current: seq<string>, part: string)
    requires Settled(root, members, current) && part != "." && part != ".."
    requires current + [part] !in members || !IsLink(members[current + [part]])
    requires (current + [part])[0] == root
    ensures Settled(root, members, current + [part])
  {
    var name := current + [part];
    forall k | 0 < k <= |name|
      ensures name[..k] in members ==> !IsLink(members[name[..k]])
    {
      if k <= |current| {
        assert name[..k] == current[..k];
      } else {
        assert name[..k] == name;
      }
    }
  }

  /** Every successful resolution is a settled, present path. */
  lemma {:induction false} ResolveSettled(root: string, members: Members, parts: seq<string>, active: set<seq<string>>)
    requires Collected(root, members)
    ensures Resolve(root, members, parts, active).Ok? ==>
              var path := Resolve(root, members, parts, active).value;
              && path != [] && Settled(root, members, path)
              && (path in members || IsDirectoryName(members, path))
    decreases LinkNames(members) - active, |parts|, 1
  {
    if |active| <= 128 {
      WalkSettled(root, members, [], parts, active);
    }
  }

  lemma {:induction false} WalkSettled(
    root: string, members: Members, current: seq<string>, pending: seq<string>, active: set<seq<string>>)
    requires Collected(root, members) && Settled(root, members, current)
    ensures Walk(root, members, current, pending, active).Ok? ==>
              Settled(root, members, Walk(root, members, current, pending, active).value)
    decreases LinkNames(members) - active, |pending|, 0
  {
    hide Settled, LinkBase;
    if pending != [] {
      var part, rest := pending[0], pending[1..];
      if part == "." {
        WalkSettled(root, members, current, rest, active);
      } else if part == ".." {
        if |current| > 1 {
          SettledPrefix(root, members, current, |current| - 1);
          WalkSettled(root, members, current[..|current| - 1], rest, active);
        }
      } else {
        var name := current + [part];
        if name in members && IsLink(members[name]) {
          if name !in active && members[name].target.RelativeTarget? {
            assert name in LinkNames(members) - active;
            var target := LinkBase(name, members[name].kind) + members[name].target.parts;
            ResolveSettled(root, members, target, active + {name});
            var resolved := Resolve(root, members, target, active + {name});
            if resolved.Ok? {
              WalkSettled(root, members, resolved.value, rest, active);
            }
          }
        } else if name[0] == root {
          SettledSnoc(root, members, current, part);
          WalkSettled(root, members, name, rest, active);
        }
      }
    }
  }

  // ---- Following links ----

  /** How a walk went: a step for each part taken, and for a link the walk to its target as well. */
  datatype Route =
    | Arrived
    | Stay(next: Route)
    | Up(next: Route)
    | Enter(next: Route)
    | Follow(inner: Route, target: seq<string>, next: Route)

  predicate Present(members: Members, path: seq<string>) {
    path in members || exists name | name in members :: path != [] && path < name
  }

  /**
   The route leads from `current` through `parts` to `result`. A symbolic link's target starts at the
   directory that holds the link, a hard link's at the root of the archive. No link is followed while
   it is being followed, and no more than 128 at once.
   */
  predicate Leads(
    root: string, members: Members, active: set<seq<string>>, current: seq<string>, parts: seq<string>,
    route: Route, result: seq<string>)
    decreases route
  {
    match route
    case Arrived => parts == [] && result == current
    case Stay(next) => parts != [] && parts[0] == "." && Leads(root, members, active, current, parts[1..], next, result)
    case Up(next) =>
      && parts != [] && parts[0] == ".." && |current| > 1
      && Leads(root, members, active, current[..|current| - 1], parts[1..], next, result)
    case Enter(next) =>
      && parts != [] && parts[0] != "." && parts[0] != ".."
      && var name := current + [parts[0]];
         && name[0] == root
         && (name in members ==> members[name].kind == Directory || (!IsLink(members[name]) && parts[1..] == []))
         && Leads(root, members, active, name, parts[1..], next, result)
    case Follow(inner, target, next) =>
      && parts != [] && parts[0] != "." && parts[0] != ".."
      && var name := current + [parts[0]];
         && name in members && name !in active && |active + {name}| <= 128
         && members[name].target.RelativeTarget?
         && (match members[name].kind
             case Symlink => Leads(root, members, active + {name}, [], current + members[name].target.parts, inner,
                 target)
             case Hardlink => Leads(root, members, active + {name}, [], members[name].target.parts, inner, target)
             case _ => false)
         && Present(members, target) && (target != [] ==> target[0] == root)
         && Leads(root, members, active, target, parts[1..], next, result)
  }

  lemma {:induction false} RouteIsWalked(
    root: string, members: Members, active: set<seq<string>>, current: seq<string>, parts: seq<string>,
    route: Route, result: seq<string>)
    requires Leads(root, members, active, current, parts, route, result)
    ensures Walk(root, members, current, parts, active) == Ok(result)
    decreases route
  {
    hide Present;
    match route
    case Arrived =>
    case Stay(next) => RouteIsWalked(root, members, active, current, parts[1..], next, result);
    case Up(next) => RouteIsWalked(root, members, active, current[..|current| - 1], parts[1..], next, result);
    case Enter(next) => RouteIsWalked(root, members, active, current + [parts[0]], parts[1..], next, result);
    case Follow(inner, target, next) =>
      var name := current + [parts[0]];
      var base := if members[name].kind == Symlink then current else [];
      assert [] + members[name].target.parts == members[name].target.parts;
      RouteIsWalked(root, members, active + {name}, [], base + members[name].target.parts, inner, target);
      LinkWalked(root, members, active, current, parts, base, target);
      RouteIsWalked(root, members, active, target, parts[1..], next, result);
  }

  lemma LinkWalked(
    root: string, members: Members, active: set<seq<string>>, current: seq<string>, parts: seq<string>,
    base: seq<string>, target: seq<string>)
    requires parts != [] && parts[0] != "." && parts[0] != ".."
    requires var name := current + [parts[0]];
             && name in members && name !in active && |active + {name}| <= 128 && members[name].target.RelativeTarget?
             && IsLink(members[name]) && base == (if members[name].kind == Symlink then current else [])
             && Walk(root, members, [], base + members[name].target.parts, active + {name}) == Ok(target)
    requires Present(members, target) && (target != [] ==> target[0] == root)
    ensures Walk(root, members, current, parts, active) == Walk(root, members, target, parts[1..], active)
  {
    PresentIs(members, target);
    hide IsDirectoryName, Present;
    assert (current + [parts[0]])[..|current|] == current;
  }

  lemma PresentIs(members: Members, path: seq<string>)
    ensures Present(members, path) <==> path in members || IsDirectoryName(members, path)
  {
  }

  lemma {:induction false} WalkHasRoute(
    root: string, members: Members, active: set<seq<string>>, current: seq<string>, parts: seq<string>)
    returns (route: Route)
    requires Collected(root, members) && Walk(root, members, current, parts, active).Ok?
    ensures Leads(root, members, active, current, parts, route, Walk(root, members, current, parts, active).value)
    decreases LinkNames(members) - active, |parts|
  {
    if parts == [] {
      return Arrived;
    }
    var part, rest := parts[0], parts[1..];
    if part == "." {
      var next := WalkHasRoute(root, members, active, current, rest);
      return Stay(next);
    }
    if part == ".." {
      var next := WalkHasRoute(root, members, active, current[..|current| - 1], rest);
      return Up(next);
    }
    var name := current + [part];
    if name in members && IsLink(members[name]) {
      assert name in LinkNames(members) - active;
      var base := if members[name].kind == Symlink then current else [];
      assert name[..|current|] == current && [] + members[name].target.parts == members[name].target.parts;
      var inner := WalkHasRoute(root, members, active + {name}, [], base + members[name].target.parts);
      var target := Walk(root, members, [], base + members[name].target.parts, active + {name}).value;
      var next := WalkHasRoute(root, members, active, target, rest);
      return Follow(inner, target, next);
    }
    var next := WalkHasRoute(root, members, active, name, rest);
    return Enter(next);
  }

  /** A path resolves to another exactly when it is present and some route of steps and followed links leads there. */
  lemma ResolvesExactly(
    root: string, members: Members, parts: seq<string>, active: set<seq<string>>, result: seq<string>)
    requires Collected(root, members)
    ensures Resolve(root, members, parts, active) == Ok(result) <==>
            && |active| <= 128 && Present(members, result)
            && exists route :: Leads(root, members, active, [], parts, route, result)
  {
    PresentIs(members, result);
    hide Walk, Leads, Present, IsDirectoryName;
    if Resolve(root, members, parts, active) == Ok(result) {
      var route := WalkHasRoute(root, members, active, [], parts);
      assert Leads(root, members, active, [], parts, route, result);
    }
    if route :| Leads(root, members, active, [], parts, route, result) {
      RouteIsWalked(root, members, active, [], parts, route, result);
    }
  }

  /** Only directories, explicit or implicit, under the root, with no dots among the parts. */
  predicate DirectoryPath(root: string, members: Members, path: seq<string>) {
    && "." !in path && ".." !in path && (path != [] ==> path[0] == root)
    && forall k | 0 < k <= |path| :: path[..k] in members ==> members[path[..k]].kind == Directory
  }

  lemma {:induction false} WalkDown(
    root: string, members: Members, path: seq<string>, part: string, j: nat, active: set<seq<string>>)
    requires DirectoryPath(root, members, path) && j <= |path|
    ensures Walk(root, members, path[..j], path[j..] + [part], active) == Walk(root, members, path, [part], active)
    decreases |path| - j
  {
    if j == |path| {
      assert path[..j] == path && path[j..] + [part] == [part];
    } else {
      assert path[j] in path && path[..j] + [path[j]] == path[..j + 1];
      assert (path[j..] + [part])[0] == path[j] && (path[j..] + [part])[1..] == path[j + 1..] + [part];
      WalkDown(root, members, path, part, j + 1, active);
    }
  }

  /**
   A link in a directory resolves as its target does: a symbolic link's from that directory, a hard link's
   from the root of the archive.
   */
  lemma LinkResolvesAsTarget(root: string, members: Members, directory: seq<string>, part: string)
    requires Collected(root, members) && DirectoryPath(root, members, directory)
    requires directory + [part] in members && members[directory + [part]].target.RelativeTarget?
    ensures var name := directory + [part];
            var target := members[name].target.parts;
            match members[name].kind
            case Symlink => Resolve(root, members, name, {}) == Resolve(root, members, directory + target, {name})
            case Hardlink => Resolve(root, members, name, {}) == Resolve(root, members, target, {name})
            case _ => true
  {
    hide Walk, Present, IsDirectoryName;
    var name := directory + [part];
    WalkDown(root, members, directory, part, 0, {});
    assert directory[..0] == [] && directory[0..] + [part] == name;
    if IsLink(members[name]) {
      var target := members[name].target.parts;
      var base := if members[name].kind == Symlink then directory else [];
      assert [] + target == target;
      LinkStep(root, members, directory, part, base + target);
      ResolvedPresent(root, members, base + target, {name});
    }
  }

  lemma LinkStep(root: string, members: Members, directory: seq<string>, part: string, start: seq<string>)
    requires Collected(root, members) && directory + [part] in members
    requires var entry := members[directory + [part]];
             && IsLink(entry) && entry.target.RelativeTarget?
             && start == (if entry.kind == Symlink then directory else []) + entry.target.parts
    ensures Walk(root, members, directory, [part], {}) == Resolve(root, members, start, {directory + [part]})
  {
    hide Resolve;
    var name := directory + [part];
    assert part in name && name[..|directory|] == directory && {} + {name} == {name};
    ResolvedUnderRoot(root, members, start, {name});
  }

  lemma ResolvedPresent(root: string, members: Members, parts: seq<string>, active: set<seq<string>>)
    ensures Resolve(root, members, parts, active).Ok? ==>
              var path := Resolve(root, members, parts, active).value; path in members || IsDirectoryName(members, path)
  {
    hide Walk;
  }

  lemma ResolvedUnderRoot(root: string, members: Members, parts: seq<string>, active: set<seq<string>>)
    requires Collected(root, members)
    ensures Resolve(root, members, parts, active).Ok? ==>
              var path := Resolve(root, members, parts, active).value; path != [] && path[0] == root
  {
    ResolveSettled(root, members, parts, active);
  }

  // ---- The whole archive ----

  datatype Checked = Checked(
    name: seq<string>, directory: bool, source: Option<Entry>, directoryTarget: Option<seq<string>>)

  /** The view of one member: the bytes of what it resolves to, under its own name. */
  function CheckOne(root: string, members: Members, entry: Entry): Result<Checked, ArchiveError> {
    var resolved :- Resolve(root, members, entry.name, {});
    if resolved !in members then
      if entry.kind == Regular then Err(FileIsImplicitDirectory)
      else Ok(Checked(entry.name, true, None, if resolved != entry.name then Some(resolved) else None))
    else
      var directory := members[resolved].kind == Directory;
      Ok(Checked(entry.name, directory, Some(members[resolved]),
                 if directory && resolved != entry.name then Some(resolved) else None))
  }

  function CheckAll(root: string, members: Members, entries: seq<Entry>): Result<seq<Checked>, ArchiveError> {
    if entries == [] then Ok([])
    else
      var first :- CheckOne(root, members, entries[0]);
      var rest :- CheckAll(root, members, entries[1..]);
      Ok([first] + rest)
  }

  function CheckedMembers(root: string, entries: seq<Entry>): Result<seq<Checked>, ArchiveError> {
    var members :- Collect(root, map[], entries);
    if members == map[] then Err(NoBundleDirectory) else CheckAll(root, members, entries)
  }

  /** Every member of an accepted archive resolves. */
  predicate Accepted(root: string, members: Members) {
    && Collected(root, members)
    && forall name | name in members :: Resolve(root, members, name, {}).Ok?
  }

  lemma {:induction false} CheckAllAt(root: string, members: Members, entries: seq<Entry>)
    ensures CheckAll(root, members, entries).Ok? ==>
              var checked := CheckAll(root, members, entries).value;
              && |checked| == |entries|
              && forall i | 0 <= i < |entries| :: CheckOne(root, members, entries[i]) == Ok(checked[i])
  {
    if entries != [] && CheckAll(root, members, entries).Ok? {
      CheckAllAt(root, members, entries[1..]);
      var checked := CheckAll(root, members, entries).value;
      assert checked[1..] == CheckAll(root, members, entries[1..]).value;
      forall i | 0 <= i < |entries|
        ensures CheckOne(root, members, entries[i]) == Ok(checked[i])
      {
        if i > 0 {
          assert entries[i] == entries[1..][i - 1] && checked[i] == checked[1..][i - 1];
        }
      }
    }
  }

  /** An accepted archive's members are exactly its entries, and every one of them resolves. */
  lemma AcceptedArchive(root: string, entries: seq<Entry>)
    ensures CheckedMembers(root, entries).Ok? ==>
              && Collect(root, map[], entries).Ok?
              && var members := Collect(root, map[], entries).value;
              && Accepted(root, members)
              && members.Keys == Names(entries)
  {
    if CheckedMembers(root, entries).Ok? {
      CollectSpec(root, map[], entries);
      var members := Collect(root, map[], entries).value;
      CheckAllAt(root, members, entries);
      forall name | name in members
        ensures Resolve(root, members, name, {}).Ok?
      {
        var i :| 0 <= i < |entries| && entries[i].name == name;
        assert CheckOne(root, members, entries[i]).Ok?;
      }
    }
  }

  // ---- No path through a file ----

  /** Walking a member's own name stops at a regular file on the way, when no link comes before it. */
  lemma {:induction false} WalkBlocked(root: string, members: Members, name: seq<string>, j: nat, k: nat)
    requires Collected(root, members) && name in members && j < k < |name|
    requires name[..k] in members && members[name[..k]].kind == Regular
    requires forall i | 0 < i <= k :: name[..i] in members ==> !IsLink(members[name[..i]])
    ensures Walk(root, members, name[..j], name[j..], {}).Err?
    decreases k - j
  {
    assert name[j] in name;
    assert name[..j] + [name[j]] == name[..j + 1];
    assert name[j..][1..] == name[j + 1..];
    if j + 1 < k {
      WalkBlocked(root, members, name, j + 1, k);
    }
  }

  /** Only directories, explicit or implicit, stand above the last part of `path`. */
  predicate ThroughDirectories(members: Members, path: seq<string>) {
    forall k | 0 < k < |path| :: path[..k] in members ==> members[path[..k]].kind == Directory
  }

  lemma PrefixThroughDirectories(root: string, members: Members, name: seq<string>, path: seq<string>)
    requires Accepted(root, members) && name in members && path <= name && LinkFree(members, path)
    ensures ThroughDirectories(members, path)
  {
    assert name[..0] == [] && name[0..] == name;
    assert Resolve(root, members, name, {}).Ok?;
    forall k | 0 < k < |path| && path[..k] in members
      ensures members[path[..k]].kind == Directory
    {
      assert name[..k] == path[..k];
      if members[path[..k]].kind == Regular {
        assert forall i | 0 < i <= k :: name[..i] == path[..i];
        WalkBlocked(root, members, name, 0, k);
        assert false;
      }
    }
  }

  /**
   In an accepted archive every resolution, from any path and under any active links, lies under the
   root, has no link among its prefixes, and passes through no regular file, even one a link names.
   */
  lemma ResolvedPathIsClean(root: string, members: Members, parts: seq<string>, active: set<seq<string>>)
    requires Accepted(root, members)
    ensures Resolve(root, members, parts, active).Ok? ==>
              var path := Resolve(root, members, parts, active).value;
              && path != [] && path[0] == root && LinkFree(members, path) && ThroughDirectories(members, path)
              && (path in members || IsDirectoryName(members, path))
  {
    if Resolve(root, members, parts, active).Ok? {
      ResolveSettled(root, members, parts, active);
      var path := Resolve(root, members, parts, active).value;
      var name :| name in members && path <= name;
      PrefixThroughDirectories(root, members, name, path);
    }
  }

  lemma {:induction false} WalkStraight(root: string, members: Members, path: seq<string>, j: nat)
    requires Settled(root, members, path) && path != [] && ThroughDirectories(members, path) && j <= |path|
    ensures Walk(root, members, path[..j], path[j..], {}) == Ok(path)
    decreases |path| - j
  {
    if j == |path| {
      assert path[..j] == path;
    } else {
      assert path[j] in path;
      assert path[..j] + [path[j]] == path[..j + 1];
      assert path[j..][1..] == path[j + 1..];
      assert path[..j + 1][0] == path[0];
      WalkStraight(root, members, path, j + 1);
    }
  }

  /** Resolving a resolved path again returns it. */
  lemma ResolveIdempotent(root: string, members: Members, parts: seq<string>, active: set<seq<string>>)
    requires Accepted(root, members)
    ensures Resolve(root, members, parts, active).Ok? ==>
              var path := Resolve(root, members, parts, active).value;
              Resolve(root, members, path, {}) == Ok(path)
  {
    if Resolve(root, members, parts, active).Ok? {
      ResolvedPathIsClean(root, members, parts, active);
      ResolveSettled(root, members, parts, active);
      var path := Resolve(root, members, parts, active).value;
      WalkStraight(root, members, path, 0);
      assert path[..0] == [] && path[0..] == path;
    }
  }

  /**
   The output of an accepted archive: exactly the input names in order, each viewed as a directory
   or as the bytes of a regular file of the archive that its name resolves to.
   */
  lemma CheckedViews(root: string, entries: seq<Entry>)
    ensures CheckedMembers(root, entries).Ok? ==>
              && Collect(root, map[], entries).Ok?
              && var checked, members := CheckedMembers(root, entries).value, Collect(root, map[], entries).value;
              && |checked| == |entries|
              && forall i | 0 <= i < |entries| :: ViewOf(root, members, entries[i], checked[i])
  {
    if CheckedMembers(root, entries).Ok? {
      AcceptedArchive(root, entries);
      CollectSpec(root, map[], entries);
      var checked, members := CheckedMembers(root, entries).value, Collect(root, map[], entries).value;
      CheckAllAt(root, members, entries);
      forall i | 0 <= i < |entries|
        ensures ViewOf(root, members, entries[i], checked[i])
      {
        assert CheckOne(root, members, entries[i]) == Ok(checked[i]);
        ViewIsFileOrDirectory(root, members, entries[i]);
      }
    }
  }

  /** The entry resolves, and when it is a regular file, to a member. */
  predicate Viewable(root: string, members: Members, entry: Entry) {
    && Resolve(root, members, entry.name, {}).Ok?
    && (entry.kind.Regular? ==> Resolve(root, members, entry.name, {}).value in members)
  }

  lemma {:induction false} CheckAllExactly(root: string, members: Members, entries: seq<Entry>)
    ensures CheckAll(root, members, entries).Ok? <==>
            forall i | 0 <= i < |entries| :: Viewable(root, members, entries[i])
  {
    hide Resolve;
    if entries != [] {
      CheckAllExactly(root, members, entries[1..]);
      assert entries == [entries[0]] + entries[1..];
    }
  }

  /** An archive is accepted exactly when its names are new, some name is there, and every entry can be viewed. */
  lemma AcceptedExactly(root: string, entries: seq<Entry>)
    ensures CheckedMembers(root, entries).Ok? <==>
            && Collect(root, map[], entries).Ok?
            && var members := Collect(root, map[], entries).value;
               members != map[] && forall i | 0 <= i < |entries| :: Viewable(root, members, entries[i])
  {
    hide Collect, CheckAll, Viewable;
    if Collect(root, map[], entries).Ok? {
      CheckAllExactly(root, Collect(root, map[], entries).value, entries);
    }
  }

  /** `view` is `entry` seen as a directory, or as the regular file its name resolves to. */
  predicate ViewOf(root: string, members: Members, entry: Entry, view: Checked) {
    && view.name == entry.name
    && Resolve(root, members, entry.name, {}).Ok?
    && var resolved := Resolve(root, members, entry.name, {}).value;
    && (view.directory <==> (resolved !in members || members[resolved].kind == Directory))
    && (!view.directory ==>
      resolved in members && members[resolved].kind == Regular && view.source == Some(members[resolved]))
    && (entry.kind == Regular && resolved == entry.name ==> view.source == Some(entry))
    && view.directoryTarget == (if view.directory && resolved != entry.name then Some(resolved) else None)
  }

  lemma ViewIsFileOrDirectory(root: string, members: Members, entry: Entry)
    requires Accepted(root, members) && entry.name in members && members[entry.name] == entry
    ensures CheckOne(root, members, entry).Ok? ==> ViewOf(root, members, entry, CheckOne(root, members, entry).value)
  {
    ResolveSettled(root, members, entry.name, {});
    if Resolve(root, members, entry.name, {}).Ok? {
      var resolved := Resolve(root, members, entry.name, {}).value;
      assert resolved[..|resolved|] == resolved;
    }
  }

  // ---- What the walk still crosses ----

  /**
   A part and a `..` after it are refused for a file exactly when the part itself, or what its link
   reaches, is one passed through.
   */
  lemma DotDotRefusedExactly(
    root: string, members: Members, current: seq<string>, part: string, active: set<seq<string>>)
    requires Collected(root, members) && part != "." && part != ".."
    ensures var name := current + [part];
            Walk(root, members, current, [part, ".."], active) == Err(DescendsThroughFile) <==>
            && name in members
            && (|| members[name].kind == Regular
                || (&& IsLink(members[name]) && name !in active && members[name].target.RelativeTarget?
                    && Resolve(root, members, LinkBase(name, members[name].kind) + members[name].target.parts,
                      active + {name})
                       == Err(DescendsThroughFile)))
  {
    hide Resolve;
    assert [part, ".."][1..] == [".."];
    forall reached: seq<string>
      ensures Walk(root, members, reached, [".."], active) != Err(DescendsThroughFile)
    {
      assert [".."][1..] == [];
    }
  }

  lemma WalkOver(
    root: string, members: Members, current: seq<string>, part: string, rest: seq<string>, active: set<seq<string>>)
    requires part != "." && part != ".." && (current + [part])[0] == root
    requires var name := current + [part];
             name in members ==> !IsLink(members[name]) && (members[name].kind == Directory || rest == [])
    ensures Walk(root, members, current, [part] + rest, active) == Walk(root, members, current + [part], rest, active)
  {
    assert ([part] + rest)[1..] == rest;
  }

  lemma WalkInto(
    root: string, members: Members, current: seq<string>, part: string, rest: seq<string>, active: set<seq<string>>)
    requires part != "." && part != ".." && rest != []
    requires current + [part] in members && members[current + [part]].kind == Regular
    ensures Walk(root, members, current, [part] + rest, active) == Err(DescendsThroughFile)
  {
    assert ([part] + rest)[1..] == rest;
  }

  lemma WalkThrough(
    root: string, members: Members, current: seq<string>, part: string, rest: seq<string>, active: set<seq<string>>,
    resolved: seq<string>)
    requires part != "." && part != ".." && resolved != [] && resolved[0] == root
    requires var name := current + [part];
             && name in members && name !in active && members[name].kind == Symlink
               && members[name].target.RelativeTarget?
             && Resolve(root, members, current + members[name].target.parts, active + {name}) == Ok(resolved)
    ensures Walk(root, members, current, [part] + rest, active) == Walk(root, members, resolved, rest, active)
  {
    hide Resolve;
    assert ([part] + rest)[1..] == rest;
    assert (current + [part])[..|current|] == current;
  }

  const FILE := ["bundle", "file"]
  const LINK := ["bundle", "link"]
  const BACK := ["bundle", "back"]

  /** A file, a link to it, and a second link whose target is given. */
  function SampleEntries(target: Parts): seq<Entry> {
    [Entry(FILE, false, Regular, NoTarget, []),
     Entry(LINK, false, Symlink, RelativeTarget(["file"]), []),
     Entry(BACK, false, Symlink, RelativeTarget(target), [])]
  }

  function SampleMembers(target: Parts): Members {
    map[FILE := SampleEntries(target)[0], LINK := SampleEntries(target)[1], BACK := SampleEntries(target)[2]]
  }

  lemma SampleCollected(target: Parts)
    ensures Collect("bundle", map[], SampleEntries(target)) == Ok(SampleMembers(target))
    ensures Collected("bundle", SampleMembers(target)) && ["bundle"] !in SampleMembers(target)
  {
    var entries := SampleEntries(target);
    assert FILE[1] == "file" && LINK[1] == "link" && BACK[1] == "back";
    assert entries[1..] == [entries[1], entries[2]] && entries[1..][1..] == [entries[2]]
           && entries[1..][1..][1..] == [];
    var first: Members := map[FILE := entries[0]];
    var second := first[LINK := entries[1]];
    assert CollectOne("bundle", map[], entries[0]) == Ok(first);
    assert CollectOne("bundle", first, entries[1]) == Ok(second);
    assert CollectOne("bundle", second, entries[2]) == Ok(SampleMembers(target));
    hide CollectOne;
    assert Collect("bundle", SampleMembers(target), entries[1..][1..][1..]) == Ok(SampleMembers(target));
    assert Collect("bundle", second, entries[1..][1..]) == Ok(SampleMembers(target));
    assert Collect("bundle", first, entries[1..]) == Ok(SampleMembers(target));
  }

  lemma SampleFile(target: Parts, active: set<seq<string>>)
    requires |active| <= 128
    ensures Walk("bundle", SampleMembers(target), ["bundle"], ["file"], active) == Ok(FILE)
    ensures Resolve("bundle", SampleMembers(target), FILE, active) == Ok(FILE)
  {
    SampleCollected(target);
    var members := SampleMembers(target);
    assert FILE == ["bundle"] + ["file"] && [] + ["bundle"] == ["bundle"] && ["file"] == ["file"] + [];
    WalkOver("bundle", members, [], "bundle", ["file"], active);
    WalkOver("bundle", members, ["bundle"], "file", [], active);
  }

  lemma SampleLink(target: Parts, active: set<seq<string>>, rest: seq<string>)
    requires |active| < 128 && LINK !in active
    ensures Walk("bundle", SampleMembers(target), [], ["bundle", "link"] + rest, active) ==
            Walk("bundle", SampleMembers(target), FILE, rest, active)
  {
    hide Walk, Resolve;
    SampleCollected(target);
    var members := SampleMembers(target);
    assert ["bundle", "link"] + rest == ["bundle"] + (["link"] + rest) && [] + ["bundle"] == ["bundle"];
    WalkOver("bundle", members, [], "bundle", ["link"] + rest, active);
    SampleFile(target, active + {LINK});
    assert ["bundle"] + ["file"] == FILE && ["bundle"] + ["link"] == LINK;
    WalkThrough("bundle", members, ["bundle"], "link", rest, active, FILE);
  }

  /**
   The archive whose second link steps back from the file that its first link reaches is accepted, and so
   is the file then read; the same steps written through the file's own name are refused.
   */
  lemma DotDotAfterFile()
    ensures var through, direct := SampleEntries(["link", "..", "file"]), SampleEntries(["file", "..", "file"]);
            && CheckedMembers("bundle", through).Ok? && |CheckedMembers("bundle", through).value| == 3
            && CheckedMembers("bundle", through).value[2].source == Some(through[0])
            && CheckedMembers("bundle", direct) == Err(DescendsThroughFile)
  {
    hide Walk, Resolve, Collect;
    SampleThrough();
    SampleDirect();
    SampleChecks(["link", "..", "file"]);
    SampleChecks(["file", "..", "file"]);
  }

  lemma SampleChecks(target: Parts)
    ensures var members, entries := SampleMembers(target), SampleEntries(target);
            var back := Resolve("bundle", members, BACK, {});
            && (back == Ok(FILE) ==>
                  var checked := CheckedMembers("bundle", entries);
                  checked.Ok? && |checked.value| == 3 && checked.value[2].source == Some(entries[0]))
            && (back.Err? ==> CheckedMembers("bundle", entries) == Err(back.error))
  {
    hide Walk, Resolve, Collect;
    SampleCollected(target);
    var members, entries := SampleMembers(target), SampleEntries(target);
    assert FILE in members;
    SampleFile(target, {});
    SampleLinkResolves(target);
    assert entries[1..] == [entries[1], entries[2]] && entries[1..][1..] == [entries[2]]
           && entries[1..][1..][1..] == [];
    assert CheckOne("bundle", members, entries[0]).Ok? && CheckOne("bundle", members, entries[1]).Ok?;
    assert CheckAll("bundle", members, entries[1..][1..][1..]) == Ok([]);
    var last := CheckAll("bundle", members, entries[1..][1..]);
    assert last.Ok? <==> Resolve("bundle", members, BACK, {}).Ok?;
    assert last.Err? ==> last.error == Resolve("bundle", members, BACK, {}).error;
    var two := CheckAll("bundle", members, entries[1..]);
    assert if last.Ok? then two.Ok? else two == last;
    assert CheckedMembers("bundle", entries) == CheckAll("bundle", members, entries);
    CheckAllAt("bundle", members, entries);
  }

  lemma SampleLinkResolves(target: Parts)
    ensures Resolve("bundle", SampleMembers(target), LINK, {}) == Ok(FILE)
  {
    SampleLink(target, {}, []);
    assert ["bundle", "link"] + [] == LINK;
    assert FILE in SampleMembers(target);
  }

  /** From the second link to its target. */
  lemma SampleBack(target: Parts)
    ensures var back := Resolve("bundle", SampleMembers(target), BACK, {});
            var inner := Resolve("bundle", SampleMembers(target), ["bundle"] + target, {BACK});
            (inner == Ok(FILE) ==> back == Ok(FILE)) && (inner.Err? ==> back == inner)
  {
    SampleCollected(target);
    var members := SampleMembers(target);
    assert BACK == ["bundle"] + ["back"] && [] + ["bundle"] == ["bundle"] && ["back"] == ["back"] + [];
    WalkOver("bundle", members, [], "bundle", ["back"], {});
    assert (["bundle"] + ["back"])[..1] == ["bundle"] && {} + {BACK} == {BACK};
    assert FILE in members;
  }

  lemma SampleThrough()
    ensures Resolve("bundle", SampleMembers(["link", "..", "file"]), BACK, {}) == Ok(FILE)
  {
    var target := ["link", "..", "file"];
    var members := SampleMembers(target);
    SampleBack(target);
    assert ["bundle"] + target == ["bundle", "link"] + ["..", "file"];
    assert LINK[1] == "link" && BACK[1] == "back";
    SampleLink(target, {BACK}, ["..", "file"]);
    assert ["..", "file"][1..] == ["file"] && FILE[..1] == ["bundle"];
    SampleFile(target, {BACK});
    assert FILE in members;
  }

  lemma SampleDirect()
    ensures Resolve("bundle", SampleMembers(["file", "..", "file"]), BACK, {}) == Err(DescendsThroughFile)
  {
    hide Walk, Collect, Collected;
    var target := ["file", "..", "file"];
    var members := SampleMembers(target);
    SampleCollected(target);
    SampleBack(target);
    assert ["bundle"] + target == ["bundle"] + (["file"] + ["..", "file"]) && [] + ["bundle"] == ["bundle"];
    WalkOver("bundle", members, [], "bundle", ["file"] + ["..", "file"], {BACK});
    assert ["bundle"] + ["file"] == FILE && FILE in members;
    WalkInto("bundle", members, ["bundle"], "file", ["..", "file"], {BACK});
  }

  // ---- The loops ----

  /** `resolve` as the loop over `pending`, calling itself for each link. */
  method ResolveLoop(root: string, members: Members, parts: seq<string>, active: set<seq<string>>)
    returns (r: Result<seq<string>, ArchiveError>)
    ensures r == Resolve(root, members, parts, active)
    decreases LinkNames(members) - active
  {
    if |active| > 128 {
      return Err(ChainTooDeep);
    }
    var current: seq<string>, pending := [], parts;
    while pending != []
      invariant Walk(root, members, [], parts, active) == Walk(root, members, current, pending, active)
      decreases |pending|
    {
      var part := pending[0];
      pending := pending[1..];
      if part == "." {
        continue;
      }
      if part == ".." {
        if |current| <= 1 {
          return Err(EscapesBundle);
        }
        current := current[..|current| - 1];
        continue;
      }
      var name := current + [part];
      if name in members && IsLink(members[name]) {
        if name in active {
          return Err(LinkCycle);
        }
        if !members[name].target.RelativeTarget? {
          return Err(AbsoluteOrEmptyLink);
        }
        assert name in LinkNames(members) - active;
        var resolved :=
            ResolveLoop(root, members, LinkBase(name, members[name].kind) + members[name].target.parts,
                active + {name});
        if resolved.Err? {
          return Err(resolved.error);
        }
        current := resolved.value;
      } else {
        if name in members && members[name].kind != Directory && pending != [] {
          return Err(DescendsThroughFile);
        }
        current := name;
      }
      if current != [] && current[0] != root {
        return Err(EscapesBundle);
      }
    }
    r := if current in members || IsDirectoryName(members, current) then Ok(current) else Err(MissingTarget);
  }

  /** `checked_archive_members`: collect, then resolve and view every member. */
  method CheckedMembersLoop(root: string, entries: seq<Entry>) returns (r: Result<seq<Checked>, ArchiveError>)
    ensures r == CheckedMembers(root, entries)
  {
    var members: Members := map[];
    var i := 0;
    assert entries[0..] == entries;
    while i < |entries|
      invariant 0 <= i <= |entries|
      invariant Collect(root, map[], entries) == Collect(root, members, entries[i..])
    {
      assert entries[i..][1..] == entries[i + 1..];
      var next := CollectOne(root, members, entries[i]);
      if next.Err? {
        return Err(next.error);
      }
      members := next.value;
      i := i + 1;
    }
    assert entries[i..] == [];
    if members == map[] {
      return Err(NoBundleDirectory);
    }
    var checked: seq<Checked> := [];
    i := 0;
    AfterAll(checked, CheckAll(root, members, entries));
    while i < |entries|
      invariant 0 <= i <= |entries|
      invariant CheckAll(root, members, entries) == Then(checked, CheckAll(root, members, entries[i..]))
    {
      assert entries[i..][1..] == entries[i + 1..];
      var resolved := ResolveLoop(root, members, entries[i].name, {});
      if resolved.Err? {
        return Err(resolved.error);
      }
      var view := CheckOne(root, members, entries[i]);
      if view.Err? {
        return Err(view.error);
      }
      ThenMore(checked, view.value, CheckAll(root, members, entries[i + 1..]));
      checked := checked + [view.value];
      i := i + 1;
    }
    assert entries[i..] == [] && checked + [] == checked;
    r := Ok(checked);
  }

  function Then(done: seq<Checked>, r: Result<seq<Checked>, ArchiveError>): Result<seq<Checked>, ArchiveError> {
    match r
    case Ok(rest) => Ok(done + rest)
    case Err(error) => Err(error)
  }

  lemma AfterAll(done: seq<Checked>, r: Result<seq<Checked>, ArchiveError>)
    requires done == []
    ensures Then(done, r) == r
  {
    if r.Ok? {
      assert done + r.value == r.value;
    }
  }

  lemma ThenMore(done: seq<Checked>, view: Checked, r: Result<seq<Checked>, ArchiveError>)
    ensures Then(done, Then([view], r)) == Then(done + [view], r)
  {
    if r.Ok? {
      assert done + ([view] + r.value) == done + [view] + r.value;
    }
  }
}
