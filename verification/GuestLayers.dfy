/**
 Guest tool layers and the payload checked against them
 (ci/fleet-candidates/generation_validation.py, `check_guest_layer`, `guest_owner` and
 `validate_guest_tools`). Declarations are taken as their fields; reading ELF and hashing are
 parameters.
 */
module GuestLayers {
  import opened Outcomes
  import opened Text
  import opened Utf8

  datatype Loads = Loads(libraries: seq<string>, runpath: string)

  datatype Needed = Needed(path: string, format: Option<string>)

  /** A member is one file, or a whole tree, of the built bundle. */
  datatype Member = Member(
    role: string, tree: bool, source: string, install: Option<string>, format: Option<string>,
    loads: Option<Loads>, needs: seq<Needed>)

  datatype Environment = Environment(path: seq<string>, variables: map<string, seq<string>>)

  datatype Layer = Layer(schema: int, name: string, members: seq<Member>, environment: Environment)

  // ---- Paths ----

  /** Relative and normalised. */
  predicate GuestPath(path: string) {
    && path != "" && path[0] != '/' && '\\' !in path && path[|path| - 1] != '/'
    && var parts := Split(path, '/');
    forall i | 0 <= i < |parts| :: parts[i] != "" && parts[i] != "." && parts[i] != ".."
  }

  predicate Inside(child: string, parent: string) {
    child == parent || parent + "/" <= child
  }

  predicate Overlaps(left: string, right: string, containing: bool) {
    left == right || (containing && (Inside(left, right) || Inside(right, left)))
  }

  function FollowRunpath(resolved: seq<string>, parts: seq<string>): Option<seq<string>>
    decreases |parts|
  {
    if parts == [] then Some(resolved)
    else if parts[0] == "" || parts[0] == "." then FollowRunpath(resolved, parts[1..])
    else if parts[0] == ".." then
      if resolved == [] then None else FollowRunpath(resolved[..|resolved| - 1], parts[1..])
    else FollowRunpath(resolved + [parts[0]], parts[1..])
  }

  /** The install path `library` resolves to through an origin-relative runpath. */
  function GuestLibrary(install: string, runpath: string, library: string): Option<string> {
    if !("$ORIGIN" <= runpath) || '/' !in install then None
    else
      var directory := Split(install, '/');
      match FollowRunpath(directory[..|directory| - 1], Split(runpath[|"$ORIGIN"|..], '/'))
      case None => None
      case Some(resolved) => Some(Join(resolved + [library], '/'))
  }

  /** A name in a path, as opposed to a step that stays or goes up. */
  predicate IsStepName(part: string) {
    part != "" && part != "." && part != ".."
  }

  function Ups(n: nat): seq<string> {
    seq(n, _ => "..")
  }

  lemma {:induction false} NamesDown(resolved: seq<string>, names: seq<string>)
    requires forall i | 0 <= i < |names| :: IsStepName(names[i])
    ensures FollowRunpath(resolved, names) == Some(resolved + names)
    decreases |names|
  {
    if names == [] {
      assert resolved + names == resolved;
    } else {
      NamesDown(resolved + [names[0]], names[1..]);
      assert resolved + [names[0]] + names[1..] == resolved + names;
    }
  }

  lemma UpStep(resolved: seq<string>, ups: nat, names: seq<string>)
    requires ups > 0
    ensures FollowRunpath(resolved, Ups(ups) + names) ==
            if resolved == [] then None
            else FollowRunpath(resolved[..|resolved| - 1], Ups(ups - 1) + names)
  {
    var parts := Ups(ups) + names;
    assert parts[0] == ".." && parts[1..] == Ups(ups - 1) + names;
  }

  /** Going up and then down by names drops that many directories and appends the names; it cannot go above the root. */
  lemma {:induction false} RunpathDown(resolved: seq<string>, ups: nat, names: seq<string>)
    requires forall i | 0 <= i < |names| :: IsStepName(names[i])
    ensures FollowRunpath(resolved, Ups(ups) + names) ==
            if ups <= |resolved| then Some(resolved[..|resolved| - ups] + names) else None
    decreases ups
  {
    hide FollowRunpath;
    if ups > 0 {
      UpStep(resolved, ups, names);
      if resolved != [] {
        var upper := resolved[..|resolved| - 1];
        RunpathDown(upper, ups - 1, names);
        assert ups <= |resolved| ==> upper[..|upper| - (ups - 1)] == resolved[..|resolved| - ups];
      }
    } else {
      NamesDown(resolved, names);
      assert Ups(0) + names == names && resolved[..|resolved|] == resolved;
    }
  }

  lemma {:induction false} RunpathInTwo(resolved: seq<string>, before: seq<string>, after: seq<string>)
    ensures FollowRunpath(resolved, before + after) ==
            match FollowRunpath(resolved, before)
            case None => None
            case Some(middle) => FollowRunpath(middle, after)
    decreases |before|
  {
    if before == [] {
      assert before + after == after;
    } else {
      assert (before + after)[1..] == before[1..] + after;
      if before[0] == "" || before[0] == "." {
        RunpathInTwo(resolved, before[1..], after);
      } else if before[0] == ".." {
        if resolved != [] {
          RunpathInTwo(resolved[..|resolved| - 1], before[1..], after);
        }
      } else {
        RunpathInTwo(resolved + [before[0]], before[1..], after);
      }
    }
  }

  lemma RunpathSkips(resolved: seq<string>, before: seq<string>, parts: seq<string>, after: seq<string>)
    requires forall middle :: FollowRunpath(middle, parts) == Some(middle)
    ensures FollowRunpath(resolved, before + parts + after) == FollowRunpath(resolved, before + after)
  {
    hide FollowRunpath;
    RunpathInTwo(resolved, before, after);
    RunpathInTwo(resolved, before, parts + after);
    assert before + parts + after == before + (parts + after);
    if FollowRunpath(resolved, before).Some? {
      RunpathInTwo(FollowRunpath(resolved, before).value, parts, after);
    }
  }

  /** A part that stays, or a name and the step back up, can be left out anywhere. */
  lemma RunpathCancels(resolved: seq<string>, before: seq<string>, after: seq<string>, name: string)
    requires IsStepName(name)
    ensures FollowRunpath(resolved, before + [""] + after) == FollowRunpath(resolved, before + after)
    ensures FollowRunpath(resolved, before + ["."] + after) == FollowRunpath(resolved, before + after)
    ensures FollowRunpath(resolved, before + [name, ".."] + after) == FollowRunpath(resolved, before + after)
  {
    forall middle
      ensures FollowRunpath(middle, [""]) == FollowRunpath(middle, ["."]) == Some(middle)
      ensures FollowRunpath(middle, [name, ".."]) == Some(middle)
    {
      StaysPut(middle, name);
    }
    hide FollowRunpath;
    RunpathSkips(resolved, before, [""], after);
    RunpathSkips(resolved, before, ["."], after);
    RunpathSkips(resolved, before, [name, ".."], after);
  }

  lemma StaysPut(resolved: seq<string>, name: string)
    requires IsStepName(name)
    ensures FollowRunpath(resolved, [""]) == FollowRunpath(resolved, ["."]) == Some(resolved)
    ensures FollowRunpath(resolved, [name, ".."]) == Some(resolved)
  {
    assert [""][1..] == [] && ["."][1..] == [] && [name, ".."][1..] == [".."] && [".."][1..] == [];
    assert (resolved + [name])[..|resolved|] == resolved;
    assert FollowRunpath(resolved, []) == Some(resolved);
    assert FollowRunpath(resolved + [name], [".."]) == FollowRunpath(resolved, []);
  }

  /** A library is found beside the file, or where the runpath leads from the file's directory. */
  lemma GuestLibraryIs(directory: seq<string>, file: string, ups: nat, names: seq<string>, library: string)
    requires directory != [] && '/' !in file && (forall i | 0 <= i < |directory| :: '/' !in directory[i])
    requires forall i | 0 <= i < |names| :: IsStepName(names[i]) && '/' !in names[i]
    ensures var install := Join(directory + [file], '/');
            && GuestLibrary(install, "$ORIGIN", library) == Some(Join(directory + [library], '/'))
            && (Ups(ups) + names != [] ==>
              GuestLibrary(install, "$ORIGIN/" + Join(Ups(ups) + names, '/'), library) ==
                if ups > |directory| then None
                else Some(Join(directory[..|directory| - ups] + names + [library], '/')))
  {
    hide FollowRunpath, GuestLibrary;
    var parts := Ups(ups) + names;
    assert "$ORIGIN" + "" == "$ORIGIN" && Join([""], '/') == "";
    LibraryThrough(directory, file, [""], library);
    StaysPut(directory, "x");
    if parts != [] {
      assert ([""] + parts)[1..] == parts && Join([""] + parts, '/') == "" + "/" + Join(parts, '/');
      assert "$ORIGIN" + Join([""] + parts, '/') == "$ORIGIN/" + Join(parts, '/');
      LibraryThrough(directory, file, [""] + parts, library);
      RunpathCancels(directory, [], parts, "x");
      assert [] + [""] + parts == [""] + parts && [] + parts == parts;
      RunpathDown(directory, ups, names);
    }
  }

  /** The library's place is the directory the runpath's parts lead to from the file's. */
  lemma LibraryThrough(directory: seq<string>, file: string, parts: seq<string>, library: string)
    requires directory != [] && '/' !in file && (forall i | 0 <= i < |directory| :: '/' !in directory[i])
    requires parts != [] && forall i | 0 <= i < |parts| :: '/' !in parts[i]
    ensures GuestLibrary(Join(directory + [file], '/'), "$ORIGIN" + Join(parts, '/'), library) ==
            match FollowRunpath(directory, parts)
            case None => None
            case Some(resolved) => Some(Join(resolved + [library], '/'))
  {
    hide Split, FollowRunpath;
    var install, runpath := Join(directory + [file], '/'), "$ORIGIN" + Join(parts, '/');
    SplitOfJoin(directory + [file], '/');
    SplitOfJoin(parts, '/');
    assert (directory + [file])[..|directory|] == directory;
    JoinAppend(directory, [file], '/');
    assert install[|Join(directory, '/')|] == '/';
    assert runpath[..|"$ORIGIN"|] == "$ORIGIN" && runpath[|"$ORIGIN"|..] == Join(parts, '/');
  }

  // ---- One layer ----

  predicate PathsNormal(m: Member) {
    GuestPath(m.source) && (m.install.Some? ==> GuestPath(m.install.value))
  }

  predicate NotReserved(m: Member) {
    m.install.Some? ==> m.install.value != "tools" && !("tools/" <= m.install.value)
  }

  predicate KindsFit(m: Member) {
    && (m.tree ==> m.format.None? && m.loads.None?)
    && (!m.tree ==> m.needs == [])
    && (m.format.Some? ==> m.format.value == "elf" || m.format.value == "terminfo")
    && (forall i | 0 <= i < |m.needs| ::
      GuestPath(m.needs[i].path) && (m.needs[i].format.Some? ==> m.needs[i].format.value == "terminfo"))
  }

  /** Some member is a published native file installed at `path`. */
  predicate PublishedNative(members: seq<Member>, path: string) {
    exists i | 0 <= i < |members| ::
        !members[i].tree && members[i].format == Some("elf") && members[i].install == Some(path)
  }

  predicate LoadsResolve(m: Member, members: seq<Member>) {
    m.loads.Some? ==>
      && m.format == Some("elf") && m.install.Some? && m.loads.value.libraries != []
      && forall i | 0 <= i < |m.loads.value.libraries| ::
           var resolved := GuestLibrary(m.install.value, m.loads.value.runpath, m.loads.value.libraries[i]);
           resolved.Some? && PublishedNative(members, resolved.value)
  }

  predicate MemberFits(m: Member, members: seq<Member>) {
    m.role != "" && PathsNormal(m) && NotReserved(m) && KindsFit(m) && LoadsResolve(m, members)
  }

  /** Two members of a layer never share a role, a source path or an install path. */
  predicate Apart(a: Member, b: Member) {
    && a.role != b.role
    && !Overlaps(b.source, a.source, b.tree || a.tree)
    && (a.install.Some? && b.install.Some? ==> !Overlaps(b.install.value, a.install.value, true))
  }

  predicate IsVariableChar(c: char) {
    IsAlphanumeric(c) || c == '_'
  }

  predicate EnvironmentEntry(entry: string) {
    "/" <= entry || GuestPath(entry)
  }

  predicate EnvironmentFits(environment: Environment) {
    && (forall i | 0 <= i < |environment.path| :: EnvironmentEntry(environment.path[i]))
    && (forall name | name in environment.variables ::
          && name != "PATH" && name != "" && All(name, IsVariableChar)
          && forall i | 0 <= i < |environment.variables[name]| :: EnvironmentEntry(environment.variables[name][i]))
  }

  predicate LayerAccepted(layer: Layer) {
    && layer.schema == 1 && layer.name != "" && layer.members != []
    && (forall i | 0 <= i < |layer.members| :: MemberFits(layer.members[i], layer.members))
    && (forall i, j | 0 <= i < j < |layer.members| :: Apart(layer.members[i], layer.members[j]))
    && EnvironmentFits(layer.environment)
  }

  /** `check_guest_layer`: members in order, against the roles, sources and installs seen before. */
  method CheckLayer(layer: Layer) returns (ok: bool)
    ensures ok <==> LayerAccepted(layer)
  {
    hide MemberFits, EnvironmentFits, Overlaps;
    if layer.schema != 1 || layer.name == "" || layer.members == [] {
      return false;
    }
    var members := layer.members;
    var roles: set<string>, sources: seq<(string, bool)>, installs: seq<string> := {}, [], [];
    ghost var installed: seq<nat> := [];
    for j := 0 to |members|
      invariant forall i | 0 <= i < j :: MemberFits(members[i], members)
      invariant forall i, k | 0 <= i < k < j :: Apart(members[i], members[k])
      invariant roles == set i | 0 <= i < j :: members[i].role
      invariant |sources| == j && forall i | 0 <= i < j :: sources[i] == (members[i].source, members[i].tree)
      invariant |installs| == |installed|
      invariant forall k | 0 <= k < |installed| ::
                  installed[k] < j && members[installed[k]].install == Some(installs[k])
      invariant forall i | 0 <= i < j && members[i].install.Some? :: i in installed
    {
      var m := members[j];
      if m.role in roles {
        return false;
      }
      roles := roles + {m.role};
      if exists i | 0 <= i < |sources| :: Overlaps(m.source, sources[i].0, m.tree || sources[i].1) {
        ghost var i :| 0 <= i < |sources| && Overlaps(m.source, sources[i].0, m.tree || sources[i].1);
        assert !Apart(members[i], m);
        return false;
      }
      sources := sources + [(m.source, m.tree)];
      if m.install.Some? {
        if exists k | 0 <= k < |installs| :: Overlaps(m.install.value, installs[k], true) {
          ghost var k :| 0 <= k < |installs| && Overlaps(m.install.value, installs[k], true);
          assert !Apart(members[installed[k]], m);
          return false;
        }
      }
      forall i | 0 <= i < j
        ensures Apart(members[i], m)
      {
        assert sources[i] == (members[i].source, members[i].tree);
        if members[i].install.Some? {
          assert i in installed;
        }
      }
      if m.install.Some? {
        installs := installs + [m.install.value];
        installed := installed + [j];
        assert installed[|installed| - 1] == j;
      }
      if !MemberFits(m, members) {
        return false;
      }
    }
    ok := EnvironmentFits(layer.environment);
  }

  // ---- Ownership ----

  predicate Owns(m: Member, name: string) {
    if m.tree then m.source + "/" <= name else m.source == name
  }

  function OwnerIn(members: seq<Member>, name: string): (r: Option<Member>)
    ensures r.Some? ==> r.value in members && Owns(r.value, name)
    ensures r.None? ==> forall i | 0 <= i < |members| :: !Owns(members[i], name)
  {
    if members == [] then None
    else if Owns(members[0], name) then Some(members[0])
    else OwnerIn(members[1..], name)
  }

  /** The first member of the first layer that owns `name`. */
  function Owner(layers: seq<Layer>, name: string): Option<Member> {
    if layers == [] then None
    else if OwnerIn(layers[0].members, name).Some? then OwnerIn(layers[0].members, name)
    else Owner(layers[1..], name)
  }

  /** Whether the declarations of two members give both of them some path. */
  predicate Shares(a: Member, b: Member) {
    if !a.tree && !b.tree then a.source == b.source
    else if !a.tree then b.source + "/" <= a.source
    else if !b.tree then a.source + "/" <= b.source
    else Inside(a.source, b.source) || Inside(b.source, a.source)
  }

  lemma NestedTrees(a: string, b: string, name: string)
    requires a + "/" <= name && b + "/" <= name && |a| <= |b|
    ensures Inside(b, a)
  {
    if |a| == |b| {
      assert a == name[..|a|] == b;
    } else {
      assert a + "/" == name[..|a| + 1] == b[..|a| + 1];
    }
  }

  /** Two members own a path in common exactly when one's declaration lies in the other's. */
  lemma SharesExactly(a: Member, b: Member)
    ensures Shares(a, b) <==> exists name :: Owns(a, name) && Owns(b, name)
  {
    if Shares(a, b) {
      var name := if !a.tree then a.source else if !b.tree then b.source
        else if Inside(a.source, b.source) then a.source + "/" else b.source + "/";
      SharedWitness(a, b, name);
    }
    if name :| Owns(a, name) && Owns(b, name) {
      if a.tree && b.tree {
        if |a.source| <= |b.source| {
          NestedTrees(a.source, b.source, name);
        } else {
          NestedTrees(b.source, a.source, name);
        }
      }
    }
  }

  lemma SharedWitness(a: Member, b: Member, name: string)
    requires Shares(a, b)
    requires name == if !a.tree then a.source else if !b.tree then b.source
                     else if Inside(a.source, b.source) then a.source + "/" else b.source + "/"
    ensures Owns(a, name) && Owns(b, name)
  {
    if a.tree && b.tree {
      if Inside(a.source, b.source) {
        assert b.source + "/" <= a.source + "/";
      } else {
        assert a.source + "/" <= b.source + "/";
      }
    }
  }

  lemma ApartShareNothing(a: Member, b: Member)
    requires Apart(a, b)
    ensures !Shares(a, b)
  {
  }

  /** An accepted layer gives every path at most one owning member. */
  lemma OneOwner(layer: Layer, i: nat, j: nat, name: string)
    requires LayerAccepted(layer) && i < |layer.members| && j < |layer.members|
    requires Owns(layer.members[i], name) && Owns(layer.members[j], name)
    ensures i == j
  {
    if i != j {
      var a, b := if i < j then i else j, if i < j then j else i;
      assert Apart(layer.members[a], layer.members[b]);
      ApartShareNothing(layer.members[a], layer.members[b]);
      SharesExactly(layer.members[a], layer.members[b]);
      assert false;
    }
  }

  /** No install path of an accepted layer lies inside another member's. */
  lemma InstallsApart(layer: Layer, i: nat, j: nat)
    requires LayerAccepted(layer) && i < |layer.members| && j < |layer.members|
    requires layer.members[i].install.Some? && layer.members[j].install.Some?
    ensures i != j ==> !Inside(layer.members[i].install.value, layer.members[j].install.value)
  {
    var a, b := if i < j then i else j, if i < j then j else i;
    assert i != j ==> Apart(layer.members[a], layer.members[b]);
  }

  /** Every library a member loads is found, along its runpath, at a published native member's install path. */
  lemma LibraryIsPublished(layer: Layer, i: nat, k: nat)
    requires LayerAccepted(layer) && i < |layer.members| && layer.members[i].loads.Some?
    requires k < |layer.members[i].loads.value.libraries|
    ensures var m := layer.members[i];
            && m.install.Some?
            && var resolved := GuestLibrary(m.install.value, m.loads.value.runpath, m.loads.value.libraries[k]);
            && resolved.Some?
            && exists j | 0 <= j < |layer.members| ::
                 && !layer.members[j].tree && layer.members[j].format == Some("elf")
                   && layer.members[j].install == resolved
                 && forall other | 0 <= other < |layer.members| && layer.members[other].install == resolved ::
                   other == j
  {
    var members := layer.members;
    assert MemberFits(members[i], members);
    var m := members[i];
    var resolved := GuestLibrary(m.install.value, m.loads.value.runpath, m.loads.value.libraries[k]).value;
    assert PublishedNative(members, resolved);
    var j :| 0 <= j < |members| && !members[j].tree && members[j].format == Some("elf")
        && members[j].install == Some(resolved);
    forall other | 0 <= other < |members| && members[other].install == Some(resolved)
      ensures other == j
    {
      InstallsApart(layer, other, j);
    }
  }

  /** Every path has at most one owner in the whole composition. */
  ghost predicate UniqueOwners(layers: seq<Layer>) {
    forall p, i, q, j, name |
      && 0 <= p < |layers| && 0 <= i < |layers[p].members| && 0 <= q < |layers| && 0 <= j < |layers[q].members|
      && Owns(layers[p].members[i], name) && Owns(layers[q].members[j], name) :: p == q && i == j
  }

  /** No member of one layer shares a path with a member of another. */
  predicate LayersApart(layers: seq<Layer>) {
    forall p, i, q, j | 0 <= p < q < |layers| && 0 <= i < |layers[p].members| && 0 <= j < |layers[q].members| ::
      !Shares(layers[p].members[i], layers[q].members[j])
  }

  /**
   Accepting each layer does not by itself give a composition of several layers unique owners: it has
   them exactly when members of different layers share no path, which no check compares.
   */
  lemma UniqueOwnersExactly(layers: seq<Layer>)
    requires forall p | 0 <= p < |layers| :: LayerAccepted(layers[p])
    ensures UniqueOwners(layers) <==> LayersApart(layers)
  {
    hide LayerAccepted, Owns, Shares;
    if LayersApart(layers) {
      forall p, i, q, j, name |
        && 0 <= p < |layers| && 0 <= i < |layers[p].members| && 0 <= q < |layers| && 0 <= j < |layers[q].members|
        && Owns(layers[p].members[i], name) && Owns(layers[q].members[j], name)
        ensures p == q && i == j
      {
        SharesExactly(layers[p].members[i], layers[q].members[j]);
        SharesExactly(layers[q].members[j], layers[p].members[i]);
        if p == q {
          OneOwner(layers[p], i, j, name);
        }
      }
    }
    if UniqueOwners(layers) {
      forall p, i, q, j | 0 <= p < q < |layers| && 0 <= i < |layers[p].members| && 0 <= j < |layers[q].members|
        ensures !Shares(layers[p].members[i], layers[q].members[j])
      {
        SharesExactly(layers[p].members[i], layers[q].members[j]);
      }
    }
  }

  /** Two accepted layers that declare the same file. */
  lemma TwoLayersMayShare()
    ensures var member := Member("agent", false, "bin", None, None, None, []);
            var layer := Layer(1, "tools", [member], Environment([], map[]));
            LayerAccepted(layer) && !UniqueOwners([layer, layer])
  {
    var member := Member("agent", false, "bin", None, None, None, []);
    var layer := Layer(1, "tools", [member], Environment([], map[]));
    assert Split("bin", '/') == ["bin"];
    assert GuestPath("bin");
    assert MemberFits(member, layer.members);
    assert LayerAccepted(layer);
    var layers := [layer, layer];
    assert Shares(layers[0].members[0], layers[1].members[0]);
    assert !LayersApart(layers);
    UniqueOwnersExactly(layers);
  }

  // ---- The payload ----

  const GUEST_PREFIX := "share/flotilla/guest-tools"
  const GUEST_CATALOG := GUEST_PREFIX + "/catalog.json"
  const GUEST_TREE := GUEST_PREFIX + "/linux-amd64"
  const GUEST_TARGET := "linux/amd64"

  type Bytes = seq<Byte>

  datatype Item = Item(path: string, size: int, sha: string)

  datatype Catalog = Catalog(
    schema: int, sources: map<string, string>, cohort: string, targets: set<string>,
    layers: Option<seq<Layer>>, root: string, files: seq<Item>)

  /** What the check is given from outside: the JSON reader, the digest, the ELF reader and the legacy layers. */
  datatype Tools = Tools(
    read: Bytes -> Option<Catalog>, sha: Bytes -> string, native: (Bytes, Option<Loads>) -> bool, legacy: seq<Layer>)

  datatype Expected = Expected(
    sources: map<string, string>, cohort: Option<string>, required: bool, layers: Option<seq<Layer>>)

  datatype Verdict = Refused | Absent | Valid(catalog: Catalog)

  predicate IsGuestName(name: string) {
    GUEST_PREFIX + "/" <= name
  }

  function Present(contents: map<string, Bytes>): set<string> {
    set name | name in contents && IsGuestName(name)
  }

  function InTree(name: string): string {
    GUEST_TREE + "/" + name
  }

  /** Some part that is neither empty nor `.`, no `..`, and no leading slash. */
  predicate SafeName(name: string) {
    var parts := Split(name, '/');
    && (exists i | 0 <= i < |parts| :: parts[i] != "" && parts[i] != ".")
    && !("/" <= name) && ".." !in parts
  }

  predicate NeedsTerminfo(m: Member, name: string) {
    || m.format == Some("terminfo")
    || exists i | 0 <= i < |m.needs| ::
      name == m.source + "/" + m.needs[i].path && m.needs[i].format == Some("terminfo")
  }

  predicate CompiledTerminfo(content: Bytes) {
    |content| >= 2 && (content[..2] == [0x1A, 0x01] || content[..2] == [0x1E, 0x02])
  }

  predicate ItemFits(tools: Tools, contents: map<string, Bytes>, composition: seq<Layer>, item: Item) {
    && SafeName(item.path)
    && Owner(composition, item.path).Some?
    && InTree(item.path) in contents
    && var m, content := Owner(composition, item.path).value, contents[InTree(item.path)];
    && |content| == item.size && tools.sha(content) == item.sha
    && (!m.tree && m.format == Some("elf") ==> tools.native(content, m.loads))
    && (NeedsTerminfo(m, item.path) ==> CompiledTerminfo(content))
  }

  predicate ItemsDistinct(files: seq<Item>) {
    forall i, j | 0 <= i < j < |files| :: files[i].path != files[j].path
  }

  function Declared(files: seq<Item>): set<string> {
    set i | 0 <= i < |files| :: files[i].path
  }

  /** The paths a member must have in the payload. */
  function NeededPaths(m: Member): set<string> {
    if m.tree then set i | 0 <= i < |m.needs| :: m.source + "/" + m.needs[i].path else {m.source}
  }

  predicate LayerPresent(layer: Layer, declared: set<string>) {
    forall i | 0 <= i < |layer.members| :: NeededPaths(layer.members[i]) <= declared
  }

  function CompositionOf(tools: Tools, catalog: Catalog): seq<Layer> {
    if catalog.layers.Some? then catalog.layers.value else tools.legacy
  }

  predicate CatalogFits(tools: Tools, expected: Expected, catalog: Catalog) {
    && catalog.schema == 1 && catalog.sources == expected.sources
    && catalog.cohort != "" && (expected.cohort.Some? ==> catalog.cohort == expected.cohort.value)
    && catalog.targets == {GUEST_TARGET}
    && (expected.layers.Some? ==> catalog.layers == expected.layers)
    && CompositionOf(tools, catalog) != []
    && catalog.root == GUEST_TREE && |catalog.files| <= 16384
  }

  predicate PayloadFits(tools: Tools, contents: map<string, Bytes>, expected: Expected, catalog: Catalog) {
    var composition := CompositionOf(tools, catalog);
    && CatalogFits(tools, expected, catalog)
    && (forall i | 0 <= i < |composition| :: LayerAccepted(composition[i]))
    && (forall i | 0 <= i < |catalog.files| :: ItemFits(tools, contents, composition, catalog.files[i]))
    && ItemsDistinct(catalog.files)
    && (forall i | 0 <= i < |composition| :: LayerPresent(composition[i], Declared(catalog.files)))
    && Present(contents) == {GUEST_CATALOG} + set name | name in Declared(catalog.files) :: InTree(name)
  }

  function GuestVerdict(tools: Tools, contents: map<string, Bytes>, expected: Expected): Verdict {
    if Present(contents) == {} && !expected.required then Absent
    else if GUEST_CATALOG !in contents then Refused
    else
      match tools.read(contents[GUEST_CATALOG])
      case None => Refused
      case Some(catalog) => if PayloadFits(tools, contents, expected, catalog) then Valid(catalog) else Refused
  }

  method CheckLayers(layers: seq<Layer>) returns (ok: bool)
    ensures ok <==> forall i | 0 <= i < |layers| :: LayerAccepted(layers[i])
  {
    hide LayerAccepted;
    for i := 0 to |layers|
      invariant forall k | 0 <= k < i :: LayerAccepted(layers[k])
    {
      var accepted := CheckLayer(layers[i]);
      if !accepted {
        return false;
      }
    }
    return true;
  }

  method CheckItems(
    tools: Tools, contents: map<string, Bytes>, composition: seq<Layer>, files: seq<Item>)
    returns (declared: Option<set<string>>)
    ensures declared.Some? <==>
            (forall i | 0 <= i < |files| :: ItemFits(tools, contents, composition, files[i])) && ItemsDistinct(files)
    ensures declared.Some? ==> declared.value == Declared(files)
  {
    hide ItemFits;
    var names: set<string> := {};
    for i := 0 to |files|
      invariant forall k | 0 <= k < i :: ItemFits(tools, contents, composition, files[k])
      invariant forall k, l | 0 <= k < l < i :: files[k].path != files[l].path
      invariant names == set k | 0 <= k < i :: files[k].path
    {
      if files[i].path in names || !ItemFits(tools, contents, composition, files[i]) {
        return None;
      }
      names := names + {files[i].path};
    }
    return Some(names);
  }

  method CheckPresent(composition: seq<Layer>, declared: set<string>) returns (ok: bool)
    ensures ok <==> forall i | 0 <= i < |composition| :: LayerPresent(composition[i], declared)
  {
    hide NeededPaths;
    for i := 0 to |composition|
      invariant forall k | 0 <= k < i :: LayerPresent(composition[k], declared)
    {
      var members := composition[i].members;
      for j := 0 to |members|
        invariant forall k | 0 <= k < j :: NeededPaths(members[k]) <= declared
      {
        if !(NeededPaths(members[j]) <= declared) {
          return false;
        }
      }
    }
    return true;
  }

  /** `validate_guest_tools`. */
  method ValidateGuestTools(tools: Tools, contents: map<string, Bytes>, expected: Expected) returns (verdict: Verdict)
    ensures verdict == GuestVerdict(tools, contents, expected)
  {
    hide CatalogFits, LayerAccepted, ItemFits, LayerPresent, ItemsDistinct;
    var present := Present(contents);
    if present == {} && !expected.required {
      return Absent;
    }
    if GUEST_CATALOG !in contents {
      return Refused;
    }
    var read := tools.read(contents[GUEST_CATALOG]);
    if read == None {
      return Refused;
    }
    var catalog := read.value;
    if !CatalogFits(tools, expected, catalog) {
      return Refused;
    }
    var composition := CompositionOf(tools, catalog);
    var layersOk := CheckLayers(composition);
    if !layersOk {
      return Refused;
    }
    var declared := CheckItems(tools, contents, composition, catalog.files);
    if declared == None {
      return Refused;
    }
    var complete := CheckPresent(composition, declared.value);
    if !complete {
      return Refused;
    }
    if present != {GUEST_CATALOG} + set name | name in declared.value :: InTree(name) {
      return Refused;
    }
    return Valid(catalog);
  }

  /**
   An accepted payload is exactly the catalog and the indexed files: every guest path is one of them
   with the indexed size and digest and an owning member, and every declared member is there.
   */
  lemma AcceptedPayload(tools: Tools, contents: map<string, Bytes>, expected: Expected)
    ensures GuestVerdict(tools, contents, expected).Valid? ==>
              var catalog := GuestVerdict(tools, contents, expected).catalog;
              var composition := CompositionOf(tools, catalog);
              && (forall name | name in contents && IsGuestName(name) ::
                    name == GUEST_CATALOG || exists i | 0 <= i < |catalog.files| ::
                        Indexed(tools, contents, composition, catalog.files[i], name))
              && (forall i | 0 <= i < |catalog.files| :: InTree(catalog.files[i].path) in contents)
              && (forall p, i, path | 0 <= p < |composition| && 0 <= i < |composition[p].members|
                && path in NeededPaths(composition[p].members[i]) ::
                    InTree(path) in contents)
  {
    hide ItemFits, CatalogFits, LayerAccepted, NeededPaths, Owner;
    if GuestVerdict(tools, contents, expected).Valid? {
      var catalog := GuestVerdict(tools, contents, expected).catalog;
      var composition := CompositionOf(tools, catalog);
      forall i | 0 <= i < |catalog.files|
        ensures Indexed(tools, contents, composition, catalog.files[i], InTree(catalog.files[i].path))
      {
        FitsIsIndexed(tools, contents, composition, catalog.files[i]);
      }
      forall name | name in contents && IsGuestName(name) && name != GUEST_CATALOG
        ensures exists i | 0 <= i < |catalog.files| :: Indexed(tools, contents, composition, catalog.files[i], name)
      {
        assert name in Present(contents);
        var path :| path in Declared(catalog.files) && InTree(path) == name;
        var i :| 0 <= i < |catalog.files| && catalog.files[i].path == path;
        assert Indexed(tools, contents, composition, catalog.files[i], name);
      }
      forall p, i, path | 0 <= p < |composition| && 0 <= i < |composition[p].members|
          && path in NeededPaths(composition[p].members[i])
        ensures InTree(path) in contents
      {
        assert LayerPresent(composition[p], Declared(catalog.files));
        assert path in Declared(catalog.files);
        var k :| 0 <= k < |catalog.files| && catalog.files[k].path == path;
        assert Indexed(tools, contents, composition, catalog.files[k], InTree(path));
      }
    }
  }

  /** `name` is where `item` is kept, with its size and digest, and some member owns it. */
  predicate Indexed(tools: Tools, contents: map<string, Bytes>, composition: seq<Layer>, item: Item, name: string) {
    && name == InTree(item.path) && name in contents
    && |contents[name]| == item.size && tools.sha(contents[name]) == item.sha
    && Owner(composition, item.path).Some?
  }

  lemma FitsIsIndexed(tools: Tools, contents: map<string, Bytes>, composition: seq<Layer>, item: Item)
    requires ItemFits(tools, contents, composition, item)
    ensures Indexed(tools, contents, composition, item, InTree(item.path))
  {
  }
}
