/**
 What the guest rules say (ci/fleet-candidates/generation_validation.py, `check_guest_layer`, `guest_owner` and
 `validate_guest_tools`), stated on names and members, and that the checks accept exactly that.
 */
module GuestRules {
  import opened Outcomes
  import opened Text
  import opened Utf8
  import opened GuestLayers

  // ---- Paths ----

  /** A name in a guest path. */
  predicate IsEntry(name: string) {
    name != "" && name != "." && name != ".." && '/' !in name && '\\' !in name
  }

  /** Names joined by slashes. */
  ghost predicate IsGuestPath(path: string) {
    exists names :: names != [] && (forall i | 0 <= i < |names| :: IsEntry(names[i])) && path == Join(names, '/')
  }

  lemma {:induction false} JoinedNames(names: seq<string>)
    requires names != [] && forall i | 0 <= i < |names| :: IsEntry(names[i])
    ensures var path := Join(names, '/');
            path != "" && path[0] != '/' && path[|path| - 1] != '/' && '\\' !in path
  {
    if |names| > 1 {
      JoinedNames(names[1..]);
    }
  }

  lemma {:induction false} JoinedHolds(parts: seq<string>, i: nat)
    requires i < |parts|
    ensures forall c | c in parts[i] :: c in Join(parts, '/')
  {
    if |parts| > 1 && i > 0 {
      JoinedHolds(parts[1..], i - 1);
    }
  }

  lemma GuestPathExactly(path: string)
    ensures GuestPath(path) <==> IsGuestPath(path)
  {
    hide Split, Join;
    if GuestPath(path) {
      var parts := Split(path, '/');
      JoinOfSplit(path, '/');
      forall i | 0 <= i < |parts|
        ensures IsEntry(parts[i])
      {
        JoinedHolds(parts, i);
      }
    }
    if IsGuestPath(path) {
      var names :| names != [] && (forall i | 0 <= i < |names| :: IsEntry(names[i])) && path == Join(names, '/');
      JoinedNames(names);
      SplitOfJoin(names, '/');
    }
  }

  /** The path is the other or below it. */
  ghost predicate IsIn(child: string, parent: string) {
    child == parent || exists rest :: child == parent + "/" + rest
  }

  lemma PrefixIs(a: string, b: string)
    ensures a + "/" <= b <==> exists rest :: b == a + "/" + rest
  {
    if a + "/" <= b {
      var n := |a + "/"|;
      assert b == b[..n] + b[n..];
      assert b[..n] == a + "/";
    }
  }

  lemma InsideExactly(child: string, parent: string)
    ensures Inside(child, parent) <==> IsIn(child, parent)
  {
    PrefixIs(parent, child);
  }

  // ---- One layer ----

  /** What is declared of a tree, and of a file. */
  ghost predicate HasKind(m: Member) {
    if m.tree then
      && m.format == None && m.loads == None
      && forall i | 0 <= i < |m.needs| ::
           IsGuestPath(m.needs[i].path) && m.needs[i].format in {None, Some("terminfo")}
    else m.needs == [] && m.format in {None, Some("elf"), Some("terminfo")}
  }

  /** Some native file of the layer is installed at the path. */
  ghost predicate IsPublished(members: seq<Member>, path: string) {
    exists m <- members :: m.tree == false && m.format == Some("elf") && m.install == Some(path)
  }

  /** A native published member loads libraries, each installed by the layer where the runpath finds it. */
  ghost predicate HasLibraries(m: Member, members: seq<Member>) {
    m.loads == None ||
    (&& m.loads.Some? && m.loads.value.libraries != [] && m.format == Some("elf") && m.install.Some?
     && forall library <- m.loads.value.libraries :: exists path ::
          && GuestLibrary(m.install.value, m.loads.value.runpath, library) == Some(path)
          && IsPublished(members, path))
  }

  /** The rules for one member. */
  ghost predicate IsMember(m: Member, members: seq<Member>) {
    && m.role != "" && IsGuestPath(m.source)
    && (m.install.Some? ==> IsGuestPath(m.install.value) && !IsIn(m.install.value, "tools"))
    && HasKind(m) && HasLibraries(m, members)
  }

  /** The rules for two members: no role, source or install path in common. */
  ghost predicate AreApart(a: Member, b: Member) {
    && a.role != b.role && a.source != b.source
    && (a.tree || b.tree ==> !IsIn(a.source, b.source) && !IsIn(b.source, a.source))
    && (a.install.Some? && b.install.Some? ==>
          !IsIn(a.install.value, b.install.value) && !IsIn(b.install.value, a.install.value))
  }

  ghost predicate IsSearched(entry: string) {
    (entry != "" && entry[0] == '/') || IsGuestPath(entry)
  }

  /** A name that may be set: letters, digits and underscores, and not the search path's. */
  predicate IsSettable(name: string) {
    && name != "PATH" && name != ""
    && forall i | 0 <= i < |name| ::
         name[i] in UPPER_LETTERS || name[i] in LOWER_LETTERS || name[i] in DIGITS || name[i] == '_'
  }

  ghost predicate IsEnvironment(environment: Environment) {
    && (forall entry <- environment.path :: IsSearched(entry))
    && forall name <- environment.variables ::
         IsSettable(name) && forall entry <- environment.variables[name] :: IsSearched(entry)
  }

  /** The rules for a layer. */
  ghost predicate IsLayer(layer: Layer) {
    && layer.schema == 1 && layer.name != "" && layer.members != [] && IsEnvironment(layer.environment)
    && (forall m <- layer.members :: IsMember(m, layer.members))
    && forall i, j | 0 <= i < |layer.members| && 0 <= j < |layer.members| && i != j ::
         AreApart(layer.members[i], layer.members[j])
  }

  lemma ReservedIs(install: string)
    ensures install != "tools" && !("tools/" <= install) <==> !IsIn(install, "tools")
  {
    PrefixIs("tools", install);
    assert "tools" + "/" == "tools/";
  }

  lemma KindExactly(m: Member)
    ensures KindsFit(m) <==> HasKind(m)
  {
    hide GuestPath, IsGuestPath;
    forall i | 0 <= i < |m.needs|
      ensures GuestPath(m.needs[i].path) <==> IsGuestPath(m.needs[i].path)
    {
      GuestPathExactly(m.needs[i].path);
    }
  }

  lemma PublishedExactly(members: seq<Member>, path: string)
    ensures PublishedNative(members, path) <==> IsPublished(members, path)
  {
    if PublishedNative(members, path) {
      var i :| 0 <= i < |members| && !members[i].tree && members[i].format == Some("elf")
        && members[i].install == Some(path);
      assert members[i] in members;
    }
  }

  lemma LibrariesExactly(m: Member, members: seq<Member>)
    ensures LoadsResolve(m, members) <==> HasLibraries(m, members)
  {
    hide PublishedNative, IsPublished, GuestLibrary;
    if m.loads.Some? && m.install.Some? {
      var libraries := m.loads.value.libraries;
      forall path
        ensures PublishedNative(members, path) <==> IsPublished(members, path)
      {
        PublishedExactly(members, path);
      }
      if HasLibraries(m, members) {
        forall i | 0 <= i < |libraries|
          ensures var resolved := GuestLibrary(m.install.value, m.loads.value.runpath, libraries[i]);
                  resolved.Some? && PublishedNative(members, resolved.value)
        {
          assert libraries[i] in libraries;
        }
      }
    }
  }

  lemma MemberExactly(m: Member, members: seq<Member>)
    ensures MemberFits(m, members) <==> IsMember(m, members)
  {
    hide GuestPath, IsGuestPath, KindsFit, HasKind, LoadsResolve, HasLibraries, IsIn;
    GuestPathExactly(m.source);
    if m.install.Some? {
      GuestPathExactly(m.install.value);
      ReservedIs(m.install.value);
    }
    KindExactly(m);
    LibrariesExactly(m, members);
  }

  lemma ApartExactly(a: Member, b: Member)
    ensures Apart(a, b) <==> AreApart(a, b)
    ensures AreApart(a, b) <==> AreApart(b, a)
  {
    hide Inside, IsIn;
    InsideExactly(a.source, b.source);
    InsideExactly(b.source, a.source);
    InItself(a.source, b.source);
    if a.install.Some? && b.install.Some? {
      InsideExactly(a.install.value, b.install.value);
      InsideExactly(b.install.value, a.install.value);
      InItself(a.install.value, b.install.value);
    }
  }

  lemma InItself(a: string, b: string)
    ensures a == b ==> IsIn(a, b) && IsIn(b, a)
  {
  }

  lemma SearchedExactly(entry: string)
    ensures EnvironmentEntry(entry) <==> IsSearched(entry)
  {
    GuestPathExactly(entry);
    assert "/" <= entry <==> entry != "" && entry[0] == '/';
  }

  lemma SettableExactly(name: string)
    ensures IsSettable(name) <==> name != "PATH" && name != "" && All(name, IsVariableChar)
  {
    hide IsUpperCase, IsLowerCase, IsDigit;
    forall i | 0 <= i < |name|
      ensures IsUpperCase(name[i]) <==> name[i] in UPPER_LETTERS
      ensures IsLowerCase(name[i]) <==> name[i] in LOWER_LETTERS
      ensures IsDigit(name[i]) <==> name[i] in DIGITS
    {
      UpperCaseIs(name[i]);
      LowerCaseIs(name[i]);
      DigitIs(name[i]);
    }
  }

  predicate AllEntries(entries: seq<string>) {
    forall i | 0 <= i < |entries| :: EnvironmentEntry(entries[i])
  }

  lemma EntriesExactly(entries: seq<string>)
    ensures AllEntries(entries) <==> forall entry <- entries :: IsSearched(entry)
  {
    hide EnvironmentEntry, IsSearched;
    forall i | 0 <= i < |entries|
      ensures EnvironmentEntry(entries[i]) <==> IsSearched(entries[i])
      ensures entries[i] in entries
    {
      SearchedExactly(entries[i]);
    }
  }

  lemma EnvironmentExactly(environment: Environment)
    ensures EnvironmentFits(environment) <==> IsEnvironment(environment)
  {
    hide EnvironmentEntry, IsSearched, IsSettable, IsVariableChar;
    EntriesExactly(environment.path);
    forall name | name in environment.variables
      ensures IsSettable(name) <==> name != "PATH" && name != "" && All(name, IsVariableChar)
      ensures AllEntries(environment.variables[name]) <==>
              forall entry <- environment.variables[name] :: IsSearched(entry)
    {
      SettableExactly(name);
      EntriesExactly(environment.variables[name]);
    }
    assert (forall i | 0 <= i < |environment.path| :: EnvironmentEntry(environment.path[i])) <==>
           AllEntries(environment.path);
  }

  /** A layer is accepted exactly when it keeps the rules. */
  lemma LayerExactly(layer: Layer)
    ensures LayerAccepted(layer) <==> IsLayer(layer)
  {
    hide MemberFits, IsMember, Apart, AreApart, EnvironmentFits, IsEnvironment;
    EnvironmentExactly(layer.environment);
    var members := layer.members;
    forall i | 0 <= i < |members|
      ensures MemberFits(members[i], members) <==> IsMember(members[i], members)
      ensures members[i] in members
    {
      MemberExactly(members[i], members);
    }
    forall i, j | 0 <= i < |members| && 0 <= j < |members|
      ensures Apart(members[i], members[j]) <==> AreApart(members[i], members[j])
      ensures AreApart(members[i], members[j]) <==> AreApart(members[j], members[i])
    {
      ApartExactly(members[i], members[j]);
    }
    if LayerAccepted(layer) {
      forall i, j | 0 <= i < |members| && 0 <= j < |members| && i != j
        ensures AreApart(members[i], members[j])
      {
        if i < j {
          assert Apart(members[i], members[j]);
        } else {
          assert Apart(members[j], members[i]);
        }
      }
    }
  }

  // ---- Owners ----

  /** The member holds the name: it is the file, or the name is below the tree. */
  ghost predicate Holds(m: Member, name: string) {
    if m.tree then exists rest :: name == m.source + "/" + rest else name == m.source
  }

  /** The member at `i` of the layer at `p` is the first to hold the name. */
  ghost predicate FirstHolds(layers: seq<Layer>, name: string, p: nat, i: nat) {
    && p < |layers| && i < |layers[p].members| && Holds(layers[p].members[i], name)
    && (forall k | 0 <= k < i :: !Holds(layers[p].members[k], name))
    && forall q, k | 0 <= q < p && 0 <= k < |layers[q].members| :: !Holds(layers[q].members[k], name)
  }

  lemma HoldsExactly(m: Member, name: string)
    ensures Owns(m, name) <==> Holds(m, name)
  {
    PrefixIs(m.source, name);
  }

  lemma {:induction false} OwnerInFirst(members: seq<Member>, name: string) returns (i: nat)
    requires OwnerIn(members, name).Some?
    ensures i < |members| && OwnerIn(members, name) == Some(members[i]) && Holds(members[i], name)
    ensures forall k | 0 <= k < i :: !Holds(members[k], name)
  {
    hide Owns, Holds;
    HoldsExactly(members[0], name);
    if Owns(members[0], name) {
      i := 0;
    } else {
      i := OwnerInFirst(members[1..], name);
      assert forall k | 0 <= k < i :: members[1..][k] == members[k + 1];
      i := i + 1;
    }
  }

  lemma {:induction false} HasOwner(layers: seq<Layer>, name: string) returns (p: nat, i: nat)
    requires Owner(layers, name).Some?
    ensures FirstHolds(layers, name, p, i) && Owner(layers, name) == Some(layers[p].members[i])
  {
    hide Owns, Holds, OwnerIn;
    var members := layers[0].members;
    if OwnerIn(members, name).Some? {
      p := 0;
      i := OwnerInFirst(members, name);
    } else {
      NoneHolds(members, name);
      p, i := HasOwner(layers[1..], name);
      assert forall q | 0 <= q < |layers[1..]| :: layers[1..][q] == layers[q + 1];
      FirstHoldsLater(layers, name, p, i);
      p := p + 1;
    }
  }

  lemma NoneHolds(members: seq<Member>, name: string)
    requires OwnerIn(members, name).None?
    ensures forall k | 0 <= k < |members| :: !Holds(members[k], name)
  {
    hide Owns, Holds;
    forall k | 0 <= k < |members|
      ensures !Holds(members[k], name)
    {
      HoldsExactly(members[k], name);
    }
  }

  lemma FirstHoldsLater(layers: seq<Layer>, name: string, p: nat, i: nat)
    requires layers != [] && FirstHolds(layers[1..], name, p, i)
    requires forall k | 0 <= k < |layers[0].members| :: !Holds(layers[0].members[k], name)
    ensures FirstHolds(layers, name, p + 1, i)
  {
    hide Holds;
    var rest := layers[1..];
    forall q, k | 0 <= q < p + 1 && 0 <= k < |layers[q].members|
      ensures !Holds(layers[q].members[k], name)
    {
      if q > 0 {
        assert layers[q] == rest[q - 1];
        assert !Holds(rest[q - 1].members[k], name);
      }
    }
  }

  lemma {:induction false} SomeOwner(layers: seq<Layer>, name: string, p: nat, i: nat)
    requires p < |layers| && i < |layers[p].members| && Holds(layers[p].members[i], name)
    ensures Owner(layers, name).Some?
  {
    hide Owns, Holds, OwnerIn;
    if OwnerIn(layers[0].members, name).None? {
      NoneHolds(layers[0].members, name);
      SomeOwner(layers[1..], name, p - 1, i);
    }
  }

  lemma FirstHoldsOnce(layers: seq<Layer>, name: string, p: nat, i: nat, q: nat, j: nat)
    requires FirstHolds(layers, name, p, i) && FirstHolds(layers, name, q, j)
    ensures p == q && i == j
  {
    hide Holds;
  }

  /** The owner of a name is the first member, of the first layer, that holds it. */
  lemma OwnerExactly(layers: seq<Layer>, name: string, m: Member)
    ensures Owner(layers, name) == Some(m) <==>
            exists p: nat, i: nat :: FirstHolds(layers, name, p, i) && m == layers[p].members[i]
  {
    hide Owner, FirstHolds;
    if Owner(layers, name).Some? {
      var p, i := HasOwner(layers, name);
      if q: nat, j: nat :| FirstHolds(layers, name, q, j) {
        FirstHoldsOnce(layers, name, p, i, q, j);
      }
      forall q: nat, j: nat | FirstHolds(layers, name, q, j)
        ensures q == p && j == i
      {
        FirstHoldsOnce(layers, name, p, i, q, j);
      }
    } else if q: nat, j: nat :| FirstHolds(layers, name, q, j) {
      FirstHolder(layers, name, q, j);
      SomeOwner(layers, name, q, j);
    }
  }

  lemma FirstHolder(layers: seq<Layer>, name: string, p: nat, i: nat)
    requires FirstHolds(layers, name, p, i)
    ensures p < |layers| && i < |layers[p].members| && Holds(layers[p].members[i], name)
  {
  }

  // ---- The payload ----

  const PREFIX := "share/flotilla/guest-tools/"
  const CATALOG := "share/flotilla/guest-tools/catalog.json"
  const ROOT := "share/flotilla/guest-tools/linux-amd64"

  /** A relative path with some name in it and no step up. */
  ghost predicate IsSafe(path: string) {
    && (path == "" || path[0] != '/')
    && exists parts :: parts != [] && (forall i | 0 <= i < |parts| :: '/' !in parts[i]) && path == Join(parts, '/')
         && (forall part <- parts :: part != "..") && exists part <- parts :: part != "" && part != "."
  }

  lemma SafeExactly(path: string)
    ensures SafeName(path) <==> IsSafe(path)
  {
    hide Split, Join;
    assert "/" <= path <==> path != "" && path[0] == '/';
    var parts := Split(path, '/');
    JoinOfSplit(path, '/');
    if SafeName(path) {
      var i :| 0 <= i < |parts| && parts[i] != "" && parts[i] != ".";
      assert parts[i] in parts;
    }
    if IsSafe(path) {
      var other :| other != [] && (forall i | 0 <= i < |other| :: '/' !in other[i]) && path == Join(other, '/')
        && (forall part <- other :: part != "..") && exists part <- other :: part != "" && part != ".";
      SplitOfJoin(other, '/');
      var part :| part in other && part != "" && part != ".";
      var i :| 0 <= i < |parts| && parts[i] == part;
    }
  }

  /** The file must be compiled terminfo: its member says so, or the entry its tree requires at this path does. */
  ghost predicate IsTerminfo(m: Member, path: string) {
    || m.format == Some("terminfo")
    || exists need <- m.needs :: path == m.source + "/" + need.path && need.format == Some("terminfo")
  }

  predicate IsCompiled(content: Bytes) {
    |content| >= 2 && ((content[0] == 0x1A && content[1] == 0x01) || (content[0] == 0x1E && content[1] == 0x02))
  }

  /** The rules for one indexed file, owned by this member. */
  ghost predicate IsOwnedItem(tools: Tools, contents: map<string, Bytes>, m: Member, item: Item) {
    && ROOT + "/" + item.path in contents
    && var content := contents[ROOT + "/" + item.path];
       && |content| == item.size && tools.sha(content) == item.sha
       && (m.tree == false && m.format == Some("elf") ==> tools.native(content, m.loads))
       && (IsTerminfo(m, item.path) ==> IsCompiled(content))
  }

  /** The rules for one indexed file. */
  ghost predicate IsItem(tools: Tools, contents: map<string, Bytes>, composition: seq<Layer>, item: Item) {
    && IsSafe(item.path)
    && exists p: nat, i: nat ::
         && FirstHolds(composition, item.path, p, i)
         && IsOwnedItem(tools, contents, composition[p].members[i], item)
  }

  lemma TerminfoExactly(m: Member, path: string)
    ensures NeedsTerminfo(m, path) <==> IsTerminfo(m, path)
  {
    if NeedsTerminfo(m, path) && m.format != Some("terminfo") {
      var i :| 0 <= i < |m.needs| && path == m.source + "/" + m.needs[i].path && m.needs[i].format == Some("terminfo");
      assert m.needs[i] in m.needs;
    }
  }

  lemma CompiledExactly(content: Bytes)
    ensures CompiledTerminfo(content) <==> IsCompiled(content)
  {
    if |content| >= 2 {
      assert content[..2] == [content[0], content[1]];
    }
  }

  lemma NamesAre(name: string)
    ensures GUEST_CATALOG == CATALOG && GUEST_TREE == ROOT && InTree(name) == ROOT + "/" + name
    ensures IsGuestName(name) <==> PREFIX <= name
  {
    assert GUEST_PREFIX + "/" == PREFIX;
  }

  lemma OwnedItemExactly(tools: Tools, contents: map<string, Bytes>, composition: seq<Layer>, item: Item, m: Member)
    requires Owner(composition, item.path) == Some(m)
    ensures ItemFits(tools, contents, composition, item) <==>
            IsSafe(item.path) && IsOwnedItem(tools, contents, m, item)
  {
    hide SafeName, IsSafe, Owner, NeedsTerminfo, IsTerminfo, CompiledTerminfo, IsCompiled;
    SafeExactly(item.path);
    NamesAre(item.path);
    TerminfoExactly(m, item.path);
    if InTree(item.path) in contents {
      CompiledExactly(contents[InTree(item.path)]);
    }
  }

  lemma ItemExactly(tools: Tools, contents: map<string, Bytes>, composition: seq<Layer>, item: Item)
    ensures ItemFits(tools, contents, composition, item) <==> IsItem(tools, contents, composition, item)
  {
    hide IsSafe, FirstHolds, IsOwnedItem;
    match Owner(composition, item.path)
    case Some(m) =>
      hide ItemFits;
      OwnedItemExactly(tools, contents, composition, item, m);
      OwnerExactly(composition, item.path, m);
      forall p: nat, i: nat | FirstHolds(composition, item.path, p, i)
        ensures p < |composition| && i < |composition[p].members| && composition[p].members[i] == m
      {
        FirstHolder(composition, item.path, p, i);
        OwnerExactly(composition, item.path, composition[p].members[i]);
      }
    case None =>
      if p: nat, i: nat :| FirstHolds(composition, item.path, p, i) {
        FirstHolder(composition, item.path, p, i);
        OwnerExactly(composition, item.path, composition[p].members[i]);
      }
  }

  /** Every file member, and every entry a tree requires, is indexed. */
  ghost predicate AllThere(composition: seq<Layer>, files: seq<Item>) {
    forall layer <- composition, m <- layer.members ::
      if m.tree then forall need <- m.needs :: IsIndexed(files, m.source + "/" + need.path)
      else IsIndexed(files, m.source)
  }

  ghost predicate IsIndexed(files: seq<Item>, path: string) {
    exists item <- files :: item.path == path
  }

  lemma DeclaredExactly(files: seq<Item>, path: string)
    ensures path in Declared(files) <==> IsIndexed(files, path)
  {
    if path in Declared(files) {
      var i :| 0 <= i < |files| && files[i].path == path;
      assert files[i] in files;
    }
  }

  lemma NeededExactly(m: Member, files: seq<Item>)
    ensures NeededPaths(m) <= Declared(files) <==>
            if m.tree then forall need <- m.needs :: IsIndexed(files, m.source + "/" + need.path)
            else IsIndexed(files, m.source)
  {
    hide Declared, IsIndexed;
    forall path
      ensures path in Declared(files) <==> IsIndexed(files, path)
    {
      DeclaredExactly(files, path);
    }
    if m.tree {
      if NeededPaths(m) <= Declared(files) {
        forall need | need in m.needs
          ensures IsIndexed(files, m.source + "/" + need.path)
        {
          var i :| 0 <= i < |m.needs| && m.needs[i] == need;
          assert m.source + "/" + need.path in NeededPaths(m);
        }
      } else {
        var path :| path in NeededPaths(m) && path !in Declared(files);
        var i :| 0 <= i < |m.needs| && path == m.source + "/" + m.needs[i].path;
        assert m.needs[i] in m.needs;
      }
    } else {
      assert m.source in NeededPaths(m);
    }
  }

  lemma PresentExactly(composition: seq<Layer>, files: seq<Item>)
    ensures (forall i | 0 <= i < |composition| :: LayerPresent(composition[i], Declared(files))) <==>
            AllThere(composition, files)
  {
    hide NeededPaths, Declared, IsIndexed;
    forall m: Member
      ensures NeededPaths(m) <= Declared(files) <==>
              if m.tree then forall need <- m.needs :: IsIndexed(files, m.source + "/" + need.path)
              else IsIndexed(files, m.source)
    {
      NeededExactly(m, files);
    }
    if AllThere(composition, files) {
      forall i, j | 0 <= i < |composition| && 0 <= j < |composition[i].members|
        ensures NeededPaths(composition[i].members[j]) <= Declared(files)
      {
        assert composition[i] in composition && composition[i].members[j] in composition[i].members;
      }
    }
    if forall i | 0 <= i < |composition| :: LayerPresent(composition[i], Declared(files)) {
      forall layer, m | layer in composition && m in layer.members
        ensures NeededPaths(m) <= Declared(files)
      {
        var i :| 0 <= i < |composition| && composition[i] == layer;
        var j :| 0 <= j < |layer.members| && layer.members[j] == m;
        assert LayerPresent(composition[i], Declared(files));
      }
    }
  }

  /** The catalog is of the expected build, for the one target, with a bounded index. */
  ghost predicate IsCatalog(tools: Tools, expected: Expected, catalog: Catalog) {
    && catalog.schema == 1 && catalog.sources == expected.sources && catalog.cohort != ""
    && expected.cohort in {None, Some(catalog.cohort)}
    && catalog.targets == {"linux/amd64"} && catalog.root == ROOT && |catalog.files| <= 16384
    && (expected.layers == None || expected.layers == catalog.layers)
  }

  /** The layers the payload is checked against: the catalog's own, or those of before catalogs had any. */
  function LayersOf(tools: Tools, catalog: Catalog): seq<Layer> {
    match catalog.layers
    case Some(layers) => layers
    case None => tools.legacy
  }

  /** The rules for a payload with this catalog. */
  ghost predicate IsPayload(tools: Tools, contents: map<string, Bytes>, expected: Expected, catalog: Catalog) {
    var layers, files := LayersOf(tools, catalog), catalog.files;
    && CATALOG in contents && tools.read(contents[CATALOG]) == Some(catalog) && IsCatalog(tools, expected, catalog)
    && layers != [] && (forall layer <- layers :: IsLayer(layer))
    && (forall item <- files :: IsItem(tools, contents, layers, item))
    && (forall i, j | 0 <= i < |files| && 0 <= j < |files| && i != j :: files[i].path != files[j].path)
    && AllThere(layers, files)
    && forall name <- contents | PREFIX <= name ::
         name == CATALOG || exists item <- files :: name == ROOT + "/" + item.path
  }

  lemma ContentsExactly(tools: Tools, contents: map<string, Bytes>, layers: seq<Layer>, files: seq<Item>)
    requires CATALOG in contents && forall item <- files :: IsItem(tools, contents, layers, item)
    ensures Present(contents) == {GUEST_CATALOG} + (set name | name in Declared(files) :: InTree(name)) <==>
            forall name <- contents | PREFIX <= name ::
              name == CATALOG || exists item <- files :: name == ROOT + "/" + item.path
  {
    hide Declared, IsItem, Present, InTree;
    NamesAre("");
    var trees := set name | name in Declared(files) :: InTree(name);
    forall name
      ensures name in Present(contents) <==> name in contents && PREFIX <= name
      ensures name in trees <==> exists item <- files :: name == ROOT + "/" + item.path
      ensures name in trees ==> name in Present(contents)
    {
      NamesAre(name);
      PresentIs(contents, name);
      InTreesExactly(tools, contents, layers, files, name);
    }
    PresentIs(contents, CATALOG);
    NamesAre(CATALOG);
  }

  lemma PresentIs(contents: map<string, Bytes>, name: string)
    ensures name in Present(contents) <==> name in contents && PREFIX <= name
  {
    NamesAre(name);
  }

  lemma InTreesExactly(
    tools: Tools, contents: map<string, Bytes>, layers: seq<Layer>, files: seq<Item>, name: string)
    requires forall item <- files :: IsItem(tools, contents, layers, item)
    ensures var trees := set path | path in Declared(files) :: InTree(path);
            && (name in trees <==> exists item <- files :: name == ROOT + "/" + item.path)
            && (name in trees ==> name in Present(contents))
  {
    hide IsSafe, FirstHolds, IsTerminfo, IsCompiled;
    var trees := set path | path in Declared(files) :: InTree(path);
    if name in trees {
      var path :| path in Declared(files) && InTree(path) == name;
      DeclaredExactly(files, path);
      var item :| item in files && item.path == path;
      NamesAre(path);
      assert IsItem(tools, contents, layers, item);
      assert name == ROOT + "/" + item.path && name in contents;
      RootPrefix(item.path);
      PresentIs(contents, name);
    }
    if item :| item in files && name == ROOT + "/" + item.path {
      DeclaredExactly(files, item.path);
      NamesAre(item.path);
      assert item.path in Declared(files);
    }
  }

  lemma RootPrefix(path: string)
    ensures PREFIX <= ROOT + "/" + path
  {
    var name := ROOT + "/" + path;
    assert ROOT == PREFIX + "linux-amd64";
    assert name[..|PREFIX|] == PREFIX;
  }

  /** A payload is valid with a catalog exactly when it keeps the rules. */
  lemma PayloadExactly(tools: Tools, contents: map<string, Bytes>, expected: Expected, catalog: Catalog)
    ensures GuestVerdict(tools, contents, expected) == Valid(catalog) <==> IsPayload(tools, contents, expected, catalog)
  {
    hide LayerAccepted, IsLayer, ItemFits, IsItem, LayerPresent, AllThere, Present, Declared;
    NamesAre(CATALOG);
    PresentIs(contents, CATALOG);
    var layers, files := LayersOf(tools, catalog), catalog.files;
    assert layers == CompositionOf(tools, catalog);
    LayersExactly(layers);
    ItemsExactly(tools, contents, layers, files);
    PresentExactly(layers, files);
    if CATALOG in contents && forall item <- files :: IsItem(tools, contents, layers, item) {
      ContentsExactly(tools, contents, layers, files);
    }
  }

  lemma LayersExactly(layers: seq<Layer>)
    ensures (forall i | 0 <= i < |layers| :: LayerAccepted(layers[i])) <==> forall layer <- layers :: IsLayer(layer)
  {
    hide LayerAccepted, IsLayer;
    forall i | 0 <= i < |layers|
      ensures LayerAccepted(layers[i]) <==> IsLayer(layers[i])
      ensures layers[i] in layers
    {
      LayerExactly(layers[i]);
    }
  }

  lemma ItemsExactly(tools: Tools, contents: map<string, Bytes>, layers: seq<Layer>, files: seq<Item>)
    ensures (forall i | 0 <= i < |files| :: ItemFits(tools, contents, layers, files[i])) <==>
            forall item <- files :: IsItem(tools, contents, layers, item)
  {
    hide ItemFits, IsItem;
    forall i | 0 <= i < |files|
      ensures ItemFits(tools, contents, layers, files[i]) <==> IsItem(tools, contents, layers, files[i])
      ensures files[i] in files
    {
      ItemExactly(tools, contents, layers, files[i]);
    }
  }

  /** Nothing to check exactly when nothing is there and nothing is required. */
  lemma AbsentExactly(tools: Tools, contents: map<string, Bytes>, expected: Expected)
    ensures GuestVerdict(tools, contents, expected) == Absent <==>
            !expected.required && forall name <- contents :: !(PREFIX <= name)
  {
    hide PayloadFits, Present;
    forall name
      ensures name in Present(contents) <==> name in contents && PREFIX <= name
    {
      PresentIs(contents, name);
    }
  }
}
