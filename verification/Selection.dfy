/**
 The affected-package selection (ci/affected/selection.py, `select`): seeds from each changed file,
 then the worklist over reverse dependencies. Cargo's metadata is taken as its resolved graph.
 */
module Selection {
  import opened Outcomes
  import opened Text
  import Sorting

  type Id = string

  /** A workspace member; its directory is relative to the root, `.` for the root, or outside it. */
  datatype Package = Package(id: Id, name: string, directory: Option<string>, sources: set<string>)

  datatype Node = Node(id: Id, deps: seq<Id>)

  /** The workspace members, every resolved package's name, the resolved graph, and the read map. */
  datatype Metadata = Metadata(
    packages: seq<Package>, names: map<Id, string>, nodes: seq<Node>,
    readEdges: set<(Id, Id)>, readFiles: map<string, set<Id>>)

  datatype Verdict = Nothing | Packages(ids: set<Id>) | All

  const WORKSPACE_FILES := {"Cargo.lock", "rust-toolchain.toml", ".config/nextest.toml", ".github/workflows/ci.yml"}
  const WORKSPACE_PREFIXES := [".cargo/", "ci/affected/", "ci/toolchain/"]
  const LIBRARY_FILE := "hegel.toml"
  const LIBRARY_NAME := "hegeltest"
  const FEATURE_ANCHOR := "flotilla-build-features"

  function Members(meta: Metadata): set<Id> {
    set i | 0 <= i < |meta.packages| :: meta.packages[i].id
  }

  // ---- The graph ----

  type Graph = map<Id, set<Id>>

  function AddDeps(graph: Graph, members: set<Id>, id: Id, deps: seq<Id>): Graph
    decreases |deps|
  {
    if deps == [] then graph
    else
      var before := AddDeps(graph, members, id, deps[..|deps| - 1]);
      var dep := deps[|deps| - 1];
      if dep in members && dep in before then before[dep := before[dep] + {id}] else before
  }

  function AddNodes(graph: Graph, members: set<Id>, nodes: seq<Node>): Graph
    decreases |nodes|
  {
    if nodes == [] then graph
    else
      var before := AddNodes(graph, members, nodes[..|nodes| - 1]);
      var node := nodes[|nodes| - 1];
      if node.id in members then AddDeps(before, members, node.id, node.deps) else before
  }

  /** `dependent` is affected when `changed` is: it depends on it, or reads its files. */
  ghost predicate Dependent(meta: Metadata, changed: Id, dependent: Id) {
    (changed, dependent) in meta.readEdges || Resolved(meta, changed, dependent)
  }

  /** One member depends on another in the resolved graph. */
  ghost predicate Resolved(meta: Metadata, changed: Id, dependent: Id) {
    && changed in Members(meta) && dependent in Members(meta)
    && exists i | 0 <= i < |meta.nodes| :: meta.nodes[i].id == dependent && changed in meta.nodes[i].deps
  }

  ghost predicate IsResolved(meta: Metadata, graph: Graph) {
    && graph.Keys == Members(meta)
    && forall key, dependent | key in graph :: dependent in graph[key] <==> Resolved(meta, key, dependent)
  }

  lemma {:induction false} AddDepsSpec(graph: Graph, members: set<Id>, id: Id, deps: seq<Id>, key: Id)
    requires key in graph && members == graph.Keys
    ensures AddDeps(graph, members, id, deps).Keys == graph.Keys
    ensures AddDeps(graph, members, id, deps)[key] == graph[key] + (if key in deps then {id} else {})
    decreases |deps|
  {
    if deps != [] {
      var init, last := deps[..|deps| - 1], deps[|deps| - 1];
      AddDepsSpec(graph, members, id, init, key);
      assert deps == init + [last];
    }
  }

  lemma {:induction false} AddNodesSpec(graph: Graph, members: set<Id>, nodes: seq<Node>, key: Id, dependent: Id)
    requires key in graph && members == graph.Keys
    ensures AddNodes(graph, members, nodes).Keys == graph.Keys
    ensures dependent in AddNodes(graph, members, nodes)[key] <==>
            || dependent in graph[key]
            || (dependent in members && exists i | 0 <= i < |nodes| :: nodes[i].id == dependent && key in nodes[i].deps)
    decreases |nodes|
  {
    if nodes != [] {
      var n := |nodes| - 1;
      var init, last := nodes[..n], nodes[n];
      AddNodesSpec(graph, members, init, key, dependent);
      assert forall i | 0 <= i < n :: init[i] == nodes[i];
      var before := AddNodes(graph, members, init);
      if last.id in members {
        AddDepsSpec(before, members, last.id, last.deps, key);
      }
      if last.id == dependent && key in last.deps {
        assert nodes[n].id == dependent;
      }
    }
  }

  /** Every id the read map names is a workspace member, as the scan that builds it guarantees. */
  predicate ReadsAreMembers(meta: Metadata) {
    && (forall edge | edge in meta.readEdges :: edge.0 in Members(meta) && edge.1 in Members(meta))
    && (forall target | target in meta.readFiles :: meta.readFiles[target] <= Members(meta))
  }

  ghost predicate IsReverse(meta: Metadata, reverse: Graph) {
    && reverse.Keys == Members(meta)
    && forall key, dependent | key in reverse :: dependent in reverse[key] <==> Dependent(meta, key, dependent)
  }

  method BuildGraph(meta: Metadata) returns (reverse: Graph, libraryReaders: set<Id>)
    requires ReadsAreMembers(meta)
    ensures IsReverse(meta, reverse)
    ensures libraryReaders == LibraryReaders(meta, meta.nodes)
  {
    hide Dependent;
    var members := Members(meta);
    var empty: Graph := map key | key in members :: {};
    reverse, libraryReaders := empty, {};
    for i := 0 to |meta.nodes|
      invariant reverse == AddNodes(empty, members, meta.nodes[..i])
      invariant libraryReaders == LibraryReaders(meta, meta.nodes[..i])
    {
      var node := meta.nodes[i];
      assert meta.nodes[..i + 1] == meta.nodes[..i] + [node];
      if node.id in members {
        reverse, libraryReaders := AddNode(meta, reverse, libraryReaders, node);
      }
      LibrarySnoc(meta, meta.nodes[..i], node);
    }
    assert meta.nodes[..|meta.nodes|] == meta.nodes;
    ResolvedGraph(meta, empty, reverse);
    reverse := AddReads(meta, reverse);
  }

  method AddNode(
    meta: Metadata, graph: Graph, readers: set<Id>, node: Node)
    returns (reverse: Graph, libraryReaders: set<Id>)
    ensures reverse == AddDeps(graph, Members(meta), node.id, node.deps)
    ensures libraryReaders == readers + (if ReadsLibrary(meta, node.deps) then {node.id} else {})
  {
    var members := Members(meta);
    reverse, libraryReaders := graph, readers;
    for j := 0 to |node.deps|
      invariant reverse == AddDeps(graph, members, node.id, node.deps[..j])
      invariant libraryReaders == readers + (if ReadsLibrary(meta, node.deps[..j]) then {node.id} else {})
    {
      var dep := node.deps[j];
      assert node.deps[..j + 1] == node.deps[..j] + [dep];
      if dep in members && dep in reverse {
        reverse := reverse[dep := reverse[dep] + {node.id}];
      }
      if dep in meta.names && meta.names[dep] == LIBRARY_NAME {
        libraryReaders := libraryReaders + {node.id};
      }
    }
    assert node.deps[..|node.deps|] == node.deps;
  }

  method AddReads(meta: Metadata, resolved: Graph) returns (reverse: Graph)
    requires ReadsAreMembers(meta) && IsResolved(meta, resolved)
    ensures IsReverse(meta, reverse)
  {
    hide Resolved, Members;
    reverse := resolved;
    var pending := meta.readEdges;
    while pending != {}
      invariant pending <= meta.readEdges && reverse.Keys == resolved.Keys
      invariant forall key, dependent | key in reverse ::
                  dependent in reverse[key] <==>
                      dependent in resolved[key] || (key, dependent) in meta.readEdges - pending
    {
      var edge :| edge in pending;
      reverse := reverse[edge.0 := reverse[edge.0] + {edge.1}];
      pending := pending - {edge};
    }
  }

  lemma ResolvedGraph(meta: Metadata, empty: Graph, resolved: Graph)
    requires empty.Keys == Members(meta) && (forall key | key in empty :: empty[key] == {})
    requires resolved == AddNodes(empty, Members(meta), meta.nodes)
    ensures IsResolved(meta, resolved)
  {
    if empty.Keys == {} {
      NoMembers(empty, Members(meta), meta.nodes);
    }
    forall key, dependent | key in empty
      ensures resolved.Keys == Members(meta)
      ensures dependent in resolved[key] <==> Resolved(meta, key, dependent)
    {
      AddNodesSpec(empty, Members(meta), meta.nodes, key, dependent);
    }
    assert resolved.Keys == Members(meta) by {
      if key :| key in empty {
        AddNodesSpec(empty, Members(meta), meta.nodes, key, key);
      }
    }
  }

  lemma {:induction false} NoMembers(graph: Graph, members: set<Id>, nodes: seq<Node>)
    requires members == {} && graph.Keys == {}
    ensures AddNodes(graph, members, nodes) == graph
    decreases |nodes|
  {
    if nodes != [] {
      NoMembers(graph, members, nodes[..|nodes| - 1]);
    }
  }

  // ---- Seeds ----

  function PathParts(file: string): seq<string> {
    Significant(Split(file, '/'))
  }

  function Significant(parts: seq<string>): seq<string> {
    if parts == [] then []
    else (if parts[0] == "" || parts[0] == "." then [] else [parts[0]]) + Significant(parts[1..])
  }

  function FileName(file: string): string {
    var parts := PathParts(file);
    if parts == [] then "" else parts[|parts| - 1]
  }

  predicate IsRust(file: string) {
    var name := FileName(file);
    |name| > 3 && name[|name| - 3..] == ".rs"
  }

  /** Inputs every package's build or test run depends on. */
  predicate WorkspaceWide(file: string) {
    || file == "" || "/" <= file || ".." in PathParts(file) || FileName(file) == "Cargo.toml"
    || file in WORKSPACE_FILES || exists i | 0 <= i < |WORKSPACE_PREFIXES| :: WORKSPACE_PREFIXES[i] <= file
  }

  predicate Covers(directory: string, file: string) {
    directory == "." || directory + "/" <= file
  }

  predicate Owns(package: Package, file: string) {
    package.directory.Some? && Covers(package.directory.value, file)
  }

  function Depth(package: Package): nat {
    if package.directory.Some? then |package.directory.value| else 0
  }

  predicate IsRoot(package: Package) {
    package.directory == Some(".")
  }

  /** The first package, longest directory first, whose directory covers the file. */
  function Covering(packages: seq<Package>, file: string): Option<Package> {
    Sorting.First(Sorting.SortByKey(packages, Depth), package => Owns(package, file))
  }

  /** The package that owns a file; the root package owns its sources and targets only. */
  function OwnerOf(meta: Metadata, file: string): Option<Package> {
    match Covering(meta.packages, file)
    case None => None
    case Some(package) =>
      if IsRoot(package) && !("src/" <= file) && file !in package.sources then None else Some(package)
  }

  predicate UnderTarget(target: string, file: string) {
    file == target || TrimSlashes(target) + "/" <= file
  }

  predicate ReadsLibrary(meta: Metadata, deps: seq<Id>) {
    exists j | 0 <= j < |deps| :: deps[j] in meta.names && meta.names[deps[j]] == LIBRARY_NAME
  }

  /** The members among `nodes` that depend on the library that reads `LIBRARY_FILE`. */
  function LibraryReaders(meta: Metadata, nodes: seq<Node>): set<Id> {
    set i | 0 <= i < |nodes| && nodes[i].id in Members(meta) && ReadsLibrary(meta, nodes[i].deps) :: nodes[i].id
  }

  lemma LibrarySnoc(meta: Metadata, nodes: seq<Node>, node: Node)
    ensures LibraryReaders(meta, nodes + [node]) ==
            LibraryReaders(meta, nodes) + if node.id in Members(meta) && ReadsLibrary(meta, node.deps)
                then {node.id} else {}
  {
    hide Members, ReadsLibrary;
    var all := nodes + [node];
    assert all[|nodes|] == node && forall i | 0 <= i < |nodes| :: all[i] == nodes[i];
    forall id | id in LibraryReaders(meta, nodes)
      ensures id in LibraryReaders(meta, all)
    {
      var i :| 0 <= i < |nodes| && nodes[i].id == id && id in Members(meta) && ReadsLibrary(meta, nodes[i].deps);
      assert all[i].id == id;
    }
  }

  function Readers(meta: Metadata, libraryReaders: set<Id>, file: string): set<Id> {
    (set target, reader | target in meta.readFiles && UnderTarget(target, file) && reader in meta.readFiles[target] ::
        reader) +
    if file == LIBRARY_FILE then libraryReaders else {}
  }

  /** What one changed file selects: everything, or the packages it directly touches. */
  datatype Effect = Everything | Seeds(ids: set<Id>)

  function FileEffect(meta: Metadata, file: string): Effect {
    Touched(meta, LibraryReaders(meta, meta.nodes), file)
  }

  function Touched(meta: Metadata, libraryReaders: set<Id>, file: string): Effect {
    if WorkspaceWide(file) then Everything
    else
      match OwnerOf(meta, file)
      case Some(package) => if FEATURE_ANCHOR <= package.name then Everything else Seeds({package.id})
      case None =>
        var readers := Readers(meta, libraryReaders, file);
        if readers == {} && IsRust(file) then Everything else Seeds(readers)
  }

  // ---- The rules ----

  /** The file's name is its last part that is neither empty nor a dot. */
  predicate NamedAt(parts: seq<string>, k: nat) {
    && k < |parts| && parts[k] != "" && parts[k] != "."
    && forall i | k < i < |parts| :: parts[i] == "" || parts[i] == "."
  }

  ghost predicate HasName(file: string, name: string) {
    exists k: nat :: NamedAt(Split(file, '/'), k) && Split(file, '/')[k] == name
  }

  ghost predicate HasRustName(file: string) {
    exists stem: string :: stem != "" && HasName(file, stem + ".rs")
  }

  /** What every package's build or test run depends on, and what cannot be placed in the repository. */
  ghost predicate Wide(file: string) {
    || file == "" || file[0] == '/' || ".." in Split(file, '/') || HasName(file, "Cargo.toml")
    || file == "Cargo.lock" || file == "rust-toolchain.toml" || file == ".config/nextest.toml"
    || file == ".github/workflows/ci.yml" || ".cargo/" <= file || "ci/affected/" <= file || "ci/toolchain/" <= file
  }

  /** Among the packages whose directory holds the file, the first of those with the longest. */
  predicate DeepestAt(packages: seq<Package>, file: string, i: nat) {
    && i < |packages| && Owns(packages[i], file)
    && forall k | 0 <= k < |packages| && Owns(packages[k], file) ::
         if k < i then Depth(packages[k]) < Depth(packages[i]) else Depth(packages[k]) <= Depth(packages[i])
  }

  /** The package in the deepest directory that holds the file owns it; the root owns only its sources and targets. */
  predicate OwnerAt(meta: Metadata, file: string, i: nat) {
    && DeepestAt(meta.packages, file, i)
    && (meta.packages[i].directory == Some(".") ==> "src/" <= file || file in meta.packages[i].sources)
  }

  ghost predicate HasOwner(meta: Metadata, file: string) {
    exists i: nat :: OwnerAt(meta, file, i)
  }

  /** The package reads the file, by itself or through the library that reads `hegel.toml` for its tests. */
  ghost predicate Reads(meta: Metadata, file: string, id: Id) {
    || (exists target | target in meta.readFiles ::
          (file == target || TrimSlashes(target) + "/" <= file) && id in meta.readFiles[target])
    || (file == "hegel.toml" && DependsOnLibrary(meta, id))
  }

  ghost predicate DependsOnLibrary(meta: Metadata, id: Id) {
    exists i, dep | 0 <= i < |meta.nodes| && dep in meta.nodes[i].deps ::
      meta.nodes[i].id == id && id in Members(meta) && dep in meta.names && meta.names[dep] == "hegeltest"
  }

  /** The changes that select everything. */
  ghost predicate TouchesAll(meta: Metadata, file: string) {
    || Wide(file)
    || (exists i: nat :: OwnerAt(meta, file, i) && "flotilla-build-features" <= meta.packages[i].name)
    || (!HasOwner(meta, file) && (forall id :: !Reads(meta, file, id)) && HasRustName(file))
  }

  /** The packages any other change directly touches: its owner, or without one its readers. */
  ghost predicate Touches(meta: Metadata, file: string, id: Id) {
    && !TouchesAll(meta, file)
    && if HasOwner(meta, file) then exists i: nat :: OwnerAt(meta, file, i) && meta.packages[i].id == id
       else Reads(meta, file, id)
  }

  ghost predicate SelectsAll(meta: Metadata, changed: seq<string>) {
    || (exists i | 0 <= i < |meta.packages| :: meta.packages[i].directory == None)
    || (exists i | 0 <= i < |changed| :: TouchesAll(meta, changed[i]))
  }

  ghost predicate Seeded(meta: Metadata, changed: seq<string>, id: Id) {
    exists i | 0 <= i < |changed| :: Touches(meta, changed[i], id)
  }

  // ---- Each file's effect is what the rules say ----

  lemma {:induction false} SignificantIn(parts: seq<string>)
    ensures forall part :: part in Significant(parts) <==> part in parts && part != "" && part != "."
  {
    if parts != [] {
      assert parts == [parts[0]] + parts[1..];
      SignificantIn(parts[1..]);
    }
  }

  lemma {:induction false} LastSignificant(parts: seq<string>) returns (k: nat)
    requires Significant(parts) != []
    ensures NamedAt(parts, k) && Significant(parts)[|Significant(parts)| - 1] == parts[k]
  {
    var rest := parts[1..];
    if Significant(rest) != [] {
      k := LastSignificant(rest);
      k := k + 1;
      assert parts[k] == rest[k - 1];
      assert forall i | k < i < |parts| :: parts[i] == rest[i - 1];
    } else {
      k := 0;
      SignificantIn(rest);
      assert forall i | 0 < i < |parts| :: parts[i] == rest[i - 1] && rest[i - 1] in rest;
    }
  }

  lemma NameIs(file: string, name: string)
    requires name != ""
    ensures FileName(file) == name <==> HasName(file, name)
  {
    hide Split, Significant;
    var parts := Split(file, '/');
    SignificantIn(parts);
    if Significant(parts) != [] {
      var k := LastSignificant(parts);
      assert forall j: nat | NamedAt(parts, j) :: j == k;
    } else {
      assert forall j: nat | j < |parts| :: parts[j] in parts;
    }
  }

  lemma WideIs(file: string)
    ensures WorkspaceWide(file) <==> Wide(file)
  {
    hide Split, FileName, HasName;
    NameIs(file, "Cargo.toml");
    SignificantIn(Split(file, '/'));
    assert WORKSPACE_PREFIXES[0] == ".cargo/" && WORKSPACE_PREFIXES[1] == "ci/affected/"
           && WORKSPACE_PREFIXES[2] == "ci/toolchain/";
  }

  lemma RustIs(file: string)
    ensures IsRust(file) <==> HasRustName(file)
  {
    hide FileName, HasName;
    var name := FileName(file);
    if IsRust(file) {
      var stem := name[..|name| - 3];
      assert name == stem + ".rs";
      NameIs(file, name);
    }
    forall stem: string | stem != ""
      ensures HasName(file, stem + ".rs") <==> name == stem + ".rs"
    {
      NameIs(file, stem + ".rs");
    }
  }

  lemma {:induction false} HasDeepest(packages: seq<Package>, file: string) returns (i: nat)
    requires exists p | p in packages :: Owns(p, file)
    ensures DeepestAt(packages, file, i)
    decreases |packages|
  {
    hide Owns, Depth;
    var n := |packages| - 1;
    var init, last := packages[..n], packages[n];
    assert packages == init + [last];
    if exists p | p in init :: Owns(p, file) {
      i := HasDeepest(init, file);
      assert forall k | 0 <= k < n :: init[k] == packages[k];
      if Owns(last, file) && Depth(last) > Depth(packages[i]) {
        i := n;
      }
    } else {
      i := n;
      assert forall k | 0 <= k < n :: packages[k] == init[k] && init[k] in init;
    }
  }

  lemma CoveringIs(packages: seq<Package>, file: string, i: nat)
    requires DeepestAt(packages, file, i)
    ensures Covering(packages, file) == Some(packages[i])
  {
    hide Owns, Depth;
    OwnerIsDeepest(packages, file, i);
  }

  lemma DeepestUnique(packages: seq<Package>, file: string, i: nat, j: nat)
    requires DeepestAt(packages, file, i) && DeepestAt(packages, file, j)
    ensures i == j
  {
    hide Owns, Depth;
  }

  /** The owner found is the one the rules give. */
  lemma OwnerIs(meta: Metadata, file: string)
    ensures OwnerOf(meta, file).Some? <==> HasOwner(meta, file)
    ensures forall i: nat | OwnerAt(meta, file, i) :: OwnerOf(meta, file) == Some(meta.packages[i])
  {
    hide Owns, Depth;
    if exists p | p in meta.packages :: Owns(p, file) {
      var i := HasDeepest(meta.packages, file);
      CoveringIs(meta.packages, file, i);
      forall j: nat | DeepestAt(meta.packages, file, j)
        ensures j == i
      {
        DeepestUnique(meta.packages, file, i, j);
      }
      assert OwnerOf(meta, file).Some? ==> OwnerAt(meta, file, i);
    } else {
      NoneCovers(meta.packages, file);
    }
  }

  lemma NoneCovers(packages: seq<Package>, file: string)
    requires !exists p | p in packages :: Owns(p, file)
    ensures Covering(packages, file) == None
  {
    hide Owns;
    var sorted := Sorting.SortByKey(packages, Depth);
    Sorting.FirstIn(sorted, package => Owns(package, file));
    if Covering(packages, file).Some? {
      Sorting.SortedElements(packages, Depth, Covering(packages, file).value);
    }
  }

  lemma ReadersAre(meta: Metadata, file: string, id: Id)
    ensures id in Readers(meta, LibraryReaders(meta, meta.nodes), file) <==> Reads(meta, file, id)
  {
    hide TrimSlashes, Members;
    assert id in LibraryReaders(meta, meta.nodes) <==> DependsOnLibrary(meta, id);
  }

  /** What the code makes of a changed file is exactly what the rules say. */
  lemma EffectIsRules(meta: Metadata, file: string)
    ensures FileEffect(meta, file).Everything? <==> TouchesAll(meta, file)
    ensures FileEffect(meta, file).Seeds? ==> forall id :: id in FileEffect(meta, file).ids <==> Touches(meta, file, id)
  {
    hide WorkspaceWide, Wide, IsRust, HasRustName, OwnerOf, OwnerAt, Readers, LibraryReaders, Reads;
    WideIs(file);
    RustIs(file);
    OwnerIs(meta, file);
    forall id
      ensures id in Readers(meta, LibraryReaders(meta, meta.nodes), file) <==> Reads(meta, file, id)
    {
      ReadersAre(meta, file, id);
    }
  }

  // ---- The closure ----

  ghost predicate Closed(meta: Metadata, ids: set<Id>) {
    forall id, dependent | id in ids && Dependent(meta, id, dependent) :: dependent in ids
  }

  /** The least set that holds the seeds and is closed under dependents. */
  ghost predicate IsClosure(meta: Metadata, changed: seq<string>, ids: set<Id>) {
    && (forall id | Seeded(meta, changed, id) :: id in ids)
    && Closed(meta, ids)
    && forall other: set<Id> | (forall id | Seeded(meta, changed, id) :: id in other) && Closed(meta, other) ::
      ids <= other
  }

  ghost predicate IsVerdict(meta: Metadata, changed: seq<string>, verdict: Verdict) {
    match verdict
    case All => SelectsAll(meta, changed)
    case Nothing => !SelectsAll(meta, changed) && forall id :: !Seeded(meta, changed, id)
    case Packages(ids) =>
      && !SelectsAll(meta, changed) && (exists id :: Seeded(meta, changed, id))
      && IsClosure(meta, changed, ids)
  }

  /** The worklist: exactly the least closed set above `seeds`. */
  method Spread(meta: Metadata, reverse: Graph, seeds: set<Id>) returns (affected: set<Id>)
    requires IsReverse(meta, reverse) && ReadsAreMembers(meta) && seeds <= Members(meta)
    ensures seeds <= affected && Closed(meta, affected)
    ensures forall other: set<Id> | seeds <= other && Closed(meta, other) :: affected <= other
  {
    affected := seeds;
    var pending := seeds;
    while pending != {}
      invariant seeds <= affected <= Members(meta) && pending <= affected
      invariant forall id, dependent | id in affected - pending && Dependent(meta, id, dependent) ::
                  dependent in affected
      invariant forall other: set<Id> | seeds <= other && Closed(meta, other) :: affected <= other
      decreases Members(meta) - affected, pending
    {
      var id :| id in pending;
      var found := reverse[id] - affected;
      ghost var before := affected;
      forall other: set<Id> | seeds <= other && Closed(meta, other)
        ensures affected + found <= other
      {
        forall dependent | dependent in found
          ensures dependent in other
        {
          assert Dependent(meta, id, dependent);
        }
      }
      forall dependent | dependent in found
        ensures dependent in Members(meta)
      {
        assert Dependent(meta, id, dependent);
      }
      affected := affected + found;
      pending := pending - {id} + found;
      assert found == {} ==> affected == before;
    }
  }

  method Select(meta: Metadata, changed: seq<string>) returns (verdict: Verdict)
    requires ReadsAreMembers(meta)
    ensures IsVerdict(meta, changed, verdict)
  {
    hide Touched, Dependent, TouchesAll, Touches;
    if exists i | 0 <= i < |meta.packages| :: meta.packages[i].directory == None {
      return All;
    }
    var reverse, libraryReaders := BuildGraph(meta);
    var affected: set<Id> := {};
    for i := 0 to |changed|
      invariant forall k | 0 <= k < i :: !TouchesAll(meta, changed[k])
      invariant forall id :: id in affected <==> exists k | 0 <= k < i :: Touches(meta, changed[k], id)
    {
      var effect := Touched(meta, libraryReaders, changed[i]);
      EffectIsRules(meta, changed[i]);
      if effect.Everything? {
        return All;
      }
      affected := affected + effect.ids;
    }
    assert forall id :: id in affected <==> Seeded(meta, changed, id);
    if affected == {} {
      return Nothing;
    }
    SeedsAreMembers(meta, changed, affected);
    var closure := Spread(meta, reverse, affected);
    verdict := Packages(closure);
  }

  lemma SeedsAreMembers(meta: Metadata, changed: seq<string>, seeds: set<Id>)
    requires ReadsAreMembers(meta) && forall id | id in seeds :: Seeded(meta, changed, id)
    ensures seeds <= Members(meta)
  {
    hide Touches, Members;
    forall id | id in seeds
      ensures id in Members(meta)
    {
      var i :| 0 <= i < |changed| && Touches(meta, changed[i], id);
      TouchedIsMember(meta, changed[i], id);
    }
  }

  lemma TouchedIsMember(meta: Metadata, file: string, id: Id)
    requires ReadsAreMembers(meta) && Touches(meta, file, id)
    ensures id in Members(meta)
  {
    hide TouchesAll, Owns, Depth, TrimSlashes;
    if HasOwner(meta, file) {
      var i: nat :| OwnerAt(meta, file, i) && meta.packages[i].id == id;
      OwnerInRange(meta, file, i);
    }
  }

  lemma OwnerInRange(meta: Metadata, file: string, i: nat)
    requires OwnerAt(meta, file, i)
    ensures i < |meta.packages| && meta.packages[i].id in Members(meta)
  {
  }

  // ---- Ownership ----

  /** The owner is the first package, in their order, among those with the longest directory that covers the file. */
  lemma OwnerIsDeepest(packages: seq<Package>, file: string, owner: nat)
    requires owner < |packages| && Owns(packages[owner], file)
    requires forall i | 0 <= i < |packages| && Owns(packages[i], file) ::
               Depth(packages[i]) <= Depth(packages[owner]) - (if i < owner then 1 else 0)
    ensures Covering(packages, file) == Some(packages[owner])
  {
    var test := package => Owns(package, file);
    Sorting.FirstIsLargest(packages, Depth, test, packages[owner]);
    Sorting.FirstAt(packages, Depth, Depth(packages[owner]), test, owner);
  }

  /** Directories of one length that cover one file are the same, unless one of them is the root. */
  lemma SameDirectory(p: Package, q: Package, file: string)
    requires Owns(p, file) && Owns(q, file) && Depth(p) == Depth(q) && !IsRoot(p) && !IsRoot(q)
    ensures p.directory == q.directory
  {
    var n := Depth(p);
    assert p.directory.value == (p.directory.value + "/")[..n] == file[..n];
    assert q.directory.value == (q.directory.value + "/")[..n] == file[..n];
  }

  /**
   The nested package owns a file under it, and not the root package, exactly when its directory is
   longer than `.`, or comes before the root package in the metadata.
   */
  lemma NestedOverRoot(packages: seq<Package>, file: string, root: nat, nested: nat)
    requires root < |packages| && nested < |packages|
    requires IsRoot(packages[root]) && !IsRoot(packages[nested]) && Owns(packages[nested], file)
             && Depth(packages[nested]) > 0
    requires forall i | 0 <= i < |packages| && Owns(packages[i], file) :: i == root || i == nested
    ensures Covering(packages, file) == Some(packages[nested]) <==> Depth(packages[nested]) > 1 || nested < root
  {
    OwnerIsDeepest(packages, file, if Depth(packages[nested]) > 1 || nested < root then nested else root);
  }

  const DATA_FILE := "a/data.txt"

  lemma DataFileParts()
    ensures PathParts(DATA_FILE) == ["a", "data.txt"]
  {
    hide Split;
    var parts := ["a", "data.txt"];
    assert parts[1..] == ["data.txt"] && Join(parts[1..], '/') == "data.txt" && Join(parts, '/') == DATA_FILE;
    assert '/' !in parts[0] && '/' !in parts[1];
    SplitOfJoin(parts, '/');
    assert Significant(["data.txt"][1..]) == [] && Significant(parts[1..]) == ["data.txt"];
  }

  lemma DataFileOutside()
    ensures DATA_FILE !in WORKSPACE_FILES
    ensures forall i | 0 <= i < |WORKSPACE_PREFIXES| :: !(WORKSPACE_PREFIXES[i] <= DATA_FILE)
  {
    assert DATA_FILE[0] == 'a';
    assert "Cargo.lock"[0] == 'C' && "rust-toolchain.toml"[0] == 'r';
    assert ".config/nextest.toml"[0] == '.' && ".github/workflows/ci.yml"[0] == '.';
    assert WORKSPACE_PREFIXES[0][0] == '.' && WORKSPACE_PREFIXES[1][0] == 'c' && WORKSPACE_PREFIXES[2][0] == 'c';
  }

  /** A file in a one-letter directory that no rule but ownership speaks of. */
  lemma DataFile()
    ensures !WorkspaceWide(DATA_FILE) && !IsRust(DATA_FILE) && !("src/" <= DATA_FILE) && Covers("a", DATA_FILE)
  {
    DataFileParts();
    DataFileOutside();
    hide PathParts;
    assert DATA_FILE[0] == 'a' && DATA_FILE[..2] == "a/";
    assert FileName(DATA_FILE) == "data.txt" && "data.txt"[0] == 'd' && "Cargo.toml"[0] == 'C';
    assert "data.txt"[5..][0] == 't' && ".rs"[0] == '.';
    assert |".."| == 2 && ".."[0] == '.' && |"a"| == 1;
  }

  /** A root package and a package in a one-letter directory, in this order, that nothing depends on. */
  function SampleMetadata(rootFirst: bool): Metadata {
    var root, nested := Package("r", "root", Some("."), {}), Package("a", "a", Some("a"), {});
    Metadata(if rootFirst then [root, nested] else [nested, root], map[], [], {}, map[])
  }

  /**
   A change to a package in a one-letter directory selects nothing when the root package is listed first,
   and the package when it is listed first itself.
   */
  lemma OneLetterDirectory()
    ensures IsVerdict(SampleMetadata(true), [DATA_FILE], Nothing)
    ensures IsVerdict(SampleMetadata(false), [DATA_FILE], Packages({"a"}))
  {
    var passed, found := SampleMetadata(true), SampleMetadata(false);
    SampleEffects();
    EffectIsRules(passed, DATA_FILE);
    EffectIsRules(found, DATA_FILE);
    hide FileEffect, Touches, TouchesAll;
    assert forall id, dependent :: !Dependent(found, id, dependent);
    assert Seeded(found, [DATA_FILE], "a") by {
      assert [DATA_FILE][0] == DATA_FILE;
    }
    assert IsClosure(found, [DATA_FILE], {"a"});
  }

  lemma SampleEffects()
    ensures FileEffect(SampleMetadata(true), DATA_FILE) == Seeds({})
    ensures FileEffect(SampleMetadata(false), DATA_FILE) == Seeds({"a"})
  {
    DataFile();
    hide WorkspaceWide, IsRust;
    OwnerIsDeepest(SampleMetadata(true).packages, DATA_FILE, 0);
    OwnerIsDeepest(SampleMetadata(false).packages, DATA_FILE, 0);
    assert Readers(SampleMetadata(true), {}, DATA_FILE) == {};
    assert LibraryReaders(SampleMetadata(true), []) == {};
    assert !(FEATURE_ANCHOR <= "a");
  }

  // ---- What a verdict means ----

  /** A changed Rust file that no package owns and none reads selects everything. */
  lemma StrayRustSelectsAll(meta: Metadata, changed: seq<string>, verdict: Verdict, file: string)
    requires IsVerdict(meta, changed, verdict) && file in changed
    requires HasRustName(file) && !HasOwner(meta, file) && forall id :: !Reads(meta, file, id)
    ensures verdict == All
  {
    hide HasRustName, HasOwner, Reads, Wide, OwnerAt;
    TouchingAll(meta, changed, verdict, file);
  }

  /** So does a change to a package that anchors build features. */
  lemma AnchorSelectsAll(meta: Metadata, changed: seq<string>, verdict: Verdict, file: string, i: nat)
    requires IsVerdict(meta, changed, verdict) && file in changed
    requires OwnerAt(meta, file, i) && "flotilla-build-features" <= meta.packages[i].name
    ensures verdict == All
  {
    hide HasRustName, HasOwner, Reads, Wide, OwnerAt;
    TouchingAll(meta, changed, verdict, file);
  }

  lemma TouchingAll(meta: Metadata, changed: seq<string>, verdict: Verdict, file: string)
    requires IsVerdict(meta, changed, verdict) && file in changed && TouchesAll(meta, file)
    ensures verdict == All
  {
    hide TouchesAll, IsClosure, Seeded;
    var k :| 0 <= k < |changed| && changed[k] == file;
    assert TouchesAll(meta, changed[k]);
  }

  /** Unless everything is selected, the owner of a changed file is, and without an owner so is every reader. */
  lemma OwnerOrReadersSelected(meta: Metadata, changed: seq<string>, verdict: Verdict, file: string, id: Id)
    requires IsVerdict(meta, changed, verdict) && file in changed
    requires if HasOwner(meta, file) then exists i: nat :: OwnerAt(meta, file, i) && meta.packages[i].id == id
             else Reads(meta, file, id)
    ensures verdict == All || (verdict.Packages? && id in verdict.ids)
  {
    hide TouchesAll, OwnerAt, Reads, Dependent;
    if verdict != All {
      var k :| 0 <= k < |changed| && changed[k] == file;
      assert Touches(meta, changed[k], id);
      assert Seeded(meta, changed, id);
    }
  }

  /** Which order the changed files come in, and how often, does not matter. */
  lemma VerdictIgnoresOrder(meta: Metadata, a: seq<string>, b: seq<string>, x: Verdict, y: Verdict)
    requires (forall file :: file in a <==> file in b) && IsVerdict(meta, a, x) && IsVerdict(meta, b, y)
    ensures x == y
  {
    VerdictMonotone(meta, a, b, x, y);
    VerdictMonotone(meta, b, a, y, x);
  }

  /** Nothing, then sets of packages by inclusion, then everything. */
  predicate AtMost(x: Verdict, y: Verdict) {
    x == Nothing || y == All || (x.Packages? && y.Packages? && x.ids <= y.ids)
  }

  lemma SeededMonotone(meta: Metadata, a: seq<string>, b: seq<string>, id: Id)
    requires forall file | file in a :: file in b
    ensures Seeded(meta, a, id) ==> Seeded(meta, b, id)
  {
    hide Touches;
    if Seeded(meta, a, id) {
      var i :| 0 <= i < |a| && Touches(meta, a[i], id);
      assert a[i] in b;
      var j :| 0 <= j < |b| && b[j] == a[i];
      assert Touches(meta, b[j], id);
    }
  }

  /** More changed files never select less. */
  lemma VerdictMonotone(meta: Metadata, a: seq<string>, b: seq<string>, x: Verdict, y: Verdict)
    requires (forall file | file in a :: file in b) && IsVerdict(meta, a, x) && IsVerdict(meta, b, y)
    ensures AtMost(x, y)
  {
    hide Touches, TouchesAll, Dependent;
    forall id
      ensures Seeded(meta, a, id) ==> Seeded(meta, b, id)
    {
      SeededMonotone(meta, a, b, id);
    }
    if SelectsAll(meta, a) {
      AllMonotone(meta, a, b);
    }
  }

  lemma AllMonotone(meta: Metadata, a: seq<string>, b: seq<string>)
    requires (forall file | file in a :: file in b) && SelectsAll(meta, a)
    ensures SelectsAll(meta, b)
  {
    hide TouchesAll;
    if i :| 0 <= i < |a| && TouchesAll(meta, a[i]) {
      assert a[i] in b;
      var j :| 0 <= j < |b| && b[j] == a[i];
      assert TouchesAll(meta, b[j]);
    }
  }
}
