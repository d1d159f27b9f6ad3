/**
 Generation pruning (src/fleet_prune.rs): what is protected, which releases are candidates, and the run
 that rechecks, removes and sweeps sidecars. The releases directory is a map from name to entry.
 */
module Prune {
  import opened Outcomes
  import opened Text
  import Sorting
  import opened Order

  datatype Refusal = BadKeep | BadLink | BadDiscovery | BadProcess | FileSystem

  /** A directory is intact until a removal that failed part-way has damaged it. */
  datatype Entry = File | Directory(intact: bool)

  type Entries = map<string, Entry>

  // ---- Paths that may be missing ----

  /** An absolute path, by its components. */
  type Path = seq<string>

  /** What canonicalising a path finds. */
  datatype Lookup = Found(path: Path) | Absent | Fails

  /** The last component, which `..` is not. */
  predicate HasFileName(path: Path) {
    path != [] && path[|path| - 1] != ".."
  }

  /** The path with its deepest existing ancestor canonicalised and the missing components kept. */
  function ResolveMissing(canonical: Path -> Lookup, path: Path): Option<Path>
    decreases |path|
  {
    match canonical(path)
    case Found(resolved) => Some(resolved)
    case Fails => None
    case Absent =>
      if !HasFileName(path) then None
      else
        match ResolveMissing(canonical, path[..|path| - 1])
        case None => None
        case Some(parent) => Some(parent + [path[|path| - 1]])
  }

  /** The first `k` components are the deepest ancestor that exists. */
  ghost predicate DeepestExisting(canonical: Path -> Lookup, path: Path, k: nat) {
    && k <= |path| && canonical(path[..k]).Found?
    && forall j | k < j <= |path| :: canonical(path[..j]) == Absent && path[j - 1] != ".."
  }

  lemma DeepestAbove(canonical: Path -> Lookup, path: Path, k: nat)
    requires k < |path|
    ensures DeepestExisting(canonical, path, k) <==>
            DeepestExisting(canonical, path[..|path| - 1], k) && canonical(path) == Absent && path[|path| - 1] != ".."
  {
    var init := path[..|path| - 1];
    assert path[..|path|] == path;
    assert forall j | 0 <= j < |path| :: init[..j] == path[..j];
  }

  lemma {:induction false} DeepestResolves(canonical: Path -> Lookup, path: Path, k: nat)
    requires DeepestExisting(canonical, path, k)
    ensures ResolveMissing(canonical, path) == Some(canonical(path[..k]).path + path[k..])
    decreases |path|
  {
    if k == |path| {
      assert path[..k] == path && canonical(path).path + path[k..] == canonical(path).path;
    } else {
      var init, last := path[..|path| - 1], path[|path| - 1];
      DeepestAbove(canonical, path, k);
      DeepestResolves(canonical, init, k);
      assert init[..k] == path[..k];
      assert canonical(path[..k]).path + path[k..] == canonical(path[..k]).path + init[k..] + [last];
    }
  }

  lemma {:induction false} ResolvedHasDeepest(canonical: Path -> Lookup, path: Path) returns (k: nat)
    requires ResolveMissing(canonical, path).Some?
    ensures DeepestExisting(canonical, path, k)
    decreases |path|
  {
    if canonical(path).Found? {
      k := |path|;
      assert path[..k] == path;
    } else {
      k := ResolvedHasDeepest(canonical, path[..|path| - 1]);
      DeepestAbove(canonical, path, k);
    }
  }

  /**
   A path resolves exactly when it has a deepest existing ancestor below which nothing is `..`, and to
   its canonical path.
   */
  lemma ResolveMissingExactly(canonical: Path -> Lookup, path: Path, resolved: Path)
    ensures ResolveMissing(canonical, path) == Some(resolved) <==>
            exists k: nat :: DeepestExisting(canonical, path, k) && resolved == canonical(path[..k]).path + path[k..]
  {
    hide ResolveMissing, DeepestExisting;
    if ResolveMissing(canonical, path).Some? {
      var k := ResolvedHasDeepest(canonical, path);
      DeepestIs(canonical, path, k);
      DeepestResolves(canonical, path, k);
    }
    forall k: nat | DeepestExisting(canonical, path, k)
      ensures k <= |path| && canonical(path[..k]).Found?
      ensures ResolveMissing(canonical, path) == Some(canonical(path[..k]).path + path[k..])
    {
      DeepestIs(canonical, path, k);
      DeepestResolves(canonical, path, k);
    }
  }

  lemma DeepestIs(canonical: Path -> Lookup, path: Path, k: nat)
    requires DeepestExisting(canonical, path, k)
    ensures k <= |path| && canonical(path[..k]).Found?
  {
  }

  /** `resolve_missing`: the walk up, with the missing names on a stack. */
  method ResolveMissingLoop(canonical: Path -> Lookup, path: Path) returns (r: Option<Path>)
    ensures r == ResolveMissing(canonical, path)
  {
    var ancestor, missing: seq<string> := path, [];
    ghost var whole := ResolveMissing(canonical, path);
    assert whole.Some? ==> whole.value + missing == whole.value;
    while true
      invariant ResolveMissing(canonical, path) ==
                match ResolveMissing(canonical, ancestor) case None => None case Some(found) => Some(found + missing)
      decreases |ancestor|
    {
      match canonical(ancestor)
      case Found(resolved) =>
        return Some(resolved + missing);
      case Fails =>
        return None;
      case Absent =>
        if !HasFileName(ancestor) {
          return None;
        }
        var name := ancestor[|ancestor| - 1];
        ghost var above := ResolveMissing(canonical, ancestor[..|ancestor| - 1]);
        assert above.Some? ==> above.value + [name] + missing == above.value + ([name] + missing);
        ancestor, missing := ancestor[..|ancestor| - 1], [name] + missing;
    }
  }

  // ---- What protects a release ----

  /** The `current` or `previous` link itself. */
  datatype Link = Missing | NotLink | Unreadable | Symlink

  /** A process's executable path, or that the process has exited, or cannot be read. */
  datatype Executable = At(path: Path) | Exited | Hidden

  datatype Discovery = NoneRunning | Running(pids: seq<string>) | Undiscovered

  /** One look at the host: the links, the daemons, and what canonicalising any path finds. */
  datatype Observation = Observation(
    current: Link, previous: Link, discovery: Discovery, executables: map<int, Executable>, canonical: Path -> Lookup)

  function Releases(root: Path): Path {
    root + ["releases"]
  }

  predicate IsDirectory(entries: Entries, name: string) {
    name in entries && entries[name].Directory?
  }

  /** The release a link leads to, when it leads to something directly in the releases directory. */
  function LinkTarget(root: Path, observation: Observation, link: string): Option<string> {
    match observation.canonical(root + [link])
    case Found(path) => if path != [] && path[..|path| - 1] == Releases(root) then Some(path[|path| - 1]) else None
    case Absent => None
    case Fails => None
  }

  predicate LinkSafe(root: Path, entries: Entries, observation: Observation, link: Link, name: string) {
    || link.Missing?
    || (link.Symlink? && LinkTarget(root, observation, name).Some?
        && IsDirectory(entries, LinkTarget(root, observation, name).value))
  }

  predicate Links(root: Path, observation: Observation, link: Link, name: string, release: string) {
    link.Symlink? && LinkTarget(root, observation, name) == Some(release)
  }

  /** A positive 32-bit process id; a leading plus sign is admitted. */
  function ParsePid(word: string): Option<int> {
    var digits := if word != "" && word[0] == '+' then word[1..] else word;
    if digits != "" && IsDigits(digits) && 0 < DigitsValue(digits) < 0x8000_0000 then Some(DigitsValue(digits))
        else None
  }

  function ExecutableOf(observation: Observation, pid: int): Executable {
    if pid in observation.executables then observation.executables[pid] else Exited
  }

  predicate ProcessReadable(observation: Observation, word: string) {
    ParsePid(word).Some?
    && match ExecutableOf(observation, ParsePid(word).value)
       case Exited => true
       case Hidden => false
       case At(path) => ResolveMissing(observation.canonical, path).Some?
  }

  /** Everything protection depends on can be established. */
  predicate Readable(root: Path, entries: Entries, observation: Observation) {
    && LinkSafe(root, entries, observation, observation.current, "current")
    && LinkSafe(root, entries, observation, observation.previous, "previous")
    && match observation.discovery
       case NoneRunning => true
       case Undiscovered => false
       case Running(pids) => pids != [] && forall i | 0 <= i < |pids| :: ProcessReadable(observation, pids[i])
  }

  /** The path is of something inside the release, and not the release itself. */
  predicate InsideRelease(root: Path, path: Path, release: string) {
    |path| > |root| + 2 && Releases(root) + [release] <= path
  }

  predicate RunsFrom(root: Path, observation: Observation, word: string, release: string) {
    ParsePid(word).Some?
    && match ExecutableOf(observation, ParsePid(word).value)
       case Exited => false
       case Hidden => false
       case At(path) =>
         var resolved := ResolveMissing(observation.canonical, path);
         resolved.Some? && InsideRelease(root, resolved.value, release)
  }

  /** A link points at the release, or a running daemon's executable is inside it. */
  predicate Protects(root: Path, observation: Observation, release: string) {
    || Links(root, observation, observation.current, "current", release)
    || Links(root, observation, observation.previous, "previous", release)
    || (observation.discovery.Running?
        && exists i | 0 <= i < |observation.discovery.pids| ::
             RunsFrom(root, observation, observation.discovery.pids[i], release))
  }

  lemma PidExactly(word: string, pid: int)
    ensures ParsePid(word) == Some(pid) <==> 0 < pid < 0x8000_0000 && IsPositive(word, pid)
  {
    hide DigitsValue, IsPositive;
    if pid > 0 {
      PositiveExactly(word, pid);
    }
  }

  /** The link leads straight to the release. */
  predicate LeadsTo(root: Path, observation: Observation, name: string, release: string) {
    observation.canonical(root + [name]) == Found(root + ["releases", release])
  }

  lemma LinkTargetExactly(root: Path, observation: Observation, name: string, release: string)
    ensures LinkTarget(root, observation, name) == Some(release) <==> LeadsTo(root, observation, name, release)
  {
    match observation.canonical(root + [name])
    case Absent =>
    case Fails =>
    case Found(path) =>
      var whole := root + ["releases", release];
      assert whole[..|whole| - 1] == Releases(root) && whole[|whole| - 1] == release;
      if path != [] && path[..|path| - 1] == Releases(root) && path[|path| - 1] == release {
        assert path == path[..|path| - 1] + [release] == whole;
      }
  }

  /** The word is a process id, of a process whose executable, as it resolves, is inside the release. */
  ghost predicate DaemonIn(root: Path, observation: Observation, word: string, release: string) {
    exists pid: int, path, rest: Path ::
      && 0 < pid < 0x8000_0000 && IsPositive(word, pid)
      && pid in observation.executables && observation.executables[pid] == At(path) && rest != []
      && ResolveMissing(observation.canonical, path) == Some(root + ["releases", release] + rest)
  }

  lemma InsideExactly(root: Path, path: Path, release: string)
    ensures InsideRelease(root, path, release) <==>
            exists rest: Path :: rest != [] && path == root + ["releases", release] + rest
  {
    var whole := root + ["releases", release];
    assert Releases(root) + [release] == whole;
    if InsideRelease(root, path, release) {
      var rest := path[|whole|..];
      assert path == whole + rest;
    }
  }

  lemma RunsFromExactly(root: Path, observation: Observation, word: string, release: string)
    ensures RunsFrom(root, observation, word, release) <==> DaemonIn(root, observation, word, release)
  {
    hide ParsePid, ResolveMissing, InsideRelease, IsPositive;
    if RunsFrom(root, observation, word, release) {
      var pid := ParsePid(word).value;
      PidExactly(word, pid);
      var path := ExecutableOf(observation, pid).path;
      var resolved := ResolveMissing(observation.canonical, path).value;
      InsideExactly(root, resolved, release);
      var rest: Path :| rest != [] && resolved == root + ["releases", release] + rest;
    }
    if pid: int, path, rest: Path :|
      && 0 < pid < 0x8000_0000 && IsPositive(word, pid)
      && pid in observation.executables && observation.executables[pid] == At(path) && rest != []
      && ResolveMissing(observation.canonical, path) == Some(root + ["releases", release] + rest)
    {
      PidExactly(word, pid);
      InsideExactly(root, root + ["releases", release] + rest, release);
    }
  }

  /** What protects a release: the current or the previous link, or a daemon running from inside it. */
  lemma ProtectsExactly(root: Path, observation: Observation, release: string)
    ensures Protects(root, observation, release) <==>
            || (observation.current == Symlink && LeadsTo(root, observation, "current", release))
            || (observation.previous == Symlink && LeadsTo(root, observation, "previous", release))
            || (observation.discovery.Running?
                && exists i | 0 <= i < |observation.discovery.pids| ::
                     DaemonIn(root, observation, observation.discovery.pids[i], release))
  {
    hide LinkTarget, LeadsTo, RunsFrom, DaemonIn;
    LinkTargetExactly(root, observation, "current", release);
    LinkTargetExactly(root, observation, "previous", release);
    if observation.discovery.Running? {
      forall i | 0 <= i < |observation.discovery.pids|
        ensures RunsFrom(root, observation, observation.discovery.pids[i], release) <==>
                DaemonIn(root, observation, observation.discovery.pids[i], release)
      {
        RunsFromExactly(root, observation, observation.discovery.pids[i], release);
      }
    }
  }

  /** A link that does not make pruning unsafe: none, or one straight to a release that is a directory. */
  lemma LinkSafeExactly(root: Path, entries: Entries, observation: Observation, link: Link, name: string)
    ensures LinkSafe(root, entries, observation, link, name) <==>
            || link == Missing
            || (link == Symlink && exists release <- entries ::
                  entries[release].Directory? && LeadsTo(root, observation, name, release))
  {
    hide LinkTarget, LeadsTo;
    if LinkTarget(root, observation, name).Some? {
      LinkTargetExactly(root, observation, name, LinkTarget(root, observation, name).value);
    }
    forall release | release in entries
      ensures LinkTarget(root, observation, name) == Some(release) <==> LeadsTo(root, observation, name, release)
    {
      LinkTargetExactly(root, observation, name, release);
    }
  }

  /** A process word that can be judged: a process id, of no process or of one whose executable resolves. */
  lemma ReadableExactly(observation: Observation, word: string)
    ensures ProcessReadable(observation, word) <==>
            exists pid: int ::
              && 0 < pid < 0x8000_0000 && IsPositive(word, pid)
              && (pid in observation.executables ==>
                    || observation.executables[pid] == Exited
                    || (observation.executables[pid].At?
                        && ResolveMissing(observation.canonical, observation.executables[pid].path).Some?))
  {
    hide ParsePid, ResolveMissing, IsPositive;
    if ParsePid(word).Some? {
      PidExactly(word, ParsePid(word).value);
    }
    if pid: int :| 0 < pid < 0x8000_0000 && IsPositive(word, pid) {
      PidExactly(word, pid);
    }
    forall pid: int | 0 < pid < 0x8000_0000 && IsPositive(word, pid)
      ensures ParsePid(word) == Some(pid)
    {
      PidExactly(word, pid);
    }
  }

  /** One link: the release it protects, or a refusal. */
  method CheckLink(root: Path, entries: Entries, observation: Observation, link: Link, name: string)
    returns (r: Result<set<string>, Refusal>)
    ensures r.Ok? <==> LinkSafe(root, entries, observation, link, name)
    ensures r.Ok? ==> forall release :: release in r.value <==> Links(root, observation, link, name, release)
  {
    hide LinkTarget;
    match link
    case Missing => return Ok({});
    case NotLink => return Err(BadLink);
    case Unreadable => return Err(BadLink);
    case Symlink =>
      var target := LinkTarget(root, observation, name);
      if target == None || !IsDirectory(entries, target.value) {
        return Err(BadLink);
      }
      return Ok({target.value});
  }

  /** One process: the release its executable is in, if any, or a refusal. */
  method CheckProcess(root: Path, observation: Observation, word: string) returns (r: Result<set<string>, Refusal>)
    ensures r.Ok? <==> ProcessReadable(observation, word)
    ensures r.Ok? ==> forall release :: release in r.value <==> RunsFrom(root, observation, word, release)
  {
    hide ParsePid, ResolveMissing;
    var pid := ParsePid(word);
    if pid == None {
      return Err(BadProcess);
    }
    match ExecutableOf(observation, pid.value)
    case Exited => return Ok({});
    case Hidden => return Err(BadProcess);
    case At(path) =>
      var resolved := ResolveMissingLoop(observation.canonical, path);
      if resolved == None {
        return Err(FileSystem);
      }
      var releases := Releases(root);
      if releases <= resolved.value {
        var relative := resolved.value[|releases|..];
        if |relative| >= 2 {
          assert forall release :: releases + [release] <= resolved.value <==> release == relative[0];
          return Ok({relative[0]});
        }
      }
      return Ok({});
  }

  method Protected(root: Path, entries: Entries, observation: Observation) returns (r: Result<set<string>, Refusal>)
    ensures r.Ok? <==> Readable(root, entries, observation)
    ensures r.Ok? ==> forall name :: name in r.value <==> Protects(root, observation, name)
  {
    hide LinkSafe, Links, ProcessReadable, RunsFrom;
    var current := CheckLink(root, entries, observation, observation.current, "current");
    if current.Err? {
      return Err(current.error);
    }
    var previous := CheckLink(root, entries, observation, observation.previous, "previous");
    if previous.Err? {
      return Err(previous.error);
    }
    var protected := current.value + previous.value;
    match observation.discovery
    case NoneRunning => return Ok(protected);
    case Undiscovered => return Err(BadDiscovery);
    case Running(pids) =>
      if pids == [] {
        return Err(BadDiscovery);
      }
      ghost var linked := protected;
      for i := 0 to |pids|
        invariant forall k | 0 <= k < i :: ProcessReadable(observation, pids[k])
        invariant forall name :: name in protected <==>
                                 name in linked || exists k | 0 <= k < i :: RunsFrom(root, observation, pids[k], name)
      {
        var running := CheckProcess(root, observation, pids[i]);
        if running.Err? {
          return Err(running.error);
        }
        protected := protected + running.value;
      }
      return Ok(protected);
  }

  // ---- Retention ----

  function Min(a: nat, b: nat): nat {
    if a <= b then a else b
  }

  /** The digits folded with arithmetic that saturates at `maximum`. */
  function SaturatingValue(digits: string, maximum: nat): nat
    requires IsDigits(digits)
  {
    if digits == "" then 0
    else Min(Min(SaturatingValue(digits[..|digits| - 1], maximum) * 10, maximum) + DigitValue(digits[|digits| - 1]),
        maximum)
  }

  /** Saturating at every step is saturating once: the value, or the maximum when that is smaller. */
  lemma {:induction false} SaturatesOnce(digits: string, maximum: nat)
    requires IsDigits(digits)
    ensures SaturatingValue(digits, maximum) == Min(DigitsValue(digits), maximum)
  {
    if digits != "" {
      SaturatesOnce(digits[..|digits| - 1], maximum);
    }
  }

  predicate GenerationChar(c: char) {
    IsAlphanumeric(c) || c == '.' || c == '_' || c == '-'
  }

  predicate GenerationName(name: string) {
    0 < |name| <= 128 && IsAlphanumeric(name[0]) && forall i | 0 <= i < |name| :: GenerationChar(name[i])
  }

  /** A letter or digit, and then letters, digits, dots, underscores and hyphens, 128 characters at most. */
  lemma GenerationNameIs(name: string)
    ensures GenerationName(name) <==>
            && 1 <= |name| <= 128 && name[0] !in "._-"
            && forall i | 0 <= i < |name| ::
                 name[i] in LOWER_LETTERS || name[i] in UPPER_LETTERS || name[i] in DIGITS || name[i] in "._-"
  {
    hide IsLowerCase, IsUpperCase, IsDigit;
    forall i | 0 <= i < |name|
      ensures GenerationChar(name[i]) <==>
              name[i] in LOWER_LETTERS || name[i] in UPPER_LETTERS || name[i] in DIGITS || name[i] in "._-"
      ensures GenerationChar(name[i]) ==> (IsAlphanumeric(name[i]) <==> name[i] !in "._-")
    {
      GenerationCharIs(name[i]);
    }
  }

  lemma GenerationCharIs(c: char)
    ensures GenerationChar(c) <==> c in LOWER_LETTERS || c in UPPER_LETTERS || c in DIGITS || c in "._-"
    ensures GenerationChar(c) ==> (IsAlphanumeric(c) <==> c !in "._-")
  {
    LowerCaseIs(c);
    UpperCaseIs(c);
    DigitIs(c);
  }

  predicate IsGeneration(entries: Entries, name: string) {
    IsDirectory(entries, name) && GenerationName(name)
  }

  function Unprotected(names: seq<string>, protected: set<string>): seq<string> {
    if names == [] then []
    else (if names[0] in protected then [] else [names[0]]) + Unprotected(names[1..], protected)
  }

  /** What may go: unprotected releases, newest, which is largest, first, after the retained ones. */
  function Candidates(names: seq<string>, protected: set<string>, keep: nat): seq<string> {
    var others := Unprotected(Sort(names, DESCENDING), protected);
    others[Min(keep, |others|)..]
  }

  lemma {:induction false} UnprotectedSpec(names: seq<string>, protected: set<string>)
    requires Ordered(names, DESCENDING)
    ensures Ordered(Unprotected(names, protected), DESCENDING)
    ensures forall x :: x in Unprotected(names, protected) <==> x in names && x !in protected
  {
    hide Before;
    if names != [] {
      assert names == [names[0]] + names[1..];
      UnprotectedSpec(names[1..], protected);
      var rest := Unprotected(names[1..], protected);
      OrderedCons(names[0], rest, DESCENDING);
      assert [] + rest == rest;
    }
  }

  /** The unprotected releases newer than this one. */
  function Newer(names: seq<string>, protected: set<string>, name: string): set<string> {
    set i | 0 <= i < |names| && names[i] !in protected && Before(name, names[i]) :: names[i]
  }

  /** A release is a candidate exactly when it is unprotected and at least `keep` unprotected ones are newer. */
  lemma CandidatesExactly(names: seq<string>, protected: set<string>, keep: nat, name: string)
    requires Distinct(names)
    ensures name in Candidates(names, protected, keep) <==>
            name in names && name !in protected && |Newer(names, protected, name)| >= keep
    ensures Distinct(Candidates(names, protected, keep))
  {
    hide Before, Sort, Unprotected;
    var others := Unprotected(Sort(names, DESCENDING), protected);
    TextOrders();
    SortSpec(names, DESCENDING);
    UnprotectedSpec(Sort(names, DESCENDING), protected);
    OrderedDistinct(others, DESCENDING);
    if name in others {
      var i :| 0 <= i < |others| && others[i] == name;
      RankAt(others, DESCENDING, Newer(names, protected, name), i);
      assert i >= keep ==> Candidates(names, protected, keep)[i - Min(keep, |others|)] == name;
    }
  }

  // ---- Sidecars ----

  predicate Extends(sibling: string, name: string) {
    name + "." <= sibling
  }

  /** The generation a sidecar belongs to: the first name, longest first, that it extends with a dot. */
  function OwnerOf(names: seq<string>, sibling: string): Option<string> {
    Sorting.First(Sorting.SortByKey(names, (name: string) => |name|), name => Extends(sibling, name))
  }

  /** The owner is the longest generation name the sidecar extends, and it is unique. */
  lemma OwnerIsLongest(names: seq<string>, sibling: string, owner: string)
    ensures OwnerOf(names, sibling) == Some(owner) <==> IsLongest(names, sibling, owner)
    ensures IsLongest(names, sibling, owner) <==>
            && owner in names && owner + "." <= sibling
            && forall name <- names | name + "." <= sibling :: |name| <= |owner|
  {
    var key, test := (name: string) => |name|, (name: string) => Extends(sibling, name);
    var sorted := Sorting.SortByKey(names, key);
    Sorting.FirstIn(sorted, test);
    forall name | name in sorted || name in names
      ensures name in sorted <==> name in names
    {
      Sorting.SortedElements(names, key, name);
    }
    var longest := Longest(names, sibling);
    if longest.Some? {
      var best := longest.value;
      Sorting.FirstIsLargest(names, key, test, best);
      Sorting.FirstIn(Sorting.WithKey(names, key, |best|), test);
      WithLength(names, |best|);
      SameLength(sibling, best);
    }
  }

  lemma SameLength(sibling: string, longest: string)
    requires Extends(sibling, longest)
    ensures forall name | |name| == |longest| && Extends(sibling, name) :: name == longest
  {
    forall name | |name| == |longest| && Extends(sibling, name)
      ensures name == longest
    {
      assert name == (name + ".")[..|name|] == sibling[..|name|] == (longest + ".")[..|name|] == longest;
    }
  }

  ghost predicate IsLongest(names: seq<string>, sibling: string, longest: string) {
    longest in names && Extends(sibling, longest) && forall name <- names | Extends(sibling, name) ::
        |name| <= |longest|
  }

  lemma {:induction false} Longest(names: seq<string>, sibling: string) returns (longest: Option<string>)
    ensures match longest
            case Some(name) => IsLongest(names, sibling, name)
            case None => forall name <- names :: !Extends(sibling, name)
  {
    hide Extends;
    longest := None;
    if names != [] {
      assert names == [names[0]] + names[1..];
      longest := Longest(names[1..], sibling);
      if Extends(sibling, names[0]) && (longest.None? || |longest.value| <= |names[0]|) {
        longest := Some(names[0]);
      }
    }
  }

  lemma {:induction false} WithLength(names: seq<string>, length: nat)
    ensures forall name :: name in Sorting.WithKey(names, (name: string) => |name|, length) <==>
            name in names && |name| == length
  {
    if names != [] {
      assert names == [names[0]] + names[1..];
      WithLength(names[1..], length);
    }
  }

  predicate Sidecar(names: seq<string>, entries: Entries, name: string, release: string) {
    name in entries && entries[name].File? && OwnerOf(names, name) == Some(release)
  }

  // ---- A run ----

  /** What one file system call does; a failed removal may have damaged the release. */
  datatype Call = Works | Fails(damages: bool)

  datatype Plan = Plan(root: Path, names: seq<string>, initial: set<string>, candidates: seq<string>, dryRun: bool)

  /**
   Removing one release: nothing but it and its sidecars goes, sidecars only after it, and all of them
   when complete.
   */
  ghost predicate Removed(names: seq<string>, release: string, before: Entries, after: Entries, complete: bool) {
    && IsDirectory(before, release)
    && after.Keys <= before.Keys
    && (forall name <- after | name != release :: after[name] == before[name])
    && (release in after ==> after[release].Directory? && after.Keys == before.Keys)
    && (forall name <- before.Keys - after.Keys :: name == release || Sidecar(names, before, name, release))
    && (complete ==> release !in after && forall name <- after :: !Sidecar(names, before, name, release))
  }

  /** One candidate's turn: recheck, then skip or remove. */
  ghost predicate Turn(plan: Plan, release: string, observation: Observation, before: Entries, after: Entries) {
    && Readable(plan.root, before, observation)
    && if Protects(plan.root, observation, release) || plan.dryRun then after == before
       else Removed(plan.names, release, before, after, true)
  }

  /** The turn that ends a failed run: the recheck failed and nothing changed, or the removal failed part-way. */
  ghost predicate Failed(plan: Plan, release: string, observation: Observation, before: Entries, after: Entries) {
    || (!Readable(plan.root, before, observation) && after == before)
    || (Readable(plan.root, before, observation) && !Protects(plan.root, observation, release) && !plan.dryRun
        && Removed(plan.names, release, before, after, false))
  }

  /**
   A run whose rechecks are the observations from `base`; `history` is the directory before each turn,
   and after the last.
   */
  ghost predicate IsRun(
    plan: Plan, observations: nat -> Observation, base: nat, history: seq<Entries>, final: Entries, ok: bool)
  {
    && 0 < |history| <= |plan.candidates| + 1
    && Turns(plan, observations, base, history)
    && var last := |history| - 1;
       if ok then last == |plan.candidates| && final == history[last]
       else
         && last < |plan.candidates|
         && Failed(plan, plan.candidates[last], observations(base + last), history[last], final)
  }

  /** Each state of the history follows from the one before by a turn. */
  ghost predicate Turns(plan: Plan, observations: nat -> Observation, base: nat, history: seq<Entries>) {
    && |history| <= |plan.candidates| + 1
    && forall i | 0 <= i < |history| - 1 ::
         Turn(plan, plan.candidates[i], observations(base + i), history[i], history[i + 1])
  }

  lemma NoTurns(plan: Plan, observations: nat -> Observation, base: nat, entries: Entries)
    ensures Turns(plan, observations, base, [entries])
  {
  }

  lemma TurnsSnoc(plan: Plan, observations: nat -> Observation, base: nat, history: seq<Entries>, after: Entries)
    requires 0 < |history| <= |plan.candidates| && Turns(plan, observations, base, history)
    requires var last := |history| - 1;
             Turn(plan, plan.candidates[last], observations(base + last), history[last], after)
    ensures Turns(plan, observations, base, history + [after])
  {
    hide Turn;
    var longer, n := history + [after], |history|;
    assert longer[n] == after && longer[n - 1] == history[n - 1];
  }

  /** The plan a run starts from. */
  ghost predicate Planned(plan: Plan, entries: Entries, first: Observation, keep: nat) {
    && Distinct(plan.names) && (forall name :: name in plan.names <==> IsGeneration(entries, name))
    && Readable(plan.root, entries, first)
      && (forall name :: name in plan.initial <==> Protects(plan.root, first, name))
    && plan.candidates == Candidates(plan.names, plan.initial, keep)
  }

  /** The first `n` candidates that their rechecks found unprotected, which is what a run names, dry or not. */
  ghost function Reports(plan: Plan, observations: nat -> Observation, base: nat, n: nat): seq<string>
    requires n <= |plan.candidates|
  {
    if n == 0 then []
    else
      var before := Reports(plan, observations, base, n - 1);
      if Protects(plan.root, observations(base + (n - 1)), plan.candidates[n - 1]) then before
          else before + [plan.candidates[n - 1]]
  }

  lemma OthersStay(names: seq<string>, release: string, before: Entries, after: Entries)
    requires Removed(names, release, before, after, true)
    ensures forall name | name != release && IsDirectory(before, name) :: IsDirectory(after, name)
  {
    hide OwnerOf;
    forall name | name != release && IsDirectory(before, name)
      ensures name in after
    {
      assert name in after || name in before.Keys - after.Keys;
    }
  }

  class Host {
    var entries: Entries
    var looks: nat
    var calls: nat
    const observations: nat -> Observation
    const outcomes: nat -> Call

    constructor (entries: Entries, observations: nat -> Observation, outcomes: nat -> Call)
      ensures this.entries == entries && looks == 0 && calls == 0
      ensures this.observations == observations && this.outcomes == outcomes
    {
      this.entries, looks, calls := entries, 0, 0;
      this.observations, this.outcomes := observations, outcomes;
    }

    method Look(root: Path) returns (r: Result<set<string>, Refusal>)
      modifies this`looks
      ensures looks == old(looks) + 1
      ensures r.Ok? <==> Readable(root, entries, observations(old(looks)))
      ensures r.Ok? ==> forall name :: name in r.value <==> Protects(root, observations(old(looks)), name)
    {
      r := Protected(root, entries, observations(looks));
      looks := looks + 1;
    }

    method Attempt() returns (call: Call)
      modifies this`calls
    {
      call := outcomes(calls);
      calls := calls + 1;
    }

    method RemoveSidecars(names: seq<string>, release: string) returns (ok: bool)
      modifies this`entries, this`calls
      ensures entries.Keys <= old(entries).Keys && forall name <- entries :: entries[name] == old(entries)[name]
      ensures forall name <- old(entries).Keys - entries.Keys :: Sidecar(names, old(entries), name, release)
      ensures ok ==> forall name <- entries :: !Sidecar(names, old(entries), name, release)
    {
      hide OwnerOf;
      var call := Attempt();
      if call.Fails? {
        return false;
      }
      var pending := entries.Keys;
      while pending != {}
        invariant pending <= entries.Keys <= old(entries).Keys && forall name <- entries ::
                    entries[name] == old(entries)[name]
        invariant forall name <- old(entries).Keys - entries.Keys :: Sidecar(names, old(entries), name, release)
        invariant forall name <- entries.Keys - pending :: !Sidecar(names, old(entries), name, release)
      {
        var sibling :| sibling in pending;
        pending := pending - {sibling};
        call := Attempt();
        if call.Fails? {
          return false;
        }
        if OwnerOf(names, sibling) == Some(release) {
          call := Attempt();
          if call.Fails? {
            return false;
          }
          if entries[sibling].File? {
            call := Attempt();
            if call.Fails? {
              return false;
            }
            entries := entries - {sibling};
          }
        }
      }
      return true;
    }

    method Remove(names: seq<string>, release: string) returns (ok: bool)
      requires IsDirectory(entries, release)
      modifies this`entries, this`calls
      ensures Removed(names, release, old(entries), entries, ok)
    {
      hide OwnerOf;
      var call := Attempt();
      if call.Fails? {
        if call.damages {
          entries := entries[release := Directory(false)];
          assert entries.Keys == old(entries).Keys;
        }
        return false;
      }
      entries := entries - {release};
      ghost var rest := entries;
      ok := RemoveSidecars(names, release);
      assert forall name :: Sidecar(names, rest, name, release) <==> Sidecar(names, old(entries), name, release);
    }

    /** The generations, in whatever order the directory is read. */
    method List() returns (r: Result<seq<string>, Refusal>)
      modifies this`calls
      ensures r.Ok? ==> Distinct(r.value) && forall name :: name in r.value <==> IsGeneration(entries, name)
    {
      var call := Attempt();
      if call.Fails? {
        return Err(FileSystem);
      }
      var names: seq<string> := [];
      var pending := entries.Keys;
      while pending != {}
        invariant pending <= entries.Keys && Distinct(names)
        invariant forall name :: name in names <==> name in entries.Keys - pending && IsGeneration(entries, name)
      {
        var name :| name in pending;
        pending := pending - {name};
        call := Attempt();
        if call.Fails? {
          return Err(FileSystem);
        }
        if IsGeneration(entries, name) {
          names := names + [name];
        }
      }
      return Ok(names);
    }

    /** Rechecks one candidate and, unless it is protected or the run is dry, removes it. */
    method TakeTurn(plan: Plan, release: string) returns (r: Result<bool, Refusal>)
      requires IsDirectory(entries, release)
      modifies this
      ensures looks == old(looks) + 1
      ensures r.Ok? ==> Turn(plan, release, observations(old(looks)), old(entries), entries)
                        && r.value == !Protects(plan.root, observations(old(looks)), release)
                        && forall name | name != release && IsDirectory(old(entries), name) ::
                          IsDirectory(entries, name)
      ensures r.Err? ==> Failed(plan, release, observations(old(looks)), old(entries), entries)
    {
      hide Readable, Protects, Removed, Sidecar;
      var protected := Look(plan.root);
      if protected.Err? {
        return Err(protected.error);
      }
      if release in protected.value {
        return Ok(false);
      }
      if !plan.dryRun {
        var ok := Remove(plan.names, release);
        if !ok {
          return Err(FileSystem);
        }
        OthersStay(plan.names, release, old(entries), entries);
      }
      return Ok(true);
    }

    /** The turns of every candidate, up to the first that fails. */
    method Carry(plan: Plan) returns (r: Result<(), Refusal>, reported: seq<string>, ghost history: seq<Entries>)
      requires Distinct(plan.candidates) && forall name <- plan.candidates :: IsDirectory(entries, name)
      modifies this
      ensures IsRun(plan, observations, old(looks), history, entries, r.Ok?)
      ensures history[0] == old(entries)
      ensures r.Ok? ==> reported == Reports(plan, observations, old(looks), |plan.candidates|)
    {
      hide Turn, Turns, Failed, Protects, IsDirectory;
      history, reported := [entries], [];
      ghost var base := looks;
      NoTurns(plan, observations, base, entries);
      for k := 0 to |plan.candidates|
        invariant |history| == k + 1 && history[0] == old(entries) && history[k] == entries && looks == base + k
        invariant Turns(plan, observations, base, history)
        invariant forall i | k <= i < |plan.candidates| :: IsDirectory(entries, plan.candidates[i])
        invariant reported == Reports(plan, observations, base, k)
      {
        var taken := TakeTurn(plan, plan.candidates[k]);
        if taken.Err? {
          return Err(taken.error), reported, history;
        }
        if taken.value {
          reported := reported + [plan.candidates[k]];
        }
        TurnsSnoc(plan, observations, base, history, entries);
        history := history + [entries];
      }
      return Ok(()), reported, history;
    }

    /** The command, for the root at this absolute path as `startup` canonicalises it. */
    method Run(absolute: Path, startup: Path -> Lookup, keep: string, maximum: nat, dryRun: bool)
      returns (r: Result<(), Refusal>, reported: seq<string>, ghost plan: Option<Plan>, ghost history: seq<Entries>)
      modifies this
      ensures keep == "" || !IsDigits(keep) ==> r == Err(BadKeep)
      ensures plan == None ==> r.Err? && entries == old(entries)
      ensures plan.Some? ==> keep != "" && IsDigits(keep) && plan.value.dryRun == dryRun
                             && ResolveMissing(startup, absolute) == Some(plan.value.root)
                             && Planned(plan.value, old(entries), observations(old(looks)),
                               Min(DigitsValue(keep), maximum))
                             && IsRun(plan.value, observations, old(looks) + 1, history, entries, r.Ok?)
                             && history[0] == old(entries)
      ensures r.Ok? ==> reported == Reports(plan.value, observations, old(looks) + 1, |plan.value.candidates|)
    {
      hide Readable, Protects, Candidates, IsRun, ResolveMissing;
      reported, plan, history := [], None, [];
      if keep == "" || !IsDigits(keep) {
        return Err(BadKeep), reported, plan, history;
      }
      SaturatesOnce(keep, maximum);
      var retained := SaturatingValue(keep, maximum);
      var root := ResolveMissingLoop(startup, absolute);
      if root == None {
        return Err(FileSystem), reported, plan, history;
      }
      var initial := Look(root.value);
      if initial.Err? {
        return Err(initial.error), reported, plan, history;
      }
      var names := List();
      if names.Err? {
        return Err(names.error), reported, plan, history;
      }
      var chosen :=
          Plan(root.value, names.value, initial.value, Candidates(names.value, initial.value, retained), dryRun);
      CandidatesExactly(names.value, initial.value, retained, "");
      forall name | name in chosen.candidates
        ensures IsDirectory(entries, name)
      {
        CandidatesExactly(names.value, initial.value, retained, name);
      }
      r, reported, history := Carry(chosen);
      plan := Some(chosen);
    }
  }

  // ---- What every run keeps ----

  /** Every directory state of a run, the one a failed last turn leaves included. */
  ghost function States(history: seq<Entries>, final: Entries, ok: bool): seq<Entries> {
    if ok then history else history + [final]
  }

  /** A step that changed something removed an unprotected release, perhaps not completely. */
  ghost predicate Step(plan: Plan, release: string, observation: Observation, before: Entries, after: Entries) {
    || after == before
    || (Readable(plan.root, before, observation) && !Protects(plan.root, observation, release) && !plan.dryRun
        && Removed(plan.names, release, before, after, false))
  }

  ghost predicate Steps(plan: Plan, observations: nat -> Observation, base: nat, states: seq<Entries>) {
    && 0 < |states| <= |plan.candidates| + 1
    && forall i | 0 <= i < |states| - 1 ::
      Step(plan, plan.candidates[i], observations(base + i), states[i], states[i + 1])
  }

  lemma RunSteps(
    plan: Plan, observations: nat -> Observation, base: nat, history: seq<Entries>, final: Entries, ok: bool)
    requires IsRun(plan, observations, base, history, final, ok)
    ensures var states := States(history, final, ok);
            Steps(plan, observations, base, states) && states[0] == history[0] && states[|states| - 1] == final
  {
    hide Readable, Protects, Sidecar;
    var states := States(history, final, ok);
    forall i | 0 <= i < |states| - 1
      ensures Step(plan, plan.candidates[i], observations(base + i), states[i], states[i + 1])
    {
      if i < |history| - 1 {
        assert Turn(plan, plan.candidates[i], observations(base + i), history[i], history[i + 1]);
      }
    }
  }

  /** Entries only go, and what stays keeps its kind. */
  lemma {:induction false} Shrinks(
    plan: Plan, observations: nat -> Observation, base: nat, states: seq<Entries>, i: nat, j: nat)
    requires Steps(plan, observations, base, states) && i <= j < |states|
    ensures states[j].Keys <= states[i].Keys
    ensures forall name <- states[j] :: states[j][name].File? == states[i][name].File?
    decreases j - i
  {
    hide Readable, Protects, Sidecar;
    if i < j {
      assert Step(plan, plan.candidates[j - 1], observations(base + (j - 1)), states[j - 1], states[j - 1 + 1]);
      Shrinks(plan, observations, base, states, i, j - 1);
    }
  }

  /** Turn `i` removed `release`, or a sidecar of it, found unprotected at its recheck. */
  ghost predicate Takes(plan: Plan, observation: Observation, before: Entries, release: string, name: string) {
    && Readable(plan.root, before, observation) && !Protects(plan.root, observation, release) && !plan.dryRun
    && IsDirectory(before, release)
    && (name == release || Sidecar(plan.names, before, name, release))
  }

  lemma {:induction false} ChangeHasTurn(
    plan: Plan, observations: nat -> Observation, base: nat, states: seq<Entries>, j: nat, name: string)
    returns (i: nat)
    requires Steps(plan, observations, base, states) && j < |states|
    requires name in states[0] && (name !in states[j] || states[j][name] != states[0][name])
    ensures i < j && Takes(plan, observations(base + i), states[i], plan.candidates[i], name)
    ensures name in states[i] && (name !in states[i + 1] || states[i + 1][name] != states[i][name])
  {
    hide Readable, Protects, Sidecar;
    i := j - 1;
    assert Step(plan, plan.candidates[i], observations(base + i), states[i], states[i + 1]);
    if name !in states[i] || states[i][name] != states[0][name] {
      i := ChangeHasTurn(plan, observations, base, states, i, name);
    } else if name !in states[i + 1] {
      assert name in states[i].Keys - states[i + 1].Keys;
    }
  }

  /** A removed or damaged entry is an unprotected candidate or its sidecar, at selection and at that turn's recheck. */
  lemma OnlyUnprotectedChange(
    plan: Plan, first: Observation, keep: nat, observations: nat -> Observation, base: nat,
    history: seq<Entries>, final: Entries, ok: bool, name: string)
    returns (i: nat)
    requires IsRun(plan, observations, base, history, final, ok) && Planned(plan, history[0], first, keep)
    requires name in history[0] && (name !in final || final[name] != history[0][name])
    ensures i < |plan.candidates| && i < |history|
            && Takes(plan, observations(base + i), history[i], plan.candidates[i], name)
    ensures !Protects(plan.root, first, plan.candidates[i])
  {
    hide Readable, Protects, Sidecar, Candidates, Turn, Failed;
    RunSteps(plan, observations, base, history, final, ok);
    var states := States(history, final, ok);
    i := ChangeHasTurn(plan, observations, base, states, |states| - 1, name);
    CandidatesExactly(plan.names, plan.initial, keep, plan.candidates[i]);
  }

  /** A recheck that fails is the run's last act. */
  lemma FailedRecheckStops(
    plan: Plan, observations: nat -> Observation, base: nat, history: seq<Entries>, final: Entries, ok: bool, i: nat)
    requires IsRun(plan, observations, base, history, final, ok) && i < |history| && i < |plan.candidates|
    requires !Readable(plan.root, history[i], observations(base + i))
    ensures !ok && i == |history| - 1 && final == history[i]
  {
    hide Readable, Protects, Sidecar;
    assert i < |history| - 1 ==> Turn(plan, plan.candidates[i], observations(base + i), history[i], history[i + 1]);
  }

  lemma DryRunChangesNothing(
    plan: Plan, observations: nat -> Observation, base: nat, history: seq<Entries>, final: Entries, ok: bool)
    requires IsRun(plan, observations, base, history, final, ok) && plan.dryRun
    ensures final == history[0]
  {
    hide Readable, Protects, Sidecar, Turn, Failed;
    RunSteps(plan, observations, base, history, final, ok);
    var states := States(history, final, ok);
    StillStates(plan, observations, base, states, |states| - 1);
  }

  lemma {:induction false} StillStates(
    plan: Plan, observations: nat -> Observation, base: nat, states: seq<Entries>, j: nat)
    requires Steps(plan, observations, base, states) && plan.dryRun && j < |states|
    ensures states[j] == states[0]
  {
    if j > 0 {
      assert Step(plan, plan.candidates[j - 1], observations(base + (j - 1)), states[j - 1], states[j - 1 + 1]);
      StillStates(plan, observations, base, states, j - 1);
    }
  }

  /** A generation protected at selection, or with fewer than `keep` newer unprotected ones, is untouched. */
  lemma RetainedSurvive(
    plan: Plan, first: Observation, keep: nat, observations: nat -> Observation, base: nat,
    history: seq<Entries>, final: Entries, ok: bool, name: string)
    requires IsRun(plan, observations, base, history, final, ok) && Planned(plan, history[0], first, keep)
    requires name in plan.names && (Protects(plan.root, first, name) || |Newer(plan.names, plan.initial, name)| < keep)
    ensures name in final && final[name] == history[0][name]
  {
    hide Readable, Protects, OwnerOf, Candidates, Turn, Failed;
    if name !in final || final[name] != history[0][name] {
      var i := OnlyUnprotectedChange(plan, first, keep, observations, base, history, final, ok, name);
      KindFromStart(plan, observations, base, history, final, ok, i, name);
      CandidatesExactly(plan.names, plan.initial, keep, name);
      assert false;
    }
  }

  lemma KindFromStart(
    plan: Plan, observations: nat -> Observation, base: nat, history: seq<Entries>, final: Entries, ok: bool, i: nat,
        name: string)
    requires IsRun(plan, observations, base, history, final, ok) && i < |history|
    ensures name in history[i] ==> name in history[0] && history[i][name].File? == history[0][name].File?
  {
    hide Readable, Protects, Sidecar, Turn, Failed;
    RunSteps(plan, observations, base, history, final, ok);
    Shrinks(plan, observations, base, States(history, final, ok), 0, i);
  }

  /** Whatever happened, a sidecar that is gone belonged to a generation that is gone. */
  lemma LostSidecarHadOwner(
    plan: Plan, first: Observation, keep: nat, observations: nat -> Observation, base: nat,
    history: seq<Entries>, final: Entries, ok: bool, name: string)
    requires IsRun(plan, observations, base, history, final, ok) && Planned(plan, history[0], first, keep)
    requires name in history[0] && history[0][name].File? && name !in final
    ensures OwnerOf(plan.names, name).Some? && OwnerOf(plan.names, name).value !in final
  {
    hide Readable, Protects, OwnerOf, Candidates, Turn, Failed;
    RunSteps(plan, observations, base, history, final, ok);
    var states := States(history, final, ok);
    var i := ChangeHasTurn(plan, observations, base, states, |states| - 1, name);
    Shrinks(plan, observations, base, states, 0, i);
    Shrinks(plan, observations, base, states, i, i + 1);
    Shrinks(plan, observations, base, states, i + 1, |states| - 1);
    assert Step(plan, plan.candidates[i], observations(base + i), states[i], states[i + 1]);
  }

  /** After a run that succeeds, a file is gone exactly when its longest-prefix owner is. */
  lemma SidecarsFollowOwners(
    plan: Plan, first: Observation, keep: nat, observations: nat -> Observation, base: nat,
    history: seq<Entries>, final: Entries, name: string)
    requires IsRun(plan, observations, base, history, final, true) && Planned(plan, history[0], first, keep)
    requires name in history[0] && history[0][name].File?
    ensures name !in final <==> OwnerOf(plan.names, name).Some? && OwnerOf(plan.names, name).value !in final
  {
    hide Readable, Protects, OwnerOf, Candidates, Failed;
    if name !in final {
      LostSidecarHadOwner(plan, first, keep, observations, base, history, final, true, name);
    } else if OwnerOf(plan.names, name).Some? && OwnerOf(plan.names, name).value !in final {
      var owner := OwnerOf(plan.names, name).value;
      OwnerIsLongest(plan.names, name, owner);
      OwnerTakesSidecar(plan, observations, base, history, final, name, owner);
    }
  }

  lemma OwnerTakesSidecar(
    plan: Plan, observations: nat -> Observation, base: nat, history: seq<Entries>, final: Entries, name: string,
        owner: string)
    requires IsRun(plan, observations, base, history, final, true)
    requires name in history[0] && history[0][name].File? && OwnerOf(plan.names, name) == Some(owner)
    requires owner in history[0] && history[0][owner].Directory? && owner !in final
    ensures name !in final
  {
    hide Readable, Protects, OwnerOf, Failed;
    RunSteps(plan, observations, base, history, final, true);
    var last := |history| - 1;
    var i := ChangeHasTurn(plan, observations, base, history, last, owner);
    Shrinks(plan, observations, base, history, 0, i);
    Shrinks(plan, observations, base, history, i + 1, last);
    assert Turn(plan, plan.candidates[i], observations(base + i), history[i], history[i + 1]);
    assert name in history[i] ==> Sidecar(plan.names, history[i], name, owner);
  }
}
