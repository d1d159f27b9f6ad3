/**
 The paired bootstrap repair (scripts/fleet-preroll-checks.py): the remote program that backs up,
 replaces and rolls back, under any schedule of failing and interrupted file system calls. Different
 path texts name different files.
 */
module Repair {
  import opened Order

  type Bytes = seq<bv8>

  datatype Node = Regular(bytes: Bytes, mode: nat) | Directory | Link(dangling: bool)

  type Files = map<string, Node>

  /** What one call meets; `done` says how far it had got when it stopped. */
  datatype Fault = Fine | Error(done: nat) | Interrupt(done: nat)

  /** How a piece of the program ended: an interrupt is not caught as an ordinary error is. */
  datatype Ended = Finished | Errored | Interrupted

  const CREATED_MODE: nat := 0

  predicate IsRegular(files: Files, path: string) {
    path in files && files[path].Regular?
  }

  /** Whether the path leads anywhere: a dangling link does not. */
  predicate Exists(files: Files, path: string) {
    path in files && files[path] != Link(true)
  }

  /** Nothing is at the path but, perhaps, a dangling link. */
  predicate Free(files: Files, path: string) {
    path in files ==> files[path] == Link(true)
  }

  /** Everything in `before` is still there, as it was. */
  ghost predicate Extends(after: Files, before: Files) {
    before.Keys <= after.Keys && forall path <- before :: after[path] == before[path]
  }

  function Backup(path: string, generation: string): string {
    path + ".pre-" + generation
  }

  function Temporary(path: string, generation: string): string {
    path + ".new-" + generation
  }

  function End(fault: Fault): Ended {
    match fault
    case Fine => Finished
    case Error(_) => Errored
    case Interrupt(_) => Interrupted
  }

  /** One installed file holds its whole old or its whole new content. */
  ghost predicate OldOrNew(files: Files, base: Files, paths: seq<string>, contents: seq<Bytes>, i: nat)
    requires i < |paths| && IsRegular(base, paths[i]) && paths[i] in files
  {
    files[paths[i]] == base[paths[i]] || IsNew(files, base, paths, contents, i)
  }

  ghost predicate IsNew(files: Files, base: Files, paths: seq<string>, contents: seq<Bytes>, i: nat)
    requires i < |paths| && IsRegular(base, paths[i]) && paths[i] in files
  {
    i < |contents| && files[paths[i]] == Regular(contents[i], base[paths[i]].mode)
  }

  /** During the write phase: nothing of `base` is lost, and only installed files change, each as a whole. */
  ghost predicate Sound(files: Files, base: Files, paths: seq<string>, contents: seq<Bytes>) {
    && (forall i | 0 <= i < |paths| :: IsRegular(base, paths[i]))
    && base.Keys <= files.Keys
    && (forall path <- base | path !in paths :: files[path] == base[path])
    && forall i | 0 <= i < |paths| :: OldOrNew(files, base, paths, contents, i)
  }

  ghost predicate Apart(created: seq<string>, base: Files) {
    forall path <- created :: path !in base
  }

  /** Nothing beyond `base` exists but what the run has recorded creating. */
  ghost predicate Recorded(files: Files, base: Files, created: seq<string>) {
    forall path <- files.Keys - base.Keys :: path in created
  }

  /** The backups are new files that hold the originals, and when complete the only new files. */
  ghost predicate IsBackedUp(files: Files, before: Files, paths: seq<string>, backups: seq<string>, complete: bool) {
    complete ==>
      && |backups| == |paths| && Distinct(backups) && Recorded(files, before, backups)
      && forall i | 0 <= i < |paths| ::
           paths[i] in before && backups[i] !in before && backups[i] in files && files[backups[i]] == before[paths[i]]
  }

  /** Swapping an installed file for its old or its new content keeps the phase sound. */
  lemma SwapSound(base: Files, before: Files, after: Files, paths: seq<string>, contents: seq<Bytes>, i: nat)
    requires Sound(before, base, paths, contents) && Distinct(paths) && i < |paths| && before.Keys <= after.Keys
    requires forall path <- before | path != paths[i] :: after[path] == before[path]
    requires OldOrNew(after, base, paths, contents, i)
    ensures Sound(after, base, paths, contents)
  {
    forall j | 0 <= j < |paths|
      ensures OldOrNew(after, base, paths, contents, j)
    {
      assert OldOrNew(before, base, paths, contents, j);
    }
  }

  lemma SwapRecorded(base: Files, before: Files, after: Files, made: seq<string>, temporary: string, recorded: bool)
    requires Recorded(before, base, made) && forall path <- after.Keys - before.Keys :: path == temporary && recorded
    ensures Recorded(after, base, if recorded then made + [temporary] else made)
  {
    var created := if recorded then made + [temporary] else made;
    forall path | path in after.Keys - base.Keys
      ensures path in created
    {
      assert path in before.Keys - base.Keys || path in after.Keys - before.Keys;
    }
  }

  /** Removing something that is not in the base keeps the phase sound. */
  lemma UnlinkSound(base: Files, before: Files, after: Files, paths: seq<string>, contents: seq<Bytes>, path: string)
    requires Sound(before, base, paths, contents) && path !in base && (after == before || after == before - {path})
    ensures Sound(after, base, paths, contents) && forall i | 0 <= i < |paths| :: after[paths[i]] == before[paths[i]]
  {
    forall i | 0 <= i < |paths|
      ensures OldOrNew(after, base, paths, contents, i)
    {
      assert OldOrNew(before, base, paths, contents, i);
    }
  }

  lemma DistinctPaths(paths: seq<string>, backups: seq<string>, generation: string)
    requires |backups| == |paths| && Distinct(backups)
    requires forall i | 0 <= i < |paths| :: backups[i] == Backup(paths[i], generation)
    ensures Distinct(paths)
  {
    forall i, j | 0 <= i < j < |paths|
      ensures paths[i] != paths[j]
    {
      assert backups[i] != backups[j];
    }
  }

  lemma DistinctBackups(paths: seq<string>, backups: seq<string>, generation: string)
    requires |backups| == |paths| && Distinct(paths)
    requires forall i | 0 <= i < |paths| :: backups[i] == Backup(paths[i], generation)
    ensures Distinct(backups)
  {
    forall i, j | 0 <= i < j < |paths|
      ensures backups[i] != backups[j]
    {
      assert paths[i] == backups[i][..|paths[i]|] && paths[j] == backups[j][..|paths[j]|];
      assert |backups[i]| - |paths[i]| == |backups[j]| - |paths[j]|;
    }
  }

  /** Different regular files, with nothing where their backups and temporaries go. */
  ghost predicate Repairable(files: Files, paths: seq<string>, generation: string) {
    Distinct(paths)
    && forall i | 0 <= i < |paths| ::
         IsRegular(files, paths[i]) && Backup(paths[i], generation) !in files
             && Temporary(paths[i], generation) !in files
  }

  lemma TemporaryIsNoBackup(path: string, other: string, generation: string)
    ensures Temporary(path, generation) != Backup(other, generation)
  {
    assert Temporary(path, generation)[|path| + 1] == 'n' && Backup(other, generation)[|other| + 1] == 'p';
    assert |Temporary(path, generation)| - |path| == |Backup(other, generation)| - |other|;
  }

  lemma TemporariesFree(before: Files, base: Files, paths: seq<string>, backups: seq<string>, generation: string)
    requires Repairable(before, paths, generation) && IsBackedUp(base, before, paths, backups, true)
    requires |backups| == |paths| && forall i | 0 <= i < |paths| :: backups[i] == Backup(paths[i], generation)
    ensures forall i | 0 <= i < |paths| :: Temporary(paths[i], generation) !in base
  {
    forall i | 0 <= i < |paths|
      ensures Temporary(paths[i], generation) !in base
    {
      forall j | 0 <= j < |paths|
        ensures Temporary(paths[i], generation) != backups[j]
      {
        TemporaryIsNoBackup(paths[i], paths[j], generation);
      }
      assert Temporary(paths[i], generation) !in base.Keys - before.Keys;
    }
  }

  /**
   How a repair ends: refused before the write phase; every file replaced; failed and rolled back, on an
   error or an interrupt; rollback incomplete; or the rollback itself interrupted.
   */
  datatype Outcome = Refused | Done | RolledBack(interrupted: bool) | Incomplete | Abandoned

  /** The backup of each file is a new file that holds what the file held before the run. */
  ghost predicate BackedUp(before: Files, after: Files, paths: seq<string>, generation: string) {
    forall i | 0 <= i < |paths| ::
      var backup := Backup(paths[i], generation);
      paths[i] in before && backup !in before && backup in after && after[backup] == before[paths[i]]
  }

  /** What a repair promises about the files before and after it. */
  ghost predicate Report(
    before: Files, after: Files, paths: seq<string>, contents: seq<Bytes>, generation: string, outcome: Outcome,
        cleaned: bool)
  {
    if outcome == Refused then Extends(after, before)
    else
      && Sound(after, before, paths, contents)
      && BackedUp(before, after, paths, generation)
      && (outcome == Done ==> forall i | 0 <= i < |paths| && i < |contents| :: IsNew(after, before, paths, contents, i))
      && (outcome.RolledBack? ==> forall i | 0 <= i < |paths| :: after[paths[i]] == before[paths[i]])
      && (cleaned && (outcome == Done || outcome == RolledBack(false)) ==>
            forall path <- after :: path in before || exists i | 0 <= i < |paths| ::
                path == Backup(paths[i], generation))
  }

  lemma WrittenReport(
    before: Files, base: Files, after: Files, paths: seq<string>, contents: seq<Bytes>, backups: seq<string>,
        generation: string,
    outcome: Outcome, cleaned: bool)
    requires forall i | 0 <= i < |paths| :: IsRegular(before, paths[i])
    requires |backups| == |paths| && forall i | 0 <= i < |paths| :: backups[i] == Backup(paths[i], generation)
    requires Extends(base, before) && IsBackedUp(base, before, paths, backups, true)
    requires outcome != Refused && Sound(after, base, paths, contents)
    requires outcome == Done ==> forall i | 0 <= i < |paths| && i < |contents| :: IsNew(after, base, paths, contents, i)
    requires outcome.RolledBack? ==> forall i | 0 <= i < |paths| :: after[paths[i]] == base[paths[i]]
    requires cleaned && (outcome == Done || outcome == RolledBack(false)) ==> after.Keys == base.Keys
    ensures Report(before, after, paths, contents, generation, outcome, cleaned)
  {
    forall i | 0 <= i < |paths|
      ensures OldOrNew(after, before, paths, contents, i)
      ensures outcome == Done && i < |contents| ==> IsNew(after, before, paths, contents, i)
    {
      assert OldOrNew(after, base, paths, contents, i);
      assert outcome == Done && i < |contents| ==> IsNew(after, base, paths, contents, i);
    }
    if cleaned && (outcome == Done || outcome == RolledBack(false)) {
      forall path | path in after
        ensures path in before || exists i | 0 <= i < |paths| :: path == Backup(paths[i], generation)
      {
        if path !in before {
          assert path in base.Keys - before.Keys;
          var i :| 0 <= i < |backups| && backups[i] == path;
        }
      }
    }
  }

  class Host {
    var files: Files
    var steps: nat
    const faults: nat -> Fault
    const random: nat -> string

    constructor (files: Files, faults: nat -> Fault, random: nat -> string)
      ensures this.files == files && steps == 0 && this.faults == faults && this.random == random
    {
      this.files, steps, this.faults, this.random := files, 0, faults, random;
    }

    /** No call fails. */
    ghost predicate Smooth() {
      forall k :: faults(k).Fine?
    }

    method Next() returns (fault: Fault)
      modifies this`steps
      ensures Smooth() ==> fault.Fine?
    {
      fault := faults(steps);
      steps := steps + 1;
    }

    /** Exclusive creation: an existing path is an error, and an interrupt may come after the creation. */
    method Create(path: string) returns (ended: Ended)
      modifies this
      ensures files == old(files) || (path !in old(files) && files == old(files)[path := Regular([], CREATED_MODE)])
      ensures ended == Finished ==> path !in old(files) && path in files
      ensures ended == Errored ==> files == old(files)
      ensures Smooth() && path !in old(files) ==> ended == Finished
    {
      var fault := Next();
      if path in files {
        return if fault.Interrupt? then Interrupted else Errored;
      }
      if fault.Fine? || (fault.Interrupt? && fault.done > 0) {
        files := files[path := Regular([], CREATED_MODE)];
      }
      return End(fault);
    }

    /** Write, set the mode and sync; stopped early it leaves any part of the content. */
    method Fill(path: string, bytes: Bytes, mode: nat) returns (ended: Ended)
      requires IsRegular(files, path)
      modifies this
      ensures files.Keys == old(files).Keys && IsRegular(files, path)
      ensures forall other <- files | other != path :: files[other] == old(files)[other]
      ensures ended == Finished ==> files[path] == Regular(bytes, mode)
      ensures Smooth() ==> ended == Finished
    {
      var fault := Next();
      files := files[path := if fault.Fine? then Regular(bytes, mode)
                             else Regular(bytes[..if fault.done <= |bytes| then fault.done else |bytes|],
                                 CREATED_MODE)];
      return End(fault);
    }

    /** Atomic replacement: it happens or it does not, and an interrupt may come after it. */
    method Replace(from: string, to: string) returns (ended: Ended)
      requires from in files && IsRegular(files, to) && from != to
      modifies this
      ensures files == old(files) || files == (old(files) - {from})[to := old(files)[from]]
      ensures ended == Finished ==> files == (old(files) - {from})[to := old(files)[from]]
      ensures ended == Errored ==> files == old(files)
      ensures Smooth() ==> ended == Finished
    {
      var fault := Next();
      if fault.Fine? || (fault.Interrupt? && fault.done > 0) {
        files := (files - {from})[to := files[from]];
      }
      return End(fault);
    }

    method Unlink(path: string) returns (ended: Ended)
      modifies this
      ensures files == old(files) || files == old(files) - {path}
      ensures ended == Finished ==> files == old(files) - {path}
      ensures Smooth() ==> ended == Finished
    {
      var fault := Next();
      if fault.Fine? || (fault.Interrupt? && fault.done > 0) {
        files := files - {path};
      }
      return End(fault);
    }

    /** Every backup is created and filled before anything is replaced. */
    method BackUp(paths: seq<string>, backups: seq<string>) returns (ended: Ended)
      requires |backups| == |paths| && forall i | 0 <= i < |paths| :: IsRegular(files, paths[i])
      modifies this
      ensures Extends(files, old(files)) && IsBackedUp(files, old(files), paths, backups, ended == Finished)
      ensures Smooth() && Distinct(backups) && Apart(backups, old(files)) ==> ended == Finished
    {
      ghost var before := files;
      for i := 0 to |paths|
        invariant Extends(files, before) && IsBackedUp(files, before, paths[..i], backups[..i], true)
      {
        var original := files[paths[i]];
        assert backups[i] in files.Keys - before.Keys ==> backups[i] in backups[..i];
        ended := Create(backups[i]);
        if ended == Finished {
          ended := Fill(backups[i], original.bytes, original.mode);
        }
        if ended != Finished {
          return;
        }
        assert paths[..i + 1] == paths[..i] + [paths[i]] && backups[..i + 1] == backups[..i] + [backups[i]];
      }
      assert paths[..|paths|] == paths && backups[..|paths|] == backups;
      return Finished;
    }

    /** Through a temporary: create, fill, replace. The target changes as a whole or not at all. */
    method Swap(temporary: string, target: string, bytes: Bytes, mode: nat) returns (ended: Ended, recorded: bool)
      requires IsRegular(files, target)
      modifies this
      ensures old(files).Keys <= files.Keys && forall path <- old(files) | path != target ::
                files[path] == old(files)[path]
      ensures files[target] == old(files)[target] || files[target] == Regular(bytes, mode)
      ensures ended == Finished ==> files[target] == Regular(bytes, mode)
      ensures ended == Finished ==> files.Keys == old(files).Keys
      ensures Smooth() && temporary !in old(files) ==> ended == Finished
      ensures recorded ==> temporary !in old(files)
      ensures forall path <- files.Keys - old(files).Keys :: path == temporary && (recorded || ended == Interrupted)
    {
      recorded := false;
      ended := Create(temporary);
      if ended != Finished {
        return;
      }
      recorded := true;
      ended := Fill(temporary, bytes, mode);
      if ended == Finished {
        ended := Replace(temporary, target);
      }
    }

    /** Replaces each file in turn, up to the first failure; `created` lists the temporaries made. */
    method Install(paths: seq<string>, contents: seq<Bytes>, modes: seq<nat>, generation: string)
      returns (ended: Ended, created: seq<string>)
      requires Distinct(paths) && |modes| == |paths|
      requires forall i | 0 <= i < |paths| :: IsRegular(files, paths[i]) && modes[i] == files[paths[i]].mode
      modifies this
      ensures Sound(files, old(files), paths, contents) && Apart(created, old(files))
      ensures ended != Interrupted ==> Recorded(files, old(files), created)
      ensures ended == Finished ==>
                forall i | 0 <= i < |paths| && i < |contents| :: IsNew(files, old(files), paths, contents, i)
      ensures Smooth() && (forall i | 0 <= i < |paths| :: Temporary(paths[i], generation) !in old(files)) ==>
                ended == Finished
    {
      ghost var base := files;
      created := [];
      for i := 0 to if |paths| <= |contents| then |paths| else |contents|
        invariant Sound(files, base, paths, contents) && Apart(created, base) && Recorded(files, base, created)
        invariant forall j | 0 <= j < i :: IsNew(files, base, paths, contents, j)
        invariant forall j | i <= j < |paths| :: files[paths[j]] == base[paths[j]]
        invariant files.Keys == base.Keys
      {
        var temporary, recorded := Temporary(paths[i], generation), false;
        ghost var before := files;
        ended, recorded := Swap(temporary, paths[i], contents[i], modes[i]);
        if ended != Interrupted {
          SwapRecorded(base, before, files, created, temporary, recorded);
        }
        if recorded {
          created := created + [temporary];
        }
        SwapSound(base, before, files, paths, contents, i);
        if ended != Finished {
          return;
        }
        forall j | 0 <= j < i
          ensures IsNew(files, base, paths, contents, j)
        {
          assert IsNew(before, base, paths, contents, j) && paths[j] != paths[i];
        }
      }
      return Finished, created;
    }

    /** Puts every original back from its backup; an ordinary failure is noted and the next file still tried. */
    method Restore(
      paths: seq<string>, backups: seq<string>, modes: seq<nat>, made: seq<string>, ghost base: Files,
      ghost contents: seq<Bytes>)
      returns (ended: Ended, failures: seq<string>, created: seq<string>)
      requires Distinct(paths) && |backups| == |modes| == |paths|
      requires Sound(files, base, paths, contents) && Apart(made, base)
      requires forall i | 0 <= i < |paths| ::
                 backups[i] in base && backups[i] !in paths && base[backups[i]] == base[paths[i]]
                     && modes[i] == base[paths[i]].mode
      modifies this
      ensures Sound(files, base, paths, contents) && Apart(created, base)
      ensures ended == Interrupted || ended == Finished
      ensures ended == Finished && old(Recorded(files, base, made)) ==> Recorded(files, base, created)
      ensures ended == Finished && failures == [] ==> forall i | 0 <= i < |paths| :: files[paths[i]] == base[paths[i]]
    {
      failures, created := [], made;
      for i := 0 to |paths|
        invariant Sound(files, base, paths, contents) && Apart(created, base)
        invariant old(Recorded(files, base, made)) ==> Recorded(files, base, created)
        invariant failures == [] ==> forall j | 0 <= j < i :: files[paths[j]] == base[paths[j]]
      {
        var temporary, recorded := paths[i] + ".restore-" + random(steps), false;
        ghost var before := files;
        assert OldOrNew(files, base, paths, contents, i);
        ended, recorded := Swap(temporary, paths[i], files[backups[i]].bytes, modes[i]);
        if ended != Interrupted && old(Recorded(files, base, made)) {
          SwapRecorded(base, before, files, created, temporary, recorded);
        }
        if recorded {
          created := created + [temporary];
        }
        SwapSound(base, before, files, paths, contents, i);
        if ended == Interrupted {
          return;
        }
        if ended == Errored {
          failures := failures + [paths[i]];
        }
      }
      ended := Finished;
    }

    /** Removes the temporaries this run created, up to the first that cannot be. */
    method Clean(
      created: seq<string>, ghost base: Files, ghost paths: seq<string>, ghost contents: seq<Bytes>)
      returns (ended: Ended)
      requires Sound(files, base, paths, contents) && Apart(created, base)
      modifies this
      ensures Sound(files, base, paths, contents) && files.Keys <= old(files).Keys
      ensures forall i | 0 <= i < |paths| :: files[paths[i]] == old(files)[paths[i]]
      ensures ended == Finished ==> forall path <- created :: path !in files
      ensures Smooth() ==> ended == Finished
    {
      for i := 0 to |created|
        invariant Sound(files, base, paths, contents) && files.Keys <= old(files).Keys
        invariant forall j | 0 <= j < |paths| :: files[paths[j]] == old(files)[paths[j]]
        invariant forall j | 0 <= j < i :: created[j] !in files
      {
        ghost var before := files;
        ended := Unlink(created[i]);
        UnlinkSound(base, before, files, paths, contents, created[i]);
        if ended != Finished {
          return;
        }
      }
      return Finished;
    }

    /** Refuses before touching anything unless each file is a regular one with no backup in the way. */
    method Precheck(paths: seq<string>, backups: seq<string>) returns (modes: seq<nat>, ok: bool)
      requires |backups| == |paths|
      modifies this`steps
      ensures ok ==> |modes| == |paths|
                     && forall i | 0 <= i < |paths| :: IsRegular(files, paths[i]) && modes[i] == files[paths[i]].mode
      ensures ok ==> forall i | 0 <= i < |paths| :: Free(files, backups[i])
      ensures Smooth() && (forall i | 0 <= i < |paths| :: IsRegular(files, paths[i]) && Free(files, backups[i])) ==> ok
    {
      modes, ok := [], false;
      for i := 0 to |paths|
        invariant forall j | 0 <= j < i :: IsRegular(files, paths[j]) && !Exists(files, backups[j])
      {
        var fault := Next();
        if !fault.Fine? || !IsRegular(files, paths[i]) || Exists(files, backups[i]) {
          return;
        }
      }
      for i := 0 to |paths|
        invariant |modes| == i && forall j | 0 <= j < i :: modes[j] == files[paths[j]].mode
      {
        var fault := Next();
        if !fault.Fine? {
          return;
        }
        modes := modes + [files[paths[i]].mode];
      }
      ok := true;
    }

    /** The write phase, with its rollback and its cleanup. */
    method Write(paths: seq<string>, contents: seq<Bytes>, backups: seq<string>, modes: seq<nat>, generation: string)
      returns (outcome: Outcome, cleaned: bool)
      requires Distinct(paths) && |backups| == |modes| == |paths|
      requires forall i | 0 <= i < |paths| ::
                 && IsRegular(files, paths[i]) && modes[i] == files[paths[i]].mode
                 && backups[i] in files && backups[i] !in paths && files[backups[i]] == files[paths[i]]
      modifies this
      ensures outcome != Refused && Sound(files, old(files), paths, contents)
      ensures outcome == Done ==>
                forall i | 0 <= i < |paths| && i < |contents| :: IsNew(files, old(files), paths, contents, i)
      ensures outcome.RolledBack? ==> forall i | 0 <= i < |paths| :: files[paths[i]] == old(files)[paths[i]]
      ensures cleaned && (outcome == Done || outcome == RolledBack(false)) ==> files.Keys == old(files).Keys
      ensures Smooth() && (forall i | 0 <= i < |paths| :: Temporary(paths[i], generation) !in old(files)) ==>
                outcome == Done && cleaned
    {
      ghost var base := files;
      var ended, created := Install(paths, contents, modes, generation);
      if ended == Finished {
        outcome := Done;
      } else {
        var restored, failures;
        restored, failures, created := Restore(paths, backups, modes, created, base, contents);
        outcome := if restored == Interrupted then Abandoned
                   else if failures != [] then Incomplete
                   else RolledBack(ended == Interrupted);
      }
      ghost var before := files;
      var removed := Clean(created, base, paths, contents);
      cleaned := removed == Finished;
      forall i | 0 <= i < |paths| && i < |contents|
        ensures outcome == Done ==> IsNew(files, base, paths, contents, i)
      {
        assert outcome == Done ==> IsNew(before, base, paths, contents, i);
      }
      if cleaned && (outcome == Done || outcome == RolledBack(false)) {
        assert Recorded(before, base, created);
        forall path | path in files
          ensures path in base
        {
          assert path in base || path in before.Keys - base.Keys;
        }
      }
    }

    method Run(paths: seq<string>, contents: seq<Bytes>, generation: string) returns (outcome: Outcome, cleaned: bool)
      modifies this
      ensures Report(old(files), files, paths, contents, generation, outcome, cleaned)
      ensures Smooth() && Repairable(old(files), paths, generation) ==> outcome == Done && cleaned
    {
      ghost var before := files;
      var backups := seq(|paths|, i requires 0 <= i < |paths| => Backup(paths[i], generation));
      if Repairable(before, paths, generation) {
        DistinctBackups(paths, backups, generation);
      }
      var modes, ok := Precheck(paths, backups);
      if !ok {
        return Refused, true;
      }
      var ended := BackUp(paths, backups);
      if ended != Finished {
        return Refused, true;
      }
      ghost var base := files;
      DistinctPaths(paths, backups, generation);
      if Repairable(before, paths, generation) {
        TemporariesFree(before, base, paths, backups, generation);
      }
      outcome, cleaned := Write(paths, contents, backups, modes, generation);
      WrittenReport(before, base, files, paths, contents, backups, generation, outcome, cleaned);
    }
  }
}
