/** What one run of the repair script promises about the disk, the commands
    it starts, and the diagnostic logs, for every outcome of every external
    operation. */
module FixFileProperties {
  import opened Paths
  import opened FileSystem
  import opened DiagnosticLog
  import opened Exec
  import opened FixFile

  /** The temporary folder neither contains nor lies inside the target or its
      quarantine path, and its name has no '.' (`mkdtempSync` adds letters and
      digits to the numeric prefix of fix-file.js:30). */
  predicate Separate(w: World, file: Path)
    requires HasSketchExt(file)
  {
    Apart(TempFolder(w), file) && Apart(TempFolder(w), Quarantine(file)) && '.' !in w.tempName
  }

  /** The archive path never lies inside the temporary folder. */
  lemma TempOutsideArchive(w: World, file: Path, trailingSep: bool)
    requires HasSketchExt(file) && Separate(w, file)
    ensures !(TempFolder(w) <= ZipArchive(file, trailingSep))
  {
    if trailingSep {
      assert w.tempName != ZipExt by {
        assert ZipExt[0] == '.';
      }
    }
  }

  /** A missing argument, a path that does not exist, a name without the
      `.sketch` extension, or a temporary folder that cannot be created ends
      the run with status 1 before anything is renamed, created or started
      (fix-file.js:9-30). */
  lemma EarlyFailureTouchesNothing(arg: Option<Arg>, fs: Tree, w: World)
    requires Validate(arg, w.cwd, fs).Invalid? || w.mkdtemp.IoError?
    ensures var r := Run(arg, fs, w);
      && r.outcome.Failed? && r.outcome.failure.Early()
      && ExitStatus(r.outcome) == 1
      && r.final.fs == fs
      && r.final.trace == []
      && r.final.logs == Empty
  {
  }

  /** A failed rename: the chain stops at once and the cleanup gives back the
      original disk. */
  lemma DiskAfterFailedRename(fs: Tree, file: Path, q: Path, out: Path, temp: Path, w: World)
    requires HasSketchExt(file) && file in fs && Fresh(fs, temp)
    requires w.rename.IoError?
    ensures RemoveTree(Steps(Start(fs[temp := Dir]), file, q, out, temp, w).s.fs, temp) == fs
  {
    var s0 := Start(fs[temp := Dir]);
    AgreeWrite(fs, temp, Dir, temp);
    CleanupEqual(fs, s0.fs, Steps(s0, file, q, out, temp, w).s.fs, temp);
  }

  /** After a successful rename the cleanup leaves the renamed disk, plus the
      rebuilt archive when every later step succeeded. */
  lemma DiskAfterRename(fs: Tree, file: Path, q: Path, out: Path, temp: Path, w: World)
    requires HasSketchExt(file) && file in fs
    requires Fresh(fs, temp) && Apart(temp, file) && Apart(temp, q) && !(temp <= out)
    requires w.rename.Done?
    ensures var step := Steps(Start(fs[temp := Dir]), file, q, out, temp, w);
      RemoveTree(step.s.fs, temp)
        == (if step.Next? then Move(fs, file, q)[out := File(w.archive)]
            else Move(fs, file, q))
  {
    var s0 := Start(fs[temp := Dir]);
    var step := Steps(s0, file, q, out, temp, w);
    AgreeWrite(fs, temp, Dir, temp);
    MoveAgree(fs, s0.fs, file, q, temp);
    MoveKeepsFresh(fs, file, q, temp);
    var moved := Move(fs, file, q);
    if step.Next? {
      var a := File(w.archive);
      var m0 := Move(s0.fs, file, q);
      assert AgreeOutside(m0[out := a], step.s.fs, temp);
      AgreeBothWrite(moved, m0, out, a, temp);
      FreshWrite(moved, temp, out, a);
      CleanupEqual(moved[out := a], m0[out := a], step.s.fs, temp);
    } else {
      CleanupEqual(moved, Move(s0.fs, file, q), step.s.fs, temp);
    }
  }

  /** Removing `dir` from a tree that agrees, outside `dir`, with a tree that
      agrees with a `dir`-free tree gives back that tree. */
  lemma CleanupEqual(want: Tree, mid: Tree, got: Tree, dir: Path)
    requires Fresh(want, dir) && AgreeOutside(want, mid, dir) && AgreeOutside(mid, got, dir)
    ensures RemoveTree(got, dir) == want
  {
    AgreeTrans(want, mid, got, dir);
    AgreeTrans(want, got, RemoveTree(got, dir), dir);
    AgreeFreshEqual(want, RemoveTree(got, dir), dir);
  }

  /** The whole disk at the end of a run that got past validation: the target
      moved to the path fix-file.js:28 computed once the rename succeeded, the
      rebuilt archive at the path `zip -r` writes only on success, and nothing
      else. */
  lemma FinalDisk(arg: Option<Arg>, fs: Tree, w: World, file: Path)
    requires Validate(arg, w.cwd, fs) == Valid(file)
    requires Fresh(fs, TempFolder(w)) && Separate(w, file)
    ensures var r := Run(arg, fs, w);
      var q := RenameTarget(arg, fs, w, file);
      var out := ArchiveTarget(arg, fs, w, file);
      r.final.fs == (if r.outcome.Fixed? then Move(fs, file, q)[out := File(w.archive)]
                     else if w.mkdtemp.Done? && w.rename.Done? then Move(fs, file, q)
                     else fs)
  {
    if w.mkdtemp.Done? {
      DiskAfterTempFolder(arg, fs, w, file);
    } else {
      EarlyFailureTouchesNothing(arg, fs, w);
    }
  }

  /** The same, once the temporary folder exists, stated on the chain of
      steps. */
  lemma DiskAfterTempFolder(arg: Option<Arg>, fs: Tree, w: World, file: Path)
    requires Validate(arg, w.cwd, fs) == Valid(file) && w.mkdtemp.Done?
    requires Fresh(fs, TempFolder(w)) && Separate(w, file)
    ensures var q := RenameTarget(arg, fs, w, file);
      var out := ArchiveTarget(arg, fs, w, file);
      var temp := TempFolder(w);
      var step := Steps(Start(fs[temp := Dir]), file, q, out, temp, w);
      && Run(arg, fs, w).final.fs == RemoveTree(step.s.fs, temp)
      && (Run(arg, fs, w).outcome.Fixed? <==> step.Next?)
      && RemoveTree(step.s.fs, temp)
           == (if step.Next? then Move(fs, file, q)[out := File(w.archive)]
               else if w.rename.Done? then Move(fs, file, q)
               else fs)
  {
    var q := RenameTarget(arg, fs, w, file);
    var out := ArchiveTarget(arg, fs, w, file);
    var temp := TempFolder(w);
    RunAfterTempFolder(arg, fs, w, file);
    if w.rename.IoError? {
      DiskAfterFailedRename(fs, file, q, out, temp, w);
    } else {
      assert Apart(temp, q);
      TempOutsideArchive(w, file, arg.value.trailingSep);
      DiskAfterRename(fs, file, q, out, temp, w);
    }
  }

  /** The temporary folder is gone at the end of every run, whatever failed:
      validation failures never create it, and both the success path and the
      failure handler remove it (fix-file.js:30, 109, 111). */
  lemma TempFolderRemoved(arg: Option<Arg>, fs: Tree, w: World)
    requires Fresh(fs, TempFolder(w))
    ensures Fresh(Run(arg, fs, w).final.fs, TempFolder(w))
  {
  }

  /** For an argument written without a trailing separator, the original
      path holds an entry at the end exactly when the run succeeded (and then
      it is the rebuilt archive) or it never got as far as the rename: the
      repack is the only writer of that path (fix-file.js:36, 96-104). */
  lemma OriginalOnlyWhenFixed(arg: Option<Arg>, fs: Tree, w: World, file: Path)
    requires Validate(arg, w.cwd, fs) == Valid(file) && !arg.value.trailingSep
    requires Fresh(fs, TempFolder(w)) && Separate(w, file)
    ensures var r := Run(arg, fs, w);
      && (file in r.final.fs <==> r.outcome.Fixed? || w.mkdtemp.IoError? || w.rename.IoError?)
      && (r.outcome.Fixed? ==> r.final.fs[file] == File(w.archive))
  {
    FinalDisk(arg, fs, w, file);
    assert ArchiveTarget(arg, fs, w, file) == file;
    QuarantineIsApart(file);
    MoveEmptiesSource(fs, file, Quarantine(file));
    assert file <= file;
  }

  /** For an argument written without a trailing separator, the quarantined
      entry is never touched again once renamed: at the end of every run past
      the rename, the quarantine path holds exactly the target's original
      subtree (fix-file.js:36-120). */
  lemma BackupIsOriginal(arg: Option<Arg>, fs: Tree, w: World, file: Path)
    requires Validate(arg, w.cwd, fs) == Valid(file) && !arg.value.trailingSep
    requires Fresh(fs, TempFolder(w)) && Separate(w, file)
    requires w.mkdtemp.Done? && w.rename.Done?
    ensures Subtree(Run(arg, fs, w).final.fs, Quarantine(file)) == Subtree(fs, file)
  {
    var q := Quarantine(file);
    FinalDisk(arg, fs, w, file);
    assert ArchiveTarget(arg, fs, w, file) == file;
    QuarantineIsApart(file);
    MoveCarriesSubtree(fs, file, q);
    SubtreeWriteOutside(Move(fs, file, q), q, file, File(w.archive));
  }

  /** For an argument written with a trailing separator the rename at
      fix-file.js:36 is onto the target itself: it moves nothing, no backup
      appears at the quarantine path, and a failure after it leaves the disk
      exactly as it was. A successful run leaves the folder in place and adds
      the archive `zip` names ".zip" inside it (fix-file.js:101). */
  lemma TrailingSeparatorKeepsNoBackup(arg: Option<Arg>, fs: Tree, w: World, file: Path)
    requires Validate(arg, w.cwd, fs) == Valid(file) && arg.value.trailingSep
    requires Fresh(fs, TempFolder(w)) && Separate(w, file)
    ensures var r := Run(arg, fs, w);
      && RenameTarget(arg, fs, w, file) == file
      && ArchiveTarget(arg, fs, w, file) == file + [ZipExt]
      && r.final.fs == (if r.outcome.Fixed? then fs[file + [ZipExt] := File(w.archive)] else fs)
      && (Quarantine(file) in r.final.fs <==> Quarantine(file) in fs)
  {
    FinalDisk(arg, fs, w, file);
    MoveOntoItself(fs, file);
    QuarantineIsApart(file);
    assert Quarantine(file) != file;
  }

  /** Once the temporary folder exists, the first operation of every run is
      the rename of the target to the path fix-file.js:28 computed
      (fix-file.js:28-36). */
  lemma RenameComesFirst(arg: Option<Arg>, fs: Tree, w: World, file: Path)
    requires Validate(arg, w.cwd, fs) == Valid(file) && w.mkdtemp.Done?
    ensures var t := Run(arg, fs, w).final.trace;
      |t| > 0 && t[0] == Renamed(file, RenameTarget(arg, fs, w, file))
  {
    var temp := TempFolder(w);
    var q := RenameTarget(arg, fs, w, file);
    var out := ArchiveTarget(arg, fs, w, file);
    var step := Steps(Start(fs[temp := Dir]), file, q, out, temp, w);
    StepsStartWithRename(Start(fs[temp := Dir]), file, q, out, temp, w);
    RunAfterTempFolder(arg, fs, w, file);
    assert Run(arg, fs, w).final.trace == step.s.trace + [Removed(temp)];
  }

  /** No path outside the target and its quarantine name changes. */
  lemma NothingElseChanges(arg: Option<Arg>, fs: Tree, w: World, file: Path)
    requires Validate(arg, w.cwd, fs) == Valid(file)
    requires Fresh(fs, TempFolder(w)) && Separate(w, file)
    ensures var r := Run(arg, fs, w);
      forall p :: !(file <= p) && !(Quarantine(file) <= p) ==>
        && (p in r.final.fs <==> p in fs)
        && (p in fs ==> r.final.fs[p] == fs[p])
  {
    var q := RenameTarget(arg, fs, w, file);
    FinalDisk(arg, fs, w, file);
    OnlyTargetChanges(fs, file, q, ArchiveTarget(arg, fs, w, file), w.archive);
    assert KeepsOutside(fs, fs, file);
  }

  /** Every path outside `file` and its quarantine name is in `t` exactly
      when it is in `fs`, with the same entry. */
  ghost predicate KeepsOutside(fs: Tree, t: Tree, file: Path)
    requires HasSketchExt(file)
  {
    forall p :: !(file <= p) && !(Quarantine(file) <= p) ==>
      && (p in t <==> p in fs)
      && (p in fs ==> t[p] == fs[p])
  }

  /** Moving the target to q, and then writing inside the target, leave
      every path outside the target and its quarantine name as it was. */
  lemma OnlyTargetChanges(fs: Tree, file: Path, q: Path, out: Path, a: Bytes)
    requires HasSketchExt(file) && file <= out && (q == file || q == Quarantine(file))
    ensures KeepsOutside(fs, Move(fs, file, q), file)
    ensures KeepsOutside(fs, Move(fs, file, q)[out := File(a)], file)
  {
    var m := Move(fs, file, q);
    forall p | !(file <= p) && !(Quarantine(file) <= p)
      ensures p in m <==> p in fs
      ensures p in fs ==> m[p] == fs[p]
      ensures p in m[out := File(a)] <==> p in fs
      ensures p in fs ==> m[out := File(a)][p] == fs[p]
    {
      MoveLeavesRest(fs, file, q, p);
      assert p != out;
    }
  }

  /** The logs only grow: every snapshot the two streams went through is a
      prefix of every later one, starting from empty streams
      (fix-file.js:7, 41-42, 49-50, 64-65, 75, 81, 90, 97, 103-104). */
  lemma LogsOnlyGrow(arg: Option<Arg>, fs: Tree, w: World)
    ensures var h := Run(arg, fs, w).final.history;
      && |h| > 0 && h[0] == Empty && h[|h| - 1] == Run(arg, fs, w).final.logs
      && forall i, j :: 0 <= i <= j < |h| ==> Extends(h[i], h[j])
  {
    GrowingIsOrdered(Run(arg, fs, w).final.history);
  }
}
