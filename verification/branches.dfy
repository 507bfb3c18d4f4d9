/** What the script does on each branch after the rename: which external
    commands it starts for a folder and for a file, which failures of those
    commands it forgives, and what reaches the repack. */
module FixFileBranches {
  import opened Paths
  import opened FileSystem
  import opened DiagnosticLog
  import opened Exec
  import opened FixFile

  /** Neither `zip -FF` nor `unzip` appears among the operations from
      position `k` on. */
  predicate NoArchiveToolsFrom(t: seq<Command>, k: nat) {
    forall i :: k <= i < |t| ==> !t[i].Repaired? && !t[i].Extracted?
  }

  /** The chain for a quarantined folder starts with the rename and then the
      copy into the extraction folder (fix-file.js:36, 40-44). */
  lemma StepsFolderCopies(s: State, file: Path, q: Path, out: Path, temp: Path, w: World)
    requires HasSketchExt(file) && file in s.fs && s.fs[file].Dir? && w.rename.Done?
    ensures var r := Steps(s, file, q, out, temp, w);
      s.trace + [Renamed(file, q), Copied(q, temp + [BaseStem(file)])] <= r.s.trace
  {
    var stem := BaseStem(file);
    var folder := temp + [stem];
    var r1 := Rename(s, file, q, w.rename);
    assert r1.s.trace == s.trace + [Renamed(file, q)];
    var r2 := Unpack(r1.s, q, temp, stem, w);
    var prefix := s.trace + [Renamed(file, q), Copied(q, folder)];
    assert r2.s.trace == prefix;
    var step := Steps(s, file, q, out, temp, w);
    if r2.Next? {
      var r3 := Finish(r2.s, folder, out, w);
      assert step == r3;
    }
  }

  /** A quarantined folder never reaches `zip -FF` or `unzip`
      (fix-file.js:38-44). */
  lemma StepsFolderNoArchiveTools(s: State, file: Path, q: Path, out: Path, temp: Path, w: World)
    requires HasSketchExt(file) && file in s.fs && s.fs[file].Dir? && w.rename.Done?
    ensures NoArchiveToolsFrom(Steps(s, file, q, out, temp, w).s.trace, |s.trace|)
  {
    var stem := BaseStem(file);
    var folder := temp + [stem];
    var r1 := Rename(s, file, q, w.rename);
    assert r1.s.trace == s.trace + [Renamed(file, q)];
    var r2 := Unpack(r1.s, q, temp, stem, w);
    var prefix := s.trace + [Renamed(file, q), Copied(q, folder)];
    assert r2.s.trace == prefix;
    FolderPrefixHasNoArchive(s.trace, file, q, folder);
    var step := Steps(s, file, q, out, temp, w);
    if r2.Stop? {
      assert step == r2;
    } else {
      var r3 := Finish(r2.s, folder, out, w);
      assert step == r3;
      NoArchiveAfterFinish(prefix, r3.s.trace, |s.trace|);
    }
  }

  /** For a quarantined folder the run stops with a copy failure exactly when
      the copy fails (fix-file.js:40-44). */
  lemma StepsFolderCopyFailure(s: State, file: Path, q: Path, out: Path, temp: Path, w: World)
    requires HasSketchExt(file) && file in s.fs && s.fs[file].Dir? && w.rename.Done?
    ensures var r := Steps(s, file, q, out, temp, w);
      r.Stop? && r.failure == CopyFailed <==> w.copy.IoError?
  {
    var stem := BaseStem(file);
    var folder := temp + [stem];
    var r1 := Rename(s, file, q, w.rename);
    var r2 := Unpack(r1.s, q, temp, stem, w);
    var step := Steps(s, file, q, out, temp, w);
    if r2.Next? {
      var r3 := Finish(r2.s, folder, out, w);
      assert step == r3;
    }
  }

  /** Operations that are only writes and the repack add no archive command. */
  lemma NoArchiveAfterFinish(a: seq<Command>, b: seq<Command>, k: nat)
    requires NoArchiveToolsFrom(a, k) && a <= b
    requires forall i :: |a| <= i < |b| ==> b[i].Wrote? || b[i].Packed?
    ensures NoArchiveToolsFrom(b, k)
  {
    forall i | k <= i < |b|
      ensures !b[i].Repaired? && !b[i].Extracted?
    {
      if i < |a| {
        assert b[i] == a[i];
      }
    }
  }

  lemma FolderPrefixHasNoArchive(t: seq<Command>, file: Path, q: Path, folder: Path)
    ensures NoArchiveToolsFrom(t + [Renamed(file, q), Copied(q, folder)], |t|)
  {
  }

  /** A quarantined file is first repaired with `zip -FF` into the temporary
      archive; when the repair fails the run stops there with nothing logged
      and nothing extracted (fix-file.js:46-48, 110). */
  lemma StepsRepairFailure(s: State, file: Path, q: Path, out: Path, temp: Path, w: World)
    requires HasSketchExt(file) && file in s.fs && s.fs[file].File? && w.rename.Done?
    requires w.repair.Err?
    ensures var r := Steps(s, file, q, out, temp, w);
      && r == Stop(r.s, RepairFailed)
      && r.s.trace == s.trace + [Renamed(file, q), Repaired(q, temp + [BaseStem(file) + ZipExt])]
      && r.s.logs == s.logs
      && r.s.fs == Move(s.fs, file, q)
  {
    var r1 := Rename(s, file, q, w.rename);
    assert r1.s.trace == s.trace + [Renamed(file, q)];
    var r2 := Unpack(r1.s, q, temp, BaseStem(file), w);
    assert Steps(s, file, q, out, temp, w) == r2;
  }

  /** After a successful repair the temporary archive is extracted into the
      extraction folder (fix-file.js:48, 55). */
  lemma StepsFileExtracts(s: State, file: Path, q: Path, out: Path, temp: Path, w: World)
    requires HasSketchExt(file) && file in s.fs && s.fs[file].File? && w.rename.Done?
    requires w.repair.Ok?
    ensures var r := Steps(s, file, q, out, temp, w);
      var zipFile := temp + [BaseStem(file) + ZipExt];
      s.trace + [Renamed(file, q), Repaired(q, zipFile), Extracted(zipFile, temp + [BaseStem(file)])] <= r.s.trace
  {
    var stem := BaseStem(file);
    var folder := temp + [stem];
    var zipFile := temp + [stem + ZipExt];
    var r1 := Rename(s, file, q, w.rename);
    assert r1.s.trace == s.trace + [Renamed(file, q)];
    var r2 := Unpack(r1.s, q, temp, stem, w);
    assert r2 == RepairArchive(r1.s, q, zipFile, folder, w);
    var prefix := s.trace + [Renamed(file, q), Repaired(q, zipFile), Extracted(zipFile, folder)];
    assert r2.s.trace == prefix;
    var step := Steps(s, file, q, out, temp, w);
    if r2.Next? {
      var r3 := Finish(r2.s, folder, out, w);
      assert step == r3;
    }
  }

  /** A failing `unzip` ends the run exactly when no extraction folder exists
      afterwards: it was not there before and the command left none behind
      (fix-file.js:55-62). */
  lemma StepsExtractFailure(s: State, file: Path, q: Path, out: Path, temp: Path, w: World)
    requires HasSketchExt(file) && file in s.fs && s.fs[file].File? && w.rename.Done?
    requires w.repair.Ok?
    ensures var r := Steps(s, file, q, out, temp, w);
      var before := Move(s.fs, file, q)[temp + [BaseStem(file) + ZipExt] := File(w.repaired)];
      (r.Stop? && r.failure == ExtractFailed) <==>
        (w.extract.Err? && temp + [BaseStem(file)] !in before && w.extracted.None?)
  {
    var stem := BaseStem(file);
    var folder := temp + [stem];
    var r1 := Rename(s, file, q, w.rename);
    var r2 := Unpack(r1.s, q, temp, stem, w);
    var step := Steps(s, file, q, out, temp, w);
    if r2.Next? {
      var r3 := Finish(r2.s, folder, out, w);
      assert step == r3;
    }
  }

  /** When the extraction does not end the run, the output of `zip -FF` and
      then that of `unzip` (even a failing one) are on the logs, and the logs
      only grow from there (fix-file.js:49-50, 59, 64-65). */
  lemma StepsExtractLogged(s: State, file: Path, q: Path, out: Path, temp: Path, w: World)
    requires HasSketchExt(file) && file in s.fs && s.fs[file].File? && w.rename.Done?
    requires w.repair.Ok? && s.Valid()
    ensures var r := Steps(s, file, q, out, temp, w);
      !(r.Stop? && r.failure == ExtractFailed) ==>
        Extends(Append(Append(s.logs, w.repair.stdout + Separator, w.repair.stderr + Separator),
                       w.extract.stdout + Separator, w.extract.stderr + Separator),
                r.s.logs)
  {
    var stem := BaseStem(file);
    var folder := temp + [stem];
    var r1 := Rename(s, file, q, w.rename);
    var r2 := Unpack(r1.s, q, temp, stem, w);
    var step := Steps(s, file, q, out, temp, w);
    if r2.Next? {
      var r3 := Finish(r2.s, folder, out, w);
      assert step == r3;
      FollowsTrans(s, r1.s, r2.s);
      FollowsExtends(r2.s, r3.s);
    }
  }

  /** A run on a `.sketch` folder: after the rename it copies the folder into
      the extraction folder, and fails at the copy exactly when the copy
      fails (fix-file.js:36-44). */
  lemma FolderIsCopied(arg: Option<Arg>, fs: Tree, w: World, file: Path)
    requires Validate(arg, w.cwd, fs) == Valid(file) && w.mkdtemp.Done?
    requires fs[file].Dir? && w.rename.Done?
    ensures var r := Run(arg, fs, w);
      var q := RenameTarget(arg, fs, w, file);
      && [Renamed(file, q), Copied(q, TempFolder(w) + [BaseStem(file)])] <= r.final.trace
      && (r.outcome == Failed(CopyFailed) <==> w.copy.IoError?)
  {
    var temp := TempFolder(w);
    var q := RenameTarget(arg, fs, w, file);
    var out := ArchiveTarget(arg, fs, w, file);
    var s0 := Start(fs[temp := Dir]);
    StepsFolderCopies(s0, file, q, out, temp, w);
    StepsFolderCopyFailure(s0, file, q, out, temp, w);
    var step := Steps(s0, file, q, out, temp, w);
    RunAfterTempFolder(arg, fs, w, file);
    var r := Run(arg, fs, w);
    assert r.final.trace == step.s.trace + [Removed(temp)];
    assert r.outcome == Failed(CopyFailed) <==> step.Stop? && step.failure == CopyFailed;
  }

  /** A run on a `.sketch` folder never starts `zip -FF` or `unzip`
      (fix-file.js:40-44). */
  lemma FolderSkipsArchiveTools(arg: Option<Arg>, fs: Tree, w: World, file: Path)
    requires Validate(arg, w.cwd, fs) == Valid(file) && w.mkdtemp.Done?
    requires fs[file].Dir? && w.rename.Done?
    ensures NoArchiveToolsFrom(Run(arg, fs, w).final.trace, 0)
  {
    var temp := TempFolder(w);
    var q := RenameTarget(arg, fs, w, file);
    var out := ArchiveTarget(arg, fs, w, file);
    var s0 := Start(fs[temp := Dir]);
    StepsFolderNoArchiveTools(s0, file, q, out, temp, w);
    var t := Steps(s0, file, q, out, temp, w).s.trace;
    NoArchiveAppend(t, Removed(temp), 0);
    RunAfterTempFolder(arg, fs, w, file);
    assert Run(arg, fs, w).final.trace == t + [Removed(temp)];
  }

  lemma NoArchiveAppend(t: seq<Command>, c: Command, k: nat)
    requires NoArchiveToolsFrom(t, k) && !c.Repaired? && !c.Extracted?
    ensures NoArchiveToolsFrom(t + [c], k)
  {
    assert forall i :: k <= i < |t| ==> (t + [c])[i] == t[i];
  }

  /** A run on a `.sketch` file whose repair fails: it stops right after
      `zip -FF`, with nothing extracted, nothing logged, and the target left
      at its quarantine name (fix-file.js:46-48, 110-111). */
  lemma RepairFailureAborts(arg: Option<Arg>, fs: Tree, w: World, file: Path)
    requires Validate(arg, w.cwd, fs) == Valid(file) && w.mkdtemp.Done?
    requires Fresh(fs, TempFolder(w)) && fs[file].File? && w.rename.Done? && w.repair.Err?
    ensures var r := Run(arg, fs, w);
      var q := RenameTarget(arg, fs, w, file);
      && r.outcome == Failed(RepairFailed)
      && r.final.trace == [Renamed(file, q), Repaired(q, TempFolder(w) + [BaseStem(file) + ZipExt]),
                           Removed(TempFolder(w))]
      && r.final.logs == Empty
  {
    var temp := TempFolder(w);
    var q := RenameTarget(arg, fs, w, file);
    var out := ArchiveTarget(arg, fs, w, file);
    assert file != temp;
    var t := [Renamed(file, q), Repaired(q, temp + [BaseStem(file) + ZipExt])];
    FreshStartRepairFailure(fs, file, q, out, temp, w);
    RunAfterTempFolder(arg, fs, w, file);
    var c := Cleanup(Steps(Start(fs[temp := Dir]), file, q, out, temp, w).s, temp);
    assert Run(arg, fs, w) == Report(Failed(RepairFailed), c);
    assert c.trace == t + [Removed(temp)];
  }

  lemma FreshStartRepairFailure(fs: Tree, file: Path, q: Path, out: Path, temp: Path, w: World)
    requires HasSketchExt(file) && file in fs && file != temp && fs[file].File?
    requires w.rename.Done? && w.repair.Err?
    ensures var r := Steps(Start(fs[temp := Dir]), file, q, out, temp, w);
      && r == Stop(r.s, RepairFailed) && r.s.logs == Empty
      && r.s.trace == [Renamed(file, q), Repaired(q, temp + [BaseStem(file) + ZipExt])]
  {
    var s0 := Start(fs[temp := Dir]);
    StepsRepairFailure(s0, file, q, out, temp, w);
    assert s0.trace + [Renamed(file, q), Repaired(q, temp + [BaseStem(file) + ZipExt])]
        == [Renamed(file, q), Repaired(q, temp + [BaseStem(file) + ZipExt])];
  }

  /** The extraction folder is not on the disk before `unzip` runs: the
      temporary folder was fresh and the rename moved nothing into it. */
  lemma NoFolderBeforeExtraction(fs: Tree, w: World, file: Path, q: Path)
    requires HasSketchExt(file) && file in fs && Fresh(fs, TempFolder(w))
    requires Apart(TempFolder(w), file) && Apart(TempFolder(w), q)
    ensures var temp := TempFolder(w);
      var stem := BaseStem(file);
      temp + [stem] !in Move(fs[temp := Dir], file, q)[temp + [stem + ZipExt] := File(w.repaired)]
  {
    var temp := TempFolder(w);
    var stem := BaseStem(file);
    var folder := temp + [stem];
    assert folder != temp + [stem + ZipExt] by {
      assert |folder[|temp|]| < |(temp + [stem + ZipExt])[|temp|]|;
    }
    if file <= folder {
      PrefixOfExtension(file, temp, [stem]);
    }
    if q <= folder {
      PrefixOfExtension(q, temp, [stem]);
    }
    MoveLeavesRest(fs[temp := Dir], file, q, folder);
    assert temp <= folder;
  }

  /** A run on a `.sketch` file whose repair succeeds always goes on to
      `unzip` (fix-file.js:48-55). */
  lemma FileIsRepairedThenExtracted(arg: Option<Arg>, fs: Tree, w: World, file: Path)
    requires Validate(arg, w.cwd, fs) == Valid(file) && w.mkdtemp.Done?
    requires Fresh(fs, TempFolder(w)) && fs[file].File? && w.rename.Done? && w.repair.Ok?
    ensures var r := Run(arg, fs, w);
      var q := RenameTarget(arg, fs, w, file);
      var zipFile := TempFolder(w) + [BaseStem(file) + ZipExt];
      [Renamed(file, q), Repaired(q, zipFile), Extracted(zipFile, TempFolder(w) + [BaseStem(file)])] <= r.final.trace
  {
    var temp := TempFolder(w);
    var q := RenameTarget(arg, fs, w, file);
    var out := ArchiveTarget(arg, fs, w, file);
    assert file != temp;
    var s0 := Start(fs[temp := Dir]);
    StepsFileExtracts(s0, file, q, out, temp, w);
    var t := Steps(s0, file, q, out, temp, w).s.trace;
    RunAfterTempFolder(arg, fs, w, file);
    assert Run(arg, fs, w).final.trace == t + [Removed(temp)];
    PrefixAppend([] + [Renamed(file, q), Repaired(q, temp + [BaseStem(file) + ZipExt]),
                       Extracted(temp + [BaseStem(file) + ZipExt], temp + [BaseStem(file)])], t, Removed(temp));
  }

  lemma PrefixAppend<T>(a: seq<T>, b: seq<T>, x: T)
    requires a <= b
    ensures a <= b + [x]
  {
    assert (b + [x])[..|a|] == b[..|a|];
  }

  /** A failing `unzip` ends the run exactly when it left no extraction
      folder behind; a successful one never does (fix-file.js:55-62). */
  lemma ExtractionTolerance(arg: Option<Arg>, fs: Tree, w: World, file: Path)
    requires Validate(arg, w.cwd, fs) == Valid(file) && w.mkdtemp.Done?
    requires Fresh(fs, TempFolder(w)) && Apart(TempFolder(w), file) && Apart(TempFolder(w), Quarantine(file))
    requires fs[file].File? && w.rename.Done? && w.repair.Ok?
    ensures Run(arg, fs, w).outcome == Failed(ExtractFailed) <==> w.extract.Err? && w.extracted.None?
  {
    var temp := TempFolder(w);
    var q := RenameTarget(arg, fs, w, file);
    var out := ArchiveTarget(arg, fs, w, file);
    assert file != temp;
    NoFolderBeforeExtraction(fs, w, file, q);
    FreshStartExtractFailure(fs, file, q, out, temp, w);
    RunAfterTempFolder(arg, fs, w, file);
  }

  /** `StepsExtractFailure` from the state right after `mkdtemp`, when the
      extraction folder is not on the disk yet. */
  lemma FreshStartExtractFailure(fs: Tree, file: Path, q: Path, out: Path, temp: Path, w: World)
    requires HasSketchExt(file) && file in fs && file != temp && fs[file].File?
    requires w.rename.Done? && w.repair.Ok?
    requires temp + [BaseStem(file)] !in Move(fs[temp := Dir], file, q)[temp + [BaseStem(file) + ZipExt] := File(w.repaired)]
    ensures var r := Steps(Start(fs[temp := Dir]), file, q, out, temp, w);
      (r.Stop? && r.failure == ExtractFailed) <==> w.extract.Err? && w.extracted.None?
  {
    StepsExtractFailure(Start(fs[temp := Dir]), file, q, out, temp, w);
  }

  /** Unless the extraction ends the run, the output of `zip -FF` and then that
      of `unzip` (even of a failing `unzip`) stay at the head of the final
      logs (fix-file.js:49-50, 59, 64-65). */
  lemma ExtractionLogged(arg: Option<Arg>, fs: Tree, w: World, file: Path)
    requires Validate(arg, w.cwd, fs) == Valid(file) && w.mkdtemp.Done?
    requires Fresh(fs, TempFolder(w)) && fs[file].File? && w.rename.Done? && w.repair.Ok?
    ensures var r := Run(arg, fs, w);
      r.outcome != Failed(ExtractFailed) ==>
        Extends(Append(Append(Empty, w.repair.stdout + Separator, w.repair.stderr + Separator),
                       w.extract.stdout + Separator, w.extract.stderr + Separator),
                r.final.logs)
  {
    var temp := TempFolder(w);
    var q := RenameTarget(arg, fs, w, file);
    var out := ArchiveTarget(arg, fs, w, file);
    var s0 := Start(fs[temp := Dir]);
    assert file != temp;
    var step := Steps(s0, file, q, out, temp, w);
    RunAfterTempFolder(arg, fs, w, file);
    var r := Run(arg, fs, w);
    assert r.final.logs == step.s.logs;
    assert r.outcome == Failed(ExtractFailed) <==> step.Stop? && step.failure == ExtractFailed;
    StepsExtractLogged(s0, file, q, out, temp, w);
  }
}
