/** What the final `zip -r` archives: the unpacked tree with the missing
    internal files put back (fix-file.js:38-104). */
module FixFileContents {
  import opened Paths
  import opened FileSystem
  import opened Exec
  import opened FixFile

  /** A tree of the extraction folder, keyed relative to it, after the missing
      `meta.json` and `user.json` were written from their fixtures. */
  function WithFixtures(t: Tree, w: World): Tree {
    var withMeta := if [MetaJson] in t then t else t[[MetaJson] := File(w.metaFixture)];
    if [UserJson] in withMeta then withMeta else withMeta[[UserJson] := File(w.userFixture)]
  }

  /** Reconciliation seen from inside the extraction folder: the folder's
      contents afterwards are its contents before, with the fixtures added
      where meta or user was missing (fix-file.js:72-95). */
  lemma ReconciledSubtree(before: Tree, after: Tree, folder: Path, w: World)
    requires Reconciled(before, after, folder, w)
    ensures Subtree(after, folder) == WithFixtures(Subtree(before, folder), w)
  {
    var a := Subtree(after, folder);
    var b := Subtree(before, folder);
    var c := WithFixtures(b, w);
    var meta := folder + [MetaJson];
    var user := folder + [UserJson];
    assert meta[|folder|..] == [MetaJson] && user[|folder|..] == [UserJson];
    assert [MetaJson] in b <==> meta in before by {
      if meta in before {
        SubtreeHas(before, folder, meta);
      }
    }
    assert [UserJson] in b <==> user in before by {
      if user in before {
        SubtreeHas(before, folder, user);
      }
    }
    forall r | r in a
      ensures r in c && a[r] == c[r]
    {
      var p := folder + r;
      assert p[|folder|..] == r;
      if r != [MetaJson] && r != [UserJson] {
        assert p != meta && p != user;
        SubtreeHas(before, folder, p);
      }
    }
    forall r | r in c
      ensures r in a
    {
      var p := folder + r;
      assert p[|folder|..] == r;
      if r != [MetaJson] && r != [UserJson] {
        assert p != meta && p != user;
      }
      SubtreeHas(after, folder, p);
    }
  }

  /** The tree the unpacking step leaves in the extraction folder, keyed
      relative to it: a copy of a quarantined folder, or the root folder
      `unzip` created together with what it extracted; nothing when it
      created no folder. */
  function Unpacked(fs: Tree, file: Path, w: World): Tree
    requires file in fs
  {
    if fs[file].Dir? then Subtree(fs, file)
    else match w.extracted
      case Some(t) => t[[] := Dir]
      case None => map[]
  }

  /** The unpacking step lets the run go on: the copy of a folder succeeded,
      or the repair of a file succeeded and `unzip` either succeeded or left a
      folder behind. */
  predicate UnpackSucceeds(fs: Tree, file: Path, w: World)
    requires file in fs
  {
    if fs[file].Dir? then w.copy.Done?
    else w.repair.Ok? && (w.extract.Ok? || w.extracted.Some?)
  }

  /** Nothing is inside the extraction folder after the rename: the temporary
      folder was fresh and lies apart from both ends of the rename. */
  lemma FolderFreshAfterRename(fs: Tree, file: Path, q: Path, temp: Path)
    requires HasSketchExt(file) && Fresh(fs, temp) && Apart(temp, file) && Apart(temp, q)
    ensures Fresh(Move(fs[temp := Dir], file, q), temp + [BaseStem(file)])
  {
    var folder := temp + [BaseStem(file)];
    assert temp <= folder;
    if q <= folder {
      PrefixOfExtension(q, temp, [BaseStem(file)]);
    }
    MoveKeepsFresh(fs[temp := Dir], file, q, folder);
  }

  /** A subtree of a place that holds nothing is empty. */
  lemma SubtreeOfFresh(fs: Tree, dir: Path)
    requires Fresh(fs, dir)
    ensures Subtree(fs, dir) == map[]
  {
    var t := Subtree(fs, dir);
    assert forall r | r in t :: dir + r in fs && dir <= dir + r;
  }

  /** Unpacking a quarantined folder: the extraction folder receives exactly
      the target's original contents (fix-file.js:40-44). */
  lemma UnpackFolderContents(s: State, fs: Tree, file: Path, q: Path, temp: Path, w: World)
    requires HasSketchExt(file) && file in fs && fs[file].Dir?
    requires Fresh(fs, temp) && Apart(temp, file) && Apart(temp, q)
    requires s.fs == Move(fs[temp := Dir], file, q)
    ensures var r := CopyFolder(s, q, temp + [BaseStem(file)], w);
      r.Next? ==> Subtree(r.s.fs, temp + [BaseStem(file)]) == Subtree(fs, file)
  {
    var folder := temp + [BaseStem(file)];
    var r := CopyFolder(s, q, folder, w);
    if r.Next? {
      FolderFreshAfterRename(fs, file, q, temp);
      GraftSubtree(s.fs, Subtree(s.fs, q), folder);
      MoveCarriesSubtree(fs[temp := Dir], file, q);
      SubtreeWriteOutside(fs, file, temp, Dir);
    }
  }

  /** What `unzip` leaves in a folder that did not exist before: the folder
      it created, or nothing. */
  lemma UnzippedSubtree(before: Tree, folder: Path, extracted: Option<Tree>)
    requires Fresh(before, folder)
    ensures var after := Unzipped(before, folder, extracted);
      && (folder in after <==> extracted.Some?)
      && Subtree(after, folder) == (match extracted case Some(t) => t[[] := Dir] case None => map[])
  {
    assert folder <= folder;
    match extracted
    case Some(t) =>
      GraftSubtree(before, t[[] := Dir], folder);
    case None =>
      SubtreeOfFresh(before, folder);
  }

  /** Unpacking a quarantined file: the extraction folder holds what `unzip`
      left there, and the run goes on exactly when the repair succeeded and
      `unzip` succeeded or left a folder (fix-file.js:46-66). */
  lemma UnpackFileContents(s: State, fs: Tree, file: Path, q: Path, temp: Path, w: World)
    requires HasSketchExt(file) && file in fs && fs[file].File?
    requires Fresh(fs, temp) && Apart(temp, file) && Apart(temp, q)
    requires s.fs == Move(fs[temp := Dir], file, q)
    ensures var r := RepairArchive(s, q, temp + [BaseStem(file) + ZipExt], temp + [BaseStem(file)], w);
      && (r.Next? <==> w.repair.Ok? && (w.extract.Ok? || w.extracted.Some?))
      && (r.Next? ==> Subtree(r.s.fs, temp + [BaseStem(file)]) == Unpacked(fs, file, w))
  {
    var stem := BaseStem(file);
    var folder := temp + [stem];
    var zipFile := temp + [stem + ZipExt];
    if w.repair.Ok? {
      FolderFreshAfterRename(fs, file, q, temp);
      assert !(folder <= zipFile) by {
        assert |folder[|temp|]| < |zipFile[|temp|]|;
      }
      FreshWrite(s.fs, folder, zipFile, File(w.repaired));
      UnzippedSubtree(s.fs[zipFile := File(w.repaired)], folder, w.extracted);
    }
  }

  /** Unpacking after the rename, whatever the target's type. */
  lemma UnpackContents(s: State, fs: Tree, file: Path, q: Path, temp: Path, w: World)
    requires HasSketchExt(file) && file in fs
    requires Fresh(fs, temp) && Apart(temp, file) && Apart(temp, q)
    requires s.fs == Move(fs[temp := Dir], file, q)
    ensures var r := Unpack(s, q, temp, BaseStem(file), w);
      && (r.Next? <==> UnpackSucceeds(fs, file, w))
      && (r.Next? ==> Subtree(r.s.fs, temp + [BaseStem(file)]) == Unpacked(fs, file, w))
  {
    if fs[file].Dir? {
      UnpackFolderContents(s, fs, file, q, temp, w);
    } else {
      UnpackFileContents(s, fs, file, q, temp, w);
    }
  }

  /** A key is in a folder's subtree exactly when the folder holds it. */
  lemma InSubtree(fs: Tree, dir: Path, r: Path)
    ensures r in Subtree(fs, dir) <==> dir + r in fs
  {
    assert (dir + r)[|dir|..] == r;
    if dir + r in fs {
      SubtreeHas(fs, dir, dir + r);
    }
  }

  /** The last two operations of `t` are `a` and then `b`. */
  predicate LastTwoAre(t: seq<Command>, a: Command, b: Command) {
    |t| >= 2 && t[|t| - 2] == a && t[|t| - 1] == b
  }

  /** Reconciliation followed by a successful repack archives the folder's
      contents with the missing internal files added back; only the removal
      of the temporary folder follows (fix-file.js:72-104, 109). */
  lemma FinishPacked(s: State, folder: Path, out: Path, temp: Path, w: World)
    ensures var r := Finish(s, folder, out, w);
      r.Next? ==>
        LastTwoAre(r.s.trace + [Removed(temp)], Packed(folder, WithFixtures(Subtree(s.fs, folder), w), out), Removed(temp))
  {
    var rc := Reconcile(s, folder, w);
    if rc.Next? {
      ReconciledSubtree(s.fs, rc.s.fs, folder, w);
      var r := Repack(rc.s, folder, out, w);
      assert Finish(s, folder, out, w) == r;
      LastTwo(r.s.trace, Removed(temp), Packed(folder, WithFixtures(Subtree(s.fs, folder), w), out));
    }
  }

  /** After a successful chain, the repack of the unpacked tree with the
      missing internal files added back is followed only by the removal of
      the temporary folder (fix-file.js:72-104, 109). */
  lemma StepsPacked(fs: Tree, file: Path, q: Path, out: Path, temp: Path, w: World)
    requires HasSketchExt(file) && file in fs
    requires Fresh(fs, temp) && Apart(temp, file) && Apart(temp, q)
    requires w.rename.Done?
    ensures var step := Steps(Start(fs[temp := Dir]), file, q, out, temp, w);
      step.Next? ==>
        LastTwoAre(step.s.trace + [Removed(temp)],
                 Packed(temp + [BaseStem(file)], WithFixtures(Unpacked(fs, file, w), w), out), Removed(temp))
  {
    var s0 := Start(fs[temp := Dir]);
    var stem := BaseStem(file);
    var folder := temp + [stem];
    var r1 := Rename(s0, file, q, w.rename);
    var r2 := Unpack(r1.s, q, temp, stem, w);
    UnpackContents(r1.s, fs, file, q, temp, w);
    StepsAfterRename(s0, file, q, out, temp, w);
    if r2.Next? {
      FinishPacked(r2.s, folder, out, temp, w);
    }
  }

  /** A run that unpacked its target fails for a missing `document.json`
      exactly when the unpacked tree has none; nothing else produces that
      failure (fix-file.js:73-77). */
  lemma StepsDocument(fs: Tree, file: Path, q: Path, out: Path, temp: Path, w: World)
    requires HasSketchExt(file) && file in fs
    requires Fresh(fs, temp) && Apart(temp, file) && Apart(temp, q)
    requires w.rename.Done?
    ensures var step := Steps(Start(fs[temp := Dir]), file, q, out, temp, w);
      (step.Stop? && step.failure == DocumentMissing)
        <==> (UnpackSucceeds(fs, file, w) && [DocumentJson] !in Unpacked(fs, file, w))
  {
    var s0 := Start(fs[temp := Dir]);
    var stem := BaseStem(file);
    var folder := temp + [stem];
    var r1 := Rename(s0, file, q, w.rename);
    var r2 := Unpack(r1.s, q, temp, stem, w);
    UnpackContents(r1.s, fs, file, q, temp, w);
    var step := Steps(s0, file, q, out, temp, w);
    if r2.Next? {
      assert step == Finish(r2.s, folder, out, w);
      InSubtree(r2.s.fs, folder, [DocumentJson]);
      var rc := Reconcile(r2.s, folder, w);
      if rc.Next? {
        assert step == Repack(rc.s, folder, out, w);
      }
    }
  }

  /** A successful run archived, at the archive path, exactly the target's
      unpacked contents with any missing `meta.json` or `user.json` written
      from the fixtures; the removal of the temporary folder comes after
      (fix-file.js:38-109). */
  lemma PackedContents(arg: Option<Arg>, fs: Tree, w: World, file: Path)
    requires Validate(arg, w.cwd, fs) == Valid(file)
    requires Fresh(fs, TempFolder(w)) && Apart(TempFolder(w), file) && Apart(TempFolder(w), Quarantine(file))
    ensures var r := Run(arg, fs, w);
      r.outcome.Fixed? ==>
        LastTwoAre(r.final.trace,
                   Packed(TempFolder(w) + [BaseStem(file)], WithFixtures(Unpacked(fs, file, w), w),
                          ArchiveTarget(arg, fs, w, file)),
                   Removed(TempFolder(w)))
  {
    if w.mkdtemp.Done? {
      RunAfterTempFolder(arg, fs, w, file);
      PackedBeforeCleanup(arg, fs, w, file);
    }
  }

  /** The same, stated on the chain of steps followed by the removal of the
      temporary folder. */
  lemma PackedBeforeCleanup(arg: Option<Arg>, fs: Tree, w: World, file: Path)
    requires Validate(arg, w.cwd, fs) == Valid(file) && w.mkdtemp.Done?
    requires Fresh(fs, TempFolder(w)) && Apart(TempFolder(w), file) && Apart(TempFolder(w), Quarantine(file))
    ensures var temp := TempFolder(w);
      var step := Steps(Start(fs[temp := Dir]), file, RenameTarget(arg, fs, w, file), ArchiveTarget(arg, fs, w, file), temp, w);
      step.Next? ==>
        LastTwoAre(Cleanup(step.s, temp).trace,
                 Packed(temp + [BaseStem(file)], WithFixtures(Unpacked(fs, file, w), w), ArchiveTarget(arg, fs, w, file)),
                 Removed(temp))
  {
    if w.rename.Done? {
      StepsPacked(fs, file, RenameTarget(arg, fs, w, file), ArchiveTarget(arg, fs, w, file), TempFolder(w), w);
    }
  }

  lemma LastTwo(a: seq<Command>, x: Command, y: Command)
    requires |a| > 0 && a[|a| - 1] == y
    ensures LastTwoAre(a + [x], y, x)
  {
  }

  /** Once the target is unpacked, the run fails for a missing
      `document.json` exactly when the unpacked tree lacks it
      (fix-file.js:73-77). */
  lemma DocumentRequired(arg: Option<Arg>, fs: Tree, w: World, file: Path)
    requires Validate(arg, w.cwd, fs) == Valid(file)
    requires Fresh(fs, TempFolder(w)) && Apart(TempFolder(w), file) && Apart(TempFolder(w), Quarantine(file))
    requires w.mkdtemp.Done? && w.rename.Done? && UnpackSucceeds(fs, file, w)
    ensures Run(arg, fs, w).outcome == Failed(DocumentMissing) <==> [DocumentJson] !in Unpacked(fs, file, w)
  {
    RunAfterTempFolder(arg, fs, w, file);
    StepsDocument(fs, file, RenameTarget(arg, fs, w, file), ArchiveTarget(arg, fs, w, file), TempFolder(w), w);
  }
}
