/** The repair script fix-file.js as a pure state transition: validate the
    argument, make the temporary folder, rename the target to its quarantine
    name, unpack it (copy a folder, or repair and extract an archive), put back
    missing internal files, repack, and always remove the temporary folder.
    Every external effect is read from a `World`. */
module FixFile {
  import opened Paths
  import opened FileSystem
  import opened DiagnosticLog
  import opened Exec

  /** The command-line argument `process.argv[2]`, already split at the
      separators: whether it was absolute, its components, and whether it was
      written with a trailing separator. A missing or empty argument is None. */
  datatype Arg = Arg(absolute: bool, parts: seq<Name>, trailingSep: bool)

  datatype Failure =
    | MissingArgument
    | NotFound
    | WrongExtension
    | TempFolderFailed
    | RenameFailed
    | CopyFailed
    | RepairFailed
    | ExtractFailed
    | DocumentMissing
    | WriteFailed
    | RepackFailed
  {
    /** The failures that end the run before anything is created: the three
        checks, and `mkdtempSync` throwing outside the promise chain. */
    predicate Early() {
      MissingArgument? || NotFound? || WrongExtension? || TempFolderFailed?
    }
  }

  datatype Outcome = Fixed | Failed(failure: Failure)

  /** `process.exit(1)` on every failure; a normal exit otherwise. */
  function ExitStatus(o: Outcome): (code: nat)
    ensures code == 0 <==> o.Fixed?
    ensures o.Failed? ==> code == 1
  {
    if o.Fixed? then 0 else 1
  }

  /** The filesystem operations and external commands, in the order the
      script starts them. */
  datatype Command =
    | Renamed(from: Path, to: Path)
    | Copied(from: Path, to: Path)
    | Repaired(archive: Path, out: Path)
    | Extracted(archive: Path, into: Path)
    | Wrote(path: Path)
    | Packed(folder: Path, contents: Tree, out: Path)
    | Removed(dir: Path)

  /** Everything the script cannot decide by itself: the working directory,
      the name `mkdtempSync` picks, how each operation ends, and what each
      external command leaves on disk. */
  datatype World = World(
    cwd: Path,
    tempName: Name,
    mkdtemp: IoResult,       // whether `mkdtempSync` could create the folder
    rename: IoResult,
    copy: IoResult,
    repair: CommandResult,
    repaired: Bytes,         // what `zip -FF` writes at the temporary archive
    extract: CommandResult,
    extracted: Option<Tree>, // the folder `unzip` leaves behind, if any
    writeMeta: IoResult,
    writeUser: IoResult,
    repack: CommandResult,
    archive: Bytes,          // what `zip -r` writes at the archive path
    metaFixture: Bytes,      // `JSON.stringify(require('./fixtures/meta.json'))`
    userFixture: Bytes)      // `JSON.stringify(require('./fixtures/user.json'))`

  const DocumentJson: Name := "document.json"
  const MetaJson: Name := "meta.json"
  const UserJson: Name := "user.json"

  /** The texts the script itself writes to the logs (fix-file.js:42, 75, 81,
      90, 97). */
  const FolderNote: string := "It's a folder with a `.sketch` extension at the end"
  const DocumentMissingNote: string := "document.json missing"
  const RepackMarker: string := "\n-----------------\n\n"

  function MissingNote(name: Name): string {
    "!! " + name + " missing. Adding it back\n"
  }

  /** The note logged for an optional internal file: none when it is present. */
  function NoteIfMissing(fs: Tree, folder: Path, name: Name): string {
    if folder + [name] in fs then "" else MissingNote(name)
  }

  /** The run so far: the disk, the two log streams, every snapshot the logs
      went through, and the operations started. */
  datatype State = State(fs: Tree, logs: Logs, history: seq<Logs>, trace: seq<Command>) {

    ghost predicate Valid() {
      |history| > 0 && history[|history| - 1] == logs && Growing(history)
    }

    function Log(out: string, err: string): (r: State)
      ensures r.fs == fs && r.trace == trace && history <= r.history
      ensures Extends(logs, r.logs)
      ensures Valid() ==> r.Valid()
    {
      var l := Append(logs, out, err);
      GrowingAppend(history, l);
      this.(logs := l, history := history + [l])
    }

    function Invoke(c: Command): State {
      this.(trace := trace + [c])
    }
  }

  function Start(fs: Tree): (s: State)
    ensures s.Valid() && s.logs == Empty
  {
    State(fs, Empty, [Empty], [])
  }

  /** `r` continues `s`: the log history and the trace only grow. */
  ghost predicate Follows(s: State, r: State) {
    && s.history <= r.history
    && s.trace <= r.trace
    && (s.Valid() ==> r.Valid())
  }

  /** Every operation `r` started after `s` is a file write. */
  ghost predicate OnlyWrites(s: State, r: State) {
    s.trace <= r.trace && forall i :: |s.trace| <= i < |r.trace| ==> r.trace[i].Wrote?
  }

  lemma FollowsTrans(a: State, b: State, c: State)
    requires Follows(a, b) && Follows(b, c)
    ensures Follows(a, c)
  {
  }

  /** A valid state's logs are a prefix of the logs of every state that
      follows it. */
  lemma FollowsExtends(a: State, b: State)
    requires a.Valid() && Follows(a, b)
    ensures Extends(a.logs, b.logs)
  {
    var k := |a.history| - 1;
    assert b.history[k] == a.history[k];
    ExtendsAlong(b.history, k, |b.history| - 1);
  }

  datatype Step = Next(s: State) | Stop(s: State, failure: Failure) {
    predicate IsFailure() {
      Stop?
    }

    function PropagateFailure(): Step
      requires Stop?
    {
      this
    }

    function Extract(): State
      requires Next?
    {
      s
    }
  }

  /** The resolved target, or the early failure (fix-file.js:9-26). */
  datatype Checked = Valid(file: Path) | Invalid(failure: Failure)

  /** `path.join(process.cwd(), file)` for a relative argument. */
  function Resolve(cwd: Path, a: Arg): (p: Path)
    ensures a.absolute ==> p == a.parts
    ensures !a.absolute ==> |p| == |cwd| + |a.parts| && p[..|cwd|] == cwd
    ensures p[|p| - |a.parts|..] == a.parts
  {
    if a.absolute then a.parts else cwd + a.parts
  }

  /** `fs.existsSync`: a path written with a trailing separator only exists
      when it is a folder. */
  predicate ExistsSync(fs: Tree, p: Path, trailingSep: bool): (b: bool)
    ensures b ==> p in fs
    ensures b && trailingSep ==> fs[p].Dir?
    ensures p in fs && (!trailingSep || fs[p].Dir?) ==> b
  {
    p in fs && (trailingSep ==> fs[p].Dir?)
  }

  /** The three checks, in the script's order: an argument, an existing entry,
      then the `.sketch` extension. */
  function Validate(arg: Option<Arg>, cwd: Path, fs: Tree): (c: Checked)
    ensures arg.None? <==> c == Invalid(MissingArgument)
    ensures c == Invalid(NotFound) <==>
              arg.Some? && !ExistsSync(fs, Resolve(cwd, arg.value), arg.value.trailingSep)
    ensures c == Invalid(WrongExtension) <==>
              arg.Some? && ExistsSync(fs, Resolve(cwd, arg.value), arg.value.trailingSep)
              && !HasSketchExt(Resolve(cwd, arg.value))
    ensures c.Invalid? ==> c.failure in {MissingArgument, NotFound, WrongExtension}
    ensures (arg.Some? && ExistsSync(fs, Resolve(cwd, arg.value), arg.value.trailingSep)
             && HasSketchExt(Resolve(cwd, arg.value))) ==> c == Valid(Resolve(cwd, arg.value))
    ensures c.Valid? ==> c.file in fs && HasSketchExt(c.file) && c.file == Resolve(cwd, arg.value)
  {
    match arg
    case None => Invalid(MissingArgument)
    case Some(a) =>
      var file := Resolve(cwd, a);
      if !ExistsSync(fs, file, a.trailingSep) then Invalid(NotFound)
      else if !HasSketchExt(file) then Invalid(WrongExtension)
      else Valid(file)
  }

  /** `corruptedFile` as fix-file.js:28 computes it: the replacement acts on
      the argument's text, so an argument written with a trailing separator
      keeps its own path, and any other argument gets the quarantine path. */
  function CorruptedPath(a: Arg, file: Path): (q: Path)
    requires HasSketchExt(file)
    ensures Render(q, a.trailingSep) == ReplaceSketchSuffix(Render(file, a.trailingSep))
    ensures q == Quarantine(file) <==> !a.trailingSep
    ensures q == file <==> a.trailingSep
  {
    if a.trailingSep then
      TrailingSeparatorDefeatsReplacement(file);
      file
    else
      QuarantineMatchesReplacement(file);
      Quarantine(file)
  }

  /** The folder `mkdtempSync` creates, relative to the working directory
      (fix-file.js:30). */
  function TempFolder(w: World): (t: Path)
    ensures |t| == |w.cwd| + 1 && t[..|w.cwd|] == w.cwd && Last(t) == w.tempName
  {
    w.cwd + [w.tempName]
  }

  /** `fs.rename(file, corruptedFile)` (fix-file.js:36). */
  function Rename(s: State, file: Path, q: Path, io: IoResult): (r: Step)
    ensures Follows(s, r.s) && r.s.logs == s.logs
    ensures r.s.trace == s.trace + [Renamed(file, q)]
    ensures r.Next? <==> io.Done?
    ensures r.Stop? ==> r.failure == RenameFailed && r.s.fs == s.fs
    ensures r.Next? ==> r.s.fs == Move(s.fs, file, q)
    ensures r.Next? && file in s.fs ==> q in r.s.fs && r.s.fs[q] == s.fs[file]
  {
    var s1 := s.Invoke(Renamed(file, q));
    if io.Done? then Next(s1.(fs := Move(s.fs, file, q))) else Stop(s1, RenameFailed)
  }

  /** The folder `unzip` extracts into, laid over the disk; no folder when the
      command created none. */
  function Unzipped(fs: Tree, folder: Path, extracted: Option<Tree>): (r: Tree)
    ensures folder in r <==> folder in fs || extracted.Some?
    ensures AgreeOutside(fs, r, folder)
  {
    match extracted
    case None => fs
    case Some(t) =>
      var r := Graft(fs, t[[] := Dir], folder);
      assert folder[|folder|..] == [];
      r
  }

  /** `unzip "<zipFile>" -d "<zipFolder>"` and its error handler
      (fix-file.js:55-66): a failure is forgiven exactly when the folder exists
      afterwards, and the output is logged in either case the run goes on. */
  function Unzip(s: State, zipFile: Path, zipFolder: Path, w: World): (r: Step)
    ensures Follows(s, r.s)
    ensures r.s.trace == s.trace + [Extracted(zipFile, zipFolder)]
    ensures r.s.fs == Unzipped(s.fs, zipFolder, w.extracted)
    ensures r.Stop? <==> w.extract.Err? && zipFolder !in r.s.fs
    ensures r.Stop? ==> r.failure == ExtractFailed && r.s.logs == s.logs
    ensures r.Next? ==>
              r.s.logs == Append(s.logs, w.extract.stdout + Separator, w.extract.stderr + Separator)
  {
    var fs1 := Unzipped(s.fs, zipFolder, w.extracted);
    var s1 := s.(fs := fs1).Invoke(Extracted(zipFile, zipFolder));
    if w.extract.Err? && zipFolder !in fs1 then Stop(s1, ExtractFailed)
    else Next(s1.Log(w.extract.stdout + Separator, w.extract.stderr + Separator))
  }

  /** `fs.copy(corruptedFile, zipFolder, {recursive: true})`, after a note on
      both streams (fix-file.js:40-44). */
  function CopyFolder(s: State, q: Path, folder: Path, w: World): (r: Step)
    ensures Follows(s, r.s)
    ensures r.s.trace == s.trace + [Copied(q, folder)]
    ensures r.Next? <==> w.copy.Done?
    ensures r.Stop? ==> r.failure == CopyFailed && r.s.fs == s.fs
    ensures r.Next? ==> r.s.fs == Copy(s.fs, q, folder)
    ensures AgreeOutside(s.fs, r.s.fs, folder)
    ensures r.s.logs == Logs(s.logs.stdout + FolderNote + Separator, s.logs.stderr + Separator)
  {
    var out := FolderNote + Separator;
    var s1 := s.Log(out, Separator).Invoke(Copied(q, folder));
    assert s1.logs.stdout == s.logs.stdout + FolderNote + Separator;
    if w.copy.Done? then Next(s1.(fs := Copy(s1.fs, q, folder))) else Stop(s1, CopyFailed)
  }

  /** `yes | zip -FF "<q>" --out="<zipFile>"`, its output logged, then the
      extraction (fix-file.js:46-68). A failing repair is not caught: the run
      stops with nothing logged. */
  function RepairArchive(s: State, q: Path, zipFile: Path, folder: Path, w: World): (r: Step)
    ensures Follows(s, r.s)
    ensures w.repair.Err? ==>
              && r == Stop(r.s, RepairFailed)
              && r.s.trace == s.trace + [Repaired(q, zipFile)]
              && r.s.logs == s.logs && r.s.fs == s.fs
    ensures w.repair.Ok? ==>
              && r.s.trace == s.trace + [Repaired(q, zipFile), Extracted(zipFile, folder)]
              && r.s.fs == Unzipped(s.fs[zipFile := File(w.repaired)], folder, w.extracted)
              && (r.Stop? <==> w.extract.Err? && folder !in r.s.fs)
    ensures w.repair.Ok? && r.Next? ==>
              r.s.logs == Append(Append(s.logs, w.repair.stdout + Separator, w.repair.stderr + Separator),
                                 w.extract.stdout + Separator, w.extract.stderr + Separator)
    ensures r.Stop? ==> r.failure in {RepairFailed, ExtractFailed}
  {
    var s1 := s.Invoke(Repaired(q, zipFile));
    match w.repair
    case Err(_, _) => Stop(s1, RepairFailed)
    case Ok(out, err) =>
      var s2 := s1.Log(out + Separator, err + Separator).(fs := s1.fs[zipFile := File(w.repaired)]);
      var r := Unzip(s2, zipFile, folder, w);
      FollowsTrans(s, s2, r.s);
      r
  }

  /** The branch on the quarantined entry's type (fix-file.js:38-68): a folder
      is copied into the extraction folder, a file is repaired and extracted.
      Everything either branch writes lies inside the temporary folder. */
  function Unpack(s: State, q: Path, temp: Path, stem: Name, w: World): (r: Step)
    requires q in s.fs
    ensures Follows(s, r.s)
    ensures AgreeOutside(s.fs, r.s.fs, temp)
    ensures s.fs[q].Dir? ==> r == CopyFolder(s, q, temp + [stem], w)
    ensures s.fs[q].File? ==> r == RepairArchive(s, q, temp + [stem + ZipExt], temp + [stem], w)
    ensures r.Stop? ==> r.failure in {CopyFailed, RepairFailed, ExtractFailed}
  {
    var zipFile := temp + [stem + ZipExt];
    var zipFolder := temp + [stem];
    assert temp <= zipFolder && temp <= zipFile;
    if s.fs[q].Dir? then
      var r := CopyFolder(s, q, zipFolder, w);
      AgreeWithin(s.fs, r.s.fs, zipFolder, temp);
      r
    else
      var r := RepairArchive(s, q, zipFile, zipFolder, w);
      if w.repair.Ok? then
        var before := s.fs[zipFile := File(w.repaired)];
        AgreeWrite(s.fs, zipFile, File(w.repaired), temp);
        AgreeWithin(before, r.s.fs, zipFolder, temp);
        AgreeTrans(s.fs, before, r.s.fs, temp);
        r
      else r
  }

  /** One optional internal file (fix-file.js:79-94): left alone when present,
      otherwise written from its fixture after a note in the log. */
  function Restore(s: State, folder: Path, name: Name, fixture: Bytes, io: IoResult): (r: Step)
    ensures Follows(s, r.s)
    ensures r.Stop? <==> folder + [name] !in s.fs && io.IoError?
    ensures r.Stop? ==> r.failure == WriteFailed
    ensures r.Next? ==> folder + [name] in r.s.fs
    ensures r.Next? && folder + [name] in s.fs ==> r.s == s
    ensures r.Next? && folder + [name] !in s.fs ==> r.s.fs[folder + [name]] == File(fixture)
    ensures forall p :: p != folder + [name] ==> (p in r.s.fs <==> p in s.fs)
    ensures forall p :: p in s.fs && p != folder + [name] ==> r.s.fs[p] == s.fs[p]
    ensures AgreeOutside(s.fs, r.s.fs, folder)
    ensures OnlyWrites(s, r.s)
    ensures r.s.logs == Logs(s.logs.stdout + NoteIfMissing(s.fs, folder, name), s.logs.stderr)
  {
    var path := folder + [name];
    if path in s.fs then Next(s)
    else
      var s1 := s.Log(MissingNote(name), "").Invoke(Wrote(path));
      assert folder <= path;
      AgreeWrite(s.fs, path, File(fixture), folder);
      if io.Done? then Next(s1.(fs := s1.fs[path := File(fixture)])) else Stop(s1, WriteFailed)
  }

  /** The three existence checks (fix-file.js:72-95), taken in the order
      document, meta, user. A missing document fails the run; a missing meta or
      user file is written from its fixture; present files are not touched. */
  function Reconcile(s: State, folder: Path, w: World): (r: Step)
    ensures Follows(s, r.s)
    ensures r.Stop? && r.failure == DocumentMissing <==> folder + [DocumentJson] !in s.fs
    ensures r.Stop? ==> r.failure in {DocumentMissing, WriteFailed}
    ensures r.Next? ==>
              && (folder + [MetaJson] in s.fs || w.writeMeta.Done?)
              && (folder + [UserJson] in s.fs || w.writeUser.Done?)
    ensures (&& folder + [DocumentJson] in s.fs
             && (folder + [MetaJson] in s.fs || w.writeMeta.Done?)
             && (folder + [UserJson] in s.fs || w.writeUser.Done?)) ==> r.Next?
    ensures r.Next? ==> Reconciled(s.fs, r.s.fs, folder, w)
    ensures AgreeOutside(s.fs, r.s.fs, folder)
    ensures OnlyWrites(s, r.s)
    ensures folder + [DocumentJson] !in s.fs ==>
              r.s.logs == Logs(s.logs.stdout, s.logs.stderr + DocumentMissingNote)
    ensures folder + [DocumentJson] in s.fs ==>
              var metaFails := folder + [MetaJson] !in s.fs && w.writeMeta.IoError?;
              r.s.logs == Logs(s.logs.stdout + NoteIfMissing(s.fs, folder, MetaJson)
                                 + (if metaFails then "" else NoteIfMissing(s.fs, folder, UserJson)),
                               s.logs.stderr)
  {
    var doc := folder + [DocumentJson];
    if doc !in s.fs then Stop(s.Log("", DocumentMissingNote), DocumentMissing)
    else
      InternalFilesDistinct(folder);
      var s1 :- Restore(s, folder, MetaJson, w.metaFixture, w.writeMeta);
      var r := Restore(s1, folder, UserJson, w.userFixture, w.writeUser);
      AgreeTrans(s.fs, s1.fs, r.s.fs, folder);
      assert NoteIfMissing(s1.fs, folder, UserJson) == NoteIfMissing(s.fs, folder, UserJson);
      r
  }

  /** The document, meta and user files of one folder are three different paths. */
  lemma InternalFilesDistinct(folder: Path)
    ensures folder + [DocumentJson] != folder + [MetaJson]
    ensures folder + [DocumentJson] != folder + [UserJson]
    ensures folder + [MetaJson] != folder + [UserJson]
  {
    assert (folder + [DocumentJson])[|folder|] == DocumentJson;
    assert (folder + [MetaJson])[|folder|] == MetaJson;
    assert (folder + [UserJson])[|folder|] == UserJson;
  }

  /** What reconciliation leaves behind in the extraction folder: the document
      as it was, meta and user present (as they were, or the fixture), and
      nothing else changed. */
  ghost predicate Reconciled(before: Tree, after: Tree, folder: Path, w: World) {
    var doc := folder + [DocumentJson];
    var meta := folder + [MetaJson];
    var user := folder + [UserJson];
    && doc in before && doc in after && after[doc] == before[doc]
    && meta in after && after[meta] == (if meta in before then before[meta] else File(w.metaFixture))
    && user in after && after[user] == (if user in before then before[user] else File(w.userFixture))
    && (forall p :: p != meta && p != user ==> (p in after <==> p in before))
    && (forall p :: p in before && p != meta && p != user ==> after[p] == before[p])
  }

  /** `cd "<zipFolder>" && zip -r "<file>" .` (fix-file.js:96-104): archives the
      folder's current contents at `out`, the archive path `zip` derives from
      the argument. Its failure is not caught. */
  function Repack(s: State, folder: Path, out: Path, w: World): (r: Step)
    ensures Follows(s, r.s)
    ensures r.s.trace == s.trace + [Packed(folder, Subtree(s.fs, folder), out)]
    ensures r.Next? <==> w.repack.Ok?
    ensures r.Next? ==> r.s.fs == s.fs[out := File(w.archive)]
    ensures r.Stop? ==> r.failure == RepackFailed && r.s.fs == s.fs
    ensures r.Next? ==> r.s.logs == Logs(s.logs.stdout + RepackMarker + w.repack.stdout + Separator,
                                         s.logs.stderr + w.repack.stderr + Separator)
    ensures r.Stop? ==> r.s.logs == Logs(s.logs.stdout + RepackMarker, s.logs.stderr)
  {
    var s1 := s.Log(RepackMarker, "").Invoke(Packed(folder, Subtree(s.fs, folder), out));
    match w.repack
    case Err(_, _) => Stop(s1, RepackFailed)
    case Ok(stdout, stderr) =>
      Next(s1.Log(stdout + Separator, stderr + Separator).(fs := s1.fs[out := File(w.archive)]))
  }

  /** Reconciliation followed by the repack (fix-file.js:70-104): the only
      operations started are file writes and the final `zip -r`. */
  function Finish(s: State, folder: Path, out: Path, w: World): (r: Step)
    ensures Follows(s, r.s)
    ensures forall i :: |s.trace| <= i < |r.s.trace| ==> r.s.trace[i].Wrote? || r.s.trace[i].Packed?
    ensures r.Stop? ==> r.failure in {DocumentMissing, WriteFailed, RepackFailed}
    ensures r.Stop? ==> AgreeOutside(s.fs, r.s.fs, folder)
    ensures r.Next? ==> AgreeOutside(s.fs[out := File(w.archive)], r.s.fs, folder)
  {
    var r3 := Reconcile(s, folder, w);
    if r3.Stop? then r3
    else
      var r4 := Repack(r3.s, folder, out, w);
      AgreeBothWrite(s.fs, r3.s.fs, out, File(w.archive), folder);
      FollowsTrans(s, r3.s, r4.s);
      r4
  }

  /** The promise chain after the temporary folder exists (fix-file.js:36-108),
      renaming the target to `q` and writing the archive at `out`. Outside the
      temporary folder, the disk is the target moved to `q`, plus the rebuilt
      archive when the chain succeeds. */
  function Steps(s: State, file: Path, q: Path, out: Path, temp: Path, w: World): (r: Step)
    requires HasSketchExt(file) && file in s.fs
    ensures Follows(s, r.s)
    ensures w.rename.IoError? ==> r == Stop(r.s, RenameFailed) && r.s.fs == s.fs
    ensures r.Next? ==> AgreeOutside(Move(s.fs, file, q)[out := File(w.archive)], r.s.fs, temp)
    ensures r.Stop? && w.rename.Done? ==> AgreeOutside(Move(s.fs, file, q), r.s.fs, temp)
  {
    var stem := BaseStem(file);
    var folder := temp + [stem];
    var moved := Move(s.fs, file, q);
    var r1 := Rename(s, file, q, w.rename);
    if r1.Stop? then r1
    else
      var r2 := Unpack(r1.s, q, temp, stem, w);
      if r2.Stop? then FollowsTrans(s, r1.s, r2.s); r2
      else
        var r3 := Finish(r2.s, folder, out, w);
        assert temp <= folder;
        FollowsTrans(s, r1.s, r2.s);
        FollowsTrans(s, r2.s, r3.s);
        if r3.Next? then
          var a := File(w.archive);
          AgreeWithin(r2.s.fs[out := a], r3.s.fs, folder, temp);
          AgreeBothWrite(moved, r2.s.fs, out, a, temp);
          AgreeTrans(moved[out := a], r2.s.fs[out := a], r3.s.fs, temp);
          r3
        else
          AgreeWithin(r2.s.fs, r3.s.fs, folder, temp);
          AgreeTrans(moved, r2.s.fs, r3.s.fs, temp);
          r3
  }

  /** The chain never fails for a reason checked before it starts. */
  lemma StepsFailLate(s: State, file: Path, q: Path, out: Path, temp: Path, w: World)
    requires HasSketchExt(file) && file in s.fs
    ensures var r := Steps(s, file, q, out, temp, w);
      r.Stop? ==> !r.failure.Early()
  {
    if w.rename.Done? {
      StepsAfterRename(s, file, q, out, temp, w);
    }
  }

  /** The chain starts with the rename (fix-file.js:36). */
  lemma StepsStartWithRename(s: State, file: Path, q: Path, out: Path, temp: Path, w: World)
    requires HasSketchExt(file) && file in s.fs
    ensures var r := Steps(s, file, q, out, temp, w);
      |r.s.trace| > |s.trace| && r.s.trace[|s.trace|] == Renamed(file, q)
  {
    var r1 := Rename(s, file, q, w.rename);
    var r := Steps(s, file, q, out, temp, w);
    if w.rename.Done? {
      StepsAfterRename(s, file, q, out, temp, w);
      var r2 := Unpack(r1.s, q, temp, BaseStem(file), w);
      if r2.Next? {
        FollowsTrans(r1.s, r2.s, r.s);
      }
    }
    assert r1.s.trace <= r.s.trace;
    assert r1.s.trace[|s.trace|] == Renamed(file, q);
  }

  /** After a successful rename, the chain is the unpacking, then (when that
      goes on) reconciliation and the repack. */
  lemma StepsAfterRename(s: State, file: Path, q: Path, out: Path, temp: Path, w: World)
    requires HasSketchExt(file) && file in s.fs && w.rename.Done?
    ensures var r2 := Unpack(Rename(s, file, q, w.rename).s, q, temp, BaseStem(file), w);
      Steps(s, file, q, out, temp, w) == (if r2.Next? then Finish(r2.s, temp + [BaseStem(file)], out, w) else r2)
  {
  }

  /** `fs.removeSync(tempFolder)`, on the success path (fix-file.js:109) and in
      the failure handler (fix-file.js:111) alike. */
  function Cleanup(s: State, temp: Path): (r: State)
    ensures Follows(s, r) && r.logs == s.logs && r.trace == s.trace + [Removed(temp)]
    ensures Fresh(r.fs, temp)
    ensures AgreeOutside(s.fs, r.fs, temp)
  {
    s.Invoke(Removed(temp)).(fs := RemoveTree(s.fs, temp))
  }

  datatype Report = Report(outcome: Outcome, final: State)

  /** The path the run renames the target to (fix-file.js:28). */
  function RenameTarget(arg: Option<Arg>, fs: Tree, w: World, file: Path): Path
    requires Validate(arg, w.cwd, fs) == Valid(file)
  {
    CorruptedPath(arg.value, file)
  }

  /** The path the rebuilt archive is written to (fix-file.js:101). */
  function ArchiveTarget(arg: Option<Arg>, fs: Tree, w: World, file: Path): Path
    requires Validate(arg, w.cwd, fs) == Valid(file)
  {
    ZipArchive(file, arg.value.trailingSep)
  }

  /** One invocation of the script on the argument `arg` and the disk `fs`. */
  function Run(arg: Option<Arg>, fs: Tree, w: World): (r: Report)
    ensures r.final.Valid() && r.final.history[0] == Empty
    ensures Validate(arg, w.cwd, fs).Invalid? ==>
              r == Report(Failed(Validate(arg, w.cwd, fs).failure), Start(fs))
    ensures r.outcome == Failed(TempFolderFailed) <==> Validate(arg, w.cwd, fs).Valid? && w.mkdtemp.IoError?
  {
    match Validate(arg, w.cwd, fs)
    case Invalid(f) => Report(Failed(f), Start(fs))
    case Valid(file) =>
      if w.mkdtemp.IoError? then Report(Failed(TempFolderFailed), Start(fs))
      else
        var temp := TempFolder(w);
        var s0 := Start(fs[temp := Dir]);
        var q := CorruptedPath(arg.value, file);
        var out := ZipArchive(file, arg.value.trailingSep);
        var step := Steps(s0, file, q, out, temp, w);
        StepsFailLate(s0, file, q, out, temp, w);
        Report(if step.Next? then Fixed else Failed(step.failure), Cleanup(step.s, temp))
  }

  /** Once the target is valid and the temporary folder exists, the run is
      the chain of steps followed by the cleanup. */
  lemma RunAfterTempFolder(arg: Option<Arg>, fs: Tree, w: World, file: Path)
    requires Validate(arg, w.cwd, fs) == Valid(file) && w.mkdtemp.Done?
    ensures var temp := TempFolder(w);
      var step := Steps(Start(fs[temp := Dir]), file, RenameTarget(arg, fs, w, file),
                        ArchiveTarget(arg, fs, w, file), temp, w);
      Run(arg, fs, w) == Report(if step.Next? then Fixed else Failed(step.failure), Cleanup(step.s, temp))
  {
  }
}
