# doctor-sketch-file: the repair pipeline of `fix-file.js`, in Dafny

`fix-file.js` repairs a corrupted Sketch document. A Sketch document is a zip
archive with a fixed internal layout. The script takes one path argument and
checks that it exists and ends in `.sketch`. It then:

1. makes a temporary folder;
2. renames the target to `<name>.corrupted.sketch`, its quarantine name;
3. unpacks the quarantined entry into an extraction folder inside the
   temporary folder. A folder is copied there. A file is repaired with
   `zip -FF`, then extracted with `unzip`, and a failing `unzip` is forgiven
   when it left the folder behind;
4. checks for `document.json` (it must be there), and writes `meta.json` and
   `user.json` from fixtures when they are missing;
5. repacks the folder with `zip -r` at the path the argument names. When the
   argument names a folder with a trailing separator, Info-ZIP's `zip` writes
   `.zip` inside that folder instead;
6. removes the temporary folder, on success and on failure alike.

The model is a pure state machine over an abstract disk:

- `Paths` (paths.dfy): paths as lists of components, the `.sketch`
  extension test, the quarantine name, the working names in the temporary
  folder.
- `FileSystem` (filesystem.dfy): the disk is a `map<Path, Entry>`. It
  defines the whole-subtree operations the script uses: rename, recursive
  copy and recursive removal.
- `Exec` (exec.dfy): the outcome of an external command (exec.js) and of an
  `fs-extra` promise.
- `DiagnosticLog` (logs.dfy): the two append-only streams `logs.stdout` and
  `logs.stderr`.
- `FixFile` (pipeline.dfy): one function per stage. Each stage returns a
  `Step`, and the next stage runs only when the previous one did not stop
  (an explicit `if r.Stop?`), the way each `.then` of the promise chain runs
  only after the previous one resolved. `Reconcile` chains its three checks
  with Dafny's `:-`. `Run` covers the whole invocation.
- `FixFileProperties`, `FixFileBranches` and `FixFileContents`
  (properties.dfy, branches.dfy, contents.dfy): what a run promises for every
  outcome of every external operation. This covers the disk at the end, the
  commands started, the logs, and what ends up in the rebuilt archive.

Nothing the script cannot decide by itself is computed. A `World` value
supplies:

- the working directory;
- the name `mkdtempSync` picks;
- the outcome of each filesystem call and command;
- the bytes `zip -FF` and `zip -r` write (where `zip -r` writes them follows
  Info-ZIP's naming rule: ".zip" is appended when the last name has no dot);
- the tree `unzip` leaves behind;
- the fixture contents.

Each theorem quantifies over all worlds.

## Model

| member | source | states |
|---|---|---|
| Paths.LastIndex | fix-file.js:23 | The index of the last occurrence of a character in a text, or -1: the character there is that one and none follows it. |
| Paths.ExtName | fix-file.js:23 | `path.extname` of a name is empty or starts with its last '.', which is not the name's first character. It is a proper suffix of the name and holds no other '.'. |
| Paths.ExtNameIsSketch | fix-file.js:23 | `path.extname` of a name is ".sketch" exactly when the name ends in ".sketch" and has at least one character before it. |
| Paths.BaseStem | fix-file.js:31-32 | `path.basename(file, '.sketch')` of an accepted target is non-empty, and appending ".sketch" gives back the target's last component. |
| Paths.Quarantine | fix-file.js:28 | The quarantine path has the same parent as the target. Its last component is the stem plus ".corrupted.sketch". It differs from the target and still has the `.sketch` extension. |
| Paths.QuarantineIsApart | fix-file.js:28 | Neither the target nor its quarantine path lies inside the other. |
| Paths.ReplaceSketchSuffix | fix-file.js:28 | The regular-expression replacement on the argument text. Text ending in ".sketch" keeps everything before that suffix and now ends in ".corrupted.sketch". Any other text is returned unchanged. |
| Paths.QuarantineMatchesReplacement | fix-file.js:28 | Without a trailing separator, replacing the suffix of the rendered target gives the rendered quarantine path. |
| Paths.ZipArchive | fix-file.js:101 | The archive path lies at or below the target. It is the target itself exactly when the argument has no trailing separator. |
| Paths.ZipArchiveMatchesZipName | fix-file.js:101 | Rendered, the archive path is the name Info-ZIP's `zip` gives the archive for the rendered argument: the target for a name ending in ".sketch", and `<target>/.zip` for an argument ending in a separator. |
| Paths.TrailingSeparatorDefeatsReplacement | fix-file.js:28 | With a trailing separator, the replacement leaves the argument unchanged, although the intended quarantine path renders differently. |
| FileSystem.Subtree | fix-file.js:43 | Each entry of a lifted subtree is the disk's entry at the folder plus its relative key. |
| FileSystem.RemoveTree | fix-file.js:109-111 | `fs.removeSync` deletes exactly the entries at or below the folder and keeps every other entry as it was. |
| FileSystem.Move | fix-file.js:36 | After `fs.rename` the destination holds the source's entry. |
| FileSystem.MoveEmptiesSource | fix-file.js:36 | After a rename between separate places, nothing is left at or below the source. |
| FileSystem.MoveCarriesSubtree | fix-file.js:36 | After a rename, the destination's subtree is exactly the source's old subtree. |
| FileSystem.MoveOntoItself | fix-file.js:36 | Renaming a path onto itself leaves the disk exactly as it was. |
| FileSystem.MoveLeavesRest | fix-file.js:36 | A rename changes no path outside the source and destination subtrees. |
| FileSystem.Copy | fix-file.js:43 | `fs.copy` leaves every path outside the destination as it was, and puts each entry of the source's subtree at the same relative place below the destination. |
| FileSystem.GraftSubtree | fix-file.js:43 | Copying a tree into a place that holds nothing leaves exactly that tree there. |
| DiagnosticLog.Append | fix-file.js:41-42 | `logs.x += text` keeps the old stream as a prefix, and what follows the prefix is exactly the text. |
| DiagnosticLog.GrowingIsOrdered | fix-file.js:7 | In a log history where each snapshot extends the previous one, every snapshot is a prefix of every later one, on both streams. |
| FixFile.ExitStatus | fix-file.js:11 | The exit status is 0 exactly when the run fixed the file. Every failure exits with 1. |
| FixFile.Resolve | fix-file.js:14-16 | An absolute argument is used as it is. A relative one is placed below the working directory. Either way the argument's components end the resolved path. |
| FixFile.ExistsSync | fix-file.js:18 | `fs.existsSync` holds exactly when the path is on the disk and, for an argument with a trailing separator, is a folder. |
| FixFile.TempFolder | fix-file.js:30 | The temporary folder is one level below the working directory and has the name `mkdtempSync` picked. |
| FixFile.Validate | fix-file.js:9-26 | Each early failure happens exactly when its check fails, in the script's order: missing argument, then path not found, then wrong extension. An argument that passes all three checks is accepted, and no other failure is reported at this point. An accepted path resolves against the working directory, exists and has the `.sketch` extension. |
| FixFile.CorruptedPath | fix-file.js:28 | The rename target is what the suffix replacement makes of the argument's text. It is the quarantine path exactly when the argument has no trailing separator, and the target itself exactly when it has one. |
| FixFile.Rename | fix-file.js:36 | The rename succeeds exactly when `fs.rename` resolves, and then the disk is the target moved to its quarantine name. A failure stops the chain with the disk untouched. |
| FixFile.CopyFolder | fix-file.js:40-44 | The run goes on exactly when the copy resolves, and then the disk has the quarantined folder copied into the extraction folder. Only the extraction folder changes. Before the copy, the folder note and the separator go to stdout and the separator alone goes to stderr. |
| FixFile.Unzipped | fix-file.js:55 | After `unzip` the extraction folder exists exactly when it existed before or the command left a tree. Nothing outside it changes. |
| FixFile.Unzip | fix-file.js:55-66 | The run stops at `unzip` exactly when it failed and no extraction folder exists afterwards. Otherwise its stdout and stderr (even a failure's) are appended, each followed by the separator. |
| FixFile.RepairArchive | fix-file.js:46-68 | A failing `zip -FF` stops the run with nothing logged and the disk untouched. After a successful repair the repaired archive is written and extracted. The run then stops exactly when `unzip` failed without leaving the folder, and both outputs are appended in order otherwise. |
| FixFile.Unpack | fix-file.js:38-68 | A quarantined folder is copied and a quarantined file is repaired and extracted. Either way nothing outside the temporary folder changes, and the only possible failures are the copy, the repair and the extraction. |
| FixFile.Restore | fix-file.js:79-94 | An optional file that is present is left untouched and nothing is logged. A missing one is written from its fixture, or the run fails when the write fails. No other path changes. The missing-file note goes to stdout exactly when the file was absent. |
| FixFile.Reconcile | fix-file.js:72-95 | The run fails for a missing document exactly when `document.json` is absent. It goes on exactly when the document is present and every missing optional file was written. Afterwards the folder matches `Reconciled`, and only file writes were started. A missing document adds "document.json missing" to stderr and nothing else. Otherwise the notes for a missing `meta.json` and then a missing `user.json` go to stdout, and a failed `meta.json` write stops before the `user.json` check. |
| FixFile.Repack | fix-file.js:96-104 | `zip -r` archives the extraction folder's current contents. The run goes on exactly when the command succeeds, and only then does the archive path receive the new archive. The separator marker goes to stdout first; the command's outputs, each followed by the separator, are appended only when it succeeds. |
| FixFile.Finish | fix-file.js:69-108 | After unpacking, only file writes and the final repack are started. Outside the extraction folder the disk changes only by the new archive at the archive path, and only on success. |
| FixFile.Steps | fix-file.js:36-108 | Outside the temporary folder the chain leaves the target moved to the rename target, plus the new archive at the archive path on success. A failed rename stops the chain with the disk as it was. |
| FixFile.StepsStartWithRename | fix-file.js:36 | The first operation the chain starts is the rename of the target to the rename target. |
| FixFile.StepsFailLate | fix-file.js:36-108 | The chain never fails for a reason that is checked before it starts: no missing argument, missing path, wrong extension or failed `mkdtempSync`. |
| FixFile.Cleanup | fix-file.js:109-111 | Removing the temporary folder leaves nothing inside it, changes nothing outside it, and leaves the logs alone. The removal is the last operation started. |
| FixFile.Run | fix-file.js:6-120 | The final log history starts from empty streams, and each snapshot in it extends the previous one. A validation failure ends the run with that failure, the disk untouched and nothing started or logged. The run fails at `mkdtempSync` exactly when the target is valid and the call fails. |
| FixFileProperties.EarlyFailureTouchesNothing | fix-file.js:9-30 | A validation failure or a failing `mkdtempSync` exits with status 1 before anything is renamed, created, started or logged. |
| FixFileProperties.DiskAfterFailedRename | fix-file.js:36 | When the rename fails, the cleanup gives back the original disk. |
| FixFileProperties.FinalDisk | fix-file.js:28-111 | The final disk is the target moved to the rename target plus the rebuilt archive at the archive path when the run succeeded. It is the moved target alone when the run failed after the rename. It is the original disk when `mkdtempSync` or the rename failed. |
| FixFileProperties.DiskAfterTempFolder | fix-file.js:30-111 | Once the temporary folder exists, the run succeeds exactly when the chain of stages goes through. The disk after cleanup is the moved target plus the archive on success, the moved target after a later failure, and the original disk when the rename failed. |
| FixFileProperties.TempOutsideArchive | fix-file.js:101-111 | The archive path never lies inside the temporary folder, so the cleanup never removes the rebuilt archive. |
| FixFileProperties.TempFolderRemoved | fix-file.js:109-111 | Whatever happens, nothing is left inside the temporary folder at the end. |
| FixFileProperties.OriginalOnlyWhenFixed | fix-file.js:28-101 | For an argument without a trailing separator, the original path holds an entry at the end exactly when the run succeeded, `mkdtempSync` failed or the rename failed. On success that entry is the rebuilt archive. |
| FixFileProperties.BackupIsOriginal | fix-file.js:28-120 | For an argument without a trailing separator, once the temporary folder exists and the rename succeeds, the quarantine path ends up holding exactly the target's original subtree, whatever fails later. |
| FixFileProperties.TrailingSeparatorKeepsNoBackup | fix-file.js:28-36 | For an argument with a trailing separator, the target is renamed onto itself. The folder stays where it was. The final disk is the original one, plus on success the rebuilt archive at `.zip` inside the folder, and the quarantine path is occupied only if it was before. |
| FixFileProperties.RenameComesFirst | fix-file.js:28-36 | Once the temporary folder exists, the first operation of the run is the rename of the target to the path line 28 computes. |
| FixFileProperties.NothingElseChanges | fix-file.js:36-111 | No path outside the target and its quarantine path changes. |
| FixFileProperties.OnlyTargetChanges | fix-file.js:36-101 | Moving the target to its rename target, and then writing the archive at or below the target, changes no path outside the target and its quarantine path. |
| FixFileProperties.LogsOnlyGrow | fix-file.js:41-42 | Every snapshot of the logs is a prefix of every later snapshot on both streams, from empty streams to the final logs. |
| FixFileBranches.FolderIsCopied | fix-file.js:36-44 | On a `.sketch` folder the run renames it to the rename target and then copies that into the extraction folder. It fails at the copy exactly when the copy fails. |
| FixFileBranches.FolderSkipsArchiveTools | fix-file.js:40-44 | On a `.sketch` folder the run never starts `zip -FF` or `unzip`. |
| FixFileBranches.RepairFailureAborts | fix-file.js:46-48 | When `zip -FF` fails, the run fails right after it. Nothing is extracted, nothing is logged, and the only commands are the rename, the repair and the cleanup. |
| FixFileBranches.FileIsRepairedThenExtracted | fix-file.js:48-55 | On a `.sketch` file whose repair succeeds, the rename, the repair and the extraction are the first three operations. |
| FixFileBranches.ExtractionTolerance | fix-file.js:55-62 | The run fails at extraction exactly when `unzip` failed and left no folder behind. |
| FixFileBranches.ExtractionLogged | fix-file.js:49-50 | Unless extraction ends the run, the final logs begin with the outputs of `zip -FF` and then `unzip`, each followed by the separator. |
| FixFileContents.ReconciledSubtree | fix-file.js:72-95 | After reconciliation, the extraction folder holds its earlier contents plus the fixture for each of `meta.json` and `user.json` that was missing. |
| FixFileContents.UnpackContents | fix-file.js:38-68 | Unpacking goes on exactly when the copy, or the repair and a tolerated extraction, succeeded. The extraction folder then holds the target's original contents or what `unzip` produced. |
| FixFileContents.PackedContents | fix-file.js:38-109 | A successful run's last two operations are the archive, at the archive path, of the unpacked contents with the missing optional files added, and then the removal of the temporary folder. |
| FixFileContents.DocumentRequired | fix-file.js:73-77 | Once unpacking succeeded, the run fails for a missing document exactly when the unpacked contents lack `document.json`. |

## Left out

- **exec.js.** It is modelled only through its contract: a command resolves
  with its output or rejects with an error that still carries it. The real
  child process is not modelled.
- **What `zip -FF`, `unzip`, `zip -r` and `fs.copy` do.** Their outcome and
  their effect on the disk are parameters. Zip repair and compression are not
  modelled.
- **Failure effects.**
  - A failing `fs.copy` or `zip -FF` is modelled as changing nothing. Any
    partial effect would sit inside the temporary folder, which is removed
    anyway.
  - A failing optional-file write is also modelled as changing nothing.
- FixFile.Repack: a failing `zip -r` is modelled as writing nothing at
  the archive path. A real `zip` may leave a partial archive there.
  `FixFileProperties.OriginalOnlyWhenFixed` and `FixFileProperties.FinalDisk`
  rest on this.
- FixFile.Repack: a successful `zip -r` is modelled as replacing whatever was
  at the archive path with the new archive. Info-ZIP's `zip` updates an
  existing zip archive at that path instead, and fails on an existing entry
  that is not one. The target was renamed away before, so this matters only
  for an argument with a trailing separator whose folder already holds
  `.zip`.
- **`fs.stat`** (fix-file.js:38) is modelled as reading the entry's type from
  the disk. A failure of `stat` right after the rename is not modelled.
- **The spinner, `console.log`, `console.error` and `process.exit`.** Only
  the exit status (`FixFile.ExitStatus`) and the log streams are kept. The
  messages' wording is not modelled.
- **The temporary name.** The name `Math.random` and `mkdtempSync` choose
  comes from the `World`. A failing `mkdtempSync` (fix-file.js:30) is
  modelled: it throws outside the promise chain, so the run fails with
  `TempFolderFailed` and exit status 1 before the rename. The theorems assume
  that nothing exists at or below the folder beforehand, as `mkdtemp`
  guarantees.
- **The temporary folder's location.** It is created relative to the working
  directory (fix-file.js:30). The theorems also assume that this folder lies
  apart from both the target and its quarantine path, and that its name has
  no '.', as the numeric prefix of fix-file.js:30 and the characters
  `mkdtempSync` adds ensure.
  - That does not hold when the script is started from inside the `.sketch`
    folder it repairs.
  - In that case the rename moves the temporary folder as well. That case is
    not modelled.
- **Node's `path` module.**
  - An argument arrives already split into components, with a flag for a
    trailing separator.
  - Normalisation of "." and ".." by `path.join` is not modelled.
  - `path.extname` and `path.basename` are modelled on the last component
    only.
- **Fixture contents** (`fixtures/meta.json`, `fixtures/user.json`). They
  are opaque bytes from the `World`.
- **The `Promise.all` of the three existence checks** (fix-file.js:72-95).
  - It is modelled sequentially: the document check first, then `meta.json`,
    then `user.json`.
  - When the document is missing, the real script may still write the
    fixtures into the temporary folder and log their notes before failing.
    The model stops at the document check.
  - Likewise the model stops at the first failed fixture write, while
    `Promise.all` does not cancel the other checks: they still log their
    notes and write into the temporary folder.
  - The disk after cleanup is the same either way. The logs, the started
    writes and the reported failure of such a failing run may differ.
  - In a successful run where both `meta.json` and `user.json` are missing,
    the real script may also log the two notes, and start the two writes, in
    the other order. The model's order is `meta.json` first.
- **A failing `zip -FF` ends the run.** fix-file.js:48 does not catch it, so
  the rejection reaches the handler at line 110.
- FixFileProperties.OriginalOnlyWhenFixed: covers arguments without a
  trailing separator; the other case is stated by
  `FixFileProperties.TrailingSeparatorKeepsNoBackup`.
- FixFileProperties.BackupIsOriginal: covers arguments without a trailing
  separator; with one no backup exists, as
  `FixFileProperties.TrailingSeparatorKeepsNoBackup` states.

## Findings

| source | as written | input that shows it | evidently intended | confidence | as-written member | corrected member |
|---|---|---|---|---|---|---|
| fix-file.js:28 | `file.replace(/\.sketch$/g, '.corrupted.sketch')` acts on the raw argument text, so a path written with a trailing separator does not match the anchored pattern | the argument `/home/u/report.sketch/` naming an existing folder. It passes the existence check, and `path.extname` ignores the trailing separator, so it passes the extension check. The quarantine path is then the target itself, the rename is a no-op, and no backup exists. `zip -r` then writes the rebuilt archive as `.zip` inside the still corrupted folder | the quarantine path is the target's last component with ".sketch" replaced by ".corrupted.sketch", whatever separator follows it | medium, not executed | Paths.TrailingSeparatorDefeatsReplacement, FixFile.CorruptedPath, FixFileProperties.TrailingSeparatorKeepsNoBackup | Paths.Quarantine, Paths.QuarantineMatchesReplacement |
