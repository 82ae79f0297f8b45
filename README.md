# Shuffled Projects Updater: the canonical-index engine in Dafny

Shuffled Projects Updater keeps several copies of a code base in step. In
CREATE mode it walks the source directory of every reference project and
records, in a tree of *packages*, which project owns each file name at
each position of the tree. Projects whose source directories share a name
have their indexes merged, and two of them claiming the same file at the
same place is an error. In CHECK mode it walks another, possibly
reshuffled, tree in lock-step with that index and logs where files have
moved. UPDATE does the same and also copies each canonical file over the
live one.

The model has five modules:

- `Wrappers`: `Option` and `Result`.
- `Domain`: `Package`, the index tree, with its getters and `addFile`/`addPackage`.
  - `Merge` is the specification of `mergeUsingPkg`.
  - `MergeUsingPkg` is the imperative merge, one key at a time, proved equal to `Merge`.
  - Lemmas cover what the merge keeps, inserts and refuses.
- `FileSystem`: directory listings as a datatype.
  - A `Disk` class holds a path-to-content map, which `Copy` updates.
- `Indexing`: `Index`, the specification of `getPackage`, with its lemmas.
- `Reconciliation`: `Walk` and `LogAndOperate`, the specification of `walkAndDoOperation` and `logAndOperate`.
  - Lemmas cover the log, CHECK's read-only behaviour, what UPDATE writes, and the idempotence of both modes.
- `Engine`: the `Engine` class, with the `sourceDirs` registry as a field and the methods `getPackage`, `addPackage`, `logAndOperate`, `walkAndDoOperation` and `doOperation`.
  - Each method is proved against its specification function.
  - `Run` specifies `doOperation`; lemmas cover whole runs.

Modelling choices:

- **Packages are values.** The Java objects become a datatype, so merging returns a new package instead of mutating the target.
- **Exceptions.** An exception becomes an `Option<Failure>` returned by a method, or a `failure` field of the state.
- **Listing order.** A listing is the sequence `listFiles()` returns.
- **Duplicate directory names.** When a listing holds two subdirectories of the same name, the index keeps the last one, as `HashMap.put` does.
- **Null lookups.** A name missing from `sourceDirs` is a null package. The walk dereferences it, and so raises `NullPointer`, at the first entry that is not an excluded file, which is where the Java code would throw.
- **Exclusions apply where the code applies them.** `dirToExclude` filters only the top-level project directories. `fileToExclude` applies to files at every level, both when indexing and when walking, but never to directories.
- **What the code does not do.** No directory is excluded below the project level. Nothing is logged for an unchanged file in CHECK. A moved update logs one `UpdatingMoved` line. There are no bypass lists.

## Model

| member | source | states |
|---|---|---|
| Domain.Package.GetSubPackage | src/main/java/xyz/scarabya/shuffledprojectsupdater/domain/Package.java:68-71 | None exactly when the name is not a child; otherwise the stored child |
| Domain.Package.GetOriginalFile | src/main/java/xyz/scarabya/shuffledprojectsupdater/domain/Package.java:78-81 | None exactly when the name is not a file; otherwise the stored file |
| Domain.Package.GetProjectNameByFile | src/main/java/xyz/scarabya/shuffledprojectsupdater/domain/Package.java:73-76 | for a present file, the owner recorded for it |
| Domain.Package.GetFileNames | src/main/java/xyz/scarabya/shuffledprojectsupdater/domain/Package.java:83-86 | a name is in the set exactly when getOriginalFile finds it |
| Domain.Package.GetPackagesNames | src/main/java/xyz/scarabya/shuffledprojectsupdater/domain/Package.java:88-91 | a name is in the set exactly when getSubPackage finds it |
| Domain.Package.AddFile | src/main/java/xyz/scarabya/shuffledprojectsupdater/domain/Package.java:58-61 | the name now maps to the given file, overwriting; every other file and every child is unchanged |
| Domain.Package.AddPackage | src/main/java/xyz/scarabya/shuffledprojectsupdater/domain/Package.java:63-66 | the name now maps to the given child; every other child and every file is unchanged |
| Domain.EmptyPackage | src/main/java/xyz/scarabya/shuffledprojectsupdater/domain/Package.java:31-35 | a new package holds no file and no child |
| Domain.MergeUsingPkg | src/main/java/xyz/scarabya/shuffledprojectsupdater/domain/Package.java:37-56 | the key-by-key merge gives exactly Merge: DuplicateFileFound or the merged tree |
| Domain.MergeSubPackages | src/main/java/xyz/scarabya/shuffledprojectsupdater/domain/Package.java:48-55 | the child loop fails exactly when some shared child fails to merge; otherwise it yields the merged children |
| Domain.MergedSubPackage | src/main/java/xyz/scarabya/shuffledprojectsupdater/domain/Package.java:48-54 | a child on one side only is carried over whole; a child on both sides is their recursive merge; no other child appears |
| Domain.MergeFileAt | src/main/java/xyz/scarabya/shuffledprojectsupdater/domain/Package.java:40-54 | after a successful merge, at every relative path: no file on both sides; target files are kept; incoming files are retrievable unchanged; nothing else appears |
| Domain.MergePackageAt | src/main/java/xyz/scarabya/shuffledprojectsupdater/domain/Package.java:48-54 | after a successful merge a directory exists exactly when it exists on either side; it is kept, inserted whole, or merged recursively |
| Domain.MergeFailsIffClash | src/main/java/xyz/scarabya/shuffledprojectsupdater/domain/Package.java:40-54 | the merge fails exactly when both trees hold a file of the same name at the same relative path |
| FileSystem.LastDirIn | src/main/java/xyz/scarabya/shuffledprojectsupdater/engine/Engine.java:164-166 | a directory is found exactly when some subdirectory of that name is listed; the one found is a listed entry of that name and no subdirectory of that name is listed after it, which is the one `HashMap.put` keeps |
| FileSystem.StripExcludedFiles | src/main/java/xyz/scarabya/shuffledprojectsupdater/engine/Engine.java:103-105 | a file is listed in the stripped tree exactly when it is listed in the original tree and its name is not excluded |
| FileSystem.Disk.Copy | src/main/java/xyz/scarabya/shuffledprojectsupdater/engine/Engine.java:148-151 | the copy succeeds exactly when the source exists; the target then holds the source's content, and otherwise nothing changes |
| Indexing.BuildIndexFile | src/main/java/xyz/scarabya/shuffledprojectsupdater/engine/Engine.java:161-172 | after the first i entries, a name is a file exactly when it is a listed, non-excluded file; it has its absolute path and the project as owner |
| Indexing.BuildIndexSubPackage | src/main/java/xyz/scarabya/shuffledprojectsupdater/engine/Engine.java:161-166 | after the first i entries, a child is present exactly when a subdirectory of that name is listed, and it is the index of the last such subdirectory |
| Indexing.IndexFileAt | src/main/java/xyz/scarabya/shuffledprojectsupdater/engine/Engine.java:156-176 | every non-excluded file at any depth is in the index at its relative path with its absolute path and the project as owner; nothing else is, so no excluded name appears |
| Indexing.IndexPackageAt | src/main/java/xyz/scarabya/shuffledprojectsupdater/engine/Engine.java:164-166 | every subdirectory at any depth is a package of the index, whatever its name, and nothing else is |
| Reconciliation.WalkStopsOnFailure | src/main/java/xyz/scarabya/shuffledprojectsupdater/engine/Engine.java:91-130 | a walk started after an exception changes nothing |
| Reconciliation.WalkAfterFailure | src/main/java/xyz/scarabya/shuffledprojectsupdater/engine/Engine.java:99-130 | once one entry raises, the rest of the listing changes nothing |
| Reconciliation.WalkExtendsLog | src/main/java/xyz/scarabya/shuffledprojectsupdater/engine/Engine.java:99-130 | the walk only appends to the log |
| Reconciliation.WalkStepExtendsLog | src/main/java/xyz/scarabya/shuffledprojectsupdater/engine/Engine.java:101-128 | each entry only appends to the log |
| Reconciliation.CheckOnlyReports | src/main/java/xyz/scarabya/shuffledprojectsupdater/engine/Engine.java:139-142 | CHECK never writes to the disk; every line it logs is a not-found warning or a move |
| Reconciliation.WalkLogsOnlyMatches | src/main/java/xyz/scarabya/shuffledprojectsupdater/engine/Engine.java:103-147 | every logged line is one of these: a not-found warning naming a listed entry missing from the index (a non-excluded file or a subdirectory its package does not record); a move in CHECK of a listed, non-excluded file matched in the index, from its recorded owner into this project; an update of an owned file or a moved update of a foreign one in UPDATE |
| Reconciliation.WalkLogCount | src/main/java/xyz/scarabya/shuffledprojectsupdater/engine/Engine.java:99-129 | a walk without exception logs exactly one line per missing file or directory, per matched file in UPDATE, and per foreign-owned matched file in CHECK |
| Reconciliation.CheckTwice | src/main/java/xyz/scarabya/shuffledprojectsupdater/engine/Engine.java:139-142 | running CHECK twice gives the same log and leaves the disk as it was |
| Reconciliation.WalkReportsMissing | src/main/java/xyz/scarabya/shuffledprojectsupdater/engine/Engine.java:116-127 | in a walk without exception, every listed entry missing from the index, at any depth below matched directories, is reported as not found: a non-excluded file its package does not record, or a subdirectory its package does not record |
| Reconciliation.WalkReportsMatched | src/main/java/xyz/scarabya/shuffledprojectsupdater/engine/Engine.java:107-147 | in a walk without exception, every listed, non-excluded file the index records, at any depth, is reported: as moved in CHECK when another project owns it, as updated or moved-updated in UPDATE |
| Reconciliation.PlanBelow | src/main/java/xyz/scarabya/shuffledprojectsupdater/engine/Engine.java:112-113 | every path UPDATE writes lies below the walked directory |
| Reconciliation.PlanAt | src/main/java/xyz/scarabya/shuffledprojectsupdater/engine/Engine.java:103-127 | UPDATE writes exactly the listed, non-excluded files that the index records at their relative path, and the source of each write is the recorded canonical path |
| Reconciliation.PlanGrows | src/main/java/xyz/scarabya/shuffledprojectsupdater/engine/Engine.java:99-129 | later entries never change a copy already planned |
| Reconciliation.WalkWritesOnlyPlan | src/main/java/xyz/scarabya/shuffledprojectsupdater/engine/Engine.java:99-151 | whatever the operation, a path the plan does not name exists after the walk exactly when it existed before, with the same content |
| Reconciliation.WalkLeavesUnmatched | src/main/java/xyz/scarabya/shuffledprojectsupdater/engine/Engine.java:103-127 | with no condition on the plan, every path below the walked directory that is not a matched file, such as an excluded file, a file missing from the index or anything under an unindexed directory, keeps its content and neither appears nor vanishes |
| Reconciliation.UpdateCopies | src/main/java/xyz/scarabya/shuffledprojectsupdater/engine/Engine.java:143-151 | an UPDATE walk without exception found every canonical file it needed, and leaves the disk as if all its copies were made at once, provided every overwritten file that is another's canonical copy is copied onto itself |
| Reconciliation.WalkNeedsOnlyPaths | src/main/java/xyz/scarabya/shuffledprojectsupdater/engine/Engine.java:148-151 | on a disk holding at least the same paths, a walk that raised nothing on the smaller disk raises nothing, logs the same lines, and ends with at least the same paths |
| Reconciliation.WalkSamePaths | src/main/java/xyz/scarabya/shuffledprojectsupdater/engine/Engine.java:148-151 | the exception, the log and the set of existing paths after a walk depend on the disk only through which paths exist, not on their contents |
| Reconciliation.WalkIgnoresExcluded | src/main/java/xyz/scarabya/shuffledprojectsupdater/engine/Engine.java:103-105 | excluded files play no part: the walk of a tree is exactly the walk of that tree with every excluded file removed at every level |
| Reconciliation.UpdateTwice | src/main/java/xyz/scarabya/shuffledprojectsupdater/engine/Engine.java:143-151 | UPDATE is idempotent: a second walk over its result logs the same lines and leaves the disk as the first left it, provided every overwritten file that is another's canonical copy is copied onto itself |
| Reconciliation.UpdateWritesMatchedFiles | src/main/java/xyz/scarabya/shuffledprojectsupdater/engine/Engine.java:103-127 | under the proviso of UpdateCopies, after UPDATE every matched file holds its canonical content; every other path below the walked directory holds what it held before |
| Reconciliation.PlanOverOwnIndex | src/main/java/xyz/scarabya/shuffledprojectsupdater/engine/Engine.java:143-151 | walked against its own index, a tree copies every matched file onto itself, so the proviso above holds |
| Reconciliation.UpdateOwnTree | src/main/java/xyz/scarabya/shuffledprojectsupdater/engine/Engine.java:143-151 | UPDATE over a reference tree against its own index leaves the disk unchanged |
| Reconciliation.WalkNullIndex | src/main/java/xyz/scarabya/shuffledprojectsupdater/engine/Engine.java:105-107 | against a null package the walk raises a null-pointer exception at the first entry that is not an excluded file, and otherwise does nothing |
| Engine.Lookup | src/main/java/xyz/scarabya/shuffledprojectsupdater/engine/Engine.java:75-76 | sourceDirs.get gives the registered package, or null exactly when the name is not registered |
| Engine.AddToRegistryFailsIffClash | src/main/java/xyz/scarabya/shuffledprojectsupdater/engine/Engine.java:84-86 | registering fails, with DuplicateFileFound, exactly when the name is taken and both packages hold a file at the same relative path |
| Engine.AddToRegistryFileAt | src/main/java/xyz/scarabya/shuffledprojectsupdater/engine/Engine.java:84-88 | a successful registration leaves other names alone; the package under the name keeps all its files, gains every file of the new index, and gains nothing else |
| Engine.RunFrames | src/main/java/xyz/scarabya/shuffledprojectsupdater/engine/Engine.java:72-76 | CREATE changes only the registry; CHECK and UPDATE never change the registry; CHECK never writes to the disk |
| Engine.RunSkipsNonProjects | src/main/java/xyz/scarabya/shuffledprojectsupdater/engine/Engine.java:63-65 | a root whose first i entries hold no project (only files and excluded directories) leaves the whole state unchanged |
| Engine.RunOnlyProjects | src/main/java/xyz/scarabya/shuffledprojectsupdater/engine/Engine.java:63-65 | a run over the root is exactly the run over its projects alone, in their order, wherever the files and excluded directories sit |
| Engine.ProjectsExactly | src/main/java/xyz/scarabya/shuffledprojectsupdater/engine/Engine.java:63-65 | the projects of a listing are exactly its directories whose names are not excluded: every one is kept and nothing else is |
| Engine.RunCreateRegisters | src/main/java/xyz/scarabya/shuffledprojectsupdater/engine/Engine.java:58-89 | after a CREATE run without exception, every non-excluded file of every project's source directory is registered at its relative path, with its absolute path and the project as owner |
| Engine.RunCreateFailsOnClash | src/main/java/xyz/scarabya/shuffledprojectsupdater/engine/Engine.java:84-86 | a project whose source directory clashes with the one registered under the same name stops the run with DuplicateFileFound |
| Engine.RunAfterFailure | src/main/java/xyz/scarabya/shuffledprojectsupdater/engine/Engine.java:58-78 | once a project raises, the later projects change nothing |
| Engine.Engine.constructor | src/main/java/xyz/scarabya/shuffledprojectsupdater/engine/Engine.java:51-56 | the registry starts empty and the exclusion sets are the ones given |
| Engine.Engine.GetPackage | src/main/java/xyz/scarabya/shuffledprojectsupdater/engine/Engine.java:156-176 | the loop over the listing builds exactly Index of the directory |
| Engine.Engine.AddPackage | src/main/java/xyz/scarabya/shuffledprojectsupdater/engine/Engine.java:80-89 | the registry becomes AddToRegistry of the new index; on a clash the exception is returned |
| Engine.Engine.LogAndOperate | src/main/java/xyz/scarabya/shuffledprojectsupdater/engine/Engine.java:132-154 | the log and the disk change exactly as Reconciliation.LogAndOperate says, and the failure is the copy's |
| Engine.Engine.WalkAndDoOperation | src/main/java/xyz/scarabya/shuffledprojectsupdater/engine/Engine.java:91-130 | the log, the disk and the exception are exactly those of Walk over the whole listing |
| Engine.Engine.DoOperation | src/main/java/xyz/scarabya/shuffledprojectsupdater/engine/Engine.java:58-78 | the registry, the log, the disk and the exception are exactly those of Run over the whole workspace root |
| Engine.Logger.Log | src/main/java/xyz/scarabya/shuffledprojectsupdater/engine/Engine.java:43-44 | logging appends one line |

## Left out

- Main.java is not part of this model: the folder and operation dialogs, and the reading of the exclusion lists from disk. The exclusion sets are given to the constructor.
- Walker is not part of this model: `getSourceDir` and `walkInto` become the `locate` parameter of `DoOperation`, a function that may fail with the locator's exceptions.
- Bypass lists and forced updates are not modelled, because the `Engine` here has no such logic.
- Log levels and message formatting are not modelled: each log line is an `Event` value carrying its parameters.
- Files.copy: file attributes are not modelled. Contents are abstract byte sequences. A copy fails when the source path is absent and never for other I/O reasons.
- Reconciliation.UpdateCopies: requires ReadsOnlyUnchanged of the plan, that is, every overwritten file that is also the canonical copy of another file is copied onto itself. Without it the order of the copies matters (with P/a taken from P/b and P/b from Q/b, P/a ends with P/b's old or new content depending on the listing order), and the lemma does not describe that case. Walking a reference tree against its own index meets the proviso (PlanOverOwnIndex, UpdateOwnTree).
- Reconciliation.UpdateTwice: requires the same ReadsOnlyUnchanged proviso as UpdateCopies, for the same reason.
- Reconciliation.UpdateWritesMatchedFiles: requires the same ReadsOnlyUnchanged proviso as UpdateCopies, which only its first ensures (the content of matched files) needs. Its second ensures, that nothing else changes, is proved without the proviso by WalkLeavesUnmatched.
- Entries that are neither a regular file nor a directory are not modelled. getPackage classifies an entry with isDirectory (Engine.java:164) but the walk uses isFile (Engine.java:103), so a special file or a broken symbolic link is indexed as a file yet walked as a directory, whose listFiles() returns null. A symbolic link cycle makes getPackage recurse without end. A `Directory` here is a finite tree of files and directories.
- HashMap iteration order is not modelled: MergeUsingPkg picks keys in any order, and its result does not depend on the choice.
- Domain.MergeUsingPkg: the partly merged target that Java leaves behind when it throws midway is not modelled; the model returns the error and no tree.
- Engine.Engine.AddPackage: on a duplicate the model leaves the registry unchanged, whereas Java may already have mutated the registered package.
- Object aliasing is not modelled: Java inserts an incoming child package by reference, and packages here are values.
- Unchecked exceptions other than the null dereference of an unregistered source directory are not modelled.

