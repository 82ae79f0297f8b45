/**
 * The engine: it walks the root directory of the workspace, finds each
 * project's source directory, and either indexes it into the registry of
 * canonical source trees (CREATE) or reconciles it against that registry
 * (CHECK, UPDATE).
 */
module Engine {
  import opened Wrappers
  import opened Domain
  import opened FileSystem
  import opened Indexing
  import opened Reconciliation

  /** A project's source directory, and its absolute path. */
  datatype Located = Located(dir: Directory, path: Path)

  /**
   * How a project's source directory is found from the project directory
   * (given with its absolute path), the source root name and the source
   * level; it fails with the exception the lookup raises.
   */
  type Locator = (Directory, Path, string, int) -> Result<Located, Failure>

  /** Everything one run of `doOperation` is given. */
  datatype Job = Job(dirToExclude: set<string>, fileToExclude: set<string>, sourceRootName: string,
                     sourceLevel: int, locate: Locator, operation: Operation)

  /** The registry, the log, the disk, and the exception that stopped the run, if any. */
  datatype RunState = RunState(sourceDirs: map<string, Package>, events: seq<Event>,
                               contents: map<Path, Content>, failure: Option<Failure>)

  /**
   * Registering the index `pkg` of a source directory named `name`: a name
   * already registered has `pkg` merged into its package, failing when the
   * two clash; a new name is registered with `pkg`.
   */
  function AddToRegistry(sourceDirs: map<string, Package>, name: string, pkg: Package): Result<map<string, Package>, Failure>
  {
    if name in sourceDirs then
      match Merge(sourceDirs[name], pkg)
      case Success(merged) => Success(sourceDirs[name := merged])
      case Failure(e) => Failure(e)
    else Success(sourceDirs[name := pkg])
  }

  /** The package registered under a name; None stands for a null lookup. */
  function Lookup(sourceDirs: map<string, Package>, name: string): (r: Option<Package>)
    ensures r.Some? <==> name in sourceDirs
    ensures r.Some? ==> r.value == sourceDirs[name]
  {
    if name in sourceDirs then Some(sourceDirs[name]) else None
  }

  /** A listed entry of the workspace root is a project: a directory whose name is not excluded. */
  predicate IsProject(e: Node, dirToExclude: set<string>)
  {
    e.DirNode? && e.dir.name !in dirToExclude
  }

  /**
   * The state after the first `i` entries of the workspace root `root`,
   * whose absolute path is `rootPath`, have been processed. Entries that are
   * not projects are skipped; for a project the source directory is
   * located, then indexed into the registry (CREATE) or walked against the
   * package its name is registered under (CHECK, UPDATE). An exception
   * ends the run.
   */
  function Run(job: Job, root: Directory, rootPath: Path, i: nat, rs: RunState): RunState
    requires i <= |root.entries|
  {
    if i == 0 then rs
    else
      var prev := Run(job, root, rootPath, i - 1, rs);
      if prev.failure.Some? || !IsProject(root.entries[i - 1], job.dirToExclude) then prev
      else
        var projectDir := root.entries[i - 1].dir;
        var projectName := projectDir.name;
        match job.locate(projectDir, rootPath + [projectName], job.sourceRootName, job.sourceLevel)
        case Failure(e) => prev.(failure := Some(e))
        case Success(loc) =>
          if job.operation == CREATE then
            match AddToRegistry(prev.sourceDirs, loc.dir.name, Index(loc.dir, loc.path, projectName, job.fileToExclude))
            case Success(reg) => prev.(sourceDirs := reg)
            case Failure(e) => prev.(failure := Some(e))
          else
            var ws := WalkAll(loc.dir, loc.path, Walking(projectName, job.operation, job.fileToExclude),
                              Lookup(prev.sourceDirs, loc.dir.name), WalkState(prev.events, prev.contents, None));
            RunState(prev.sourceDirs, ws.events, ws.contents, ws.failure)
  }

  /** The global log. */
  class Logger {
    var events: seq<Event>

    constructor()
      ensures events == []
    {
      events := [];
    }

    method Log(e: Event)
      modifies this
      ensures events == old(events) + [e]
    {
      events := events + [e];
    }
  }

  class Engine {
    /** The canonical source trees, by source directory name. */
    var sourceDirs: map<string, Package>
    const dirToExclude: set<string>
    const fileToExclude: set<string>
    const logger: Logger

    constructor(dirToExclude: set<string>, fileToExclude: set<string>, logger: Logger)
      ensures sourceDirs == map[]
      ensures this.dirToExclude == dirToExclude && this.fileToExclude == fileToExclude && this.logger == logger
    {
      sourceDirs := map[];
      this.dirToExclude := dirToExclude;
      this.fileToExclude := fileToExclude;
      this.logger := logger;
    }

    /** The index of `rootDirectory`, whose absolute path is `path`, with every file owned by `projectName`. */
    method GetPackage(rootDirectory: Directory, path: Path, projectName: string) returns (newPackage: Package)
      ensures newPackage == Index(rootDirectory, path, projectName, fileToExclude)
      decreases rootDirectory
    {
      newPackage := EmptyPackage();
      for i := 0 to |rootDirectory.entries|
        invariant newPackage == BuildIndex(rootDirectory, path, projectName, fileToExclude, i)
      {
        match rootDirectory.entries[i]
        case DirNode(sub) =>
          var child := GetPackage(sub, path + [sub.name], projectName);
          newPackage := newPackage.AddPackage(sub.name, child);
        case FileNode(fileName) =>
          if fileName !in fileToExclude {
            newPackage := newPackage.AddFile(fileName, OriginalFile(path + [fileName], projectName));
          }
      }
    }

    /**
     * Indexes the source directory `sourceDir` (absolute path `sourcePath`)
     * of project `projectName` and registers it under `sourceDirName`,
     * merging it into the package already registered there. On a clash the
     * duplicate-file exception is returned and the registry is left as it was.
     */
    method AddPackage(sourceDirName: string, sourceDir: Directory, sourcePath: Path, projectName: string)
      returns (failure: Option<Failure>)
      modifies this`sourceDirs
      ensures var expected := AddToRegistry(old(sourceDirs), sourceDirName,
                                            Index(sourceDir, sourcePath, projectName, fileToExclude));
              && (failure.None? <==> expected.Success?)
              && (expected.Success? ==> sourceDirs == expected.value)
              && (expected.Failure? ==> failure == Some(expected.error) && sourceDirs == old(sourceDirs))
    {
      var pkg := GetPackage(sourceDir, sourcePath, projectName);
      if sourceDirName in sourceDirs {
        var merged := MergeUsingPkg(sourceDirs[sourceDirName], pkg);
        match merged
        case Success(m) =>
          sourceDirs := sourceDirs[sourceDirName := m];
          failure := None;
        case Failure(e) =>
          failure := Some(e);
      } else {
        sourceDirs := sourceDirs[sourceDirName := pkg];
        failure := None;
      }
    }

    /**
     * Logs the matched live file at `updating` and, in UPDATE, copies its
     * canonical version `originalFile` over it; returns the exception the
     * copy raises, if any.
     */
    method LogAndOperate(updating: Path, fileName: string, projectName: string, originalFile: OriginalFile,
                         operation: Operation, disk: Disk) returns (failure: Option<Failure>)
      modifies logger, disk
      ensures WalkState(logger.events, disk.contents, failure) ==
                Reconciliation.LogAndOperate(updating, fileName, projectName, originalFile, operation,
                                             WalkState(old(logger.events), old(disk.contents), None))
    {
      failure := None;
      match operation
      case CREATE =>
      case CHECK =>
        if projectName != originalFile.projectName {
          logger.Log(Moved(fileName, originalFile.projectName, projectName));
        }
      case UPDATE =>
        if projectName == originalFile.projectName {
          logger.Log(Updating(fileName, originalFile.projectName));
        } else {
          logger.Log(UpdatingMoved(fileName, originalFile.projectName, projectName));
        }
        var ok := disk.Copy(originalFile.absName, updating);
        if !ok {
          failure := Some(IOFailure(originalFile.absName));
        }
    }

    /**
     * Walks the live directory `pkgToProcess` (absolute path `path`) of
     * project `projectName` against the package `originalPkg` (None for a
     * null one), doing `operation` on each matched file; returns the
     * exception that stopped the walk, if any.
     */
    method WalkAndDoOperation(pkgToProcess: Directory, path: Path, projectName: string, originalPkg: Option<Package>,
                              operation: Operation, disk: Disk) returns (failure: Option<Failure>)
      modifies logger, disk
      ensures WalkState(logger.events, disk.contents, failure) ==
                WalkAll(pkgToProcess, path, Walking(projectName, operation, fileToExclude), originalPkg,
                        WalkState(old(logger.events), old(disk.contents), None))
      decreases pkgToProcess
    {
      var w := Walking(projectName, operation, fileToExclude);
      ghost var st := WalkState(logger.events, disk.contents, None);
      failure := None;
      var i := 0;
      while i < |pkgToProcess.entries|
        invariant i <= |pkgToProcess.entries|
        invariant failure.None?
        invariant WalkState(logger.events, disk.contents, failure) == Walk(pkgToProcess, path, w, originalPkg, i, st)
      {
        match pkgToProcess.entries[i] {
          case FileNode(processingName) =>
            if processingName !in fileToExclude {
              if originalPkg.None? {
                failure := Some(NullPointer);
              } else {
                var originalFile := originalPkg.value.GetOriginalFile(processingName);
                if originalFile.Some? {
                  failure := LogAndOperate(path + [processingName], processingName, projectName, originalFile.value,
                                           operation, disk);
                } else {
                  logger.Log(NotFound(processingName));
                }
              }
            }
          case DirNode(processing) =>
            if originalPkg.None? {
              failure := Some(NullPointer);
            } else {
              var subPackage := originalPkg.value.GetSubPackage(processing.name);
              if subPackage.Some? {
                failure := WalkAndDoOperation(processing, path + [processing.name], projectName, subPackage,
                                              operation, disk);
              } else {
                logger.Log(NotFound(processing.name));
              }
            }
        }
        if failure.Some? {
          WalkAfterFailure(pkgToProcess, path, w, originalPkg, i + 1, |pkgToProcess.entries|, st);
          return;
        }
        i := i + 1;
      }
    }

    /**
     * Processes every project under the workspace root `root` (absolute
     * path `rootPath`): CREATE registers each project's source directory,
     * CHECK and UPDATE walk it against the package registered under its
     * name. Returns the exception that stopped the run, if any.
     */
    method DoOperation(root: Directory, rootPath: Path, sourceRootName: string, sourceLevel: int, locate: Locator,
                       operation: Operation, disk: Disk) returns (failure: Option<Failure>)
      modifies this`sourceDirs, logger, disk
      ensures RunState(sourceDirs, logger.events, disk.contents, failure) ==
                Run(Job(dirToExclude, fileToExclude, sourceRootName, sourceLevel, locate, operation), root, rootPath,
                    |root.entries|, RunState(old(sourceDirs), old(logger.events), old(disk.contents), None))
    {
      var job := Job(dirToExclude, fileToExclude, sourceRootName, sourceLevel, locate, operation);
      ghost var rs := RunState(sourceDirs, logger.events, disk.contents, None);
      failure := None;
      var i := 0;
      while i < |root.entries|
        invariant i <= |root.entries|
        invariant failure.None?
        invariant RunState(sourceDirs, logger.events, disk.contents, failure) == Run(job, root, rootPath, i, rs)
      {
        if IsProject(root.entries[i], dirToExclude) {
          var projectDir := root.entries[i].dir;
          var projectName := projectDir.name;
          var located := locate(projectDir, rootPath + [projectName], sourceRootName, sourceLevel);
          match located {
            case Failure(e) =>
              failure := Some(e);
            case Success(sourceDir) =>
              var sourceDirName := sourceDir.dir.name;
              if operation == CREATE {
                failure := AddPackage(sourceDirName, sourceDir.dir, sourceDir.path, projectName);
              } else {
                failure := WalkAndDoOperation(sourceDir.dir, sourceDir.path, projectName,
                                              Lookup(sourceDirs, sourceDirName), operation, disk);
              }
          }
        }
        if failure.Some? {
          RunAfterFailure(job, root, rootPath, i + 1, |root.entries|, rs);
          return;
        }
        i := i + 1;
      }
    }
  }

  /** Once an exception is raised the later entries change nothing. */
  lemma {:induction false} RunAfterFailure(job: Job, root: Directory, rootPath: Path, i: nat, j: nat, rs: RunState)
    requires i <= j <= |root.entries|
    requires Run(job, root, rootPath, i, rs).failure.Some?
    ensures Run(job, root, rootPath, j, rs) == Run(job, root, rootPath, i, rs)
    decreases j
  {
    if j > i {
      RunAfterFailure(job, root, rootPath, i, j - 1, rs);
    }
  }

  // ---------------------------------------------------------------------
  // The registry
  // ---------------------------------------------------------------------

  /** Registering fails exactly when the name is taken and some relative path holds a file on both sides. */
  lemma AddToRegistryFailsIffClash(sourceDirs: map<string, Package>, name: string, pkg: Package)
    ensures AddToRegistry(sourceDirs, name, pkg).Failure? <==> name in sourceDirs && Clash(sourceDirs[name], pkg)
    ensures AddToRegistry(sourceDirs, name, pkg).Failure? ==>
              AddToRegistry(sourceDirs, name, pkg).error == DuplicateFileFound
  {
    if name in sourceDirs {
      MergeFailsIffClash(sourceDirs[name], pkg);
    }
  }

  /**
   * A successful registration leaves every other name as it was, and the
   * package under `name` then holds every file it held before and every
   * file of `pkg`, at the same relative path, and no other file.
   */
  lemma AddToRegistryFileAt(sourceDirs: map<string, Package>, name: string, pkg: Package, other: string, rel: Path)
    requires AddToRegistry(sourceDirs, name, pkg).Success?
    ensures name in AddToRegistry(sourceDirs, name, pkg).value
    ensures other != name ==> (other in AddToRegistry(sourceDirs, name, pkg).value <==> other in sourceDirs)
    ensures other != name && other in sourceDirs ==> AddToRegistry(sourceDirs, name, pkg).value[other] == sourceDirs[other]
    ensures name in sourceDirs && FileAt(sourceDirs[name], rel).Some? ==>
              FileAt(AddToRegistry(sourceDirs, name, pkg).value[name], rel) == FileAt(sourceDirs[name], rel)
    ensures FileAt(pkg, rel).Some? ==> FileAt(AddToRegistry(sourceDirs, name, pkg).value[name], rel) == FileAt(pkg, rel)
    ensures FileAt(AddToRegistry(sourceDirs, name, pkg).value[name], rel).Some? ==>
              FileAt(pkg, rel).Some? || (name in sourceDirs && FileAt(sourceDirs[name], rel).Some?)
  {
    if name in sourceDirs {
      MergeFileAt(sourceDirs[name], pkg, rel);
    }
  }

  // ---------------------------------------------------------------------
  // A whole run
  // ---------------------------------------------------------------------

  /**
   * What each operation may change: CREATE changes only the registry (it
   * logs nothing and writes nothing), CHECK and UPDATE never change the
   * registry, and CHECK never writes to the disk.
   */
  lemma {:induction false} RunFrames(job: Job, root: Directory, rootPath: Path, i: nat, rs: RunState)
    requires i <= |root.entries|
    ensures job.operation == CREATE ==>
              Run(job, root, rootPath, i, rs).events == rs.events && Run(job, root, rootPath, i, rs).contents == rs.contents
    ensures job.operation != CREATE ==> Run(job, root, rootPath, i, rs).sourceDirs == rs.sourceDirs
    ensures job.operation == CHECK ==> Run(job, root, rootPath, i, rs).contents == rs.contents
  {
    if i > 0 {
      RunFrames(job, root, rootPath, i - 1, rs);
      var prev := Run(job, root, rootPath, i - 1, rs);
      if prev.failure.None? && IsProject(root.entries[i - 1], job.dirToExclude) && job.operation == CHECK {
        var projectDir := root.entries[i - 1].dir;
        match job.locate(projectDir, rootPath + [projectDir.name], job.sourceRootName, job.sourceLevel)
        case Failure(_) =>
        case Success(loc) =>
          CheckOnlyReports(loc.dir, loc.path, Walking(projectDir.name, job.operation, job.fileToExclude),
                           Lookup(prev.sourceDirs, loc.dir.name), |loc.dir.entries|,
                           WalkState(prev.events, prev.contents, None));
      }
    }
  }

  /** A root with no project in it (only files and excluded directories) changes nothing. */
  lemma {:induction false} RunSkipsNonProjects(job: Job, root: Directory, rootPath: Path, i: nat, rs: RunState)
    requires i <= |root.entries|
    requires forall j :: 0 <= j < i ==> !IsProject(root.entries[j], job.dirToExclude)
    ensures Run(job, root, rootPath, i, rs) == rs
  {
    if i > 0 {
      RunSkipsNonProjects(job, root, rootPath, i - 1, rs);
    }
  }

  /** The entries of a listing that are projects, in their order. */
  function Projects(es: seq<Node>, dirToExclude: set<string>): (r: seq<Node>)
    ensures |r| <= |es|
    ensures forall j :: 0 <= j < |r| ==> IsProject(r[j], dirToExclude)
  {
    if es == [] then []
    else
      Projects(es[..|es| - 1], dirToExclude) +
      (if IsProject(es[|es| - 1], dirToExclude) then [es[|es| - 1]] else [])
  }

  /** The projects of a listing are exactly its directories whose names are not excluded: every one is kept, and nothing else. */
  lemma {:induction false} ProjectsExactly(es: seq<Node>, dirToExclude: set<string>)
    ensures forall x :: x in Projects(es, dirToExclude) <==> x in es && IsProject(x, dirToExclude)
    decreases |es|
  {
    if es != [] {
      assert es == es[..|es| - 1] + [es[|es| - 1]];
      ProjectsExactly(es[..|es| - 1], dirToExclude);
    }
  }

  /** The projects among the first `i` entries come first among the projects of the whole listing. */
  lemma {:induction false} ProjectsPrefix(es: seq<Node>, dirToExclude: set<string>, i: nat)
    requires i <= |es|
    ensures |Projects(es[..i], dirToExclude)| <= |Projects(es, dirToExclude)|
    ensures Projects(es, dirToExclude)[..|Projects(es[..i], dirToExclude)|] == Projects(es[..i], dirToExclude)
    decreases |es|
  {
    if i == |es| {
      assert es[..i] == es;
    } else {
      var es' := es[..|es| - 1];
      assert es'[..i] == es[..i];
      ProjectsPrefix(es', dirToExclude, i);
    }
  }

  /** Running over the first `i` entries is running over the projects among them. */
  lemma {:induction false} RunOnlyProjectsPrefix(job: Job, root: Directory, rootPath: Path, i: nat, rs: RunState)
    requires i <= |root.entries|
    ensures |Projects(root.entries[..i], job.dirToExclude)| <= |Projects(root.entries, job.dirToExclude)|
    ensures Run(job, root, rootPath, i, rs) ==
              Run(job, Directory(root.name, Projects(root.entries, job.dirToExclude)), rootPath,
                  |Projects(root.entries[..i], job.dirToExclude)|, rs)
  {
    ProjectsPrefix(root.entries, job.dirToExclude, i);
    if i > 0 {
      RunOnlyProjectsPrefix(job, root, rootPath, i - 1, rs);
      ProjectsPrefix(root.entries, job.dirToExclude, i - 1);
      ProjectsStep(root.entries, job.dirToExclude, i);
      if IsProject(root.entries[i - 1], job.dirToExclude) {
        RunKeptStep(job, root, rootPath, i, rs);
      } else {
        RunSkippedStep(job, root, rootPath, i, rs);
      }
    }
  }

  /** The projects among the first `i` entries are those among the first `i - 1`, then the `i`-th if it is one. */
  lemma ProjectsStep(es: seq<Node>, dirToExclude: set<string>, i: nat)
    requires 0 < i <= |es|
    ensures IsProject(es[i - 1], dirToExclude) ==>
              Projects(es[..i], dirToExclude) == Projects(es[..i - 1], dirToExclude) + [es[i - 1]]
    ensures !IsProject(es[i - 1], dirToExclude) ==> Projects(es[..i], dirToExclude) == Projects(es[..i - 1], dirToExclude)
  {
    assert es[..i][..i - 1] == es[..i - 1];
  }

  /** Two runs in the same state over the same next entry end in the same state. */
  lemma RunSameStep(job: Job, root: Directory, root': Directory, rootPath: Path, i: nat, m: nat, k: nat, rs: RunState)
    requires 0 < i <= |root.entries| && m < |root'.entries| && k == m + 1
    requires root.entries[i - 1] == root'.entries[m]
    requires Run(job, root, rootPath, i - 1, rs) == Run(job, root', rootPath, m, rs)
    ensures Run(job, root, rootPath, i, rs) == Run(job, root', rootPath, k, rs)
  {
  }

  /** The step of RunOnlyProjectsPrefix over a project. */
  lemma RunKeptStep(job: Job, root: Directory, rootPath: Path, i: nat, rs: RunState)
    requires 0 < i <= |root.entries| && IsProject(root.entries[i - 1], job.dirToExclude)
    requires Projects(root.entries[..i], job.dirToExclude) ==
               Projects(root.entries[..i - 1], job.dirToExclude) + [root.entries[i - 1]]
    requires |Projects(root.entries[..i], job.dirToExclude)| <= |Projects(root.entries, job.dirToExclude)|
    requires Projects(root.entries, job.dirToExclude)[..|Projects(root.entries[..i], job.dirToExclude)|] ==
               Projects(root.entries[..i], job.dirToExclude)
    requires Run(job, root, rootPath, i - 1, rs) ==
               Run(job, Directory(root.name, Projects(root.entries, job.dirToExclude)), rootPath,
                   |Projects(root.entries[..i - 1], job.dirToExclude)|, rs)
    ensures Run(job, root, rootPath, i, rs) ==
              Run(job, Directory(root.name, Projects(root.entries, job.dirToExclude)), rootPath,
                  |Projects(root.entries[..i], job.dirToExclude)|, rs)
  {
    var root' := Directory(root.name, Projects(root.entries, job.dirToExclude));
    var m := |Projects(root.entries[..i - 1], job.dirToExclude)|;
    assert root'.entries[m] == Projects(root.entries[..i], job.dirToExclude)[m];
    RunSameStep(job, root, root', rootPath, i, m, |Projects(root.entries[..i], job.dirToExclude)|, rs);
  }

  /** The step of RunOnlyProjectsPrefix over an entry that is not a project. */
  lemma RunSkippedStep(job: Job, root: Directory, rootPath: Path, i: nat, rs: RunState)
    requires 0 < i <= |root.entries| && !IsProject(root.entries[i - 1], job.dirToExclude)
    requires Projects(root.entries[..i], job.dirToExclude) == Projects(root.entries[..i - 1], job.dirToExclude)
    requires |Projects(root.entries[..i], job.dirToExclude)| <= |Projects(root.entries, job.dirToExclude)|
    requires Run(job, root, rootPath, i - 1, rs) ==
               Run(job, Directory(root.name, Projects(root.entries, job.dirToExclude)), rootPath,
                   |Projects(root.entries[..i - 1], job.dirToExclude)|, rs)
    ensures Run(job, root, rootPath, i, rs) ==
              Run(job, Directory(root.name, Projects(root.entries, job.dirToExclude)), rootPath,
                  |Projects(root.entries[..i], job.dirToExclude)|, rs)
  {
  }

  /**
   * Only projects are processed: a run over the workspace root is the run
   * over the listing that keeps only its directories whose names are not
   * excluded, wherever the other entries sit.
   */
  lemma RunOnlyProjects(job: Job, root: Directory, rootPath: Path, rs: RunState)
    ensures Run(job, root, rootPath, |root.entries|, rs) ==
              Run(job, Directory(root.name, Projects(root.entries, job.dirToExclude)), rootPath,
                  |Projects(root.entries, job.dirToExclude)|, rs)
  {
    RunOnlyProjectsPrefix(job, root, rootPath, |root.entries|, rs);
    assert root.entries[..|root.entries|] == root.entries;
  }

  /**
   * A CREATE run that ends without an exception has registered, under the
   * name of each project's source directory, every non-excluded file below
   * that directory, at its relative path, with its absolute path and the
   * project as owner.
   */
  lemma {:induction false} RunCreateRegisters(job: Job, root: Directory, rootPath: Path, i: nat, rs: RunState,
                                              j: nat, loc: Located, rel: Path)
    requires j < i <= |root.entries|
    requires job.operation == CREATE
    requires Run(job, root, rootPath, i, rs).failure.None?
    requires IsProject(root.entries[j], job.dirToExclude)
    requires job.locate(root.entries[j].dir, rootPath + [root.entries[j].dir.name], job.sourceRootName, job.sourceLevel)
               == Success(loc)
    requires RecordedFileAt(loc.dir, rel) && rel[|rel| - 1] !in job.fileToExclude
    ensures loc.dir.name in Run(job, root, rootPath, i, rs).sourceDirs
    ensures FileAt(Run(job, root, rootPath, i, rs).sourceDirs[loc.dir.name], rel) ==
              Some(OriginalFile(loc.path + rel, root.entries[j].dir.name))
  {
    var prev := Run(job, root, rootPath, i - 1, rs);
    assert prev.failure.None?;
    if j < i - 1 {
      RunCreateRegisters(job, root, rootPath, i - 1, rs, j, loc, rel);
      if IsProject(root.entries[i - 1], job.dirToExclude) {
        var projectDir := root.entries[i - 1].dir;
        match job.locate(projectDir, rootPath + [projectDir.name], job.sourceRootName, job.sourceLevel)
        case Failure(_) =>
        case Success(loc') =>
          AddToRegistryFileAt(prev.sourceDirs, loc'.dir.name, Index(loc'.dir, loc'.path, projectDir.name, job.fileToExclude),
                              loc.dir.name, rel);
      }
    } else {
      var projectName := root.entries[j].dir.name;
      var pkg := Index(loc.dir, loc.path, projectName, job.fileToExclude);
      IndexFileAt(loc.dir, loc.path, projectName, job.fileToExclude, rel);
      AddToRegistryFileAt(prev.sourceDirs, loc.dir.name, pkg, loc.dir.name, rel);
    }
  }

  /**
   * A CREATE step fails with the duplicate-file exception when the project's
   * source directory has the name of one already registered and the two
   * hold a file at the same relative path.
   */
  lemma RunCreateFailsOnClash(job: Job, root: Directory, rootPath: Path, i: nat, rs: RunState, loc: Located)
    requires 0 < i <= |root.entries|
    requires job.operation == CREATE
    requires Run(job, root, rootPath, i - 1, rs).failure.None?
    requires IsProject(root.entries[i - 1], job.dirToExclude)
    requires job.locate(root.entries[i - 1].dir, rootPath + [root.entries[i - 1].dir.name], job.sourceRootName,
                        job.sourceLevel) == Success(loc)
    requires loc.dir.name in Run(job, root, rootPath, i - 1, rs).sourceDirs
    requires Clash(Run(job, root, rootPath, i - 1, rs).sourceDirs[loc.dir.name],
                   Index(loc.dir, loc.path, root.entries[i - 1].dir.name, job.fileToExclude))
    ensures Run(job, root, rootPath, i, rs).failure == Some(DuplicateFileFound)
  {
    AddToRegistryFailsIffClash(Run(job, root, rootPath, i - 1, rs).sourceDirs, loc.dir.name,
                               Index(loc.dir, loc.path, root.entries[i - 1].dir.name, job.fileToExclude));
  }
}
