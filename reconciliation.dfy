/**
 * What `Engine.walkAndDoOperation` and `Engine.logAndOperate` do: walk a
 * live source directory in lock-step with its canonical index, log what
 * they find, and in UPDATE mode copy each canonical file over the live one.
 */
module Reconciliation {
  import opened Wrappers
  import opened Domain
  import opened FileSystem
  import opened Indexing

  /** One line of the log. */
  datatype Event =
    | Moved(fileName: string, fromProject: string, toProject: string)          // "{0} moved from {1} to {2}"
    | Updating(fileName: string, project: string)                             // "Updating {0} into {1}"
    | UpdatingMoved(fileName: string, fromProject: string, toProject: string)  // "... moved ...! Updating from {1}"
    | NotFound(name: string)                                                  // "Original version of {0} not found!"

  /** The log so far, the file contents on disk, and the exception that stopped the walk, if any. */
  datatype WalkState = WalkState(events: seq<Event>, contents: map<Path, Content>, failure: Option<Failure>)

  /** What stays fixed while one project is walked. */
  datatype Walking = Walking(projectName: string, operation: Operation, fileToExclude: set<string>)

  /**
   * One matched file, at absolute path `updating`, whose canonical copy is
   * `originalFile`. CHECK logs a move when the owner differs and touches
   * nothing; UPDATE logs an update (a moved one when the owner differs) and
   * then copies the canonical file over the live one, failing when it cannot
   * be read; CREATE does nothing.
   */
  function LogAndOperate(updating: Path, fileName: string, projectName: string, originalFile: OriginalFile,
                         operation: Operation, st: WalkState): WalkState
  {
    match operation
    case CREATE => st
    case CHECK =>
      if projectName != originalFile.projectName
      then st.(events := st.events + [Moved(fileName, originalFile.projectName, projectName)])
      else st
    case UPDATE =>
      var logged := st.events + [if projectName == originalFile.projectName
                                 then Updating(fileName, originalFile.projectName)
                                 else UpdatingMoved(fileName, originalFile.projectName, projectName)];
      if originalFile.absName in st.contents
      then WalkState(logged, st.contents[updating := st.contents[originalFile.absName]], None)
      else WalkState(logged, st.contents, Some(IOFailure(originalFile.absName)))
  }

  /**
   * The state after the first `i` entries of the live directory `d`, whose
   * absolute path is `path`, have been walked against `originalPkg` (None
   * stands for a null index). A file whose name is excluded is skipped; any
   * other file, and any directory, dereferences the index; a file found in
   * the index goes to `LogAndOperate`; a directory found is walked
   * recursively; either one missing is logged as not found and skipped. An
   * exception ends the walk.
   */
  function Walk(d: Directory, path: Path, w: Walking, originalPkg: Option<Package>, i: nat, st: WalkState): WalkState
    requires i <= |d.entries|
    decreases d, i
  {
    if i == 0 then st
    else
      var prev := Walk(d, path, w, originalPkg, i - 1, st);
      if prev.failure.Some? then prev
      else match d.entries[i - 1]
        case FileNode(n) =>
          if n in w.fileToExclude then prev
          else if originalPkg.None? then prev.(failure := Some(NullPointer))
          else (match originalPkg.value.GetOriginalFile(n)
            case None => prev.(events := prev.events + [NotFound(n)])
            case Some(f) => LogAndOperate(path + [n], n, w.projectName, f, w.operation, prev))
        case DirNode(sub) =>
          if originalPkg.None? then prev.(failure := Some(NullPointer))
          else match originalPkg.value.GetSubPackage(sub.name)
            case None => prev.(events := prev.events + [NotFound(sub.name)])
            case Some(subPackage) =>
              Walk(sub, path + [sub.name], w, Some(subPackage), |sub.entries|, prev)
  }

  /** The whole walk of `d`. */
  function WalkAll(d: Directory, path: Path, w: Walking, originalPkg: Option<Package>, st: WalkState): WalkState
  {
    Walk(d, path, w, originalPkg, |d.entries|, st)
  }

  // ---------------------------------------------------------------------
  // The log
  // ---------------------------------------------------------------------

  /** An exception ends the walk: nothing more happens once one is raised. */
  lemma {:induction false} WalkStopsOnFailure(d: Directory, path: Path, w: Walking, originalPkg: Option<Package>,
                                              i: nat, st: WalkState)
    requires i <= |d.entries|
    requires st.failure.Some?
    ensures Walk(d, path, w, originalPkg, i, st) == st
  {
    if i > 0 {
      WalkStopsOnFailure(d, path, w, originalPkg, i - 1, st);
    }
  }

  /** Once an exception is raised the later entries change nothing. */
  lemma {:induction false} WalkAfterFailure(d: Directory, path: Path, w: Walking, originalPkg: Option<Package>,
                                            i: nat, j: nat, st: WalkState)
    requires i <= j <= |d.entries|
    requires Walk(d, path, w, originalPkg, i, st).failure.Some?
    ensures Walk(d, path, w, originalPkg, j, st) == Walk(d, path, w, originalPkg, i, st)
    decreases j
  {
    if j > i {
      WalkAfterFailure(d, path, w, originalPkg, i, j - 1, st);
    }
  }

  /** The walk only appends to the log. */
  lemma {:induction false} WalkExtendsLog(d: Directory, path: Path, w: Walking, originalPkg: Option<Package>,
                                          i: nat, st: WalkState)
    requires i <= |d.entries|
    ensures |Walk(d, path, w, originalPkg, i, st).events| >= |st.events|
    ensures Walk(d, path, w, originalPkg, i, st).events[..|st.events|] == st.events
    decreases d, i
  {
    if i > 0 {
      WalkExtendsLog(d, path, w, originalPkg, i - 1, st);
      WalkStepExtendsLog(d, path, w, originalPkg, i, st);
      var prev := Walk(d, path, w, originalPkg, i - 1, st);
      var r := Walk(d, path, w, originalPkg, i, st);
      assert r.events[..|st.events|] == r.events[..|prev.events|][..|st.events|];
    }
  }

  /** Each entry only appends to the log. */
  lemma {:induction false} WalkStepExtendsLog(d: Directory, path: Path, w: Walking, originalPkg: Option<Package>,
                                              i: nat, st: WalkState)
    requires 0 < i <= |d.entries|
    ensures |Walk(d, path, w, originalPkg, i, st).events| >= |Walk(d, path, w, originalPkg, i - 1, st).events|
    ensures Walk(d, path, w, originalPkg, i, st).events[..|Walk(d, path, w, originalPkg, i - 1, st).events|] ==
              Walk(d, path, w, originalPkg, i - 1, st).events
    decreases d, 0
  {
    var prev := Walk(d, path, w, originalPkg, i - 1, st);
    if prev.failure.None? && d.entries[i - 1].DirNode? && originalPkg.Some? {
      var sub := d.entries[i - 1].dir;
      if sub.name in originalPkg.value.subPackages {
        WalkExtendsLog(sub, path + [sub.name], w, Some(originalPkg.value.subPackages[sub.name]), |sub.entries|, prev);
      }
    }
  }

  /**
   * The index `p` records, at relative path `rel` ending in `name`, a file
   * owned by `owner`, and that path leads to a regular file listed in `es`.
   */
  ghost predicate MatchedAt(es: seq<Node>, p: Package, name: string, owner: string, rel: Path)
  {
    && |rel| > 0 && rel[|rel| - 1] == name
    && ListedFileAt(es, rel)
    && FileAt(p, rel).Some? && FileAt(p, rel).value.projectName == owner
  }

  /** Some listed, non-excluded file named `name` is matched in the index, with `owner` as its owner. */
  ghost predicate MatchedFile(es: seq<Node>, originalPkg: Option<Package>, w: Walking, name: string, owner: string)
  {
    && originalPkg.Some?
    && name !in w.fileToExclude
    && exists rel :: MatchedAt(es, originalPkg.value, name, owner, rel)
  }

  /**
   * The entry named `name` at relative path `rel` is listed in `es` but
   * missing from the index: the index has the package that should hold it,
   * and that package records no such non-excluded file, or no such
   * subdirectory.
   */
  ghost predicate MissingAt(es: seq<Node>, p: Package, fileToExclude: set<string>, name: string, rel: Path)
  {
    && |rel| > 0 && rel[|rel| - 1] == name
    && PackageAt(p, rel[..|rel| - 1]).Some?
    && ((ListedFileAt(es, rel) && name !in fileToExclude && name !in PackageAt(p, rel[..|rel| - 1]).value.files) ||
        (ListedDirAt(es, rel) && name !in PackageAt(p, rel[..|rel| - 1]).value.subPackages))
  }

  /** Some entry named `name` listed in `es` is missing from the index. */
  ghost predicate MissingEntry(es: seq<Node>, originalPkg: Option<Package>, w: Walking, name: string)
  {
    originalPkg.Some? && exists rel :: MissingAt(es, originalPkg.value, w.fileToExclude, name, rel)
  }

  /**
   * What a walk of the entries `es` against `originalPkg` may log: a
   * not-found warning for an entry missing from the index; in CHECK, a move of a matched file from its owner
   * into this project when the two differ; in UPDATE, an update of a
   * matched file this project owns, or a moved update of one another
   * project owns. CREATE logs nothing else.
   */
  ghost predicate Logged(e: Event, w: Walking, es: seq<Node>, originalPkg: Option<Package>)
  {
    match e
    case NotFound(n) => MissingEntry(es, originalPkg, w, n)
    case Moved(n, from, to) =>
      w.operation == CHECK && to == w.projectName && from != w.projectName && MatchedFile(es, originalPkg, w, n, from)
    case Updating(n, project) =>
      w.operation == UPDATE && project == w.projectName && MatchedFile(es, originalPkg, w, n, project)
    case UpdatingMoved(n, from, to) =>
      w.operation == UPDATE && to == w.projectName && from != w.projectName && MatchedFile(es, originalPkg, w, n, from)
  }

  /** A file matched among some entries stays matched when one more entry is listed. */
  lemma MatchedFileGrows(es: seq<Node>, e: Node, originalPkg: Option<Package>, w: Walking, name: string, owner: string)
    ensures MatchedFile(es, originalPkg, w, name, owner) ==> MatchedFile(es + [e], originalPkg, w, name, owner)
  {
    if MatchedFile(es, originalPkg, w, name, owner) {
      var rel :| MatchedAt(es, originalPkg.value, name, owner, rel);
      ListedFileAtSnoc(es, e, rel);
      assert MatchedAt(es + [e], originalPkg.value, name, owner, rel);
    }
  }

  /** A file matched below a subdirectory is matched, one level up, below the directory that lists it. */
  lemma MatchedFileLift(es: seq<Node>, sub: Directory, p: Package, w: Walking, name: string, owner: string)
    requires sub.name in p.subPackages
    ensures MatchedFile(sub.entries, Some(p.subPackages[sub.name]), w, name, owner) ==>
              MatchedFile(es + [DirNode(sub)], Some(p), w, name, owner)
  {
    if MatchedFile(sub.entries, Some(p.subPackages[sub.name]), w, name, owner) {
      var rel :| MatchedAt(sub.entries, p.subPackages[sub.name], name, owner, rel);
      var rel' := [sub.name] + rel;
      assert rel'[1..] == rel;
      assert EntryHoldsFile(DirNode(sub), rel');
      ListedFileAtSnoc(es, DirNode(sub), rel');
      assert MatchedAt(es + [DirNode(sub)], p, name, owner, rel');
    }
  }

  /** A file of the index listed as the last entry is matched. */
  lemma MatchedFileHere(es: seq<Node>, p: Package, w: Walking, n: string)
    requires n in p.files && n !in w.fileToExclude
    ensures MatchedFile(es + [FileNode(n)], Some(p), w, n, p.files[n].projectName)
  {
    ListedFileAtSnoc(es, FileNode(n), [n]);
    assert MatchedAt(es + [FileNode(n)], p, n, p.files[n].projectName, [n]);
  }

  /** An entry missing among some entries stays missing when one more entry is listed. */
  lemma MissingEntryGrows(es: seq<Node>, e: Node, originalPkg: Option<Package>, w: Walking, name: string)
    ensures MissingEntry(es, originalPkg, w, name) ==> MissingEntry(es + [e], originalPkg, w, name)
  {
    if MissingEntry(es, originalPkg, w, name) {
      var rel :| MissingAt(es, originalPkg.value, w.fileToExclude, name, rel);
      ListedFileAtSnoc(es, e, rel);
      ListedDirAtSnoc(es, e, rel);
      assert MissingAt(es + [e], originalPkg.value, w.fileToExclude, name, rel);
    }
  }

  /** The package one level down, then along `rel`, is the package along the longer path. */
  lemma PackageAtCons(p: Package, k: string, rel: Path)
    requires k in p.subPackages
    ensures PackageAt(p, [k] + rel) == PackageAt(p.subPackages[k], rel)
  {
    assert ([k] + rel)[0] == k && ([k] + rel)[1..] == rel;
  }

  /** An entry missing below a subdirectory is missing, one level up, below the directory that lists it. */
  lemma MissingEntryLift(es: seq<Node>, sub: Directory, p: Package, w: Walking, name: string)
    requires sub.name in p.subPackages
    ensures MissingEntry(sub.entries, Some(p.subPackages[sub.name]), w, name) ==>
              MissingEntry(es + [DirNode(sub)], Some(p), w, name)
  {
    if MissingEntry(sub.entries, Some(p.subPackages[sub.name]), w, name) {
      var sp := p.subPackages[sub.name];
      var rel :| MissingAt(sub.entries, sp, w.fileToExclude, name, rel);
      var rel' := [sub.name] + rel;
      assert rel'[1..] == rel;
      assert rel'[..|rel'| - 1] == [sub.name] + rel[..|rel| - 1];
      PackageAtCons(p, sub.name, rel[..|rel| - 1]);
      ListedFileAtSnoc(es, DirNode(sub), rel');
      ListedDirAtSnoc(es, DirNode(sub), rel');
      if ListedFileAt(sub.entries, rel) {
        assert EntryHoldsFile(DirNode(sub), rel');
      }
      if ListedDirAt(sub.entries, rel) {
        assert EntryHoldsDir(DirNode(sub), rel');
      }
      assert MissingAt(es + [DirNode(sub)], p, w.fileToExclude, name, rel');
    }
  }

  /** A file listed last that the index does not record is missing. */
  lemma MissingFileHere(es: seq<Node>, p: Package, w: Walking, n: string)
    requires n !in p.files && n !in w.fileToExclude
    ensures MissingEntry(es + [FileNode(n)], Some(p), w, n)
  {
    ListedFileAtSnoc(es, FileNode(n), [n]);
    assert [n][..0] == [];
    assert MissingAt(es + [FileNode(n)], p, w.fileToExclude, n, [n]);
  }

  /** A subdirectory listed last that the index does not record is missing. */
  lemma MissingDirHere(es: seq<Node>, p: Package, w: Walking, sub: Directory)
    requires sub.name !in p.subPackages
    ensures MissingEntry(es + [DirNode(sub)], Some(p), w, sub.name)
  {
    ListedDirAtSnoc(es, DirNode(sub), [sub.name]);
    assert [sub.name][..0] == [];
    assert EntryHoldsDir(DirNode(sub), [sub.name]);
    assert MissingAt(es + [DirNode(sub)], p, w.fileToExclude, sub.name, [sub.name]);
  }

  /** What may be logged for some entries may be logged for more. */
  lemma LoggedGrows(ev: Event, w: Walking, es: seq<Node>, e: Node, originalPkg: Option<Package>)
    ensures Logged(ev, w, es, originalPkg) ==> Logged(ev, w, es + [e], originalPkg)
  {
    match ev
    case NotFound(n) => MissingEntryGrows(es, e, originalPkg, w, n);
    case Moved(n, from, _) => MatchedFileGrows(es, e, originalPkg, w, n, from);
    case Updating(n, project) => MatchedFileGrows(es, e, originalPkg, w, n, project);
    case UpdatingMoved(n, from, _) => MatchedFileGrows(es, e, originalPkg, w, n, from);
  }

  /** What may be logged below a subdirectory may be logged for the directory that lists it. */
  lemma LoggedLift(ev: Event, w: Walking, es: seq<Node>, sub: Directory, p: Package)
    requires sub.name in p.subPackages
    ensures Logged(ev, w, sub.entries, Some(p.subPackages[sub.name])) ==> Logged(ev, w, es + [DirNode(sub)], Some(p))
  {
    match ev
    case NotFound(n) => MissingEntryLift(es, sub, p, w, n);
    case Moved(n, from, _) => MatchedFileLift(es, sub, p, w, n, from);
    case Updating(n, project) => MatchedFileLift(es, sub, p, w, n, project);
    case UpdatingMoved(n, from, _) => MatchedFileLift(es, sub, p, w, n, from);
  }

  /**
   * Every line a walk logs is a not-found warning or the report of a
   * listed, non-excluded file matched in the index, naming the owner the
   * index records: a move in CHECK when that owner is another project, an
   * update or a moved update in UPDATE.
   */
  lemma {:induction false} WalkLogsOnlyMatches(d: Directory, path: Path, w: Walking, originalPkg: Option<Package>,
                                               i: nat, st: WalkState)
    requires i <= |d.entries|
    ensures |Walk(d, path, w, originalPkg, i, st).events| >= |st.events|
    ensures forall k :: |st.events| <= k < |Walk(d, path, w, originalPkg, i, st).events| ==>
              Logged(Walk(d, path, w, originalPkg, i, st).events[k], w, d.entries[..i], originalPkg)
    decreases d, i
  {
    if i > 0 {
      var prev := Walk(d, path, w, originalPkg, i - 1, st);
      WalkLogsOnlyMatches(d, path, w, originalPkg, i - 1, st);
      if d.entries[i - 1].DirNode? && prev.failure.None? && originalPkg.Some? &&
         d.entries[i - 1].dir.name in originalPkg.value.subPackages {
        var sub := d.entries[i - 1].dir;
        WalkLogsOnlyMatches(sub, path + [sub.name], w, Some(originalPkg.value.subPackages[sub.name]),
                            |sub.entries|, prev);
        assert sub.entries[..|sub.entries|] == sub.entries;
      }
      LogsOnlyMatchesStep(d, path, w, originalPkg, i, st);
    }
  }

  /** The step of WalkLogsOnlyMatches over one entry. */
  lemma LogsOnlyMatchesStep(d: Directory, path: Path, w: Walking, originalPkg: Option<Package>, i: nat, st: WalkState)
    requires 0 < i <= |d.entries|
    requires var prev := Walk(d, path, w, originalPkg, i - 1, st);
             && |prev.events| >= |st.events|
             && forall k :: |st.events| <= k < |prev.events| ==> Logged(prev.events[k], w, d.entries[..i - 1], originalPkg)
    requires var prev := Walk(d, path, w, originalPkg, i - 1, st);
             d.entries[i - 1].DirNode? && prev.failure.None? && originalPkg.Some? &&
             d.entries[i - 1].dir.name in originalPkg.value.subPackages ==>
               var sub := d.entries[i - 1].dir;
               var inner := Walk(sub, path + [sub.name], w, Some(originalPkg.value.subPackages[sub.name]),
                                 |sub.entries|, prev);
               && |inner.events| >= |prev.events|
               && forall k :: |prev.events| <= k < |inner.events| ==>
                    Logged(inner.events[k], w, sub.entries, Some(originalPkg.value.subPackages[sub.name]))
    ensures |Walk(d, path, w, originalPkg, i, st).events| >= |st.events|
    ensures forall k :: |st.events| <= k < |Walk(d, path, w, originalPkg, i, st).events| ==>
              Logged(Walk(d, path, w, originalPkg, i, st).events[k], w, d.entries[..i], originalPkg)
  {
    var e := d.entries[i - 1];
    var prev := Walk(d, path, w, originalPkg, i - 1, st);
    var r := Walk(d, path, w, originalPkg, i, st);
    WalkStepExtendsLog(d, path, w, originalPkg, i, st);
    assert d.entries[..i] == d.entries[..i - 1] + [e];
    forall k | |st.events| <= k < |prev.events|
      ensures Logged(r.events[k], w, d.entries[..i], originalPkg)
    {
      assert r.events[k] == r.events[..|prev.events|][k];
      LoggedGrows(r.events[k], w, d.entries[..i - 1], e, originalPkg);
    }
    if prev.failure.None? && originalPkg.Some? {
      match e
      case FileNode(n) =>
        if n !in w.fileToExclude && n in originalPkg.value.files {
          MatchedFileHere(d.entries[..i - 1], originalPkg.value, w, n);
        } else if n !in w.fileToExclude {
          MissingFileHere(d.entries[..i - 1], originalPkg.value, w, n);
        }
      case DirNode(sub) =>
        if sub.name !in originalPkg.value.subPackages {
          MissingDirHere(d.entries[..i - 1], originalPkg.value, w, sub);
        } else {
          forall k | |prev.events| <= k < |r.events|
            ensures Logged(r.events[k], w, d.entries[..i], originalPkg)
          {
            LoggedLift(r.events[k], w, d.entries[..i - 1], sub, originalPkg.value);
          }
        }
    }
  }


  /**
   * CHECK never writes to the disk, and every line it logs is a not-found
   * warning or a move.
   */
  lemma {:induction false} CheckOnlyReports(d: Directory, path: Path, w: Walking, originalPkg: Option<Package>,
                                            i: nat, st: WalkState)
    requires i <= |d.entries|
    requires w.operation == CHECK
    ensures Walk(d, path, w, originalPkg, i, st).contents == st.contents
    ensures |Walk(d, path, w, originalPkg, i, st).events| >= |st.events|
    ensures forall k :: |st.events| <= k < |Walk(d, path, w, originalPkg, i, st).events| ==>
              Walk(d, path, w, originalPkg, i, st).events[k].NotFound? ||
              Walk(d, path, w, originalPkg, i, st).events[k].Moved?
    decreases d, i
  {
    WalkLogsOnlyMatches(d, path, w, originalPkg, i, st);
    if i > 0 {
      CheckOnlyReports(d, path, w, originalPkg, i - 1, st);
      var prev := Walk(d, path, w, originalPkg, i - 1, st);
      if prev.failure.None? && d.entries[i - 1].DirNode? && originalPkg.Some? {
        var sub := d.entries[i - 1].dir;
        if sub.name in originalPkg.value.subPackages {
          CheckOnlyReports(sub, path + [sub.name], w, Some(originalPkg.value.subPackages[sub.name]), |sub.entries|, prev);
        }
      }
    }
  }

  /**
   * How many lines a walk of the first `i` entries against `p` logs when
   * it raises nothing: one for each missing file or directory, one for each
   * matched file in UPDATE, one for each matched file owned by another
   * project in CHECK, and those of each matched subdirectory.
   */
  function Reported(d: Directory, w: Walking, p: Package, i: nat): nat
    requires i <= |d.entries|
    decreases d, i
  {
    if i == 0 then 0
    else
      Reported(d, w, p, i - 1) +
      match d.entries[i - 1]
      case FileNode(n) =>
        if n in w.fileToExclude then 0
        else if n !in p.files then 1
        else if w.operation == UPDATE || (w.operation == CHECK && p.files[n].projectName != w.projectName) then 1
        else 0
      case DirNode(sub) =>
        if sub.name !in p.subPackages then 1 else Reported(sub, w, p.subPackages[sub.name], |sub.entries|)
  }

  /** A walk that raises nothing logs exactly one line per reported entry, and no more. */
  lemma {:induction false} WalkLogCount(d: Directory, path: Path, w: Walking, p: Package, i: nat, st: WalkState)
    requires i <= |d.entries|
    requires Walk(d, path, w, Some(p), i, st).failure.None?
    ensures |Walk(d, path, w, Some(p), i, st).events| == |st.events| + Reported(d, w, p, i)
    decreases d, i
  {
    if i > 0 {
      var prev := Walk(d, path, w, Some(p), i - 1, st);
      assert prev.failure.None?;
      WalkLogCount(d, path, w, p, i - 1, st);
      match d.entries[i - 1]
      case FileNode(n) =>
      case DirNode(sub) =>
        if sub.name in p.subPackages {
          WalkLogCount(sub, path + [sub.name], w, p.subPackages[sub.name], |sub.entries|, prev);
        }
    }
  }

  /** An excluded file changes nothing. */
  lemma SkipStep(d: Directory, path: Path, w: Walking, originalPkg: Option<Package>, i: nat, st: WalkState)
    requires 0 < i <= |d.entries|
    requires d.entries[i - 1].FileNode? && d.entries[i - 1].name in w.fileToExclude
    ensures Walk(d, path, w, originalPkg, i, st) == Walk(d, path, w, originalPkg, i - 1, st)
  {
  }

  /** Two walks in the same state over the same next entry end in the same state. */
  lemma SameStep(d: Directory, d': Directory, path: Path, w: Walking, originalPkg: Option<Package>,
                 i: nat, m: nat, k: nat, st: WalkState)
    requires 0 < i <= |d.entries| && m < |d'.entries| && k == m + 1
    requires d.entries[i - 1] == d'.entries[m]
    requires Walk(d, path, w, originalPkg, i - 1, st) == Walk(d', path, w, originalPkg, m, st)
    ensures Walk(d, path, w, originalPkg, i, st) == Walk(d', path, w, originalPkg, k, st)
  {
  }

  /**
   * Two walks in the same state over subdirectories of one name, whose own
   * walks agree, end in the same state.
   */
  lemma SameDirStep(d: Directory, d': Directory, path: Path, w: Walking, originalPkg: Option<Package>,
                    i: nat, m: nat, k: nat, st: WalkState, sub: Directory, sub': Directory)
    requires 0 < i <= |d.entries| && m < |d'.entries| && k == m + 1
    requires d.entries[i - 1] == DirNode(sub) && d'.entries[m] == DirNode(sub') && sub'.name == sub.name
    requires Walk(d, path, w, originalPkg, i - 1, st) == Walk(d', path, w, originalPkg, m, st)
    requires var prev := Walk(d, path, w, originalPkg, i - 1, st);
             prev.failure.None? && originalPkg.Some? && sub.name in originalPkg.value.subPackages ==>
               Walk(sub, path + [sub.name], w, Some(originalPkg.value.subPackages[sub.name]), |sub.entries|, prev) ==
               Walk(sub', path + [sub.name], w, Some(originalPkg.value.subPackages[sub.name]), |sub'.entries|, prev)
    ensures Walk(d, path, w, originalPkg, i, st) == Walk(d', path, w, originalPkg, k, st)
  {
  }

  /** Walking the first `i` entries is walking what is left of them once excluded files are removed. */
  lemma {:induction false} WalkIgnoresExcludedPrefix(d: Directory, path: Path, w: Walking, originalPkg: Option<Package>,
                                                     i: nat, st: WalkState)
    requires i <= |d.entries|
    ensures |StripEntries(d, w.fileToExclude, i)| <= |StripExcluded(d, w.fileToExclude).entries|
    ensures Walk(d, path, w, originalPkg, i, st) ==
              Walk(StripExcluded(d, w.fileToExclude), path, w, originalPkg, |StripEntries(d, w.fileToExclude, i)|, st)
    decreases d, i
  {
    StripPrefix(d, w.fileToExclude, i, |d.entries|);
    if i > 0 {
      StripPrefix(d, w.fileToExclude, i - 1, i);
      WalkIgnoresExcludedPrefix(d, path, w, originalPkg, i - 1, st);
      match d.entries[i - 1] {
        case FileNode(n) =>
          if n !in w.fileToExclude {
            StripKeptFile(d, path, w, originalPkg, i, st);
          } else {
            StripSkippedFile(d, path, w, originalPkg, i, st);
          }
        case DirNode(sub) =>
          var prev := Walk(d, path, w, originalPkg, i - 1, st);
          if prev.failure.None? && originalPkg.Some? && sub.name in originalPkg.value.subPackages {
            WalkIgnoresExcludedPrefix(sub, path + [sub.name], w, Some(originalPkg.value.subPackages[sub.name]),
                                      |sub.entries|, prev);
          }
          StripDir(d, path, w, originalPkg, i, st, sub);
      }
    }
  }

  /** The step of WalkIgnoresExcludedPrefix over a file that is not excluded. */
  lemma StripKeptFile(d: Directory, path: Path, w: Walking, originalPkg: Option<Package>, i: nat, st: WalkState)
    requires 0 < i <= |d.entries|
    requires d.entries[i - 1].FileNode? && d.entries[i - 1].name !in w.fileToExclude
    requires |StripEntries(d, w.fileToExclude, i - 1)| <= |StripEntries(d, w.fileToExclude, i)| <=
             |StripExcluded(d, w.fileToExclude).entries|
    requires Walk(d, path, w, originalPkg, i - 1, st) ==
               Walk(StripExcluded(d, w.fileToExclude), path, w, originalPkg, |StripEntries(d, w.fileToExclude, i - 1)|, st)
    ensures Walk(d, path, w, originalPkg, i, st) ==
              Walk(StripExcluded(d, w.fileToExclude), path, w, originalPkg, |StripEntries(d, w.fileToExclude, i)|, st)
  {
    var d' := StripExcluded(d, w.fileToExclude);
    var m := |StripEntries(d, w.fileToExclude, i - 1)|;
    StripPrefix(d, w.fileToExclude, i, |d.entries|);
    assert StripEntries(d, w.fileToExclude, i) == StripEntries(d, w.fileToExclude, i - 1) + [d.entries[i - 1]];
    assert d'.entries[m] == StripEntries(d, w.fileToExclude, i)[m];
    SameStep(d, d', path, w, originalPkg, i, m, |StripEntries(d, w.fileToExclude, i)|, st);
  }

  /** The step of WalkIgnoresExcludedPrefix over an excluded file. */
  lemma StripSkippedFile(d: Directory, path: Path, w: Walking, originalPkg: Option<Package>, i: nat, st: WalkState)
    requires 0 < i <= |d.entries|
    requires d.entries[i - 1].FileNode? && d.entries[i - 1].name in w.fileToExclude
    requires |StripEntries(d, w.fileToExclude, i - 1)| <= |StripEntries(d, w.fileToExclude, i)| <=
             |StripExcluded(d, w.fileToExclude).entries|
    requires Walk(d, path, w, originalPkg, i - 1, st) ==
               Walk(StripExcluded(d, w.fileToExclude), path, w, originalPkg, |StripEntries(d, w.fileToExclude, i - 1)|, st)
    ensures Walk(d, path, w, originalPkg, i, st) ==
              Walk(StripExcluded(d, w.fileToExclude), path, w, originalPkg, |StripEntries(d, w.fileToExclude, i)|, st)
  {
    assert StripEntries(d, w.fileToExclude, i) == StripEntries(d, w.fileToExclude, i - 1);
    SkipStep(d, path, w, originalPkg, i, st);
  }

  /** The step of WalkIgnoresExcludedPrefix over a subdirectory whose own walk ignores excluded files. */
  lemma StripDir(d: Directory, path: Path, w: Walking, originalPkg: Option<Package>, i: nat, st: WalkState,
                 sub: Directory)
    requires 0 < i <= |d.entries| && d.entries[i - 1] == DirNode(sub)
    requires |StripEntries(d, w.fileToExclude, i - 1)| <= |StripEntries(d, w.fileToExclude, i)| <=
             |StripExcluded(d, w.fileToExclude).entries|
    requires Walk(d, path, w, originalPkg, i - 1, st) ==
               Walk(StripExcluded(d, w.fileToExclude), path, w, originalPkg, |StripEntries(d, w.fileToExclude, i - 1)|, st)
    requires var prev := Walk(d, path, w, originalPkg, i - 1, st);
             prev.failure.None? && originalPkg.Some? && sub.name in originalPkg.value.subPackages ==>
               Walk(sub, path + [sub.name], w, Some(originalPkg.value.subPackages[sub.name]), |sub.entries|, prev) ==
               Walk(StripExcluded(sub, w.fileToExclude), path + [sub.name], w,
                    Some(originalPkg.value.subPackages[sub.name]),
                    |StripEntries(sub, w.fileToExclude, |sub.entries|)|, prev)
    ensures Walk(d, path, w, originalPkg, i, st) ==
              Walk(StripExcluded(d, w.fileToExclude), path, w, originalPkg, |StripEntries(d, w.fileToExclude, i)|, st)
  {
    var d' := StripExcluded(d, w.fileToExclude);
    var sub' := StripExcluded(sub, w.fileToExclude);
    var m := |StripEntries(d, w.fileToExclude, i - 1)|;
    StripPrefix(d, w.fileToExclude, i, |d.entries|);
    assert StripEntries(d, w.fileToExclude, i) == StripEntries(d, w.fileToExclude, i - 1) + [DirNode(sub')];
    assert d'.entries[m] == StripEntries(d, w.fileToExclude, i)[m];
    SameDirStep(d, d', path, w, originalPkg, i, m, |StripEntries(d, w.fileToExclude, i)|, st, sub, sub');
  }

  /**
   * Excluded files play no part in a walk: walking `d` logs, writes and
   * raises exactly what walking `d` with every excluded file removed, at
   * every level, does.
   */
  lemma WalkIgnoresExcluded(d: Directory, path: Path, w: Walking, originalPkg: Option<Package>, st: WalkState)
    ensures WalkAll(d, path, w, originalPkg, st) == WalkAll(StripExcluded(d, w.fileToExclude), path, w, originalPkg, st)
  {
    WalkIgnoresExcludedPrefix(d, path, w, originalPkg, |d.entries|, st);
  }

  /** Running CHECK twice over an unchanged tree gives the same log and leaves the disk alone. */
  lemma CheckTwice(d: Directory, path: Path, w: Walking, originalPkg: Option<Package>, contents: map<Path, Content>)
    requires w.operation == CHECK
    ensures var first := WalkAll(d, path, w, originalPkg, WalkState([], contents, None));
            && first.contents == contents
            && WalkAll(d, path, w, originalPkg, WalkState([], first.contents, None)) == first
  {
    CheckOnlyReports(d, path, w, originalPkg, |d.entries|, WalkState([], contents, None));
  }

  /** An entry missing among `es + [FileNode(n)]` but not among `es` is that file. */
  lemma MissingFileDescend(es: seq<Node>, n: string, p: Package, fileToExclude: set<string>, name: string, rel: Path)
    requires MissingAt(es + [FileNode(n)], p, fileToExclude, name, rel) && !MissingAt(es, p, fileToExclude, name, rel)
    ensures rel == [n] && name == n && n !in fileToExclude && n !in p.files
  {
    ListedFileAtSnoc(es, FileNode(n), rel);
    ListedDirAtSnoc(es, FileNode(n), rel);
    assert rel[..0] == [];
  }

  /**
   * An entry missing among `es + [DirNode(sub)]` but not among `es` is that
   * subdirectory itself, or an entry missing below it.
   */
  lemma MissingDirDescend(es: seq<Node>, sub: Directory, p: Package, fileToExclude: set<string>, name: string,
                          rel: Path)
    requires MissingAt(es + [DirNode(sub)], p, fileToExclude, name, rel)
    requires !MissingAt(es, p, fileToExclude, name, rel)
    ensures |rel| == 1 ==> name == sub.name && sub.name !in p.subPackages
    ensures |rel| >= 2 ==> rel[0] == sub.name && sub.name in p.subPackages &&
                           MissingAt(sub.entries, p.subPackages[sub.name], fileToExclude, name, rel[1..])
  {
    ListedFileAtSnoc(es, DirNode(sub), rel);
    ListedDirAtSnoc(es, DirNode(sub), rel);
    if |rel| == 1 {
      assert rel[..0] == [];
    } else {
      var rest := rel[1..];
      assert rel == [rel[0]] + rest;
      assert rel[..|rel| - 1] == [rel[0]] + rest[..|rest| - 1];
      assert rel[0] in p.subPackages;
      PackageAtCons(p, rel[0], rest[..|rest| - 1]);
    }
  }

  /**
   * In a walk that raises nothing, every entry missing from the index, at
   * any depth below a matched directory, is reported as not found.
   */
  lemma {:induction false} WalkReportsMissing(d: Directory, path: Path, w: Walking, p: Package, i: nat,
                                              st: WalkState, name: string, rel: Path)
    requires i <= |d.entries|
    requires Walk(d, path, w, Some(p), i, st).failure.None?
    ensures |Walk(d, path, w, Some(p), i, st).events| >= |st.events|
    ensures MissingAt(d.entries[..i], p, w.fileToExclude, name, rel) ==>
              NotFound(name) in Walk(d, path, w, Some(p), i, st).events[|st.events|..]
    decreases d, i
  {
    WalkExtendsLog(d, path, w, Some(p), i, st);
    if i > 0 {
      var e := d.entries[i - 1];
      var prev := Walk(d, path, w, Some(p), i - 1, st);
      var r := Walk(d, path, w, Some(p), i, st);
      WalkAfterFailureStep(d, path, w, Some(p), i, st);
      WalkExtendsLog(d, path, w, Some(p), i - 1, st);
      WalkStepExtendsLog(d, path, w, Some(p), i, st);
      assert d.entries[..i] == d.entries[..i - 1] + [e];
      assert r.events[|st.events|..] == prev.events[|st.events|..] + r.events[|prev.events|..];
      if MissingAt(d.entries[..i - 1], p, w.fileToExclude, name, rel) {
        WalkReportsMissing(d, path, w, p, i - 1, st, name, rel);
      } else if MissingAt(d.entries[..i], p, w.fileToExclude, name, rel) {
        match e {
          case FileNode(n) =>
            MissingFileDescend(d.entries[..i - 1], n, p, w.fileToExclude, name, rel);
            assert r.events[|prev.events|..] == [NotFound(n)];
          case DirNode(sub) =>
            MissingDirDescend(d.entries[..i - 1], sub, p, w.fileToExclude, name, rel);
            if |rel| == 1 {
              assert r.events[|prev.events|..] == [NotFound(sub.name)];
            } else {
              assert sub.entries[..|sub.entries|] == sub.entries;
              WalkReportsMissing(sub, path + [sub.name], w, p.subPackages[sub.name], |sub.entries|, prev, name, rel[1..]);
            }
        }
      }
    }
  }

  /** A file matched among `es + [FileNode(n)]` but not among `es` is that file. */
  lemma MatchedFileDescend(es: seq<Node>, n: string, p: Package, name: string, owner: string, rel: Path)
    requires MatchedAt(es + [FileNode(n)], p, name, owner, rel) && !MatchedAt(es, p, name, owner, rel)
    ensures rel == [n] && name == n && n in p.files && p.files[n].projectName == owner
  {
    ListedFileAtSnoc(es, FileNode(n), rel);
  }

  /** A file matched among `es + [DirNode(sub)]` but not among `es` is matched below that subdirectory. */
  lemma MatchedDirDescend(es: seq<Node>, sub: Directory, p: Package, name: string, owner: string, rel: Path)
    requires MatchedAt(es + [DirNode(sub)], p, name, owner, rel) && !MatchedAt(es, p, name, owner, rel)
    ensures |rel| >= 2 && rel[0] == sub.name && sub.name in p.subPackages
    ensures MatchedAt(sub.entries, p.subPackages[sub.name], name, owner, rel[1..])
  {
    ListedFileAtSnoc(es, DirNode(sub), rel);
  }

  /**
   * In a walk that raises nothing, every listed, non-excluded file the
   * index records, at any depth below a matched directory, is reported: in
   * CHECK as moved when another project owns it, in UPDATE as updated or,
   * when another project owns it, as a moved update.
   */
  lemma {:induction false} WalkReportsMatched(d: Directory, path: Path, w: Walking, p: Package, i: nat,
                                              st: WalkState, name: string, owner: string, rel: Path)
    requires i <= |d.entries|
    requires Walk(d, path, w, Some(p), i, st).failure.None?
    ensures |Walk(d, path, w, Some(p), i, st).events| >= |st.events|
    ensures MatchedAt(d.entries[..i], p, name, owner, rel) && name !in w.fileToExclude &&
            w.operation == CHECK && owner != w.projectName ==>
              Moved(name, owner, w.projectName) in Walk(d, path, w, Some(p), i, st).events[|st.events|..]
    ensures MatchedAt(d.entries[..i], p, name, owner, rel) && name !in w.fileToExclude && w.operation == UPDATE ==>
              (if owner == w.projectName then Updating(name, w.projectName)
               else UpdatingMoved(name, owner, w.projectName)) in Walk(d, path, w, Some(p), i, st).events[|st.events|..]
    decreases d, i
  {
    WalkExtendsLog(d, path, w, Some(p), i, st);
    if i > 0 {
      var e := d.entries[i - 1];
      var prev := Walk(d, path, w, Some(p), i - 1, st);
      var r := Walk(d, path, w, Some(p), i, st);
      WalkAfterFailureStep(d, path, w, Some(p), i, st);
      WalkExtendsLog(d, path, w, Some(p), i - 1, st);
      WalkStepExtendsLog(d, path, w, Some(p), i, st);
      assert d.entries[..i] == d.entries[..i - 1] + [e];
      assert r.events[|st.events|..] == prev.events[|st.events|..] + r.events[|prev.events|..];
      if MatchedAt(d.entries[..i - 1], p, name, owner, rel) {
        WalkReportsMatched(d, path, w, p, i - 1, st, name, owner, rel);
      } else if MatchedAt(d.entries[..i], p, name, owner, rel) && name !in w.fileToExclude {
        match e {
          case FileNode(n) =>
            MatchedFileDescend(d.entries[..i - 1], n, p, name, owner, rel);
            if w.operation == UPDATE || (w.operation == CHECK && owner != w.projectName) {
              assert r.events[|prev.events|..] == [r.events[|prev.events|]];
            }
          case DirNode(sub) =>
            MatchedDirDescend(d.entries[..i - 1], sub, p, name, owner, rel);
            assert sub.entries[..|sub.entries|] == sub.entries;
            WalkReportsMatched(sub, path + [sub.name], w, p.subPackages[sub.name], |sub.entries|, prev,
                               name, owner, rel[1..]);
        }
      }
    }
  }

  // ---------------------------------------------------------------------
  // What UPDATE writes
  // ---------------------------------------------------------------------

  /**
   * The copies UPDATE makes over the first `i` entries of `d` against the
   * index `p`: each live absolute path mapped to the absolute path of the
   * canonical file copied over it.
   */
  function Plan(d: Directory, path: Path, fileToExclude: set<string>, p: Package, i: nat): map<Path, Path>
    requires i <= |d.entries|
    decreases d, i
  {
    if i == 0 then map[]
    else
      var before := Plan(d, path, fileToExclude, p, i - 1);
      match d.entries[i - 1]
      case FileNode(n) =>
        if n !in fileToExclude && n in p.files then before[path + [n] := p.files[n].absName] else before
      case DirNode(sub) =>
        if sub.name in p.subPackages
        then before + Plan(sub, path + [sub.name], fileToExclude, p.subPackages[sub.name], |sub.entries|)
        else before
  }

  /**
   * A walk writes nothing outside its plan, whatever the operation: a path
   * the plan does not name exists afterwards exactly when it existed
   * before, with the same content.
   */
  lemma {:induction false} WalkWritesOnlyPlan(d: Directory, path: Path, w: Walking, p: Package, i: nat,
                                              st: WalkState, l: Path)
    requires i <= |d.entries|
    requires l !in Plan(d, path, w.fileToExclude, p, i)
    ensures l in Walk(d, path, w, Some(p), i, st).contents <==> l in st.contents
    ensures l in st.contents ==> Walk(d, path, w, Some(p), i, st).contents[l] == st.contents[l]
    decreases d, i
  {
    if i > 0 {
      WalkWritesOnlyPlan(d, path, w, p, i - 1, st, l);
      var prev := Walk(d, path, w, Some(p), i - 1, st);
      match d.entries[i - 1] {
        case FileNode(n) =>
        case DirNode(sub) =>
          if prev.failure.None? && sub.name in p.subPackages {
            WalkWritesOnlyPlan(sub, path + [sub.name], w, p.subPackages[sub.name], |sub.entries|, prev, l);
          }
      }
    }
  }

  /** Every path the plan writes lies strictly below `path`. */
  lemma {:induction false} PlanBelow(d: Directory, path: Path, fileToExclude: set<string>, p: Package, i: nat)
    requires i <= |d.entries|
    ensures forall l :: l in Plan(d, path, fileToExclude, p, i) ==> |l| > |path| && l[..|path|] == path
    decreases d, i
  {
    if i > 0 {
      PlanBelow(d, path, fileToExclude, p, i - 1);
      match d.entries[i - 1]
      case FileNode(n) =>
        assert (path + [n])[..|path|] == path;
      case DirNode(sub) =>
        if sub.name in p.subPackages {
          var q := path + [sub.name];
          PlanBelow(sub, q, fileToExclude, p.subPackages[sub.name], |sub.entries|);
          forall l | l in Plan(sub, q, fileToExclude, p.subPackages[sub.name], |sub.entries|)
            ensures |l| > |path| && l[..|path|] == path
          {
            assert l[..|path|] == l[..|q|][..|path|];
          }
        }
    }
  }

  /**
   * UPDATE writes exactly the listed, non-excluded files whose relative
   * path leads to a file of the index, and what it writes over each is the
   * file the index records there.
   */
  lemma {:induction false} PlanAt(d: Directory, path: Path, fileToExclude: set<string>, p: Package, i: nat, rel: Path)
    requires i <= |d.entries|
    ensures path + rel in Plan(d, path, fileToExclude, p, i) <==>
              ListedFileAt(d.entries[..i], rel) && |rel| > 0 && rel[|rel| - 1] !in fileToExclude && FileAt(p, rel).Some?
    ensures path + rel in Plan(d, path, fileToExclude, p, i) ==>
              Plan(d, path, fileToExclude, p, i)[path + rel] == FileAt(p, rel).value.absName
    decreases d, i
  {
    if i > 0 {
      var e := d.entries[i - 1];
      PlanAt(d, path, fileToExclude, p, i - 1, rel);
      assert d.entries[..i] == d.entries[..i - 1] + [e];
      ListedFileAtSnoc(d.entries[..i - 1], e, rel);
      match e
      case FileNode(n) =>
        if path + rel == path + [n] {
          assert rel == (path + rel)[|path|..] == [n];
        }
      case DirNode(sub) =>
        var k := sub.name;
        if k in p.subPackages {
          var q := path + [k];
          var sp := Plan(sub, q, fileToExclude, p.subPackages[k], |sub.entries|);
          PlanBelow(sub, q, fileToExclude, p.subPackages[k], |sub.entries|);
          if |rel| >= 2 && rel[0] == k {
            assert path + rel == q + rel[1..];
            PlanAt(sub, q, fileToExclude, p.subPackages[k], |sub.entries|, rel[1..]);
            assert sub.entries[..|sub.entries|] == sub.entries;
          } else {
            BelowOneMore(path, rel, q);
          }
        }
    }
  }

  /** A path below `q`, one step below `path`, is `path` followed by `q`'s last step and more. */
  lemma BelowOneMore(path: Path, rel: Path, q: Path)
    requires |q| == |path| + 1
    ensures |path + rel| > |q| && (path + rel)[..|q|] == q ==> |rel| >= 2 && rel[0] == q[|path|]
  {
    if |path + rel| > |q| && (path + rel)[..|q|] == q {
      assert rel[0] == (path + rel)[|path|] == (path + rel)[..|q|][|path|];
    }
  }

  /** A plan over more entries keeps every copy of a plan over fewer. */
  lemma PlanGrows(d: Directory, path: Path, fileToExclude: set<string>, p: Package, i: nat)
    requires 0 < i <= |d.entries|
    ensures forall l :: l in Plan(d, path, fileToExclude, p, i - 1) ==>
              l in Plan(d, path, fileToExclude, p, i) &&
              Plan(d, path, fileToExclude, p, i)[l] == Plan(d, path, fileToExclude, p, i - 1)[l]
  {
    var before := Plan(d, path, fileToExclude, p, i - 1);
    PlanBelow(d, path, fileToExclude, p, i - 1);
    forall l | l in before
      ensures l in Plan(d, path, fileToExclude, p, i) && Plan(d, path, fileToExclude, p, i)[l] == before[l]
    {
      var rel := l[|path|..];
      assert l == path + rel;
      PlanAt(d, path, fileToExclude, p, i - 1, rel);
      PlanAt(d, path, fileToExclude, p, i, rel);
      assert d.entries[..i] == d.entries[..i - 1] + [d.entries[i - 1]];
      ListedFileAtSnoc(d.entries[..i - 1], d.entries[i - 1], rel);
    }
  }

  /** Whether every canonical file the plan reads is on disk. */
  predicate Readable(contents: map<Path, Content>, plan: map<Path, Path>)
  {
    forall l :: l in plan ==> plan[l] in contents
  }

  /** The disk after every live path of `plan` received the content of its canonical file. */
  function Apply(contents: map<Path, Content>, plan: map<Path, Path>): map<Path, Content>
    requires Readable(contents, plan)
  {
    map l | l in contents.Keys + plan.Keys :: if l in plan then contents[plan[l]] else contents[l]
  }

  /** Every canonical file the plan reads is one it does not write, or one it copies onto itself. */
  predicate ReadsOnlyUnchanged(plan: map<Path, Path>)
  {
    forall l :: l in plan && plan[l] in plan ==> plan[plan[l]] == plan[l]
  }

  /**
   * An UPDATE walk that ends without an exception found every canonical
   * file it needed. When every live file it overwrites that is also the
   * canonical copy of another is copied onto itself, the walk leaves the
   * disk as if all of its copies had been made at once.
   */
  lemma {:induction false} UpdateCopies(d: Directory, path: Path, w: Walking, p: Package, i: nat, st: WalkState)
    requires i <= |d.entries|
    requires w.operation == UPDATE
    requires st.failure.None?
    requires Walk(d, path, w, Some(p), i, st).failure.None?
    requires ReadsOnlyUnchanged(Plan(d, path, w.fileToExclude, p, i))
    ensures Readable(st.contents, Plan(d, path, w.fileToExclude, p, i))
    ensures Walk(d, path, w, Some(p), i, st).contents == Apply(st.contents, Plan(d, path, w.fileToExclude, p, i))
    decreases d, i, 1
  {
    if i > 0 {
      var plan := Plan(d, path, w.fileToExclude, p, i);
      var before := Plan(d, path, w.fileToExclude, p, i - 1);
      PlanGrows(d, path, w.fileToExclude, p, i);
      WalkAfterFailureStep(d, path, w, Some(p), i, st);
      assert ReadsOnlyUnchanged(before) by {
        forall l | l in before && before[l] in before ensures before[before[l]] == before[l] {
          assert before[l] == plan[l] && plan[l] in plan;
          assert before[before[l]] == plan[before[l]];
        }
      }
      UpdateCopies(d, path, w, p, i - 1, st);
      if d.entries[i - 1].FileNode? {
        UpdateFileStep(d, path, w, p, i, st);
      } else {
        UpdateDirStep(d, path, w, p, i, st);
      }
    }
  }

  /** A walk that ends without an exception had none before its last entry. */
  lemma WalkAfterFailureStep(d: Directory, path: Path, w: Walking, originalPkg: Option<Package>, i: nat, st: WalkState)
    requires 0 < i <= |d.entries|
    requires Walk(d, path, w, originalPkg, i, st).failure.None?
    ensures Walk(d, path, w, originalPkg, i - 1, st).failure.None?
  {
  }

  /** The step of UpdateCopies over a file. */
  lemma UpdateFileStep(d: Directory, path: Path, w: Walking, p: Package, i: nat, st: WalkState)
    requires 0 < i <= |d.entries| && d.entries[i - 1].FileNode?
    requires w.operation == UPDATE
    requires Walk(d, path, w, Some(p), i - 1, st).failure.None?
    requires ReadsOnlyUnchanged(Plan(d, path, w.fileToExclude, p, i))
    requires Readable(st.contents, Plan(d, path, w.fileToExclude, p, i - 1))
    requires Walk(d, path, w, Some(p), i - 1, st).contents == Apply(st.contents, Plan(d, path, w.fileToExclude, p, i - 1))
    requires Walk(d, path, w, Some(p), i, st).failure.None?
    ensures Readable(st.contents, Plan(d, path, w.fileToExclude, p, i))
    ensures Walk(d, path, w, Some(p), i, st).contents == Apply(st.contents, Plan(d, path, w.fileToExclude, p, i))
  {
    var plan := Plan(d, path, w.fileToExclude, p, i);
    var before := Plan(d, path, w.fileToExclude, p, i - 1);
    var prev := Walk(d, path, w, Some(p), i - 1, st);
    var n := d.entries[i - 1].name;
    PlanGrows(d, path, w.fileToExclude, p, i);
    if n !in w.fileToExclude && n in p.files {
      var x, o := path + [n], p.files[n].absName;
      assert plan == before[x := o];
      assert plan[x] == o;
      if o in before {
        assert before[o] == plan[o];
      }
      ApplyOneMore(st.contents, before, x, o);
    }
  }

  /** Copying `o` onto `x` after a plan is applying the plan with that copy added, when `o` is unchanged by it. */
  lemma ApplyOneMore(c: map<Path, Content>, before: map<Path, Path>, x: Path, o: Path)
    requires Readable(c, before)
    requires o in Apply(c, before)
    requires o in before ==> before[o] == o
    ensures Readable(c, before[x := o])
    ensures Apply(c, before)[x := Apply(c, before)[o]] == Apply(c, before[x := o])
  {
    assert Apply(c, before)[x := Apply(c, before)[o]] == Apply(Apply(c, before), map[x := o]);
    assert before + map[x := o] == before[x := o];
    ApplyCompose(c, before, map[x := o]);
  }

  /** The step of UpdateCopies over a subdirectory. */
  lemma UpdateDirStep(d: Directory, path: Path, w: Walking, p: Package, i: nat, st: WalkState)
    requires 0 < i <= |d.entries| && d.entries[i - 1].DirNode?
    requires w.operation == UPDATE
    requires Walk(d, path, w, Some(p), i - 1, st).failure.None?
    requires ReadsOnlyUnchanged(Plan(d, path, w.fileToExclude, p, i))
    requires forall l :: l in Plan(d, path, w.fileToExclude, p, i - 1) ==>
               l in Plan(d, path, w.fileToExclude, p, i) &&
               Plan(d, path, w.fileToExclude, p, i)[l] == Plan(d, path, w.fileToExclude, p, i - 1)[l]
    requires Readable(st.contents, Plan(d, path, w.fileToExclude, p, i - 1))
    requires Walk(d, path, w, Some(p), i - 1, st).contents == Apply(st.contents, Plan(d, path, w.fileToExclude, p, i - 1))
    requires Walk(d, path, w, Some(p), i, st).failure.None?
    ensures Readable(st.contents, Plan(d, path, w.fileToExclude, p, i))
    ensures Walk(d, path, w, Some(p), i, st).contents == Apply(st.contents, Plan(d, path, w.fileToExclude, p, i))
    decreases d, i, 0
  {
    var sub := d.entries[i - 1].dir;
    if sub.name in p.subPackages {
      var plan := Plan(d, path, w.fileToExclude, p, i);
      var before := Plan(d, path, w.fileToExclude, p, i - 1);
      var prev := Walk(d, path, w, Some(p), i - 1, st);
      var sp := Plan(sub, path + [sub.name], w.fileToExclude, p.subPackages[sub.name], |sub.entries|);
      assert plan == before + sp;
      assert ReadsOnlyUnchanged(sp) by {
        forall l | l in sp && sp[l] in sp ensures sp[sp[l]] == sp[l] {
          assert plan[l] == sp[l] && plan[sp[l]] == sp[sp[l]];
        }
      }
      forall l | l in sp && sp[l] in before
        ensures before[sp[l]] == sp[l]
      {
        assert plan[l] == sp[l] && before[sp[l]] == plan[sp[l]];
      }
      UpdateCopies(sub, path + [sub.name], w, p.subPackages[sub.name], |sub.entries|, prev);
      ApplyCompose(st.contents, before, sp);
    }
  }

  /**
   * Applying one plan after another is applying their union, when every
   * file the second reads that the first writes is copied onto itself.
   */
  lemma ApplyCompose(c: map<Path, Content>, a: map<Path, Path>, b: map<Path, Path>)
    requires Readable(c, a)
    requires Readable(Apply(c, a), b)
    requires forall l :: l in b && b[l] in a ==> a[b[l]] == b[l]
    ensures Readable(c, a + b)
    ensures Apply(Apply(c, a), b) == Apply(c, a + b)
  {
  }

  /**
   * Applying a plan a second time changes nothing more, when every file it
   * both reads and writes is copied onto itself.
   */
  lemma ApplyTwice(c: map<Path, Content>, plan: map<Path, Path>)
    requires Readable(c, plan)
    requires ReadsOnlyUnchanged(plan)
    ensures Readable(Apply(c, plan), plan)
    ensures Apply(Apply(c, plan), plan) == Apply(c, plan)
  {
  }

  /** Two walk states that agree on the failure, the log and the existing paths. */
  predicate SamePaths(st: WalkState, st': WalkState)
  {
    st'.failure == st.failure && st'.events == st.events && st'.contents.Keys == st.contents.Keys
  }

  /** What a walk logs and whether it raises depend on the disk only through which paths exist. */
  lemma {:induction false} WalkSamePaths(d: Directory, path: Path, w: Walking, originalPkg: Option<Package>,
                                         i: nat, st: WalkState, st': WalkState)
    requires i <= |d.entries|
    requires SamePaths(st, st')
    ensures SamePaths(Walk(d, path, w, originalPkg, i, st), Walk(d, path, w, originalPkg, i, st'))
    decreases d, i
  {
    if i > 0 {
      var prev := Walk(d, path, w, originalPkg, i - 1, st);
      var prev' := Walk(d, path, w, originalPkg, i - 1, st');
      WalkSamePaths(d, path, w, originalPkg, i - 1, st, st');
      if d.entries[i - 1].DirNode? && prev.failure.None? && originalPkg.Some? &&
         d.entries[i - 1].dir.name in originalPkg.value.subPackages {
        var sub := d.entries[i - 1].dir;
        WalkSamePaths(sub, path + [sub.name], w, Some(originalPkg.value.subPackages[sub.name]), |sub.entries|,
                      prev, prev');
      }
      SamePathsStep(d, path, w, originalPkg, i, st, st');
    }
  }

  /** One entry keeps two walk states that agree on the failure, the log and the existing paths in agreement. */
  lemma SamePathsStep(d: Directory, path: Path, w: Walking, originalPkg: Option<Package>,
                      i: nat, st: WalkState, st': WalkState)
    requires 0 < i <= |d.entries|
    requires SamePaths(Walk(d, path, w, originalPkg, i - 1, st), Walk(d, path, w, originalPkg, i - 1, st'))
    requires var prev := Walk(d, path, w, originalPkg, i - 1, st);
             var prev' := Walk(d, path, w, originalPkg, i - 1, st');
             d.entries[i - 1].DirNode? && prev.failure.None? && originalPkg.Some? &&
             d.entries[i - 1].dir.name in originalPkg.value.subPackages ==>
               var sub := d.entries[i - 1].dir;
               var sp := Some(originalPkg.value.subPackages[sub.name]);
               SamePaths(Walk(sub, path + [sub.name], w, sp, |sub.entries|, prev),
                         Walk(sub, path + [sub.name], w, sp, |sub.entries|, prev'))
    ensures SamePaths(Walk(d, path, w, originalPkg, i, st), Walk(d, path, w, originalPkg, i, st'))
  {
  }

  /**
   * What a walk logs and whether it raises depends on the disk only through
   * which paths exist, and a disk holding more paths ends holding more paths.
   */
  lemma {:induction false} WalkNeedsOnlyPaths(d: Directory, path: Path, w: Walking, originalPkg: Option<Package>,
                                              i: nat, st: WalkState, st': WalkState)
    requires i <= |d.entries|
    requires st.failure.None? && st'.failure.None? && st'.events == st.events
    requires st.contents.Keys <= st'.contents.Keys
    requires Walk(d, path, w, originalPkg, i, st).failure.None?
    ensures Walk(d, path, w, originalPkg, i, st').failure.None?
    ensures Walk(d, path, w, originalPkg, i, st').events == Walk(d, path, w, originalPkg, i, st).events
    ensures Walk(d, path, w, originalPkg, i, st).contents.Keys <= Walk(d, path, w, originalPkg, i, st').contents.Keys
    decreases d, i
  {
    if i > 0 {
      var prev := Walk(d, path, w, originalPkg, i - 1, st);
      var prev' := Walk(d, path, w, originalPkg, i - 1, st');
      assert prev.failure.None?;
      WalkNeedsOnlyPaths(d, path, w, originalPkg, i - 1, st, st');
      match d.entries[i - 1]
      case FileNode(n) =>
      case DirNode(sub) =>
        if originalPkg.Some? && sub.name in originalPkg.value.subPackages {
          WalkNeedsOnlyPaths(sub, path + [sub.name], w, Some(originalPkg.value.subPackages[sub.name]), |sub.entries|,
                             prev, prev');
        }
    }
  }

  /**
   * UPDATE is idempotent. Take a walk that ends without an exception, in
   * which every live file it overwrites that is the canonical copy of
   * another is copied onto itself. Walking its result again logs the same
   * lines and leaves the disk as the first walk left it.
   */
  lemma UpdateTwice(d: Directory, path: Path, w: Walking, p: Package, contents: map<Path, Content>)
    requires w.operation == UPDATE
    requires WalkAll(d, path, w, Some(p), WalkState([], contents, None)).failure.None?
    requires ReadsOnlyUnchanged(Plan(d, path, w.fileToExclude, p, |d.entries|))
    ensures var first := WalkAll(d, path, w, Some(p), WalkState([], contents, None));
            WalkAll(d, path, w, Some(p), WalkState([], first.contents, None)) == first
  {
    var plan := Plan(d, path, w.fileToExclude, p, |d.entries|);
    var st := WalkState([], contents, None);
    var first := WalkAll(d, path, w, Some(p), st);
    var st' := WalkState([], first.contents, None);
    UpdateCopies(d, path, w, p, |d.entries|, st);
    WalkNeedsOnlyPaths(d, path, w, Some(p), |d.entries|, st, st');
    UpdateCopies(d, path, w, p, |d.entries|, st');
    ApplyTwice(contents, plan);
  }

  /**
   * Whatever the operation, and with no condition on the plan, a walk
   * leaves alone every path below it that is not a matched file: an
   * excluded file, a file missing from the index, and everything under an
   * unindexed directory keep their content, and no path appears or vanishes.
   */
  lemma WalkLeavesUnmatched(d: Directory, path: Path, w: Walking, p: Package, st: WalkState, rel: Path)
    ensures !(ListedFileAt(d.entries, rel) && |rel| > 0 && rel[|rel| - 1] !in w.fileToExclude && FileAt(p, rel).Some?) ==>
              && (path + rel in WalkAll(d, path, w, Some(p), st).contents <==> path + rel in st.contents)
              && (path + rel in st.contents ==>
                    WalkAll(d, path, w, Some(p), st).contents[path + rel] == st.contents[path + rel])
  {
    PlanAt(d, path, w.fileToExclude, p, |d.entries|, rel);
    assert d.entries[..|d.entries|] == d.entries;
    if path + rel !in Plan(d, path, w.fileToExclude, p, |d.entries|) {
      WalkWritesOnlyPlan(d, path, w, p, |d.entries|, st, path + rel);
    }
  }

  /**
   * After an UPDATE walk that ends without an exception, in which every
   * live file it overwrites that is the canonical copy of another is copied
   * onto itself, a listed, non-excluded file the index records holds the
   * content of its canonical copy. Every other path below the walked
   * directory holds what it held before, as WalkLeavesUnmatched states with
   * no condition on the plan; in particular nothing below a directory
   * missing from the index is touched.
   */
  lemma UpdateWritesMatchedFiles(d: Directory, path: Path, w: Walking, p: Package, st: WalkState, rel: Path)
    requires w.operation == UPDATE
    requires st.failure.None?
    requires WalkAll(d, path, w, Some(p), st).failure.None?
    requires ReadsOnlyUnchanged(Plan(d, path, w.fileToExclude, p, |d.entries|))
    ensures ListedFileAt(d.entries, rel) && |rel| > 0 && rel[|rel| - 1] !in w.fileToExclude && FileAt(p, rel).Some? ==>
              && FileAt(p, rel).value.absName in st.contents
              && path + rel in WalkAll(d, path, w, Some(p), st).contents
              && WalkAll(d, path, w, Some(p), st).contents[path + rel] == st.contents[FileAt(p, rel).value.absName]
    ensures !(ListedFileAt(d.entries, rel) && |rel| > 0 && rel[|rel| - 1] !in w.fileToExclude && FileAt(p, rel).Some?) ==>
              && (path + rel in WalkAll(d, path, w, Some(p), st).contents <==> path + rel in st.contents)
              && (path + rel in st.contents ==>
                    WalkAll(d, path, w, Some(p), st).contents[path + rel] == st.contents[path + rel])
  {
    UpdateCopies(d, path, w, p, |d.entries|, st);
    PlanAt(d, path, w.fileToExclude, p, |d.entries|, rel);
    assert d.entries[..|d.entries|] == d.entries;
  }

  /** None of the entries is anything but an excluded file. */
  predicate OnlyExcludedFiles(es: seq<Node>, fileToExclude: set<string>)
  {
    forall j :: 0 <= j < |es| ==> es[j].FileNode? && es[j].name in fileToExclude
  }

  /**
   * Walking against a null index raises a null-pointer exception at the
   * first entry that is not an excluded file, and otherwise does nothing.
   */
  lemma {:induction false} WalkNullIndex(d: Directory, path: Path, w: Walking, i: nat, st: WalkState)
    requires i <= |d.entries|
    requires st.failure.None?
    ensures Walk(d, path, w, None, i, st) ==
              if OnlyExcludedFiles(d.entries[..i], w.fileToExclude) then st else st.(failure := Some(NullPointer))
  {
    if i > 0 {
      WalkNullIndex(d, path, w, i - 1, st);
      assert d.entries[..i] == d.entries[..i - 1] + [d.entries[i - 1]];
      if !OnlyExcludedFiles(d.entries[..i - 1], w.fileToExclude) {
        var j :| 0 <= j < i - 1 && !(d.entries[..i - 1][j].FileNode? && d.entries[..i - 1][j].name in w.fileToExclude);
        assert d.entries[..i][j] == d.entries[..i - 1][j];
      }
    }
  }

  /**
   * Walking a tree against its own index copies every matched file onto
   * itself.
   */
  lemma PlanOverOwnIndex(d: Directory, path: Path, projectName: string, fileToExclude: set<string>)
    ensures var plan := Plan(d, path, fileToExclude, Index(d, path, projectName, fileToExclude), |d.entries|);
            forall l :: l in plan ==> plan[l] == l
  {
    var p := Index(d, path, projectName, fileToExclude);
    var plan := Plan(d, path, fileToExclude, p, |d.entries|);
    PlanBelow(d, path, fileToExclude, p, |d.entries|);
    forall l | l in plan
      ensures plan[l] == l
    {
      var rel := l[|path|..];
      assert l == path + rel;
      PlanAt(d, path, fileToExclude, p, |d.entries|, rel);
      IndexFileAt(d, path, projectName, fileToExclude, rel);
    }
  }

  /**
   * UPDATE over the very tree an index was built from, against that index,
   * leaves the disk as it was when it raises nothing.
   */
  lemma UpdateOwnTree(d: Directory, path: Path, w: Walking, projectName: string, st: WalkState)
    requires w.operation == UPDATE
    requires st.failure.None?
    requires WalkAll(d, path, w, Some(Index(d, path, projectName, w.fileToExclude)), st).failure.None?
    ensures WalkAll(d, path, w, Some(Index(d, path, projectName, w.fileToExclude)), st).contents == st.contents
  {
    var p := Index(d, path, projectName, w.fileToExclude);
    PlanOverOwnIndex(d, path, projectName, w.fileToExclude);
    UpdateCopies(d, path, w, p, |d.entries|, st);
  }
}
