/**
 * The canonical index: a tree of packages mapping file names to the
 * canonical copy of each file and directory names to child packages,
 * and the merge that unions the indexes of several projects.
 */
module Domain {
  import opened Wrappers

  /** A location on disk, as the sequence of its path components. */
  type Path = seq<string>

  /** The kinds of exception that abort a run. */
  datatype Failure =
    | DuplicateFileFound      // two projects claim one file name at one tree position
    | SubDirNotFound          // raised by the source-root locator
    | TooManyDirectories      // raised by the source-root locator
    | NullPointer             // an unindexed source directory was dereferenced
    | IOFailure(source: Path) // the canonical copy could not be read

  datatype Operation = CREATE | CHECK | UPDATE

  /** The canonical copy of one file: where it is and which project owns it. */
  datatype OriginalFile = OriginalFile(absName: Path, projectName: string)

  /** One directory of the index. */
  datatype Package = Package(files: map<string, OriginalFile>, subPackages: map<string, Package>)
  {
    function GetSubPackage(subPackageName: string): (r: Option<Package>)
      ensures r.None? <==> subPackageName !in subPackages
      ensures r.Some? ==> subPackageName in subPackages && subPackages[subPackageName] == r.value
    {
      if subPackageName in subPackages then Some(subPackages[subPackageName]) else None
    }

    function GetOriginalFile(fileName: string): (r: Option<OriginalFile>)
      ensures r.None? <==> fileName !in files
      ensures r.Some? ==> fileName in files && files[fileName] == r.value
    {
      if fileName in files then Some(files[fileName]) else None
    }

    /** Only defined for a file that is present: Java dereferences the lookup. */
    function GetProjectNameByFile(fileName: string): (r: string)
      requires fileName in files
      ensures GetOriginalFile(fileName).Some? && GetOriginalFile(fileName).value.projectName == r
    {
      files[fileName].projectName
    }

    function GetFileNames(): (r: set<string>)
      ensures forall n :: n in r <==> GetOriginalFile(n).Some?
    {
      files.Keys
    }

    function GetPackagesNames(): (r: set<string>)
      ensures forall n :: n in r <==> GetSubPackage(n).Some?
    {
      subPackages.Keys
    }

    /** Records (or replaces) one file entry. */
    function AddFile(fileName: string, file: OriginalFile): (r: Package)
      ensures r.GetOriginalFile(fileName) == Some(file)
      ensures forall n :: n != fileName ==> r.GetOriginalFile(n) == GetOriginalFile(n)
      ensures forall n :: r.GetSubPackage(n) == GetSubPackage(n)
    {
      Package(files[fileName := file], subPackages)
    }

    /** Records (or replaces) one child package. */
    function AddPackage(packageName: string, newPackage: Package): (r: Package)
      ensures r.GetSubPackage(packageName) == Some(newPackage)
      ensures forall n :: n != packageName ==> r.GetSubPackage(n) == GetSubPackage(n)
      ensures forall n :: r.GetOriginalFile(n) == GetOriginalFile(n)
    {
      Package(files, subPackages[packageName := newPackage])
    }
  }

  /** What `new Package()` builds. */
  function EmptyPackage(): (r: Package)
    ensures forall n :: r.GetOriginalFile(n).None? && r.GetSubPackage(n).None?
  {
    Package(map[], map[])
  }

  /**
   * The canonical file at a relative path: every component but the last
   * names a child package, the last names a file. The empty path names no file.
   */
  function FileAt(p: Package, rel: Path): Option<OriginalFile>
    decreases |rel|
  {
    if |rel| == 0 then None
    else if |rel| == 1 then p.GetOriginalFile(rel[0])
    else match p.GetSubPackage(rel[0])
      case None => None
      case Some(sub) => FileAt(sub, rel[1..])
  }

  /** The package at a relative path; the empty path names the package itself. */
  function PackageAt(p: Package, rel: Path): Option<Package>
    decreases |rel|
  {
    if |rel| == 0 then Some(p)
    else match p.GetSubPackage(rel[0])
      case None => None
      case Some(sub) => PackageAt(sub, rel[1..])
  }

  /** Two indexes clash when both hold a file at the same relative path. */
  ghost predicate Clash(target: Package, usingPkg: Package)
  {
    exists rel :: FileAt(target, rel).Some? && FileAt(usingPkg, rel).Some?
  }

  /** No file name of `usingPkg` is already a file name of `target`. */
  predicate FilesDisjoint(target: Package, usingPkg: Package)
  {
    forall n :: n in usingPkg.files ==> n !in target.files
  }

  /** Every child package present in both merges without a clash. */
  predicate ChildrenMerge(target: Package, usingPkg: Package)
    decreases usingPkg, 1
  {
    forall k :: k in usingPkg.subPackages && k in target.subPackages ==>
      Merge(target.subPackages[k], usingPkg.subPackages[k]).Success?
  }

  /**
   * The result of merging `usingPkg` into `target`: it fails when a file name
   * of `usingPkg` is already a file name of `target`, or when the merge of a
   * child package present in both fails; otherwise files are united, a child
   * present only in `usingPkg` is inserted whole and one present in both is
   * merged recursively.
   */
  function Merge(target: Package, usingPkg: Package): Result<Package, Failure>
    decreases usingPkg, 3
  {
    if !FilesDisjoint(target, usingPkg) || !ChildrenMerge(target, usingPkg) then
      Failure(DuplicateFileFound)
    else
      Success(Package(target.files + usingPkg.files, MergedChildren(target, usingPkg)))
  }

  /** The child packages of a successful merge. */
  function MergedChildren(target: Package, usingPkg: Package): map<string, Package>
    requires ChildrenMerge(target, usingPkg)
    decreases usingPkg, 2
  {
    map k | k in target.subPackages.Keys + usingPkg.subPackages.Keys :: MergedChild(target, usingPkg, k)
  }

  /** The child `k` of a successful merge. */
  function MergedChild(target: Package, usingPkg: Package, k: string): Package
    requires k in target.subPackages || k in usingPkg.subPackages
    requires k in target.subPackages && k in usingPkg.subPackages ==>
               Merge(target.subPackages[k], usingPkg.subPackages[k]).Success?
    decreases usingPkg, 0
  {
    if k !in usingPkg.subPackages then target.subPackages[k]
    else if k !in target.subPackages then usingPkg.subPackages[k]
    else Merge(target.subPackages[k], usingPkg.subPackages[k]).value
  }

  /**
   * `target.mergeUsingPkg(usingPkg)`: the file names, then the package names
   * of `usingPkg` are visited one at a time; the first file name already
   * present aborts with DuplicateFileFound.
   */
  method MergeUsingPkg(target: Package, usingPkg: Package) returns (r: Result<Package, Failure>)
    ensures r == Merge(target, usingPkg)
    decreases usingPkg, 1
  {
    var files := target.files;
    var fileNames := usingPkg.files.Keys;
    while fileNames != {}
      invariant fileNames <= usingPkg.files.Keys
      invariant forall n :: n in usingPkg.files && n !in fileNames ==> n !in target.files
      invariant files.Keys == target.files.Keys + (usingPkg.files.Keys - fileNames)
      invariant forall n :: n in files ==> files[n] == if n in target.files then target.files[n] else usingPkg.files[n]
      decreases fileNames
    {
      var fileName :| fileName in fileNames;
      if fileName in files {
        assert !FilesDisjoint(target, usingPkg);
        return Failure(DuplicateFileFound);
      }
      files := files[fileName := usingPkg.files[fileName]];
      fileNames := fileNames - {fileName};
    }
    assert files == target.files + usingPkg.files;
    assert FilesDisjoint(target, usingPkg);

    var subPackages := MergeSubPackages(target, usingPkg);
    if subPackages.Failure? {
      return Failure(subPackages.error);
    }
    r := Success(Package(files, subPackages.value));
  }

  /** The second loop of `mergeUsingPkg`: the child packages of `usingPkg`, one at a time. */
  method MergeSubPackages(target: Package, usingPkg: Package) returns (r: Result<map<string, Package>, Failure>)
    ensures r.Failure? <==> !ChildrenMerge(target, usingPkg)
    ensures r.Failure? ==> r.error == DuplicateFileFound
    ensures r.Success? ==> r.value == MergedChildren(target, usingPkg)
    decreases usingPkg, 0
  {
    var subPackages := target.subPackages;
    var pkgNames := usingPkg.subPackages.Keys;
    while pkgNames != {}
      invariant pkgNames <= usingPkg.subPackages.Keys
      invariant forall k :: k in usingPkg.subPackages && k !in pkgNames && k in target.subPackages ==>
                  Merge(target.subPackages[k], usingPkg.subPackages[k]).Success?
      invariant subPackages.Keys == target.subPackages.Keys + (usingPkg.subPackages.Keys - pkgNames)
      invariant forall k :: k in subPackages ==>
                  subPackages[k] == if k in pkgNames then target.subPackages[k] else MergedChild(target, usingPkg, k)
      decreases pkgNames
    {
      var pkgName :| pkgName in pkgNames;
      if pkgName !in subPackages {
        subPackages := subPackages[pkgName := usingPkg.subPackages[pkgName]];
      } else {
        var merged := MergeUsingPkg(subPackages[pkgName], usingPkg.subPackages[pkgName]);
        if merged.Failure? {
          assert !ChildrenMerge(target, usingPkg);
          return Failure(merged.error);
        }
        subPackages := subPackages[pkgName := merged.value];
      }
      pkgNames := pkgNames - {pkgName};
    }
    MergedChildrenExt(target, usingPkg, subPackages);
    r := Success(subPackages);
  }

  /** A map that agrees with `MergedChild` on the right keys is the merged children. */
  lemma MergedChildrenExt(target: Package, usingPkg: Package, m: map<string, Package>)
    requires forall k :: k in usingPkg.subPackages && k in target.subPackages ==>
               Merge(target.subPackages[k], usingPkg.subPackages[k]).Success?
    requires m.Keys == target.subPackages.Keys + usingPkg.subPackages.Keys
    requires forall k :: k in m ==> m[k] == MergedChild(target, usingPkg, k)
    ensures ChildrenMerge(target, usingPkg)
    ensures m == MergedChildren(target, usingPkg)
  {
  }

  // ---------------------------------------------------------------------
  // Properties of the merge
  // ---------------------------------------------------------------------

  /** The child packages of a successful merge, one name at a time. */
  lemma MergedSubPackage(target: Package, usingPkg: Package, k: string)
    requires Merge(target, usingPkg).Success?
    ensures k in target.subPackages && k in usingPkg.subPackages ==>
              && Merge(target.subPackages[k], usingPkg.subPackages[k]).Success?
              && Merge(target, usingPkg).value.GetSubPackage(k) ==
                   Some(Merge(target.subPackages[k], usingPkg.subPackages[k]).value)
    ensures k in target.subPackages && k !in usingPkg.subPackages ==>
              Merge(target, usingPkg).value.GetSubPackage(k) == Some(target.subPackages[k])
    ensures k !in target.subPackages && k in usingPkg.subPackages ==>
              Merge(target, usingPkg).value.GetSubPackage(k) == Some(usingPkg.subPackages[k])
    ensures k !in target.subPackages && k !in usingPkg.subPackages ==>
              Merge(target, usingPkg).value.GetSubPackage(k).None?
  {
    assert FilesDisjoint(target, usingPkg) && ChildrenMerge(target, usingPkg);
    var m := Package(target.files + usingPkg.files, MergedChildren(target, usingPkg));
    assert Merge(target, usingPkg).value == m;
    if k in target.subPackages || k in usingPkg.subPackages {
      assert m.subPackages[k] == MergedChild(target, usingPkg, k);
    }
  }

  /**
   * After a successful merge, at every relative path: the two sides never
   * both hold a file; a file of the target is kept as it was (nothing is
   * overwritten); a file of the incoming package is retrievable unchanged;
   * and no other file appears.
   */
  lemma {:induction false} MergeFileAt(target: Package, usingPkg: Package, rel: Path)
    requires Merge(target, usingPkg).Success?
    ensures !(FileAt(target, rel).Some? && FileAt(usingPkg, rel).Some?)
    ensures FileAt(target, rel).Some? ==> FileAt(Merge(target, usingPkg).value, rel) == FileAt(target, rel)
    ensures FileAt(usingPkg, rel).Some? ==> FileAt(Merge(target, usingPkg).value, rel) == FileAt(usingPkg, rel)
    ensures FileAt(target, rel).None? && FileAt(usingPkg, rel).None? ==>
              FileAt(Merge(target, usingPkg).value, rel).None?
    decreases |rel|
  {
    var m := Merge(target, usingPkg).value;
    if |rel| >= 2 {
      var k := rel[0];
      MergedSubPackage(target, usingPkg, k);
      if k in target.subPackages && k in usingPkg.subPackages {
        MergeFileAt(target.subPackages[k], usingPkg.subPackages[k], rel[1..]);
      }
    }
  }

  /**
   * After a successful merge, at every relative path: a directory exists
   * exactly when it exists on either side; one present only in the incoming
   * package is inserted whole, one present only in the target is kept as it
   * was, and one present in both is their (successful) recursive merge.
   */
  lemma {:induction false} MergePackageAt(target: Package, usingPkg: Package, rel: Path)
    requires Merge(target, usingPkg).Success?
    ensures PackageAt(Merge(target, usingPkg).value, rel).Some? <==>
              PackageAt(target, rel).Some? || PackageAt(usingPkg, rel).Some?
    ensures PackageAt(target, rel).Some? && PackageAt(usingPkg, rel).None? ==>
              PackageAt(Merge(target, usingPkg).value, rel) == PackageAt(target, rel)
    ensures PackageAt(target, rel).None? && PackageAt(usingPkg, rel).Some? ==>
              PackageAt(Merge(target, usingPkg).value, rel) == PackageAt(usingPkg, rel)
    ensures PackageAt(target, rel).Some? && PackageAt(usingPkg, rel).Some? ==>
              && Merge(PackageAt(target, rel).value, PackageAt(usingPkg, rel).value).Success?
              && PackageAt(Merge(target, usingPkg).value, rel) ==
                   Some(Merge(PackageAt(target, rel).value, PackageAt(usingPkg, rel).value).value)
    decreases |rel|
  {
    var m := Merge(target, usingPkg).value;
    if |rel| >= 1 {
      var k := rel[0];
      MergedSubPackage(target, usingPkg, k);
      if k in target.subPackages && k in usingPkg.subPackages {
        MergePackageAt(target.subPackages[k], usingPkg.subPackages[k], rel[1..]);
      }
    }
  }

  /**
   * The merge fails exactly when the two indexes hold a file with the same
   * name at the same relative path.
   */
  lemma {:induction false} MergeFailsIffClash(target: Package, usingPkg: Package)
    ensures Merge(target, usingPkg).Failure? <==> Clash(target, usingPkg)
    decreases usingPkg
  {
    if !FilesDisjoint(target, usingPkg) {
      var n :| n in usingPkg.files && n in target.files;
      assert FileAt(target, [n]).Some? && FileAt(usingPkg, [n]).Some?;
    } else if !ChildrenMerge(target, usingPkg) {
      var k :| k in usingPkg.subPackages && k in target.subPackages &&
               Merge(target.subPackages[k], usingPkg.subPackages[k]).Failure?;
      MergeFailsIffClash(target.subPackages[k], usingPkg.subPackages[k]);
      var rel :| FileAt(target.subPackages[k], rel).Some? && FileAt(usingPkg.subPackages[k], rel).Some?;
      assert ([k] + rel)[1..] == rel;
      assert FileAt(target, [k] + rel).Some? && FileAt(usingPkg, [k] + rel).Some?;
    } else {
      forall rel
        ensures !(FileAt(target, rel).Some? && FileAt(usingPkg, rel).Some?)
      {
        MergeFileAt(target, usingPkg, rel);
      }
    }
  }
}
