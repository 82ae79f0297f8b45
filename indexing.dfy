/**
 * What `Engine.getPackage` builds from one project's source directory:
 * an index of every file not excluded by name, owned by that project.
 */
module Indexing {
  import opened Wrappers
  import opened Domain
  import opened FileSystem

  /**
   * The package built from the first `i` entries of `d`, whose absolute
   * path is `path`: a subdirectory is indexed recursively and stored under
   * its name; a file whose name is not excluded is stored under its name
   * with its absolute path and `projectName` as owner.
   */
  function BuildIndex(d: Directory, path: Path, projectName: string, fileToExclude: set<string>, i: nat): Package
    requires i <= |d.entries|
    decreases d, i
  {
    if i == 0 then EmptyPackage()
    else
      var p := BuildIndex(d, path, projectName, fileToExclude, i - 1);
      match d.entries[i - 1]
      case DirNode(sub) => p.AddPackage(sub.name, Index(sub, path + [sub.name], projectName, fileToExclude))
      case FileNode(n) => if n in fileToExclude then p else p.AddFile(n, OriginalFile(path + [n], projectName))
  }

  /** The package built from the whole listing of `d`. */
  function Index(d: Directory, path: Path, projectName: string, fileToExclude: set<string>): Package
    decreases d, |d.entries| + 1
  {
    BuildIndex(d, path, projectName, fileToExclude, |d.entries|)
  }

  /**
   * A name is a file of the package built from the first `i` entries
   * exactly when a regular file of that name is among them and the name is
   * not excluded; it then has its own absolute path and `projectName` as owner.
   */
  lemma {:induction false} BuildIndexFile(d: Directory, path: Path, projectName: string, fileToExclude: set<string>,
                                          i: nat, n: string)
    requires i <= |d.entries|
    ensures BuildIndex(d, path, projectName, fileToExclude, i).GetOriginalFile(n) ==
              if n !in fileToExclude && exists j :: 0 <= j < i && d.entries[j] == FileNode(n)
              then Some(OriginalFile(path + [n], projectName))
              else None
  {
    if i > 0 {
      BuildIndexFile(d, path, projectName, fileToExclude, i - 1, n);
    }
  }

  /**
   * A name is a child package of the package built from the first `i`
   * entries exactly when a subdirectory of that name is among them; the
   * child is built from the last such subdirectory.
   */
  lemma {:induction false} BuildIndexSubPackage(d: Directory, path: Path, projectName: string, fileToExclude: set<string>,
                                                i: nat, k: string)
    requires i <= |d.entries|
    ensures BuildIndex(d, path, projectName, fileToExclude, i).GetSubPackage(k) ==
              match LastDirIn(d.entries[..i], k)
              case None => None
              case Some(sub) => Some(Index(sub, path + [k], projectName, fileToExclude))
  {
    if i > 0 {
      BuildIndexSubPackage(d, path, projectName, fileToExclude, i - 1, k);
      assert d.entries[..i][..i - 1] == d.entries[..i - 1];
    }
  }

  /**
   * Every regular file at relative path `rel` below `d` whose name is not
   * excluded is in the index at `rel`, owned by `projectName` and located at
   * its absolute path; nothing else is: in particular an excluded name never
   * appears.
   */
  lemma {:induction false} IndexFileAt(d: Directory, path: Path, projectName: string, fileToExclude: set<string>, rel: Path)
    ensures FileAt(Index(d, path, projectName, fileToExclude), rel) ==
              if RecordedFileAt(d, rel) && rel[|rel| - 1] !in fileToExclude
              then Some(OriginalFile(path + rel, projectName))
              else None
    decreases |rel|
  {
    var p := Index(d, path, projectName, fileToExclude);
    assert d.entries[..|d.entries|] == d.entries;
    if |rel| == 1 {
      BuildIndexFile(d, path, projectName, fileToExclude, |d.entries|, rel[0]);
      assert rel == [rel[0]];
    } else if |rel| >= 2 {
      var k := rel[0];
      BuildIndexSubPackage(d, path, projectName, fileToExclude, |d.entries|, k);
      match LastDirIn(d.entries, k)
      case None =>
      case Some(sub) =>
        IndexFileAt(sub, path + [k], projectName, fileToExclude, rel[1..]);
        assert path + [k] + rel[1..] == path + rel;
    }
  }

  /**
   * Every subdirectory below `d`, whatever its name, appears in the index at
   * its relative path, and no other package does.
   */
  lemma {:induction false} IndexPackageAt(d: Directory, path: Path, projectName: string, fileToExclude: set<string>, rel: Path)
    ensures PackageAt(Index(d, path, projectName, fileToExclude), rel).Some? <==> RecordedDirAt(d, rel)
    decreases |rel|
  {
    if |rel| >= 1 {
      assert d.entries[..|d.entries|] == d.entries;
      BuildIndexSubPackage(d, path, projectName, fileToExclude, |d.entries|, rel[0]);
      match LastDirIn(d.entries, rel[0])
      case None =>
      case Some(sub) => IndexPackageAt(sub, path + [rel[0]], projectName, fileToExclude, rel[1..]);
    }
  }
}
