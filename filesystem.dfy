/**
 * The part of the file system the program sees: directory listings, and
 * the contents of files, which a copy replaces.
 */
module FileSystem {
  import opened Wrappers
  import opened Domain

  newtype byte = x: int | 0 <= x < 256

  type Content = seq<byte>

  /** A directory and its listing, in the order `listFiles()` returns it. */
  datatype Directory = Directory(name: string, entries: seq<Node>)

  /** One listed entry: a regular file or a subdirectory. */
  datatype Node = FileNode(name: string) | DirNode(dir: Directory)

  /**
   * The subdirectory that ends up recorded under `name` when the listing
   * `es` is inserted, one entry at a time, into a map: the last one listed
   * with that name.
   */
  function LastDirIn(es: seq<Node>, name: string): (r: Option<Directory>)
    ensures r.Some? ==> r.value.name == name
    ensures r.Some? <==> exists j :: 0 <= j < |es| && es[j].DirNode? && es[j].dir.name == name
    ensures r.Some? ==> exists j :: 0 <= j < |es| && es[j] == DirNode(r.value) &&
                          forall j' :: j < j' < |es| ==> !(es[j'].DirNode? && es[j'].dir.name == name)
  {
    if es == [] then None
    else
      var e := es[|es| - 1];
      if e.DirNode? && e.dir.name == name then
        assert es[|es| - 1] == DirNode(e.dir);
        Some(e.dir)
      else
        var r := LastDirIn(es[..|es| - 1], name);
        assert forall j :: 0 <= j < |es| - 1 ==> es[..|es| - 1][j] == es[j];
        assert r.Some? ==> exists j :: 0 <= j < |es| - 1 && es[j] == DirNode(r.value) &&
                                       forall j' :: j < j' < |es| - 1 ==> !(es[j'].DirNode? && es[j'].dir.name == name);
        r
  }

  /** A regular file with this name is listed in `d`. */
  predicate HasFile(d: Directory, name: string)
  {
    exists j :: 0 <= j < |d.entries| && d.entries[j] == FileNode(name)
  }

  /**
   * A regular file sits at relative path `rel` below `d`, reached through
   * the subdirectories that a map keyed by name would record.
   */
  predicate RecordedFileAt(d: Directory, rel: Path)
    decreases |rel|
  {
    if |rel| == 0 then false
    else if |rel| == 1 then HasFile(d, rel[0])
    else match LastDirIn(d.entries, rel[0])
      case None => false
      case Some(sub) => RecordedFileAt(sub, rel[1..])
  }

  /** A subdirectory (or `d` itself, for the empty path) sits at `rel`, as above. */
  predicate RecordedDirAt(d: Directory, rel: Path)
    decreases |rel|
  {
    if |rel| == 0 then true
    else match LastDirIn(d.entries, rel[0])
      case None => false
      case Some(sub) => RecordedDirAt(sub, rel[1..])
  }

  /** A regular file sits at relative path `rel` below (or, for a file, at) the entry `e`. */
  ghost predicate EntryHoldsFile(e: Node, rel: Path)
    decreases |rel|, 0
  {
    match e
    case FileNode(n) => rel == [n]
    case DirNode(sub) => |rel| >= 2 && rel[0] == sub.name && ListedFileAt(sub.entries, rel[1..])
  }

  /**
   * Some listed regular file sits at relative path `rel` below the entries
   * `es`, through any subdirectories of the right names.
   */
  ghost predicate ListedFileAt(es: seq<Node>, rel: Path)
    decreases |rel|, 1
  {
    exists j :: 0 <= j < |es| && EntryHoldsFile(es[j], rel)
  }

  /** Listing one more entry adds the files below it. */
  lemma ListedFileAtSnoc(es: seq<Node>, e: Node, rel: Path)
    ensures ListedFileAt(es + [e], rel) <==> ListedFileAt(es, rel) || EntryHoldsFile(e, rel)
  {
    if ListedFileAt(es, rel) {
      var j :| 0 <= j < |es| && EntryHoldsFile(es[j], rel);
      assert (es + [e])[j] == es[j];
    }
    if EntryHoldsFile(e, rel) {
      assert (es + [e])[|es|] == e;
    }
    if ListedFileAt(es + [e], rel) {
      var j :| 0 <= j < |es + [e]| && EntryHoldsFile((es + [e])[j], rel);
      if j < |es| {
        assert (es + [e])[j] == es[j];
      }
    }
  }

  /** A subdirectory sits at the non-empty relative path `rel` at or below the entry `e`. */
  ghost predicate EntryHoldsDir(e: Node, rel: Path)
    decreases |rel|, 0
  {
    match e
    case FileNode(_) => false
    case DirNode(sub) => |rel| >= 1 && rel[0] == sub.name && (|rel| == 1 || ListedDirAt(sub.entries, rel[1..]))
  }

  /**
   * Some listed subdirectory sits at relative path `rel` below the entries
   * `es`, through any subdirectories of the right names.
   */
  ghost predicate ListedDirAt(es: seq<Node>, rel: Path)
    decreases |rel|, 1
  {
    exists j :: 0 <= j < |es| && EntryHoldsDir(es[j], rel)
  }

  /** Listing one more entry adds the subdirectories at and below it. */
  lemma ListedDirAtSnoc(es: seq<Node>, e: Node, rel: Path)
    ensures ListedDirAt(es + [e], rel) <==> ListedDirAt(es, rel) || EntryHoldsDir(e, rel)
  {
    if ListedDirAt(es, rel) {
      var j :| 0 <= j < |es| && EntryHoldsDir(es[j], rel);
      assert (es + [e])[j] == es[j];
    }
    if EntryHoldsDir(e, rel) {
      assert (es + [e])[|es|] == e;
    }
    if ListedDirAt(es + [e], rel) {
      var j :| 0 <= j < |es + [e]| && EntryHoldsDir((es + [e])[j], rel);
      if j < |es| {
        assert (es + [e])[j] == es[j];
      }
    }
  }

  /** `d` with every regular file whose name is in `fileToExclude` removed from the listing, at every level. */
  function StripExcluded(d: Directory, fileToExclude: set<string>): Directory
    decreases d, 1, 0
  {
    Directory(d.name, StripEntries(d, fileToExclude, |d.entries|))
  }

  /** The first `i` entries of `d`, with excluded files removed at every level. */
  function StripEntries(d: Directory, fileToExclude: set<string>, i: nat): seq<Node>
    requires i <= |d.entries|
    decreases d, 0, i
  {
    if i == 0 then []
    else
      StripEntries(d, fileToExclude, i - 1) +
      match d.entries[i - 1]
      case FileNode(n) => if n in fileToExclude then [] else [FileNode(n)]
      case DirNode(sub) => [DirNode(StripExcluded(sub, fileToExclude))]
  }

  /** Stripping fewer entries gives a prefix of stripping more. */
  lemma {:induction false} StripPrefix(d: Directory, fileToExclude: set<string>, i: nat, j: nat)
    requires i <= j <= |d.entries|
    ensures |StripEntries(d, fileToExclude, i)| <= |StripEntries(d, fileToExclude, j)|
    ensures StripEntries(d, fileToExclude, j)[..|StripEntries(d, fileToExclude, i)|] == StripEntries(d, fileToExclude, i)
    decreases j
  {
    if i < j {
      StripPrefix(d, fileToExclude, i, j - 1);
    }
  }

  /** The stripped tree lists exactly the files of `d` whose names are not excluded, at the same relative paths. */
  lemma {:induction false} StripExcludedFiles(d: Directory, fileToExclude: set<string>, i: nat, rel: Path)
    requires i <= |d.entries|
    ensures ListedFileAt(StripEntries(d, fileToExclude, i), rel) <==>
              ListedFileAt(d.entries[..i], rel) && |rel| > 0 && rel[|rel| - 1] !in fileToExclude
    decreases d, i
  {
    if i > 0 {
      var e := d.entries[i - 1];
      StripExcludedFiles(d, fileToExclude, i - 1, rel);
      assert d.entries[..i] == d.entries[..i - 1] + [e];
      ListedFileAtSnoc(d.entries[..i - 1], e, rel);
      match e
      case FileNode(n) =>
        if n !in fileToExclude {
          assert StripEntries(d, fileToExclude, i) == StripEntries(d, fileToExclude, i - 1) + [e];
          ListedFileAtSnoc(StripEntries(d, fileToExclude, i - 1), e, rel);
        } else {
          assert StripEntries(d, fileToExclude, i) == StripEntries(d, fileToExclude, i - 1);
          assert EntryHoldsFile(e, rel) ==> rel == [n];
        }
      case DirNode(sub) =>
        var sub' := StripExcluded(sub, fileToExclude);
        assert StripEntries(d, fileToExclude, i) == StripEntries(d, fileToExclude, i - 1) + [DirNode(sub')];
        ListedFileAtSnoc(StripEntries(d, fileToExclude, i - 1), DirNode(sub'), rel);
        if |rel| >= 2 {
          StripExcludedFiles(sub, fileToExclude, |sub.entries|, rel[1..]);
          assert sub.entries[..|sub.entries|] == sub.entries;
          assert rel[1..][|rel[1..]| - 1] == rel[|rel| - 1];
        }
    }
  }

  /** File contents on disk, by absolute path. */
  class Disk {
    var contents: map<Path, Content>

    constructor(contents: map<Path, Content>)
      ensures this.contents == contents
    {
      this.contents := contents;
    }

    /**
     * `Files.copy(source, target, REPLACE_EXISTING, ...)`: the target gets the
     * source's content; a source that cannot be read fails the copy and
     * changes nothing.
     */
    method Copy(source: Path, target: Path) returns (ok: bool)
      modifies this
      ensures ok <==> source in old(contents)
      ensures contents == if ok then old(contents)[target := old(contents)[source]] else old(contents)
    {
      ok := source in contents;
      if ok {
        contents := contents[target := contents[source]];
      }
    }
  }
}
