/** Listing the files of the source folder: the entries whose `is_file()`
    holds, that is regular files and symbolic links to them. */
module Listing {
  import opened FileSystem
  import opened Paths
  import opened Selection

  /** The entry's `is_file()` answers true. */
  predicate IsRegularFile(e: DirEntry) {
    e.isFile == Done(true)
  }

  /** `dir` can be listed, and `is_file()` answers for every one of its entries. */
  predicate Listable(tree: Tree, dir: string) {
    dir in tree && forall j :: 0 <= j < |tree[dir]| ==> tree[dir][j].isFile.Done?
  }

  /** Resolves `dir` by the path rule, lists it, and keeps the entries whose
      `is_file()` holds, in enumeration order. A folder that cannot be listed,
      or an entry whose `is_file()` raises, aborts the run. */
  method ListFiles(dir: string, cwd: string, windows: bool, tree: Tree) returns (r: Outcome<seq<DirEntry>>)
    ensures r.Aborted? <==> !Listable(tree, ResolveDir(dir, cwd, windows))
    ensures r.Done? ==> r.value == Select(tree[ResolveDir(dir, cwd, windows)], IsRegularFile)
  {
    var resolved := ResolveDir(dir, cwd, windows);
    if resolved !in tree {
      return Aborted;
    }
    var entries := tree[resolved];
    var files: seq<DirEntry> := [];
    for i := 0 to |entries|
      invariant forall j :: 0 <= j < i ==> entries[j].isFile.Done?
      invariant files == Select(entries[..i], IsRegularFile)
    {
      assert entries[..i + 1][..i] == entries[..i];
      if entries[i].isFile.Aborted? {
        return Aborted;
      }
      if entries[i].isFile.value {
        files := files + [entries[i]];
      }
    }
    assert entries[..|entries|] == entries;
    return Done(files);
  }
}
