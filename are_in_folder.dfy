/** The whole run: list the source folder, compare every listed file with
    its counterpart in the destination folder, and report. */
module AreInFolder {
  import opened FileSystem
  import opened Paths
  import opened Selection
  import opened Listing
  import opened Verify
  import opened Reporting

  /** The lines a run prints, or `Aborted` when an error nobody catches ends it
      before the report (in which case nothing is printed). */
  function RunSpec(filesIn: string, destFolder: string, cwd: string, windows: bool,
                   tree: Tree, files: Files, digest: Digest): (out: Outcome<seq<string>>)
  {
    var dir := ResolveDir(filesIn, cwd, windows);
    if !Listable(tree, dir) then Aborted
    else
      var subset := Select(tree[dir], IsRegularFile);
      match CheckAll(subset, destFolder, windows, files, digest)
      case Aborted => Aborted
      case Done(slots) => Done(ReportLines(slots, subset))
  }

  /** The program's `run`, with its arguments, working directory, platform
      and file system given as parameters. */
  method Run(filesIn: string, destFolder: string, cwd: string, windows: bool,
             tree: Tree, files: Files, digest: Digest) returns (out: Outcome<seq<string>>)
    ensures out == RunSpec(filesIn, destFolder, cwd, windows, tree, files, digest)
  {
    var listed := ListFiles(filesIn, cwd, windows, tree);
    if listed.Aborted? {
      return Aborted;
    }
    var subset := listed.value;
    var checked := CheckHashes(subset, destFolder, windows, files, digest);
    if checked.Aborted? {
      return Aborted;
    }
    ghost var spec := CheckAll(subset, destFolder, windows, files, digest);
    assert spec.Done? && |spec.value| == |checked.value|;
    assert forall i :: 0 <= i < |subset| ==> checked.value[i] == spec.value[i];
    assert checked.value == spec.value;
    var lines := Report(checked.value, subset);
    return Done(lines);
  }

  /** The source file has a byte-identical, readable copy under its own name
      in the destination folder. */
  predicate Copied(e: DirEntry, destFolder: string, windows: bool, files: Files) {
    var d := DestPath(destFolder, e.name, windows);
    d in files && e.path in files && files[d].Readable? && files[e.path] == files[d]
  }

  /** When the folder can be listed and every file of it has a byte-identical copy,
      the run prints the success line and nothing else. */
  lemma AllCopiesPass(filesIn: string, destFolder: string, cwd: string, windows: bool,
                      tree: Tree, files: Files, digest: Digest)
    requires Listable(tree, ResolveDir(filesIn, cwd, windows))
    requires forall e :: e in Select(tree[ResolveDir(filesIn, cwd, windows)], IsRegularFile) ==>
      Copied(e, destFolder, windows, files)
    ensures RunSpec(filesIn, destFolder, cwd, windows, tree, files, digest) == Done([SuccessLine])
  {
    var subset := Select(tree[ResolveDir(filesIn, cwd, windows)], IsRegularFile);
    forall i | 0 <= i < |subset|
      ensures CompareEntry(subset[i], destFolder, windows, files, digest) == Pass
    {
      assert subset[i] in subset;
      IdenticalCopyPasses(subset[i], destFolder, windows, files, digest);
    }
    var slots := CheckAll(subset, destFolder, windows, files, digest).value;
    assert !ContainsFalse(slots);
  }

  /** An entry whose `is_file()` raises ends the run before any comparison,
      so nothing is printed. */
  lemma IsFileErrorAborts(filesIn: string, destFolder: string, cwd: string, windows: bool,
                          tree: Tree, files: Files, digest: Digest, j: nat)
    requires var dir := ResolveDir(filesIn, cwd, windows);
      dir in tree && j < |tree[dir]| && tree[dir][j].isFile.Aborted?
    ensures RunSpec(filesIn, destFolder, cwd, windows, tree, files, digest) == Aborted
  {
  }

  /** A source folder in which no entry is a file passes: zero comparisons, the
      success line. */
  lemma EmptySourcePasses(filesIn: string, destFolder: string, cwd: string, windows: bool,
                          tree: Tree, files: Files, digest: Digest)
    requires ResolveDir(filesIn, cwd, windows) in tree
    requires var entries := tree[ResolveDir(filesIn, cwd, windows)];
      forall j :: 0 <= j < |entries| ==> entries[j].isFile == Done(false)
    ensures RunSpec(filesIn, destFolder, cwd, windows, tree, files, digest) == Done([SuccessLine])
  {
    var entries := tree[ResolveDir(filesIn, cwd, windows)];
    PositionsEmptyIff(entries, IsRegularFile);
    SelectAtPositions(entries, IsRegularFile);
    assert Select(entries, IsRegularFile) == [];
  }

  /** A listed file without a counterpart in the destination folder is named
      in a failure line rather than ending the run, and the success line is
      not printed. */
  lemma MissingCounterpartReported(filesIn: string, destFolder: string, cwd: string, windows: bool,
                                   tree: Tree, files: Files, digest: Digest, k: nat)
    requires RunSpec(filesIn, destFolder, cwd, windows, tree, files, digest).Done?
    requires var subset := Select(tree[ResolveDir(filesIn, cwd, windows)], IsRegularFile);
      k < |subset| && DestPath(destFolder, subset[k].name, windows) !in files
    ensures var subset := Select(tree[ResolveDir(filesIn, cwd, windows)], IsRegularFile);
      var lines := RunSpec(filesIn, destFolder, cwd, windows, tree, files, digest).value;
      FailureLine(subset[k].name) in lines && SuccessLine !in lines
  {
    var subset := Select(tree[ResolveDir(filesIn, cwd, windows)], IsRegularFile);
    MissingCounterpartFails(subset[k], destFolder, windows, files, digest);
    var slots := CheckAll(subset, destFolder, windows, files, digest).value;
    assert Falsy(slots[k]);
    PositionsComplete(slots, Falsy, k);
    var idx := Positions(slots, Falsy);
    var m :| 0 <= m < |idx| && idx[m] == k;
    assert ReportLines(slots, subset)[m] == FailureLine(subset[k].name);
    SuccessIffNoFalse(slots, subset);
  }

  /** When exactly one listed file differs from its counterpart (all others
      being byte-identical copies, and the digest telling the two contents
      apart), the run prints exactly one failure line, naming that file. */
  lemma OneDifferenceReported(filesIn: string, destFolder: string, cwd: string, windows: bool,
                              tree: Tree, files: Files, digest: Digest, k: nat)
    requires Listable(tree, ResolveDir(filesIn, cwd, windows))
    requires var subset := Select(tree[ResolveDir(filesIn, cwd, windows)], IsRegularFile);
      && k < |subset|
      && (forall j :: 0 <= j < |subset| && j != k ==> Copied(subset[j], destFolder, windows, files))
      && var d := DestPath(destFolder, subset[k].name, windows);
         && d in files && files[d].Readable?
         && subset[k].path in files && files[subset[k].path].Readable?
         && digest(files[subset[k].path].bytes) != digest(files[d].bytes)
    ensures var subset := Select(tree[ResolveDir(filesIn, cwd, windows)], IsRegularFile);
      RunSpec(filesIn, destFolder, cwd, windows, tree, files, digest) == Done([FailureLine(subset[k].name)])
  {
    var subset := Select(tree[ResolveDir(filesIn, cwd, windows)], IsRegularFile);
    forall j | 0 <= j < |subset| && j != k
      ensures CompareEntry(subset[j], destFolder, windows, files, digest) == Pass
    {
      IdenticalCopyPasses(subset[j], destFolder, windows, files, digest);
    }
    assert CompareEntry(subset[k], destFolder, windows, files, digest) == Fail;
    var check := CheckAll(subset, destFolder, windows, files, digest);
    assert check.Done?;
    var slots := check.value;
    assert Falsy(slots[k]);
    assert forall j :: 0 <= j < |slots| && j != k ==> slots[j] == Verdict(true);
    PositionsSingleton(slots, Falsy, k);
    assert ReportLines(slots, subset) == FailureLines(subset, [k]);
    assert FailureLines(subset, [k]) == [FailureLine(subset[k].name)];
    assert RunSpec(filesIn, destFolder, cwd, windows, tree, files, digest) == Done(ReportLines(slots, subset));
  }
}
