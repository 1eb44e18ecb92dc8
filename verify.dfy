/** Comparing each listed source file with its counterpart in the
    destination folder. */
module Verify {
  import opened FileSystem
  import opened Paths

  /** What hashing a path yields: the digest of its bytes, "not found", or
      any other error. */
  datatype HashResult = Hashed(hex: string) | NotFound | Failed

  /** Opens `path` and digests all of its bytes. */
  function GetHash(files: Files, path: string, digest: Digest): (h: HashResult)
    ensures h.NotFound? <==> path !in files
    ensures h.Hashed? <==> path in files && files[path].Readable?
    ensures h.Hashed? ==> h.hex == digest(files[path].bytes)
  {
    if path !in files then NotFound
    else match files[path]
      case Readable(bytes) => Hashed(digest(bytes))
      case Unreadable => Failed
  }

  /** The outcome of one comparison. */
  datatype Check = Pass | Fail | Abort

  /** One step of the loop: the destination file is hashed first, then the
      source file; "not found" from either is a failure, any other error
      aborts, and otherwise the two digests are compared. */
  function CompareEntry(e: DirEntry, destFolder: string, windows: bool, files: Files, digest: Digest): (c: Check) {
    match GetHash(files, DestPath(destFolder, e.name, windows), digest)
    case NotFound => Fail
    case Failed => Abort
    case Hashed(destHash) =>
      match GetHash(files, e.path, digest)
      case NotFound => Fail
      case Failed => Abort
      case Hashed(sourceHash) => if sourceHash == destHash then Pass else Fail
  }

  /** A comparison passes exactly when both files can be read and their
      digests are equal. */
  lemma PassIff(e: DirEntry, destFolder: string, windows: bool, files: Files, digest: Digest)
    ensures var d := DestPath(destFolder, e.name, windows);
      CompareEntry(e, destFolder, windows, files, digest) == Pass <==>
        && d in files && files[d].Readable?
        && e.path in files && files[e.path].Readable?
        && digest(files[e.path].bytes) == digest(files[d].bytes)
  {
  }

  /** A comparison aborts exactly when the destination path exists but cannot
      be read, or when it can and the source path exists but cannot be read. */
  lemma AbortIff(e: DirEntry, destFolder: string, windows: bool, files: Files, digest: Digest)
    ensures var d := DestPath(destFolder, e.name, windows);
      CompareEntry(e, destFolder, windows, files, digest) == Abort <==>
        && d in files
        && (files[d].Unreadable? || (e.path in files && files[e.path].Unreadable?))
  {
  }

  /** A missing counterpart is a failure, never an abort, whatever the
      source file is. */
  lemma MissingCounterpartFails(e: DirEntry, destFolder: string, windows: bool, files: Files, digest: Digest)
    requires DestPath(destFolder, e.name, windows) !in files
    ensures CompareEntry(e, destFolder, windows, files, digest) == Fail
  {
  }

  /** A missing source file, with a readable counterpart, is a failure too. */
  lemma MissingSourceFails(e: DirEntry, destFolder: string, windows: bool, files: Files, digest: Digest)
    requires var d := DestPath(destFolder, e.name, windows); d in files && files[d].Readable?
    requires e.path !in files
    ensures CompareEntry(e, destFolder, windows, files, digest) == Fail
  {
  }

  /** Byte-identical copies pass, whatever the digest is. */
  lemma IdenticalCopyPasses(e: DirEntry, destFolder: string, windows: bool, files: Files, digest: Digest)
    requires var d := DestPath(destFolder, e.name, windows);
      d in files && e.path in files && files[d].Readable? && files[e.path] == files[d]
    ensures CompareEntry(e, destFolder, windows, files, digest) == Pass
  {
  }

  /** With a digest that tells different contents apart, a comparison passes
      exactly when both files can be read and hold the same bytes. */
  lemma PassIffSameBytes(e: DirEntry, destFolder: string, windows: bool, files: Files, digest: Digest)
    requires forall a, b :: digest(a) == digest(b) ==> a == b
    ensures var d := DestPath(destFolder, e.name, windows);
      CompareEntry(e, destFolder, windows, files, digest) == Pass <==>
        d in files && e.path in files && files[d].Readable? && files[e.path] == files[d]
  {
    PassIff(e, destFolder, windows, files, digest);
  }

  /** A comparison looks only at its own two paths: removing any other path
      from the file system leaves its outcome unchanged. */
  lemma CompareIsLocal(e: DirEntry, destFolder: string, windows: bool, files: Files, digest: Digest, gone: string)
    requires gone != e.path && gone != DestPath(destFolder, e.name, windows)
    ensures CompareEntry(e, destFolder, windows, files - {gone}, digest)
         == CompareEntry(e, destFolder, windows, files, digest)
  {
  }

  /** A slot of the result list: the index the list is pre-filled with, or
      the verdict written over it. */
  datatype Slot = Placeholder(index: int) | Verdict(passed: bool)

  /** The comparisons of a whole listing: aborted by the first comparison
      that aborts, otherwise one verdict per entry. */
  function CheckAll(subset: seq<DirEntry>, destFolder: string, windows: bool, files: Files, digest: Digest): (r: Outcome<seq<Slot>>)
    ensures r.Done? ==> |r.value| == |subset|
  {
    if exists i :: 0 <= i < |subset| && CompareEntry(subset[i], destFolder, windows, files, digest) == Abort then Aborted
    else Done(seq(|subset|, i requires 0 <= i < |subset| =>
      Verdict(CompareEntry(subset[i], destFolder, windows, files, digest) == Pass)))
  }

  /** The loop over the listing: pre-fills a list with indices and overwrites
      slot `i` with the verdict of the `i`-th comparison, stopping at the first
      error it does not catch. On completion no placeholder survives: every
      slot holds the verdict of its own entry. */
  method CheckHashes(subset: seq<DirEntry>, destFolder: string, windows: bool, files: Files, digest: Digest)
    returns (r: Outcome<seq<Slot>>)
    ensures r.Aborted? <==> exists i :: 0 <= i < |subset| && CompareEntry(subset[i], destFolder, windows, files, digest) == Abort
    ensures r.Done? ==> |r.value| == |subset|
    ensures r.Done? ==> forall i :: 0 <= i < |subset| ==>
      r.value[i] == Verdict(CompareEntry(subset[i], destFolder, windows, files, digest) == Pass)
  {
    var n := |subset|;
    var passes := new Slot[n](i => Placeholder(i));
    var i := 0;
    while i < n
      invariant 0 <= i <= n
      invariant forall j :: 0 <= j < i ==> CompareEntry(subset[j], destFolder, windows, files, digest) != Abort
      invariant forall j :: 0 <= j < i ==>
        passes[j] == Verdict(CompareEntry(subset[j], destFolder, windows, files, digest) == Pass)
      invariant forall j :: i <= j < n ==> passes[j] == Placeholder(j)
    {
      var destHash := GetHash(files, DestPath(destFolder, subset[i].name, windows), digest);
      if destHash.NotFound? {
        passes[i] := Verdict(false);
      } else if destHash.Failed? {
        return Aborted;
      } else {
        var sourceHash := GetHash(files, subset[i].path, digest);
        if sourceHash.NotFound? {
          passes[i] := Verdict(false);
        } else if sourceHash.Failed? {
          return Aborted;
        } else if sourceHash.hex == destHash.hex {
          passes[i] := Verdict(true);
        } else {
          passes[i] := Verdict(false);
        }
      }
      i := i + 1;
    }
    return Done(passes[..]);
  }
}
