/** The environment the program runs in, as values: a snapshot of directory
    listings, the files it can open, the platform and the digest. */
module FileSystem {

  type Byte = bv8

  /** One entry of a directory listing: its base name, its full path, and
      what its `is_file()` gives: true for a regular file or a symbolic link
      to one, false otherwise, or `Aborted` when the call raises (a symbolic
      link loop, a link target it has no permission to reach). */
  datatype DirEntry = DirEntry(name: string, path: string, isFile: Outcome<bool>)

  /** What opening a path in the map yields: its bytes, or an error other
      than "not found" (permission denied, a directory, a path under a
      regular file, an I/O error). Opening a path that is not in the map
      raises `FileNotFoundError`. */
  datatype FileState = Readable(bytes: seq<Byte>) | Unreadable

  /** The files that can be opened, by path. */
  type Files = map<string, FileState>

  /** The entries of each directory that can be listed, by path, in the
      operating system's enumeration order. */
  type Tree = map<string, seq<DirEntry>>

  /** The hex digest of a file's contents: any deterministic function of its bytes. */
  type Digest = seq<Byte> -> string

  /** A run either completes with a value or is aborted by an error nobody catches. */
  datatype Outcome<T> = Done(value: T) | Aborted

  /** The platform path separator: a backslash on Windows, a slash elsewhere. */
  function Sep(windows: bool): (c: char)
    ensures c == '\\' || c == '/'
    ensures windows <==> c == '\\'
  {
    if windows then '\\' else '/'
  }
}
