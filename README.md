# are-in-folder, modelled in Dafny

`are-in-folder` is a small command-line tool (`src/main.py`). It checks that
every file directly inside a source folder (`--files-in`) also exists,
with the same content, under the same name in a destination folder
(`--dest-folder`). It compares SHA-256 hex digests of the two files. It prints
`All files passed!` when every file matches. Otherwise it prints one
`Failed:\t<name>` line per file that does not match, in listing order. A
"file" here is an entry whose `is_file()` holds: a regular file or a
symbolic link to one.

The model keeps the tool's own logic:

- `Paths.ResolveDir` is the path rule of `list_files`. A source folder with no
  platform separator, or with `..` in its first two characters, is prefixed
  with the working directory and the separator. Any other folder is used as
  given. `Paths.DestPath` joins the destination folder and a file name with
  the separator, without the path rule.
- `Listing.ListFiles` is the `list_files` loop. It appends the entries whose
  `is_file()` holds, in enumeration order. `Selection.Select` specifies it.
  Each entry's `is_file()` answer is true, false or `Aborted`, because the
  call follows symbolic links and raises on, for example, a link loop.
- `Verify.CheckHashes` is the loop of `run`. It pre-fills a list (an `array`
  of `Slot`s) with the indices and overwrites slot `i` with the verdict for
  entry `i`. The destination file is hashed first, then the source file.
  "Not found" from either one is a failure for that slot. Any other error
  ends the run (`Aborted`).
- `Reporting.Report` is the report. Two Python tests read the slots, and
  `Reporting.Falsy` models both. `False in file_passes` tests equality with
  `False`, which holds of `False` and of the integer 0 (`False == 0`).
  `not file_passes[i]` tests truthiness, which also holds of exactly `False`
  and 0 among bools and ints. So an integer placeholder 0 would read as false
  in both. The model proves that no placeholder survives the loop.
- `AreInFolder.Run` composes the three steps. `AreInFolder.RunSpec` is
  its specification, and the end-to-end scenarios are proved about it.

The environment is given as parameters:

- `Tree` is a snapshot of `scandir`: for each folder that can be listed,
  its entries in enumeration order.
- `Files` maps paths to their bytes, or to `Unreadable`. Opening a path not
  in the map raises `FileNotFoundError`. `Unreadable` stands for any other
  error from opening or reading, including `NotADirectoryError` for a path
  under a destination "folder" that is a regular file.
- `Digest` is an arbitrary deterministic function from bytes to a string.
- `cwd` is the working directory.
- `windows` selects `\` or `/` as the separator.

The output is the returned sequence of the strings handed to `console.print`, without their tags. Every run is a
function of these inputs, so two runs on an unchanged environment print the
same lines.

Both `get_hash` calls sit in one `try ... except FileNotFoundError`
(src/main.py:67-78). So a source file that is not found, with a readable
counterpart, is a failure for its slot and not an abort
(`Verify.MissingSourceFails`).

## Model

| member | source | states |
|---|---|---|
| `FileSystem.Sep` | src/main.py:50-53 | the separator is a backslash exactly on Windows and a slash otherwise |
| `Paths.Head2` | src/main.py:47-49 | Python's `dir[:2]`: at most two characters, and a prefix of the folder |
| `Paths.Contains` | src/main.py:47-49 | definition of Python's substring test `sub in s`; characterized for `".."` on the first two characters by `Paths.HeadDotDot` |
| `Paths.TreatedAsRelative` | src/main.py:47-49 | definition of the whole test: no platform separator, or `..` in the first two characters; characterized by `Paths.HeadDotDot` and `Paths.ResolveDirRule` |
| `Paths.ResolveDir` | src/main.py:47-53 | definition of the path rule; characterized by `Paths.ResolveDirRule`, `Paths.ResolveDirShape` and `Paths.ParentFolderIsPrefixed` |
| `Paths.HeadDotDot` | src/main.py:47-49 | the test `".." in dir[:2]` holds exactly when the folder starts with two dots |
| `Paths.ResolveDirRule` | src/main.py:47-53 | the folder becomes `cwd + sep + dir` when it has no separator or starts with `..`, and stays exactly `dir` otherwise |
| `Paths.ResolveDirShape` | src/main.py:47-53 | a resolved folder always contains the separator and always ends with the folder as given |
| `Paths.ResolveDirIdempotent` | src/main.py:47-53 | a property of the heuristic itself (the program resolves once): with a working directory that does not start with `.`, resolving a resolved folder again changes nothing |
| `Paths.ParentFolderIsPrefixed` | src/main.py:47-53 | a folder starting with `..` gets the working directory prefixed even when it contains a separator |
| `Paths.DestPath` | src/main.py:68-72 | definition of the destination join; characterized by `Paths.DestPathInjective` and `Paths.DestPathNotResolved` |
| `Paths.DestPathInjective` | src/main.py:68-72 | two destination paths in one folder are equal exactly when the file names are equal |
| `Paths.DestPathNotResolved` | src/main.py:68-72 | the destination path is a plain join: for a folder the path rule would prefix, the path is not the one built from the resolved folder |
| `Listing.IsRegularFile` | src/main.py:57 | definition: the entry's `is_file()` answers true (a regular file or a symbolic link to one) |
| `Listing.Listable` | src/main.py:54-57 | definition: the resolved folder can be listed and `is_file()` answers for every entry; characterized by `Listing.ListFiles` and `AreInFolder.IsFileErrorAborts` |
| `Listing.ListFiles` | src/main.py:38-59 | aborts exactly when the resolved folder cannot be listed or some entry's `is_file()` raises; otherwise returns the entries whose `is_file()` holds, in enumeration order |
| `Selection.Select` | src/main.py:55-59 | the kept entries are no more than the listed ones, and every kept entry satisfies the filter (`is_file()` holds) |
| `Selection.Positions` | src/main.py:81-86 | the positions of the matching elements strictly increase, are in range, and each holds a matching element |
| `Selection.PositionsComplete` | src/main.py:56-58 | every element that matches has its position listed |
| `Selection.SelectAtPositions` | src/main.py:55-59 | the kept entries are exactly the listed entries read at the matching positions |
| `Selection.SelectExact` | src/main.py:55-59 | the kept entries are the listing read at a strictly increasing sequence that covers every position whose entry satisfies the filter: exactly the files, in order, and nothing else |
| `Selection.PositionsEmptyIff` | src/main.py:79 | no position is listed exactly when no element matches |
| `Selection.PositionsSingleton` | src/main.py:82-83 | when one element alone matches, its position is the only one listed |
| `Verify.GetHash` | src/main.py:33-35 | a path that does not exist gives "not found"; a readable file gives the digest of all its bytes; anything else gives another error |
| `Verify.CompareEntry` | src/main.py:67-78 | definition of one loop step (destination hashed first, then source, "not found" caught); characterized by `Verify.PassIff`, `Verify.AbortIff`, `Verify.MissingCounterpartFails`, `Verify.MissingSourceFails` and `Verify.CompareIsLocal` |
| `Verify.PassIff` | src/main.py:68-76 | an entry passes exactly when both the source file and its counterpart are readable and their digests are equal |
| `Verify.AbortIff` | src/main.py:67-78 | a comparison aborts exactly when the counterpart exists but is unreadable, or when it is readable and the source file exists but is unreadable |
| `Verify.MissingCounterpartFails` | src/main.py:67-78 | a missing counterpart is a failed comparison and never an abort, whatever the source file is |
| `Verify.MissingSourceFails` | src/main.py:73-78 | a source file that is not found, with a readable counterpart, is a failed comparison |
| `Verify.IdenticalCopyPasses` | src/main.py:73-74 | byte-identical readable copies pass, for any digest |
| `Verify.PassIffSameBytes` | src/main.py:73-76 | with a digest that tells contents apart, an entry passes exactly when both files are readable and hold the same bytes |
| `Verify.CompareIsLocal` | src/main.py:67-78 | removing any path other than the entry's own two paths leaves its outcome unchanged, so a missing file affects only its own slot |
| `Verify.CheckAll` | src/main.py:65-78 | a completed loop has exactly one slot per listed file |
| `Verify.CheckHashes` | src/main.py:65-78 | aborts exactly when some comparison aborts; otherwise the list has one slot per entry, and slot `i` holds the verdict "entry `i` passed", with no placeholder left |
| `Reporting.FailureLine` | src/main.py:84-86 | a failure line ends with the file's name and is never the success line |
| `Reporting.Falsy` | src/main.py:79-83 | definition of how both tests read a slot: `False` and the integer 0 read as false; used by `Reporting.PlaceholderZeroReadsAsFailure` |
| `Reporting.ContainsFalse` | src/main.py:79 | definition of `False in file_passes`; characterized by `Reporting.SuccessIffNoFalse` |
| `Reporting.FailureLines` | src/main.py:81-86 | definition: one failure line per listed position, in the order listed; characterized by `Reporting.FailuresExact` |
| `Reporting.ReportLines` | src/main.py:79-86 | definition of the report's output; characterized by `Reporting.SuccessIffNoFalse`, `Reporting.FailuresExact` and `Reporting.PlaceholderZeroReadsAsFailure` |
| `Reporting.Report` | src/main.py:79-86 | prints the success line when no slot is false, otherwise the failure lines of the false slots in index order |
| `Reporting.SuccessIffNoFalse` | src/main.py:79-80 | the success line is printed exactly when no slot is false, and then it is the only line, also for zero slots |
| `Reporting.FailuresExact` | src/main.py:81-86 | when some slot is false, the output is one failure line per false slot, naming that slot's file, in strictly increasing index order, with no other line |
| `Reporting.PlaceholderZeroReadsAsFailure` | src/main.py:65-86 | for any slots whose first slot is a surviving placeholder 0, the success line is not printed and the first line names the first file, so overwriting every slot matters |
| `AreInFolder.RunSpec` | src/main.py:62-86 | definition of the whole run's output; characterized by `AreInFolder.AllCopiesPass`, `AreInFolder.EmptySourcePasses`, `AreInFolder.MissingCounterpartReported` and `AreInFolder.OneDifferenceReported` |
| `AreInFolder.Run` | src/main.py:62-86 | listing, comparing and reporting together give what `RunSpec` gives |
| `AreInFolder.IsFileErrorAborts` | src/main.py:56-57 | an entry whose `is_file()` raises aborts the run before any comparison, so nothing is printed |
| `AreInFolder.AllCopiesPass` | src/main.py:62-86 | when the folder can be listed and every file in it has a byte-identical copy, the run prints only the success line |
| `AreInFolder.EmptySourcePasses` | src/main.py:79-80 | a source folder in which `is_file()` answers false for every entry prints only the success line |
| `AreInFolder.MissingCounterpartReported` | src/main.py:67-86 | in a run that completes, a file without a counterpart is named in a failure line, and the success line is not printed |
| `AreInFolder.OneDifferenceReported` | src/main.py:62-86 | when exactly one file differs (as told by the digest) and the others are copies, the run prints exactly one failure line, naming that file |

## Left out

- `get_opts` (src/main.py:11-30): argument parsing goes through argparse. The two folder arguments are plain parameters of `Run`.
- `get_hash` (src/main.py:33-35) stands for SHA-256 through hashlib, which is a foreign call. The digest is an arbitrary deterministic function of the file's bytes, so every result holds whatever the digest is. A result that needs contents to be told apart says so in its requires.
- `scandir`, `getcwd`, `open` and `sys.platform` (src/main.py:6-7, 34, 54) are operating-system calls. They are supplied as the `Tree` snapshot, the `Files` map, the `cwd` string and the `windows` flag. Each `DirEntry`'s path and `is_file()` flag are taken from the snapshot as given. Neither is derived from the folder and the name.
- The rich progress bar (src/main.py:8, 66) is not modelled. The model's lines are the strings handed to `console.print` (src/main.py:80, 84-85) with their colour and style tags removed. How rich renders them is not modelled: tab expansion of the `\t` in `Failed:\t`, soft-wrapping of lines wider than the console, and replacement of `:name:` emoji codes. The console's settings come from `from . import *` (src/main.py:2), and that module is not part of this model.
- `Reporting.FailureLine`: prints the file name verbatim. In the source the name is put into the markup string with `.format` before rich parses it, unescaped (src/main.py:84-85). The model does not capture rich reading markup inside a file name: a name such as `notes[draft].txt` loses the `[draft]` part, and a name containing a closing tag such as `[/red]` raises `MarkupError` partway through the report, after the earlier failure lines were printed.
- A source folder that cannot be listed makes `scandir` raise (`FileNotFoundError` for a missing folder). An entry whose `is_file()` raises (a symbolic link loop, a link target without search permission) raises at src/main.py:57. `list_files` is called outside the `try` (src/main.py:64), so either one aborts the run. Errors other than "not found" while hashing (permissions, opening a directory, `NotADirectoryError`) also abort it. Each of these is modelled only as the `Aborted` outcome, which comes before the report and so prints no lines. The traceback and the exit status are not modelled.
- `Listing.ListFiles`: the listing is a finished snapshot, so an `OSError` raised by the `scandir` iterator itself partway through the loop at src/main.py:56 is not modelled. The source would abort there.
