/** How the program turns its two folder arguments into paths. */
module Paths {
  import opened FileSystem

  /** `sub` occurs in `s` starting at position `i`. */
  predicate OccursAt(s: string, sub: string, i: nat) {
    i + |sub| <= |s| && s[i..i + |sub|] == sub
  }

  /** Python's `sub in s` on strings: `sub` occurs contiguously in `s`. */
  predicate Contains(s: string, sub: string) {
    exists i: nat | i <= |s| :: OccursAt(s, sub, i)
  }

  /** Python's `s[:2]`: the first two characters, or all of a shorter string. */
  function Head2(s: string): (h: string)
    ensures |h| <= 2 && h <= s
  {
    if |s| <= 2 then s else s[..2]
  }

  /** The source folder test: no platform separator in it, or `..` in its
      first two characters. */
  predicate TreatedAsRelative(dir: string, windows: bool) {
    Sep(windows) !in dir || Contains(Head2(dir), "..")
  }

  /** The source folder as it is listed: prefixed with the working directory
      and a separator when it looks relative, unchanged otherwise. */
  function ResolveDir(dir: string, cwd: string, windows: bool): (resolved: string) {
    if TreatedAsRelative(dir, windows) then cwd + [Sep(windows)] + dir else dir
  }

  /** The test on the first two characters is exactly "starts with `..`". */
  lemma HeadDotDot(s: string)
    ensures Contains(Head2(s), "..") <==> |s| >= 2 && s[0] == '.' && s[1] == '.'
  {
    var h := Head2(s);
    if |s| >= 2 && s[0] == '.' && s[1] == '.' {
      assert OccursAt(h, "..", 0);
    }
  }

  /** The path rule in plain terms: the folder is prefixed with the working
      directory and the separator exactly when it has no separator or starts
      with `..`; otherwise it is returned unchanged. */
  lemma ResolveDirRule(dir: string, cwd: string, windows: bool)
    ensures ResolveDir(dir, cwd, windows) ==
      if Sep(windows) !in dir || (|dir| >= 2 && dir[0] == '.' && dir[1] == '.')
      then cwd + [Sep(windows)] + dir
      else dir
  {
    HeadDotDot(dir);
  }

  /** The resolved folder always holds a separator and always ends with the
      folder as given. */
  lemma ResolveDirShape(dir: string, cwd: string, windows: bool)
    ensures Sep(windows) in ResolveDir(dir, cwd, windows)
    ensures var r := ResolveDir(dir, cwd, windows);
      |dir| <= |r| && r[|r| - |dir|..] == dir
  {
    var r := ResolveDir(dir, cwd, windows);
    if TreatedAsRelative(dir, windows) {
      assert r[|cwd|] == Sep(windows);
      assert r[|r| - |dir|..] == dir;
    }
  }

  /** A property of the heuristic alone (the program resolves the folder
      once): with a working directory that does not start with `.` (an
      absolute one), resolving an already resolved folder changes nothing. */
  lemma ResolveDirIdempotent(dir: string, cwd: string, windows: bool)
    requires |cwd| > 0 && cwd[0] != '.'
    ensures ResolveDir(ResolveDir(dir, cwd, windows), cwd, windows) == ResolveDir(dir, cwd, windows)
  {
    var r := ResolveDir(dir, cwd, windows);
    ResolveDirShape(dir, cwd, windows);
    HeadDotDot(r);
    HeadDotDot(dir);
    if TreatedAsRelative(dir, windows) {
      assert r[0] == cwd[0];
    }
  }

  /** A folder such as `../sub` holds a separator but starts with `..`, so the
      working directory is still put in front of it. */
  lemma ParentFolderIsPrefixed(rest: string, cwd: string, windows: bool)
    ensures ResolveDir(".." + rest, cwd, windows) == cwd + [Sep(windows)] + ".." + rest
  {
    HeadDotDot(".." + rest);
  }

  /** The path of a source file's counterpart: the destination folder, the
      separator and the file's name, joined as they are. */
  function DestPath(destFolder: string, name: string, windows: bool): (path: string) {
    destFolder + [Sep(windows)] + name
  }

  /** Different names in one destination folder give different paths, and
      the name can be read back from the end of the path. */
  lemma DestPathInjective(destFolder: string, n1: string, n2: string, windows: bool)
    ensures DestPath(destFolder, n1, windows) == DestPath(destFolder, n2, windows) <==> n1 == n2
  {
    var p1, p2 := DestPath(destFolder, n1, windows), DestPath(destFolder, n2, windows);
    assert p1[|destFolder| + 1..] == n1;
    assert p2[|destFolder| + 1..] == n2;
  }

  /** The path rule is not applied to the destination: a destination folder
      that the rule would prefix is joined to the name without the working
      directory. */
  lemma DestPathNotResolved(destFolder: string, name: string, cwd: string, windows: bool)
    requires |cwd| > 0 && TreatedAsRelative(destFolder, windows)
    ensures DestPath(destFolder, name, windows) != DestPath(ResolveDir(destFolder, cwd, windows), name, windows)
  {
    assert |DestPath(ResolveDir(destFolder, cwd, windows), name, windows)|
        == |cwd| + 1 + |DestPath(destFolder, name, windows)|;
  }
}
