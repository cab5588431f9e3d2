/**
 * resolve_executable: map a command name to the path to run, through the
 * built-in `cd`, an explicit path, or a search of the PATH directories in
 * order. The filesystem is a parameter: what opendir/readdir would report for
 * each directory.
 */
module Resolver {
  import opened Wrappers
  import opened Variables
  import opened Strtok

  /**
   * What reading one directory yields: opendir fails, or readdir returns
   * these entries in order and then either reports the end or fails.
   */
  datatype DirListing = Unreadable | Listing(entries: seq<string>, readError: bool)

  type FileSystem = string -> DirListing

  /** CD, the name of the built-in directory change. */
  const Cd: string := "cd"

  /** The directory and the name with exactly one '/' between them. */
  function JoinPath(dir: string, name: string): (r: string)
    requires dir != []
    ensures |r| > |name| && r[|r| - |name|..] == name
    ensures var prefix := r[..|r| - |name|];
            prefix[|prefix| - 1] == '/' &&
            (prefix == dir <==> dir[|dir| - 1] == '/') &&
            (prefix != dir ==> prefix == dir + "/")
  {
    if dir[|dir| - 1] == '/' then dir + name else dir + "/" + name
  }

  /** The search loop over the PATH directories, in order. */
  function SearchDirs(dirs: seq<string>, name: string, fs: FileSystem): Option<string>
    requires forall k :: 0 <= k < |dirs| ==> dirs[k] != []
  {
    if dirs == [] then None
    else
      match fs(dirs[0])
      case Unreadable => SearchDirs(dirs[1..], name, fs)
      case Listing(entries, readError) =>
        if name in entries then Some(JoinPath(dirs[0], name))
        else if readError then None
        else SearchDirs(dirs[1..], name, fs)
  }

  /**
   * The path resolve_executable returns; None stands for NULL. The name is
   * None when the stage has no first argument, the path entry None when
   * there is no PATH variable.
   */
  function Resolve(name: Option<string>, path: Option<Variable>, fs: FileSystem): (r: Option<string>)
    ensures name == Some(Cd) && path.Some? ==> r == Some(Cd)
    ensures name.Some? && name.value != Cd && path.Some? && path.value.name != PathVarName ==> r.None?
    ensures (name.Some? && name.value != Cd && path.Some? && path.value.name == PathVarName &&
             '/' in name.value) ==> r == name
  {
    if name.None? || path.None? then None
    else if name.value == Cd then Some(Cd)
    else if path.value.name != PathVarName then None
    else if '/' in name.value then name
    else SearchDirs(Tokens(path.value.value, ':'), name.value, fs)
  }

  /** A directory the search passes over without stopping. */
  predicate Skipped(l: DirListing, name: string) {
    l.Unreadable? || (name !in l.entries && !l.readError)
  }

  /** dirs[k] lists the name and every directory before it is passed over. */
  predicate FirstHit(dirs: seq<string>, k: int, name: string, fs: FileSystem) {
    && 0 <= k < |dirs|
    && fs(dirs[k]).Listing?
    && name in fs(dirs[k]).entries
    && forall j :: 0 <= j < k ==> Skipped(fs(dirs[j]), name)
  }

  /** The first directory that lists the name wins; nothing after it is consulted. */
  lemma {:induction false} SearchFindsFirstHit(dirs: seq<string>, name: string, fs: FileSystem, k: int)
    requires forall j :: 0 <= j < |dirs| ==> dirs[j] != []
    requires FirstHit(dirs, k, name, fs)
    ensures SearchDirs(dirs, name, fs) == Some(JoinPath(dirs[k], name))
    decreases k
  {
    if k > 0 {
      assert Skipped(fs(dirs[0]), name);
      assert FirstHit(dirs[1..], k - 1, name, fs) by {
        forall j | 0 <= j < k - 1 ensures Skipped(fs(dirs[1..][j]), name) {
          assert dirs[1..][j] == dirs[j + 1];
        }
      }
      SearchFindsFirstHit(dirs[1..], name, fs, k - 1);
    }
  }

  /**
   * The search finds nothing exactly when no directory is a first hit: the
   * name is listed nowhere, or a read error comes before any listing of it.
   */
  lemma {:induction false} SearchFailsWithoutHit(dirs: seq<string>, name: string, fs: FileSystem)
    requires forall j :: 0 <= j < |dirs| ==> dirs[j] != []
    ensures SearchDirs(dirs, name, fs).None? <==>
            forall k :: 0 <= k < |dirs| ==> !FirstHit(dirs, k, name, fs)
    decreases |dirs|
  {
    if dirs != [] {
      SearchFailsWithoutHit(dirs[1..], name, fs);
      if Skipped(fs(dirs[0]), name) {
        forall k | 0 < k < |dirs| ensures FirstHit(dirs, k, name, fs) == FirstHit(dirs[1..], k - 1, name, fs) {
          assert forall j :: 0 <= j < k - 1 ==> dirs[1..][j] == dirs[j + 1];
        }
        if SearchDirs(dirs, name, fs).Some? {
          var k :| 0 <= k < |dirs[1..]| && FirstHit(dirs[1..], k, name, fs);
          assert FirstHit(dirs, k + 1, name, fs);
        }
      } else if fs(dirs[0]).Listing? && name in fs(dirs[0]).entries {
        assert FirstHit(dirs, 0, name, fs);
      } else {
        forall k | 0 <= k < |dirs| ensures !FirstHit(dirs, k, name, fs) {
          if k > 0 { assert !Skipped(fs(dirs[0]), name); }
        }
      }
    }
  }

  /**
   * resolve_executable: the strtok loop over PATH and, per directory that
   * opens, the readdir loop that stops at the first entry equal to the name.
   */
  method ResolveExecutable(name: Option<string>, path: Option<Variable>, fs: FileSystem)
    returns (r: Option<string>)
    ensures r == Resolve(name, path, fs)
  {
    if name.None? || path.None? {
      return None;
    }
    var cmd := name.value;
    if cmd == Cd {
      return Some(Cd);
    }
    if path.value.name != PathVarName {
      return None;
    }
    if '/' in cmd {
      return Some(cmd);
    }
    var rest := path.value.value;
    var next := NextToken(rest, ':');
    while next.Some?
      invariant next == NextToken(rest, ':')
      invariant Resolve(name, path, fs) == SearchDirs(Tokens(rest, ':'), cmd, fs)
      decreases |rest|
    {
      var dir := next.value.0;
      assert Tokens(rest, ':') == [dir] + Tokens(next.value.1, ':');
      match fs(dir) {
      case Unreadable =>
      case Listing(entries, readError) =>
        var found := ReadEntries(entries, cmd);
        if found {
          return Some(JoinPath(dir, cmd));
        }
        if readError {
          return None;
        }
      }
      rest := next.value.1;
      next := NextToken(rest, ':');
    }
    r := None;
  }

  /**
   * The readdir loop of resolve_executable: read entries in order until one
   * equals the name or the listing ends.
   */
  method ReadEntries(entries: seq<string>, name: string) returns (found: bool)
    ensures found <==> name in entries
  {
    var i := 0;
    while i < |entries|
      invariant i <= |entries|
      invariant name !in entries[..i]
    {
      if entries[i] == name {
        return true;
      }
      assert entries[..i + 1] == entries[..i] + [entries[i]];
      i := i + 1;
    }
    assert entries[..i] == entries;
    return false;
  }
}
