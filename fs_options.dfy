/**
 * The option table of the FS facade and the permission rule built on it:
 * an explicit mode, owner or group wins; otherwise the table's
 * `{dir|file}_{mod|own|grp}` entry for the kind of the path is used, and a
 * falsy setting means the OS is not called at all.
 */
module FsOptions {
  import opened Core
  import opened Paths
  import opened Os

  /** The table FS starts with: modes 0775 and 0664, no owner and no group. */
  const DefaultOptions: map<string, Value> := map[
    "dir_mod" := Int(509), "file_mod" := Int(436),
    "dir_own" := Bool(false), "file_own" := Bool(false),
    "dir_grp" := Bool(false), "file_grp" := Bool(false)]

  /** FS's static `$options` array. */
  class Options {
    var table: map<string, Value>

    constructor ()
      ensures table == DefaultOptions
    {
      table := DefaultOptions;
    }

    /** `FS::options(changes)`: a non-empty argument overwrites its keys; the whole table is returned. */
    method Update(changes: map<string, Value>) returns (r: map<string, Value>)
      modifies this
      ensures table == old(table) + changes
      ensures r == table
    {
      if |changes| > 0 {
        table := table + changes;
      }
      r := table;
    }

    /** `FS::option(name, value)`: answers the value held before the call and stores `value` unless it is null. */
    method Option(name: string, value: Value) returns (prev: Value)
      modifies this
      ensures prev == IssetOr(old(table), name)
      ensures value != Null ==> table == old(table)[name := value]
      ensures value == Null ==> table == old(table)
    {
      prev := IssetOr(table, name);
      if value != Null {
        var _ := Update(map[name := value]);
      }
    }
  }

  /** PHP's `empty()` on a path argument (null, "" and "0" are empty). */
  predicate IsEmptyPath(path: Option<Path>)
  {
    path.None? || path.value == "" || path.value == "0"
  }

  /** The option prefix `get_permision_for` uses: the path's kind, or `obj` when no path is given. */
  function PermissionKind(s: FsState, path: Option<Path>, obj: string): (kind: string)
    ensures !IsEmptyPath(path) ==> (kind == "dir" <==> s.IsDir(path.value)) && (kind == "dir" || kind == "file")
    ensures IsEmptyPath(path) ==> kind == obj
  {
    if !IsEmptyPath(path) then (if s.IsDir(path.value) then "dir" else "file") else obj
  }

  /** `get_permision_for(path, value, type, obj)`. */
  function PermissionFor(table: map<string, Value>, s: FsState, path: Option<Path>, value: Value, kind: string, obj: string): (r: Value)
    ensures value != Null ==> r == value
    ensures value == Null ==> r == IssetOr(table, PermissionKind(s, path, obj) + "_" + kind)
  {
    if value != Null then value
    else IssetOr(table, PermissionKind(s, path, obj) + "_" + kind)
  }

  /** With no path and no explicit mode, a directory's mode is the table's `dir_mod` option. */
  lemma DirModeOption(table: map<string, Value>, s: FsState)
    ensures PermissionFor(table, s, None, Null, "mod", "dir") == IssetOr(table, "dir_mod")
  {
    assert "dir" + "_" + "mod" == "dir_mod";
  }

  /** With the default table, an unspecified mode is 0775 for a directory and 0664 for anything else. */
  lemma DefaultModes(s: FsState, p: Path)
    requires !IsEmptyPath(Some(p))
    ensures PermissionFor(DefaultOptions, s, Some(p), Null, "mod", "") == if s.IsDir(p) then Int(509) else Int(436)
    ensures PermissionFor(DefaultOptions, Os.FsState(map[], []), None, Null, "mod", "dir") == Int(509)
  {
    var k := PermissionKind(s, Some(p), "");
    if s.IsDir(p) {
      assert k + "_" + "mod" == "dir_mod";
    } else {
      assert k + "_" + "mod" == "file_mod";
    }
    DirModeOption(DefaultOptions, Os.FsState(map[], []));
  }

  /** With the default table no owner and no group are ever resolved. */
  lemma DefaultsHaveNoOwnership(s: FsState, path: Option<Path>, obj: string)
    requires obj == "" || obj == "dir" || obj == "file"
    ensures !Truthy(PermissionFor(DefaultOptions, s, path, Null, "own", obj))
    ensures !Truthy(PermissionFor(DefaultOptions, s, path, Null, "grp", obj))
  {
    var k := PermissionKind(s, path, obj);
    assert k == "" || k == "dir" || k == "file";
    if k == "dir" {
      assert k + "_" + "own" == "dir_own" && k + "_" + "grp" == "dir_grp";
    } else if k == "file" {
      assert k + "_" + "own" == "file_own" && k + "_" + "grp" == "file_grp";
    } else {
      assert k + "_" + "own" !in DefaultOptions && k + "_" + "grp" !in DefaultOptions;
    }
  }

  /**
   * `FS::chmod(file, mode)`: the OS is called only with a truthy resolved
   * mode, which chmod reads as an integer; a mode that is no number makes
   * chmod fail without changing anything.
   */
  function ChmodEffect(table: map<string, Value>, s: FsState, file: Path, mode: Value): (r: (FsState, bool))
    ensures !Truthy(PermissionFor(table, s, Some(file), mode, "mod", "")) ==> r == (s, false)
    ensures IntArg(PermissionFor(table, s, Some(file), mode, "mod", "")).None? ==> r == (s, false)
    ensures Truthy(PermissionFor(table, s, Some(file), mode, "mod", "")) &&
            IntArg(PermissionFor(table, s, Some(file), mode, "mod", "")).Some? ==>
              r == s.Chmod(file, IntArg(PermissionFor(table, s, Some(file), mode, "mod", "")).value)
  {
    var v := PermissionFor(table, s, Some(file), mode, "mod", "");
    if Truthy(v) && IntArg(v).Some? then s.Chmod(file, IntArg(v).value) else (s, false)
  }

  /** `FS::chown(file, owner)`. */
  function ChownEffect(table: map<string, Value>, s: FsState, file: Path, owner: Value): (r: (FsState, bool))
    ensures !Truthy(PermissionFor(table, s, Some(file), owner, "own", "")) ==> r == (s, false)
    ensures Truthy(PermissionFor(table, s, Some(file), owner, "own", "")) ==>
              r == s.Chown(file, PermissionFor(table, s, Some(file), owner, "own", ""))
  {
    var v := PermissionFor(table, s, Some(file), owner, "own", "");
    if Truthy(v) then s.Chown(file, v) else (s, false)
  }

  /** `FS::chgrp(file, group)`. */
  function ChgrpEffect(table: map<string, Value>, s: FsState, file: Path, group: Value): (r: (FsState, bool))
    ensures !Truthy(PermissionFor(table, s, Some(file), group, "grp", "")) ==> r == (s, false)
    ensures Truthy(PermissionFor(table, s, Some(file), group, "grp", "")) ==>
              r == s.Chgrp(file, PermissionFor(table, s, Some(file), group, "grp", ""))
  {
    var v := PermissionFor(table, s, Some(file), group, "grp", "");
    if Truthy(v) then s.Chgrp(file, v) else (s, false)
  }

  /** With the defaults, `chown` and `chgrp` without an argument never reach the OS and answer false. */
  lemma DefaultOwnershipCallsAreNoops(s: FsState, file: Path)
    ensures ChownEffect(DefaultOptions, s, file, Null) == (s, false)
    ensures ChgrpEffect(DefaultOptions, s, file, Null) == (s, false)
  {
    DefaultsHaveNoOwnership(s, Some(file), "");
  }

  /** A chmod/chown/chgrp from the facade keeps the filesystem well-formed. */
  lemma PermissionEffectsValid(table: map<string, Value>, s: FsState, file: Path, v: Value)
    ensures s.Valid() ==> ChmodEffect(table, s, file, v).0.Valid()
    ensures s.Valid() ==> ChownEffect(table, s, file, v).0.Valid()
    ensures s.Valid() ==> ChgrpEffect(table, s, file, v).0.Valid()
  {
    if s.Valid() {
      ChmodEffectValid(table, s, file, v);
      ChownEffectValid(table, s, file, v);
      ChgrpEffectValid(table, s, file, v);
    }
  }

  lemma ChmodEffectValid(table: map<string, Value>, s: FsState, file: Path, v: Value)
    requires s.Valid()
    ensures ChmodEffect(table, s, file, v).0.Valid()
  {
    var m := IntArg(PermissionFor(table, s, Some(file), v, "mod", ""));
    if m.Some? {
      SetAttrsValid(s, file, (a: Attrs) => a.(mode := m.value));
    }
  }

  lemma ChownEffectValid(table: map<string, Value>, s: FsState, file: Path, v: Value)
    requires s.Valid()
    ensures ChownEffect(table, s, file, v).0.Valid()
  {
    var o := PermissionFor(table, s, Some(file), v, "own", "");
    SetAttrsValid(s, file, (a: Attrs) => a.(owner := o));
  }

  lemma ChgrpEffectValid(table: map<string, Value>, s: FsState, file: Path, v: Value)
    requires s.Valid()
    ensures ChgrpEffect(table, s, file, v).0.Valid()
  {
    var g := PermissionFor(table, s, Some(file), v, "grp", "");
    SetAttrsValid(s, file, (a: Attrs) => a.(group := g));
  }

  /** The three calls of `set_permission(mode, owner, group)`, in order, on one path. */
  function PermissionsEffect(table: map<string, Value>, s: FsState, file: Path, mode: Value, owner: Value, group: Value): (r: FsState)
  {
    var s1 := ChmodEffect(table, s, file, mode).0;
    var s2 := ChownEffect(table, s1, file, owner).0;
    ChgrpEffect(table, s2, file, group).0
  }

  /** `b` has the entries of `a`, each of the same kind and, for a regular file, with the same bytes. */
  predicate ContentsKept(a: FsState, b: FsState)
  {
    b.nodes.Keys == a.nodes.Keys &&
    forall k :: k in a.nodes ==>
      b.nodes[k].Regular? == a.nodes[k].Regular? && (a.nodes[k].Regular? ==> b.nodes[k].data == a.nodes[k].data)
  }

  /** `chmod`, `chown` and `chgrp` change attributes only. */
  lemma SetAttrsKeepsContents(s: FsState, p: Path, f: Attrs -> Attrs)
    ensures ContentsKept(s, s.SetAttrs(p, f).0)
  {
    if s.Exists(p) {
      var k := s.KeyOf(p);
      assert s.SetAttrs(p, f).0.nodes == s.nodes[k := s.nodes[k].WithAttrs(f(s.nodes[k].attrs))];
    }
  }

  /** `set_permission(mode, owner, group)` keeps every entry's kind and bytes. */
  lemma PermissionsKeepContents(table: map<string, Value>, s: FsState, file: Path, mode: Value, owner: Value, group: Value)
    ensures ContentsKept(s, PermissionsEffect(table, s, file, mode, owner, group))
  {
    var m := IntArg(PermissionFor(table, s, Some(file), mode, "mod", ""));
    if m.Some? {
      SetAttrsKeepsContents(s, file, (a: Attrs) => a.(mode := m.value));
    }
    var s1 := ChmodEffect(table, s, file, mode).0;
    var o := PermissionFor(table, s1, Some(file), owner, "own", "");
    SetAttrsKeepsContents(s1, file, (a: Attrs) => a.(owner := o));
    var s2 := ChownEffect(table, s1, file, owner).0;
    var g := PermissionFor(table, s2, Some(file), group, "grp", "");
    SetAttrsKeepsContents(s2, file, (a: Attrs) => a.(group := g));
  }

  /**
   * With the default table, `set_permission()` on an existing path only sets its
   * mode, to 0775 for a directory and 0664 otherwise, and keeps the filesystem well-formed.
   */
  lemma DefaultPermissions(s: FsState, file: Path)
    requires s.Exists(file) && !IsEmptyPath(Some(file))
    ensures PermissionsEffect(DefaultOptions, s, file, Null, Null, Null) ==
            s.Chmod(file, if s.IsDir(file) then 509 else 436).0
    ensures s.Valid() ==> PermissionsEffect(DefaultOptions, s, file, Null, Null, Null).Valid()
  {
    DefaultModes(s, file);
    var s1 := ChmodEffect(DefaultOptions, s, file, Null).0;
    DefaultOwnershipCallsAreNoops(s1, file);
    PermissionEffectsValid(DefaultOptions, s, file, Null);
  }

  /**
   * `FS::mkdir(path, mode, recursive)`: an existing path short-circuits to
   * success; otherwise `mkdir` runs with the mode resolved for a directory,
   * read as an integer, and fails when that mode is no number.
   */
  function MkdirEffect(table: map<string, Value>, s: FsState, path: Path, mode: Value, recursive: bool): (r: (FsState, bool))
    ensures s.Exists(path) ==> r == (s, true)
    ensures !s.Exists(path) && IntArg(PermissionFor(table, s, None, mode, "mod", "dir")).None? ==> r == (s, false)
    ensures !s.Exists(path) && IntArg(PermissionFor(table, s, None, mode, "mod", "dir")).Some? ==>
              r == s.Mkdir(path, IntArg(PermissionFor(table, s, None, mode, "mod", "dir")).value, recursive)
    ensures r.1 <==> s.Exists(path) || r.0.IsDir(path)
    ensures s.Valid() ==> r.0.Valid()
  {
    var arg := IntArg(PermissionFor(table, s, None, mode, "mod", "dir"));
    if s.Exists(path) then (s, true)
    else if arg.None? then (s, false)
    else (MkdirValid(s, path, arg.value, recursive); s.Mkdir(path, arg.value, recursive))
  }

  /** `FS::chmod`. */
  method Chmod(opts: Options, fs: FileSystem, file: Path, mode: Value) returns (ok: bool)
    modifies fs
    ensures (fs.state, ok) == ChmodEffect(opts.table, old(fs.state), file, mode)
    ensures old(fs.Valid()) ==> fs.Valid()
  {
    var v := PermissionFor(opts.table, fs.state, Some(file), mode, "mod", "");
    PermissionEffectsValid(opts.table, fs.state, file, mode);
    if Truthy(v) && IntArg(v).Some? {
      ok := fs.Chmod(file, IntArg(v).value);
    } else {
      ok := false;
    }
  }

  /** `FS::chown`. */
  method Chown(opts: Options, fs: FileSystem, file: Path, owner: Value) returns (ok: bool)
    modifies fs
    ensures (fs.state, ok) == ChownEffect(opts.table, old(fs.state), file, owner)
    ensures old(fs.Valid()) ==> fs.Valid()
  {
    var v := PermissionFor(opts.table, fs.state, Some(file), owner, "own", "");
    PermissionEffectsValid(opts.table, fs.state, file, owner);
    if Truthy(v) {
      ok := fs.Chown(file, v);
    } else {
      ok := false;
    }
  }

  /** `FS::chgrp`. */
  method Chgrp(opts: Options, fs: FileSystem, file: Path, group: Value) returns (ok: bool)
    modifies fs
    ensures (fs.state, ok) == ChgrpEffect(opts.table, old(fs.state), file, group)
    ensures old(fs.Valid()) ==> fs.Valid()
  {
    var v := PermissionFor(opts.table, fs.state, Some(file), group, "grp", "");
    PermissionEffectsValid(opts.table, fs.state, file, group);
    if Truthy(v) {
      ok := fs.Chgrp(file, v);
    } else {
      ok := false;
    }
  }
}
