/**
 * FS\FSObject with its two subclasses FS\File and FS\Dir, as one class whose
 * `kind` says which of the two an object is. An object holds a path (a Dir
 * strips trailing slashes), a lazily loaded stat and, for a File, the stream
 * `open` created. The factories of the facade that build these objects
 * (`file_object_for`, `mkdir`) live here too, because Dir calls them.
 */
module FsObjects {
  import opened Core
  import opened Paths
  import opened Os
  import opened FsOptions
  import opened Streams
  import opened Queries
  import opened DirIterators
  import opened Trees

  /** What `__get` answers: a value, or an object another member builds (the stream, the stat, a MIME type, an iterator). */
  datatype Property = Scalar(value: Value) | Built(member: string)

  /** The five properties every FSObject reports as set. */
  predicate CommonProperty(name: string)
  {
    name == "path" || name == "dir_name" || name == "name" || name == "real_path" || name == "stat"
  }

  /** The properties File adds, which are all read-only. */
  predicate FileProperty(name: string)
  {
    name == "stream" || name == "size" || name == "mime_type" || name == "content_type"
  }

  /** `realpath`: the canonical path of an existing entry, None (PHP false) otherwise. */
  type Realpath = Path -> Option<Path>

  /** The realpath the OS computes answers for exactly the paths that exist. */
  ghost predicate ResolvesExisting(s: FsState, realpath: Realpath)
  {
    forall p {:trigger realpath(p)} :: realpath(p).Some? <==> s.Exists(p)
  }

  class FsObject {
    /** File or Dir. */
    const kind: Kind
    var path: Path
    /** `$stat`: the cached Stat, None when not loaded or invalidated. */
    var stat: Option<StatInfo>
    /** `$stream` of a File: the stream `open` created, or null. */
    var stream: ResourceStream?

    ghost predicate Valid()
      reads this
    {
      kind == DirKind ==> NoTrailingSlash(path) && stream == null
    }

    /** `new File(path)`: the path is stored verbatim, with no existence check. */
    constructor File(p: Path)
      ensures kind == FileKind && path == p && stat.None? && stream == null
      ensures Valid()
    {
      kind := FileKind;
      path := p;
      stat := None;
      stream := null;
    }

    /** `new Dir(path)`: trailing slashes are stripped. */
    constructor Dir(p: Path)
      ensures kind == DirKind && path == RTrimSlash(p) && stat.None? && stream == null
      ensures Valid() && NoTrailingSlash(path)
    {
      kind := DirKind;
      path := RTrimSlash(p);
      stat := None;
      stream := null;
    }

    /** The object seen as a value: its class and its path. */
    function View(): (e: Entry)
      reads this
      ensures e.kind == kind && e.path == path
    {
      Entry(kind, path)
    }

    // ----- FSObject -----

    /** `chmod(mode)`: the stat cache is cleared, then `FS::chmod(path, mode)`. */
    method Chmod(opts: Options, fs: FileSystem, mode: Value) returns (ok: bool)
      modifies this, fs
      ensures stat.None? && path == old(path) && stream == old(stream)
      ensures (fs.state, ok) == ChmodEffect(opts.table, old(fs.state), path, mode)
      ensures old(fs.Valid()) ==> fs.Valid()
    {
      stat := None;
      ok := FsOptions.Chmod(opts, fs, path, mode);
    }

    /** `chown(owner)`: the stat cache is cleared, then `FS::chown(path, owner)`. */
    method Chown(opts: Options, fs: FileSystem, owner: Value) returns (ok: bool)
      modifies this, fs
      ensures stat.None? && path == old(path) && stream == old(stream)
      ensures (fs.state, ok) == ChownEffect(opts.table, old(fs.state), path, owner)
      ensures old(fs.Valid()) ==> fs.Valid()
    {
      stat := None;
      ok := FsOptions.Chown(opts, fs, path, owner);
    }

    /** `chgrp(group)`: the stat cache is cleared, then `FS::chgrp(path, group)`. */
    method Chgrp(opts: Options, fs: FileSystem, group: Value) returns (ok: bool)
      modifies this, fs
      ensures stat.None? && path == old(path) && stream == old(stream)
      ensures (fs.state, ok) == ChgrpEffect(opts.table, old(fs.state), path, group)
      ensures old(fs.Valid()) ==> fs.Valid()
    {
      stat := None;
      ok := FsOptions.Chgrp(opts, fs, path, group);
    }

    /** `set_permission(mode, owner, group)`: chmod, chown and chgrp in that order. */
    method SetPermission(opts: Options, fs: FileSystem, mode: Value, owner: Value, group: Value)
      modifies this, fs
      ensures stat.None? && path == old(path) && stream == old(stream)
      ensures fs.state == PermissionsEffect(opts.table, old(fs.state), path, mode, owner, group)
      ensures old(fs.Valid()) ==> fs.Valid()
    {
      var _ := Chmod(opts, fs, mode);
      var _ := Chown(opts, fs, owner);
      var _ := Chgrp(opts, fs, group);
    }

    /** `exists()`. */
    predicate Exists(s: FsState)
      reads this
      ensures Exists(s) <==> EntryFor(s, path).Some?
    {
      s.Exists(path)
    }

    /** The `name` property. */
    function Name(): (r: string)
      reads this
      ensures '/' !in r
    {
      Basename(path)
    }

    /** The `dir_name` property: "" only for an empty path, "." for a path without a slash, and no trailing slash unless it is the root. */
    function DirName(): (r: string)
      reads this
      ensures r == "" <==> path == ""
      ensures path != "" && '/' !in path ==> r == "."
      ensures r == "/" || NoTrailingSlash(r)
    {
      Dirname(path)
    }

    /**
     * The `stat` property: loaded on first access and kept until a
     * chmod/chown/chgrp clears it; a path that cannot be stat'ed throws.
     */
    method Stat(s: FsState) returns (r: Result<StatInfo>)
      modifies this
      ensures path == old(path) && stream == old(stream)
      ensures old(stat).Some? ==> r == Ok(old(stat).value) && stat == old(stat)
      ensures old(stat).None? && s.Exists(path) ==> r.Ok? && Some(r.value) == s.StatOf(path) && stat == Some(r.value)
      ensures old(stat).None? && !s.Exists(path) ==> r == Err(StatFailure(path)) && stat.None?
    {
      if stat.Some? {
        return Ok(stat.value);
      }
      match s.StatOf(path)
      case None =>
        r := Err(StatFailure(path));
      case Some(info) =>
        stat := Some(info);
        r := Ok(info);
    }

    /** `equals(o)` as written: `o` is an FSObject and the two realpaths compare equal, PHP false included. */
    predicate Equals(other: FsObject?, realpath: Realpath)
      reads this, other
      ensures Equals(other, realpath) ==> other != null
      ensures other != null && other.path == path ==> Equals(other, realpath)
      ensures other != null && realpath(path).None? && realpath(other.path).None? ==> Equals(other, realpath)
    {
      other != null && realpath(path) == realpath(other.path)
    }

    /** `equals(o)` as intended: both objects resolve, and to the same path. */
    predicate SameEntry(other: FsObject?, realpath: Realpath)
      reads this, other
      ensures SameEntry(other, realpath) ==> Equals(other, realpath) && realpath(path).Some?
      ensures realpath(path).None? ==> !SameEntry(other, realpath)
    {
      other != null && realpath(path).Some? && realpath(path) == realpath(other.path)
    }

    /** `__isset(name)`. */
    predicate IsSetProperty(name: string)
      reads this
      ensures CommonProperty(name) ==> IsSetProperty(name)
      ensures kind == DirKind ==> (IsSetProperty(name) <==> CommonProperty(name) || name == "files")
      ensures kind == FileKind && name == "stream" ==> (IsSetProperty(name) <==> stream != null)
      ensures kind == FileKind && !CommonProperty(name) && name != "stream" ==> (IsSetProperty(name) <==> FileProperty(name))
    {
      CommonProperty(name) ||
      (kind == FileKind && ((name == "stream" && stream != null) || (FileProperty(name) && name != "stream"))) ||
      (kind == DirKind && name == "files")
    }

    /** `__get(name)`: "dirname" is accepted as well as "dir_name"; anything else throws. */
    function GetProperty(name: string, s: FsState): (r: Result<Property>)
      reads this
      ensures r.Ok? <==> CommonProperty(name) || name == "dirname" ||
                         (kind == FileKind && FileProperty(name)) || (kind == DirKind && name == "files")
      ensures name == "path" ==> r == Ok(Scalar(Str(path)))
      ensures name == "name" ==> r == Ok(Scalar(Str(Name())))
      ensures name == "dir_name" || name == "dirname" ==> r == Ok(Scalar(Str(DirName())))
      ensures kind == FileKind && name == "size" ==>
                r == Ok(Scalar(if s.StatOf(path).Some? then Int(s.StatOf(path).value.size) else Bool(false)))
      ensures kind == FileKind && name == "stream" && stream == null ==> r == Ok(Scalar(Null))
      ensures r.Err? ==> r.error == MissingProperty(name)
    {
      if name == "path" then Ok(Scalar(Str(path)))
      else if name == "dir_name" || name == "dirname" then Ok(Scalar(Str(Dirname(path))))
      else if name == "name" then Ok(Scalar(Str(Basename(path))))
      else if name == "real_path" || name == "stat" then Ok(Built(name))
      else if kind == FileKind && name == "stream" then
        (if stream == null then Ok(Scalar(Null)) else Ok(Built(name)))
      else if kind == FileKind && name == "size" then
        Ok(Scalar(match s.StatOf(path) case None => Bool(false) case Some(i) => Int(i.size)))
      else if kind == FileKind && (name == "mime_type" || name == "content_type") then Ok(Built(name))
      else if kind == DirKind && name == "files" then Ok(Built(name))
      else Err(MissingProperty(name))
    }

    /** `__set(name, value)` always throws: which exception it throws. */
    function SetPropertyError(name: string): (e: Error)
      reads this
      ensures (e.ReadOnlyObject? || e.ReadOnlyProperty? || e.MissingProperty?) && e.name == name
      ensures e.ReadOnlyObject? <==> kind == DirKind && name == "files"
      ensures e.ReadOnlyProperty? <==> CommonProperty(name) || (kind == FileKind && FileProperty(name))
      ensures IsSetProperty(name) ==> !e.MissingProperty?
    {
      if kind == DirKind && name == "files" then ReadOnlyObject(name)
      else if CommonProperty(name) || (kind == FileKind && FileProperty(name)) then ReadOnlyProperty(name)
      else MissingProperty(name)
    }

    /** `__unset(name)` always throws: which exception it throws. */
    function UnsetPropertyError(name: string): (e: Error)
      reads this
      ensures (e.UndestroyableProperty? || e.MissingProperty?) && e.name == name
      ensures e.UndestroyableProperty? <==> IsSetProperty(name)
    {
      if IsSetProperty(name) then UndestroyableProperty(name) else MissingProperty(name)
    }

    // ----- File -----

    /** The stream is set and its resource id is truthy. */
    predicate HasLiveStream()
      reads this, stream
    {
      stream != null && stream.open
    }

    /**
     * `open()`: a live stream is returned as it is; otherwise a new stream is
     * opened on the path (`fopened` is what `fopen` yields: the file's bytes, or
     * None when it fails and the constructor throws) and stored.
     */
    method Open(fopened: Option<string>) returns (r: Result<ResourceStream>)
      requires kind == FileKind
      modifies this
      ensures path == old(path) && stat == old(stat)
      ensures old(HasLiveStream()) ==> r == Ok(old(stream)) && stream == old(stream)
      ensures !old(HasLiveStream()) && fopened.None? ==> r == Err(StreamOpenFailure(path)) && stream == old(stream)
      ensures !old(HasLiveStream()) && fopened.Some? ==>
                r.Ok? && stream == r.value && fresh(r.value) && r.value.Valid() &&
                r.value.open && r.value.data == fopened.value && r.value.pos == 0
    {
      if stream != null && stream.open {
        return Ok(stream);
      }
      match fopened
      case None =>
        r := Err(StreamOpenFailure(path));
      case Some(content) =>
        var st := new ResourceStream(content, true);
        stream := st;
        r := Ok(st);
    }

    /** `close()`: forgets the stream. */
    method Close()
      requires kind == FileKind
      modifies this
      ensures stream == null && path == old(path) && stat == old(stat)
    {
      stream := null;
    }

    /** `update(data, flags)`: `file_put_contents` (appending when the FILE_APPEND bit 8 is set), then `set_permission()`. */
    method Update(opts: Options, fs: FileSystem, data: string, flags: int) returns (written: Option<nat>)
      requires kind == FileKind
      modifies this, fs
      ensures path == old(path) && stream == old(stream) && stat.None?
      ensures var w := old(fs.state).WriteFile(path, data, AppendFlag(flags));
              written == w.1 && fs.state == PermissionsEffect(opts.table, w.0, path, Null, Null, Null)
      ensures old(fs.Valid()) ==> fs.Valid()
    {
      written := fs.WriteFile(path, data, AppendFlag(flags));
      SetPermission(opts, fs, Null, Null, Null);
    }

    /** `append(data, flags)`: `file_put_contents` with FILE_APPEND, then `set_permission()`. */
    method Append(opts: Options, fs: FileSystem, data: string, flags: int) returns (written: Option<nat>)
      requires kind == FileKind
      modifies this, fs
      ensures path == old(path) && stream == old(stream) && stat.None?
      ensures var w := old(fs.state).WriteFile(path, data, true);
              written == w.1 && fs.state == PermissionsEffect(opts.table, w.0, path, Null, Null, Null)
      ensures old(fs.Valid()) ==> fs.Valid()
    {
      written := fs.WriteFile(path, data, true);
      SetPermission(opts, fs, Null, Null, Null);
    }

    /** `create()` of a File: `update('')`. */
    method FileCreate(opts: Options, fs: FileSystem) returns (written: Option<nat>)
      requires kind == FileKind
      modifies this, fs
      ensures path == old(path) && stream == old(stream) && stat.None?
      ensures var w := old(fs.state).WriteFile(path, "", false);
              written == w.1 && fs.state == PermissionsEffect(opts.table, w.0, path, Null, Null, Null)
      ensures old(fs.Valid()) ==> fs.Valid()
    {
      assert !AppendFlag(0);
      written := Update(opts, fs, "", 0);
    }

    /**
     * `load(…, offset, maxlen)`: `file_get_contents` from `offset` (from the
     * end when negative), reading `maxlen` bytes, or the file's size when
     * `maxlen` is 0. A negative `maxlen` is truthy, reaches
     * `file_get_contents` as it is and fails there; a directory loads as "".
     */
    function Load(s: FsState, offset: int, maxlen: int): (r: Option<string>)
      reads this
      ensures maxlen < 0 ==> r.None?
      ensures r.Some? <==> 0 <= maxlen && ((path in s.nodes && s.nodes[path].Regular? && -|s.nodes[path].data| <= offset) || s.IsDir(path))
      ensures 0 <= maxlen && s.IsDir(path) ==> r == Some("")
      ensures r.Some? && maxlen != 0 ==> |r.value| <= maxlen
      ensures path in s.nodes && s.nodes[path].Regular? && 0 < maxlen && 0 <= offset && offset + maxlen <= |s.nodes[path].data| ==>
                r == Some(s.nodes[path].data[offset..offset + maxlen])
      ensures path in s.nodes && s.nodes[path].Regular? && 0 <= maxlen && 0 <= offset <= |s.nodes[path].data| ==>
                r.Some? && offset + |r.value| <= |s.nodes[path].data| && r.value == s.nodes[path].data[offset..offset + |r.value|]
      ensures path in s.nodes && s.nodes[path].Regular? && maxlen == 0 && 0 <= offset <= |s.nodes[path].data| ==>
                r == Some(s.nodes[path].data[offset..])
      ensures path in s.nodes && s.nodes[path].Regular? && 0 <= maxlen && offset > |s.nodes[path].data| ==> r == Some("")
      ensures path in s.nodes && s.nodes[path].Regular? && maxlen == 0 && -|s.nodes[path].data| <= offset < 0 ==>
                r == Some(s.nodes[path].data[|s.nodes[path].data| + offset..])
      ensures path in s.nodes && s.nodes[path].Regular? && 0 < maxlen && -|s.nodes[path].data| <= offset < 0 ==>
                r.Some? && |r.value| == (if maxlen < -offset then maxlen else -offset) &&
                r.value == s.nodes[path].data[|s.nodes[path].data| + offset..|s.nodes[path].data| + offset + |r.value|]
    {
      var d := if path in s.nodes && s.nodes[path].Regular? then s.nodes[path].data else "";
      assert forall i :: 0 <= i <= |d| ==> d[i..|d|] == d[i..];
      s.ReadFile(path, offset, if maxlen != 0 then maxlen else Size(s))
    }

    /** `@filesize(path)` as a number (0 when it fails). */
    function Size(s: FsState): (r: nat)
      reads this
      ensures path in s.nodes && s.nodes[path].Regular? ==> r == |s.nodes[path].data|
      ensures !s.Exists(path) || s.IsDir(path) ==> r == 0
    {
      match s.StatOf(path) case None => 0 case Some(i) => i.size
    }

    /**
     * `move_to(dest)` of a File: refused while a live stream is held;
     * otherwise `rename` to the fixed destination, and on success the object
     * takes the new path and forgets its stat.
     */
    method FileMoveTo(fs: FileSystem, dest: Path) returns (r: FsObject?)
      requires kind == FileKind
      modifies this, fs
      ensures stream == old(stream)
      ensures old(HasLiveStream()) ==> r == null && fs.state == old(fs.state) && path == old(path) && stat == old(stat)
      ensures !old(HasLiveStream()) ==>
                var d := FixDestination(old(fs.state), old(path), dest);
                (fs.state, r != null) == old(fs.state).Rename(old(path), d) &&
                (r != null ==> r == this && path == d && stat.None?) &&
                (r == null ==> path == old(path) && stat == old(stat))
      ensures old(fs.Valid()) ==> fs.Valid()
    {
      if stream != null && stream.open {
        return null;
      }
      var d := FixDestination(fs.state, path, dest);
      var ok := fs.Rename(path, d);
      if ok {
        path := d;
        stat := None;
        r := this;
      } else {
        r := null;
      }
    }

    /**
     * `copy_to(dest)` of a File: refused while a live stream is held;
     * otherwise `copy` to the fixed destination, answering a new File there.
     */
    method FileCopyTo(fs: FileSystem, dest: Path) returns (r: FsObject?)
      requires kind == FileKind
      modifies fs
      ensures old(HasLiveStream()) ==> r == null && fs.state == old(fs.state)
      ensures !old(HasLiveStream()) ==>
                var d := FixDestination(old(fs.state), path, dest);
                (fs.state, r != null) == old(fs.state).Copy(path, d) &&
                (r != null ==> fresh(r) && r.kind == FileKind && r.path == d && r.stat.None? && r.stream == null)
      ensures old(fs.Valid()) ==> fs.Valid()
    {
      if stream != null && stream.open {
        return null;
      }
      var d := FixDestination(fs.state, path, dest);
      var ok := fs.Copy(path, d);
      if ok {
        r := new FsObject.File(d);
      } else {
        r := null;
      }
    }

    // ----- Dir and File -----

    /**
     * `rm()`: a File is unlinked. A Dir that exists has every entry its
     * default walk yields removed (a File by `unlink`, a Dir by its own
     * `rm`), then `rmdir` is attempted; a Dir answers itself, which is truthy.
     */
    method Rm(fs: FileSystem, m: Matcher) returns (ok: bool)
      requires fs.Valid() && Valid()
      modifies fs
      ensures fs.Valid()
      ensures kind == FileKind ==> (fs.state, ok) == old(fs.state).Unlink(path)
      ensures kind == DirKind ==> fs.state == RmTree(old(fs.state), path, m) && ok
      decreases |Below(fs.state, path)|, 1
    {
      if kind == FileKind {
        UnlinkValid(fs.state, path);
        ok := fs.Unlink(path);
        return;
      }
      ok := true;
      var p := path;
      if !fs.state.Exists(p) {
        return;
      }
      var s0 := fs.state;
      ExistingIsKey(s0, p);
      ListingNamesOk(s0, p);
      var _ := RmEach(fs, p, m);
      RmdirValid(fs.state, p);
      var _ := fs.Rmdir(p);
    }
    /** `create()` of a Dir: `FS::mkdir(path, null, true)`. */
    method DirCreate(opts: Options, fs: FileSystem) returns (r: FsObject?)
      requires kind == DirKind && Valid()
      modifies fs
      ensures (fs.state, r != null) == MkdirEffect(opts.table, old(fs.state), path, Null, true)
      ensures r != null ==> fresh(r) && r.kind == DirKind && r.path == path && r.stat.None? && r.stream == null
      ensures old(fs.Valid()) ==> fs.Valid()
    {
      r := Mkdir(opts, fs, path, Null, true);
      RTrimNoSlash(path);
    }

    /**
     * `copy_to(dest)` of a Dir: the answer is a new Dir for `dest` in every
     * case. When this Dir exists, that Dir is removed and re-created, then
     * every entry the default walk yields is copied to `dest/name`.
     */
    method DirCopyTo(opts: Options, fs: FileSystem, dest: Path, m: Matcher) returns (r: FsObject)
      requires kind == DirKind && fs.Valid() && Valid() && !Comparable(path, RTrimSlash(dest))
      modifies fs
      ensures fs.Valid()
      ensures fs.state == CopyTree(opts.table, old(fs.state), path, dest, m)
      ensures fresh(r) && r.kind == DirKind && r.path == RTrimSlash(dest) && r.stat.None? && r.stream == null
      decreases |Below(fs.state, path)|, 2
    {
      var s0 := fs.state;
      var src := path;
      r := new FsObject.Dir(dest);
      if !s0.Exists(src) {
        return;
      }
      CopyTreeSteps(opts.table, s0, src, dest, m);
      var d := r.path;
      assert (r as object) != (fs as object) && (this as object) != (fs as object) && (opts as object) != (fs as object);
      var _ := r.Rm(fs, m);
      var _ := r.DirCreate(opts, fs);
      CopyEach(opts, fs, src, d, m);
    }

    /** `move_to(dest)` of a Dir: `copy_to(dest)`, then `rm()`; the copy's Dir is the answer. */
    method DirMoveTo(opts: Options, fs: FileSystem, dest: Path, m: Matcher) returns (r: FsObject)
      requires kind == DirKind && fs.Valid() && Valid() && !Comparable(path, RTrimSlash(dest))
      modifies fs
      ensures fs.Valid()
      ensures fs.state == MoveTree(opts.table, old(fs.state), path, dest, m)
      ensures fresh(r) && r.kind == DirKind && r.path == RTrimSlash(dest) && r.stat.None? && r.stream == null
    {
      assert (this as object) != (fs as object) && (opts as object) != (fs as object);
      r := DirCopyTo(opts, fs, dest, m);
      var _ := Rm(fs, m);
    }

    /** `offsetExists(index)`: something exists at `path/index`. */
    predicate OffsetExists(s: FsState, index: string)
      reads this
      ensures OffsetExists(s, index) <==> EntryFor(s, path + "/" + index).Some?
    {
      s.Exists(path + "/" + index)
    }

    /** `offsetGet(index)`: `FS::file_object_for(path/index)`. */
    method OffsetGet(s: FsState, index: string) returns (r: FsObject?)
      ensures r == null <==> !OffsetExists(s, index)
      ensures r != null ==> fresh(r) && Some(r.View()) == EntryFor(s, path + "/" + index) && r.stat.None? && r.stream == null
    {
      r := FileObjectFor(s, path + "/" + index);
    }

    /** `offsetSet(index, v)` and `offsetUnset(index)` always throw: read-only for an existing entry, missing otherwise. */
    function IndexWriteError(s: FsState, index: string): (e: Error)
      reads this
      ensures e.ReadOnlyIndexedProperty? <==> OffsetExists(s, index)
      ensures e.ReadOnlyIndexedProperty? || e.MissingIndexedProperty?
      ensures e.index == index
    {
      if OffsetExists(s, index) then ReadOnlyIndexedProperty(index) else MissingIndexedProperty(index)
    }
  }

  /**
   * `update(data, flags)` followed by `load()` reads back what was written:
   * `data` itself, or the old bytes followed by `data` when FILE_APPEND is set
   * and the file existed.
   */
  lemma UpdateThenLoad(f: FsObject, table: map<string, Value>, s: FsState, data: string, flags: int)
    requires s.WriteFile(f.path, data, AppendFlag(flags)).1.Some?
    ensures var s1 := PermissionsEffect(table, s.WriteFile(f.path, data, AppendFlag(flags)).0, f.path, Null, Null, Null);
            f.Load(s1, 0, 0) == Some(if AppendFlag(flags) && f.path in s.nodes then s.nodes[f.path].data + data else data)
  {
    var w := s.WriteFile(f.path, data, AppendFlag(flags)).0;
    PermissionsKeepContents(table, w, f.path, Null, Null, Null);
  }

  /**
   * The magic-property members agree: a name `__isset` reports is one `__get`
   * reads and `__set` refuses as read-only, and a name `__get` throws for is
   * missing for `__set` and `__unset` alike. "dirname" is the one name `__get`
   * reads that the other three do not know.
   */
  lemma PropertyMembersAgree(o: FsObject, name: string, s: FsState)
    ensures o.IsSetProperty(name) ==> o.GetProperty(name, s).Ok? && !o.SetPropertyError(name).MissingProperty?
    ensures o.GetProperty(name, s).Err? ==>
              o.SetPropertyError(name) == MissingProperty(name) && o.UnsetPropertyError(name) == MissingProperty(name)
    ensures o.GetProperty(name, s).Ok? && name != "dirname" ==> !o.SetPropertyError(name).MissingProperty?
    ensures !o.IsSetProperty("dirname") && o.GetProperty("dirname", s).Ok?
  {
  }

  /**
   * `equals` as written compares realpaths with `==`, and a realpath that
   * fails is PHP false: two distinct missing paths are then "equal".
   */
  lemma EqualsMissingPaths(a: FsObject, b: FsObject, s: FsState, realpath: Realpath)
    requires ResolvesExisting(s, realpath)
    requires !s.Exists(a.path) && !s.Exists(b.path)
    ensures a.Equals(b, realpath)
    ensures !a.SameEntry(b, realpath)
  {
    assert realpath(a.path).None? && realpath(b.path).None?;
  }

  /** A concrete instance: `File("x")` equals `File("y")` when neither exists. */
  lemma EqualsMissingExample(a: FsObject, b: FsObject, realpath: Realpath)
    requires a.path == "x" && b.path == "y"
    requires ResolvesExisting(FsState(map[], []), realpath)
    ensures a.Equals(b, realpath) && !a.SameEntry(b, realpath)
  {
    EqualsMissingPaths(a, b, FsState(map[], []), realpath);
  }

  /**
   * The intended `equals`: an object equals another exactly when both exist
   * and resolve to one canonical path; it also implies the written test, and
   * the two agree whenever this object exists.
   */
  lemma SameEntrySpec(a: FsObject, b: FsObject, s: FsState, realpath: Realpath)
    requires ResolvesExisting(s, realpath)
    ensures a.SameEntry(b, realpath) <==> s.Exists(a.path) && s.Exists(b.path) && realpath(a.path) == realpath(b.path)
    ensures a.SameEntry(b, realpath) ==> a.Equals(b, realpath)
    ensures s.Exists(a.path) ==> (a.SameEntry(b, realpath) <==> a.Equals(b, realpath))
  {
    assert realpath(a.path).Some? <==> s.Exists(a.path);
    assert realpath(b.path).Some? <==> s.Exists(b.path);
  }

  /** `FS::mkdir(p, mode, recursive)`: a Dir for `p` when it exists already or `mkdir` creates it, null otherwise. */
  method Mkdir(opts: Options, fs: FileSystem, p: Path, mode: Value, recursive: bool) returns (r: FsObject?)
    modifies fs
    ensures (fs.state, r != null) == MkdirEffect(opts.table, old(fs.state), p, mode, recursive)
    ensures r != null ==> fresh(r) && r.kind == DirKind && r.path == RTrimSlash(p) && r.stat.None? && r.stream == null
    ensures old(fs.Valid()) ==> fs.Valid()
  {
    var s := fs.state;
    var table := opts.table;
    assert (opts as object) != (fs as object);
    var ok := s.Exists(p);
    if !ok {
      var arg := IntArg(PermissionFor(table, s, None, mode, "mod", "dir"));
      if arg.Some? {
        ok := fs.Mkdir(p, arg.value, recursive);
      }
    }
    assert (fs.state, ok) == MkdirEffect(table, s, p, mode, recursive);
    if ok {
      r := new FsObject.Dir(p);
    } else {
      r := null;
    }
  }

  /** `FS::file_object_for(p)`: null when nothing exists at `p`, otherwise a Dir for a directory and a File for anything else. */
  method FileObjectFor(s: FsState, p: Path) returns (r: FsObject?)
    ensures r == null <==> !s.Exists(p)
    ensures r != null ==> fresh(r) && Some(r.View()) == EntryFor(s, p) && r.stat.None? && r.stream == null && r.Valid()
  {
    if !s.Exists(p) {
      r := null;
    } else if s.IsDir(p) {
      r := new FsObject.Dir(p);
    } else {
      r := new FsObject.File(p);
    }
  }

  /**
   * `foreach ($this as $obj) $obj->copy_to(d/$obj->name)`: every entry the
   * default walk of `src` yields is copied into directory `d` under its
   * own name.
   */
  method CopyEach(opts: Options, fs: FileSystem, src: Path, d: Path, m: Matcher)
    requires fs.Valid() && src != "" && NoTrailingSlash(src) && NoTrailingSlash(d) && !Comparable(src, d)
    modifies fs
    ensures fs.Valid()
    ensures NamesOk(old(fs.state).Listing(src)) &&
            fs.state == CopyEntries(opts.table, old(fs.state), src, d, old(fs.state).Listing(src), 0, m)
    decreases |Below(fs.state, src)|, 1
  {
    var table := opts.table;
    var s0 := fs.state;
    var it := DefaultIterator(src);
    assert (it as object) != (fs as object) && (it.query as object) != (fs as object);
    assert (it.query as object) != (it as object);
    it.Rewind(s0, m);
    ghost var names := s0.Listing(src);
    assert it.FilterIn(s0, m) == DefaultFilter(s0, src, m);
    CopyWalkStart(table, s0, src, d, it.handle, it.current, it.name, m);
    ghost var goal := CopyEntries(table, s0, src, d, names, 0, m);
    ghost var i: nat := 0;
    while it.IsValid()
      invariant fs.Valid() && it.Valid() && it.dir == src && opts.table == table
      invariant it.query.regexp == DefaultRegexp && !it.query.recursive
      invariant CopyWalk(table, s0, fs.state, src, d, names, i, it.handle, it.current, it.name, m, goal)
      decreases |names| - i
    {
      i := CopyTurn(opts, fs, it, table, s0, src, d, names, i, goal, m);
    }
    CopyWalkEnd(table, s0, fs.state, src, d, names, i, it.handle, it.current, it.name, m, goal);
  }

  /**
   * One turn of the copying foreach: the object the walk stands at copies
   * itself to `d/name`, then `next` moves the walk past it.
   */
  method CopyTurn(opts: Options, fs: FileSystem, it: DirIterator, ghost table: map<string, Value>, ghost s0: FsState,
                  src: Path, d: Path, ghost names: seq<string>, ghost i: nat, ghost goal: FsState, m: Matcher)
    returns (ghost k: nat)
    requires fs.Valid() && it.Valid() && it.dir == src && opts.table == table && it.IsValid()
    requires it.query.regexp == DefaultRegexp && !it.query.recursive
    requires CopyWalk(table, s0, fs.state, src, d, names, i, it.handle, it.current, it.name, m, goal)
    modifies fs, it
    ensures fs.Valid() && it.Valid() && opts.table == table
    ensures it.query.regexp == DefaultRegexp && !it.query.recursive
    ensures i < k <= |names|
    ensures CopyWalk(table, s0, fs.state, src, d, names, k, it.handle, it.current, it.name, m, goal)
    decreases |Below(s0, src)|, 0
  {
    var s := fs.state;
    ghost var h, cur, name := it.handle, it.current, it.name;
    var e := it.current.entry;
    CopyWalkChild(table, s0, s, src, d, names, i, h, cur, name, m, goal);
    var t := d + "/" + Basename(e.path);
    assert (it as object) != (fs as object) && (it.query as object) != (fs as object) && (opts as object) != (fs as object);
    CopyYielded(opts, fs, e, t, m);
    var s1 := fs.state;
    assert (it as object) != (fs as object) && (it.query as object) != (it as object) && (opts as object) != (it as object);
    assert it.handle == h;
    var _ := it.Next(s1, m);
    assert it.FilterIn(s1, m) == DefaultFilter(s1, src, m);
    CopyWalkStep(table, s0, s, src, d, names, i, h, cur, name, m, goal, s1, it.handle, it.current, it.name);
    k := h.value.next;
  }

  /** `obj->copy_to(t)` on an object a walk yields: a File copies itself, a Dir copies its tree. */
  method CopyYielded(opts: Options, fs: FileSystem, e: Entry, t: Path, m: Matcher)
    requires fs.Valid() && e.path in fs.state.nodes && NoTrailingSlash(e.path) && NoTrailingSlash(t) && !Comparable(e.path, t)
    modifies fs
    ensures fs.Valid()
    ensures fs.state == CopyObject(opts.table, old(fs.state), e, t, m)
    decreases |Below(fs.state, e.path)|, 3
  {
    var child := ObjectOf(e);
    assert (child as object) != (fs as object) && (opts as object) != (fs as object);
    if e.kind == DirKind {
      RTrimNoSlash(t);
      var _ := child.DirCopyTo(opts, fs, t, m);
    } else {
      var _ := child.FileCopyTo(fs, t);
    }
  }


  /**
   * `foreach (Dir(p) as obj) rc = obj->rm() && rc`: every entry the default
   * walk of `p` yields removes itself, and the answers are folded into `rc`
   * starting from true (`rm` of a Dir drops it, `clear_dir` returns it).
   */
  method RmEach(fs: FileSystem, p: Path, m: Matcher) returns (rc: bool)
    requires fs.Valid() && fs.state.Exists(p) && NoTrailingSlash(p)
    modifies fs
    ensures fs.Valid()
    ensures p != "" && NamesOk(old(fs.state).Listing(p)) &&
            (fs.state, rc) == RmEntries(old(fs.state), p, old(fs.state).Listing(p), 0, m)
    decreases |Below(fs.state, p)|, 0
  {
    var s0 := fs.state;
    ExistingIsKey(s0, p);
    ListingNamesOk(s0, p);
    var it := DefaultIterator(p);
    assert (it as object) != (fs as object) && (it.query as object) != (fs as object);
    assert (it.query as object) != (it as object);
    it.Rewind(s0, m);
    ghost var names := s0.Listing(p);
    assert it.FilterIn(s0, m) == DefaultFilter(s0, p, m);
    RmWalkStart(s0, p, it.handle, it.current, it.name, m);
    ghost var i: nat := 0;
    rc := true;
    ghost var goal := RmEntries(s0, p, names, 0, m);
    while it.IsValid()
      invariant fs.Valid() && it.Valid() && it.dir == p
      invariant it.query.regexp == DefaultRegexp && !it.query.recursive
      invariant RmWalk(s0, fs.state, p, names, i, it.handle, it.current, it.name, m, rc, goal)
      decreases |names| - i
    {
      var s := fs.state;
      ghost var h, cur, name := it.handle, it.current, it.name;
      var e := it.current.entry;
      RmWalkChild(s0, s, p, names, i, h, cur, name, m, rc, goal);
      assert (it as object) != (fs as object) && (it.query as object) != (fs as object);
      var okc := RmYielded(fs, e, m);
      var s1 := fs.state;
      assert (it as object) != (fs as object) && (it.query as object) != (it as object);
      assert it.handle == h;
      var _ := it.Next(s1, m);
      ghost var h1, cur1, name1 := it.handle, it.current, it.name;
      assert it.FilterIn(s1, m) == DefaultFilter(s1, p, m);
      RmWalkStep(s0, s, p, names, i, h, cur, name, m, rc, goal, s1, okc, h1, cur1, name1);
      i := h.value.next;
      rc := okc && rc;
    }
    RmWalkEnd(s0, fs.state, p, names, i, it.handle, it.current, it.name, m, rc, goal);
  }

  /** `obj->rm()` on an object a walk yields: the object is built from the entry and removes itself. */
  method RmYielded(fs: FileSystem, e: Entry, m: Matcher) returns (ok: bool)
    requires fs.Valid() && e.path in fs.state.nodes && NoTrailingSlash(e.path)
    modifies fs
    ensures fs.Valid()
    ensures (fs.state, ok) == RmObject(old(fs.state), e, m)
    decreases |Below(fs.state, e.path)|, 2
  {
    var child := ObjectOf(e);
    ok := child.Rm(fs, m);
    RmObjectCases(old(fs.state), e, m);
  }

  /** The File or Dir object for a value view whose path has no trailing slash. */
  method ObjectOf(e: Entry) returns (o: FsObject)
    requires NoTrailingSlash(e.path)
    ensures fresh(o) && o.View() == e && o.stat.None? && o.stream == null && o.Valid()
  {
    if e.kind == DirKind {
      o := new FsObject.Dir(e.path);
    } else {
      o := new FsObject.File(e.path);
    }
  }

  /** The FILE_APPEND bit (8) of a `file_put_contents` flags argument. */
  predicate AppendFlag(flags: int)
  {
    (flags / 8) % 2 == 1
  }
}
