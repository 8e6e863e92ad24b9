/**
 * The static facade FS: the operations that take a path, build the File or
 * Dir object for it with `file_object_for` and hand the work to that object.
 * `FS::exists` and `FS::is_dir` are FsState's Exists and IsDir, and
 * `FS::mkdir` and `FS::file_object_for` live beside the objects they build.
 */
module Fs {
  import opened Core
  import opened Paths
  import opened Os
  import opened FsOptions
  import opened Queries
  import opened DirIterators
  import opened Trees
  import opened FsObjects

  /** A directory `p` names is stored under `rtrim(p, '/')`. */
  lemma DirKey(s: FsState, p: Path)
    requires s.Valid() && s.IsDir(p)
    ensures RTrimSlash(p) in s.nodes && s.nodes[RTrimSlash(p)].Directory? && RTrimSlash(p) != ""
    ensures s.Exists(RTrimSlash(p))
  {
    if p in s.nodes {
      assert WellFormed(p);
      RTrimNoSlash(p);
    }
  }

  /** An existing path that is not a directory is a stored regular file, and it is its own trimmed form. */
  lemma FileKey(s: FsState, p: Path)
    requires s.Valid() && s.Exists(p) && !s.IsDir(p)
    ensures p in s.nodes && s.nodes[p].Regular? && p != "" && RTrimSlash(p) == p
  {
    assert WellFormed(p);
    RTrimNoSlash(p);
  }

  /**
   * `FS::rm(p)`: false when nothing exists at `p`; a directory is removed
   * with its tree by its Dir's `rm` (which answers the object, truthy);
   * anything else is `unlink`ed.
   */
  function RmEffect(s: FsState, p: Path, m: Matcher): (r: (FsState, bool))
    requires s.Valid()
    ensures r.0.Valid()
    ensures !s.Exists(p) ==> r == (s, false)
    ensures r.0.nodes.Keys <= s.nodes.Keys
  {
    if !s.Exists(p) then (s, false)
    else if s.IsDir(p) then (RmTree(s, RTrimSlash(p), m), true)
    else (UnlinkValid(s, p); s.Unlink(p))
  }

  method Rm(fs: FileSystem, p: Path, m: Matcher) returns (ok: bool)
    requires fs.Valid()
    modifies fs
    ensures fs.Valid()
    ensures (fs.state, ok) == RmEffect(old(fs.state), p, m)
  {
    var obj := FileObjectFor(fs.state, p);
    if obj == null {
      return false;
    }
    assert (obj as object) != (fs as object);
    ok := obj.Rm(fs, m);
  }

  /**
   * With a regex engine that matches every child path, `FS::rm` of an
   * existing path succeeds and removes exactly that entry and everything
   * inside it.
   */
  lemma RmRemovesSubtree(s: FsState, p: Path, m: Matcher)
    requires s.Valid() && s.Exists(p) && DefaultMatchesChildren(m)
    ensures RmEffect(s, p, m).1
    ensures forall k :: k in RmEffect(s, p, m).0.nodes <==> k in s.nodes && !AtOrBelow(k, RTrimSlash(p))
  {
    if s.IsDir(p) {
      DirKey(s, p);
      RmTreeRemoves(s, RTrimSlash(p), m);
    } else {
      FileKey(s, p);
      forall k | k in s.nodes
        ensures !IsBelow(k, p)
      {
        NothingBelowFile(s, p, k);
      }
    }
  }

  /**
   * `FS::clear_dir(p)`: false when `p` is not a directory; otherwise every
   * entry the default walk of `Dir(p)` yields removes itself, and the
   * answer is the conjunction of their `rm` results.
   */
  function ClearDirEffect(s: FsState, p: Path, m: Matcher): (r: (FsState, bool))
    requires s.Valid()
    ensures r.0.Valid()
    ensures !s.IsDir(p) ==> r == (s, false)
    ensures s.IsDir(p) ==> RTrimSlash(p) in r.0.nodes && r.0.nodes[RTrimSlash(p)] == s.nodes[RTrimSlash(p)]
  {
    if !s.IsDir(p) then (s, false)
    else
      var d := RTrimSlash(p);
      DirKey(s, p);
      ListingNamesOk(s, d);
      RmEntries(s, d, s.Listing(d), 0, m)
  }

  method ClearDir(fs: FileSystem, p: Path, m: Matcher) returns (rc: bool)
    requires fs.Valid()
    modifies fs
    ensures fs.Valid()
    ensures (fs.state, rc) == ClearDirEffect(old(fs.state), p, m)
  {
    if !fs.state.IsDir(p) {
      return false;
    }
    var dir := new FsObject.Dir(p);
    DirKey(fs.state, p);
    rc := RmEach(fs, dir.path, m);
  }

  /**
   * With a regex engine that matches every child path, `FS::clear_dir` of a
   * directory succeeds and removes exactly what lies inside it, keeping the
   * directory itself.
   */
  lemma ClearDirEmpties(s: FsState, p: Path, m: Matcher)
    requires s.Valid() && s.IsDir(p) && DefaultMatchesChildren(m)
    ensures ClearDirEffect(s, p, m).1
    ensures forall k :: k in ClearDirEffect(s, p, m).0.nodes <==> k in s.nodes && !IsBelow(k, RTrimSlash(p))
  {
    DirKey(s, p);
    EntriesEmptied(s, RTrimSlash(p), m);
  }

  /** The foreach of `clear_dir` over a stored directory `d` removes exactly what lies inside `d`. */
  lemma EntriesEmptied(s: FsState, d: Path, m: Matcher)
    requires s.Valid() && d in s.nodes && s.nodes[d].Directory? && d != "" && NoTrailingSlash(d)
    requires DefaultMatchesChildren(m)
    ensures NamesOk(s.Listing(d)) && RmEntries(s, d, s.Listing(d), 0, m).1
    ensures forall k :: k in RmEntries(s, d, s.Listing(d), 0, m).0.nodes <==> k in s.nodes && !IsBelow(k, d)
  {
    ListingNamesOk(s, d);
    ListingEntriesExist(s, d);
    ListingDistinct(s, d);
    ListingCovers(s, d);
    var names := s.Listing(d);
    RmEntriesRemoves(s, d, names, 0, m);
    UnderListedIsInside(s.nodes.Keys, RmEntries(s, d, names, 0, m).0.nodes.Keys, d, names);
  }

  /**
   * `FS::mv(from, to)`: null (false) when nothing exists at `from`;
   * otherwise the object for `from` moves itself. A fresh File holds no
   * stream, so its move is the `rename` to the fixed destination.
   */
  method Mv(opts: Options, fs: FileSystem, from: Path, to: Path, m: Matcher) returns (r: FsObject?)
    requires fs.Valid()
    requires fs.state.IsDir(from) ==> !Comparable(RTrimSlash(from), RTrimSlash(to))
    modifies fs
    ensures fs.Valid()
    ensures !old(fs.state).Exists(from) ==> r == null && fs.state == old(fs.state)
    ensures old(fs.state).IsDir(from) ==>
              r != null && fresh(r) && r.kind == DirKind && r.path == RTrimSlash(to) &&
              fs.state == MoveTree(opts.table, old(fs.state), RTrimSlash(from), to, m)
    ensures old(fs.state).Exists(from) && !old(fs.state).IsDir(from) ==>
              var d := FixDestination(old(fs.state), from, to);
              (fs.state, r != null) == old(fs.state).Rename(from, d) &&
              (r != null ==> fresh(r) && r.kind == FileKind && r.path == d)
  {
    var obj := FileObjectFor(fs.state, from);
    if obj == null {
      return null;
    }
    assert (obj as object) != (fs as object) && (opts as object) != (fs as object);
    if obj.kind == DirKind {
      r := obj.DirMoveTo(opts, fs, to, m);
    } else {
      r := obj.FileMoveTo(fs, to);
    }
  }

  /**
   * `FS::cp(from, to)`: null (false) when nothing exists at `from`;
   * otherwise the object for `from` copies itself: a directory tree by its
   * Dir's `copy_to`, anything else by `copy` to the fixed destination.
   */
  method Cp(opts: Options, fs: FileSystem, from: Path, to: Path, m: Matcher) returns (r: FsObject?)
    requires fs.Valid()
    requires fs.state.IsDir(from) ==> !Comparable(RTrimSlash(from), RTrimSlash(to))
    modifies fs
    ensures fs.Valid()
    ensures !old(fs.state).Exists(from) ==> r == null && fs.state == old(fs.state)
    ensures old(fs.state).IsDir(from) ==>
              r != null && fresh(r) && r.kind == DirKind && r.path == RTrimSlash(to) &&
              fs.state == CopyTree(opts.table, old(fs.state), RTrimSlash(from), to, m)
    ensures old(fs.state).Exists(from) && !old(fs.state).IsDir(from) ==>
              var d := FixDestination(old(fs.state), from, to);
              (fs.state, r != null) == old(fs.state).Copy(from, d) &&
              (r != null ==> fresh(r) && r.kind == FileKind && r.path == d)
  {
    var obj := FileObjectFor(fs.state, from);
    if obj == null {
      return null;
    }
    assert (obj as object) != (fs as object) && (opts as object) != (fs as object);
    if obj.kind == DirKind {
      r := obj.DirCopyTo(opts, fs, to, m);
    } else {
      r := obj.FileCopyTo(fs, to);
    }
  }

  /** `FS::make_nested_dir(p, mode)`: `FS::mkdir(p, mode, true)`. */
  method MakeNestedDir(opts: Options, fs: FileSystem, p: Path, mode: Value) returns (r: FsObject?)
    modifies fs
    ensures (fs.state, r != null) == MkdirEffect(opts.table, old(fs.state), p, mode, true)
    ensures r != null ==> fresh(r) && r.kind == DirKind && r.path == RTrimSlash(p)
    ensures r != null ==> fs.state.IsDir(p) || old(fs.state).Exists(p)
    ensures old(fs.Valid()) ==> fs.Valid()
  {
    r := Mkdir(opts, fs, p, mode, true);
  }
}
