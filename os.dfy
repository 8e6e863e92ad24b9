/**
 * The operating-system side of the library, as an abstract filesystem: a map
 * from normalised paths to regular files (their bytes) and directories, plus
 * the creation order of the entries, which is the order `readdir` reports
 * them in. The PHP built-ins the library calls (`file_exists`, `is_dir`,
 * `unlink`, `rmdir`, `rename`, `copy`, `mkdir`, `opendir`/`readdir`,
 * `file_put_contents`, `file_get_contents`, `chmod`, `chown`, `chgrp`,
 * `stat`) are functions on that state.
 */
module Os {
  import opened Core
  import opened Paths

  /** Permission bits, and owner and group as last given to chown/chgrp (Null until then). */
  datatype Attrs = Attrs(mode: int, owner: Value, group: Value)

  datatype Node = Regular(data: string, attrs: Attrs) | Directory(attrs: Attrs)
  {
    /** The same entry with other attributes. */
    function WithAttrs(a: Attrs): (r: Node)
      ensures r.attrs == a && r.Regular? == Regular?
      ensures Regular? ==> r.data == data
    {
      match this
      case Regular(d, _) => Regular(d, a)
      case Directory(_) => Directory(a)
    }
  }

  /** Mode of a file that a write or a copy creates (0644: the process umask is not modelled). */
  const NewFileMode: int := 420

  /** What `stat` reports about an entry. */
  datatype StatInfo = StatInfo(size: nat, isDir: bool, mode: int, owner: Value, group: Value)

  predicate Distinct(xs: seq<Path>)
  {
    forall i, j :: 0 <= i < j < |xs| ==> xs[i] != xs[j]
  }

  /** `xs` without `k`. */
  function Drop(xs: seq<Path>, k: Path): (r: seq<Path>)
    ensures forall x :: x in r <==> x in xs && x != k
    ensures |r| <= |xs|
  {
    if xs == [] then []
    else (if xs[0] == k then [] else [xs[0]]) + Drop(xs[1..], k)
  }

  lemma {:induction false} DropDistinct(xs: seq<Path>, k: Path)
    requires Distinct(xs)
    ensures Distinct(Drop(xs, k))
  {
    if xs != [] {
      DropDistinct(xs[1..], k);
      assert xs[0] !in xs[1..];
      assert xs[0] !in Drop(xs[1..], k);
    }
  }

  /** Names of the entries of `order` whose parent is `d`, in order. */
  function ChildNames(order: seq<Path>, d: Path): (r: seq<string>)
    ensures |r| <= |order|
  {
    if order == [] then []
    else
      (if Parent(order[0]) == Some(d) then [order[0][|d| + 1..]] else []) + ChildNames(order[1..], d)
  }

  /** A child path is its parent, a slash and its name. */
  lemma ChildPath(k: Path, d: Path)
    requires Parent(k) == Some(d)
    ensures k == d + "/" + k[|d| + 1..]
    ensures '/' !in k[|d| + 1..]
    ensures IsBelow(k, d) || k == d + "/"
  {
    assert k[|d|] == '/';
    assert k[..|d|] == d;
    assert k == k[..|d|] + "/" + k[|d| + 1..];
    assert k[..|d| + 1] == d + "/";
  }

  /** The names `ChildNames` lists are those of the child paths, each once when the paths are distinct. */
  lemma {:induction false} ChildNamesSpec(order: seq<Path>, d: Path)
    requires Distinct(order)
    ensures forall n :: n in ChildNames(order, d) <==> d + "/" + n in order && Parent(d + "/" + n) == Some(d)
    ensures forall i, j :: 0 <= i < j < |ChildNames(order, d)| ==> ChildNames(order, d)[i] != ChildNames(order, d)[j]
  {
    if order != [] {
      var k := order[0];
      var rest := ChildNames(order[1..], d);
      assert Distinct(order[1..]);
      ChildNamesSpec(order[1..], d);
      assert ChildNames(order, d) == (if Parent(k) == Some(d) then [k[|d| + 1..]] else []) + rest;
      forall n
        ensures n in ChildNames(order, d) <==> d + "/" + n in order && Parent(d + "/" + n) == Some(d)
      {
        if Parent(k) == Some(d) && n == k[|d| + 1..] {
          ChildPath(k, d);
        }
        if d + "/" + n == k && Parent(k) == Some(d) {
          ChildPath(k, d);
          assert n == k[|d| + 1..];
        }
        assert d + "/" + n in order <==> d + "/" + n == k || d + "/" + n in order[1..];
      }
      if Parent(k) == Some(d) {
        ChildPath(k, d);
        assert k !in order[1..];
        assert k[|d| + 1..] !in rest;
      }
    }
  }

  datatype FsState = FsState(nodes: map<Path, Node>, order: seq<Path>)
  {
    /**
     * The shape every real filesystem has: the listing order holds each entry
     * once, every path is normalised and ends in a real name (not "." or ".."),
     * and every entry sits in a directory.
     */
    ghost predicate Valid()
    {
      (forall i :: 0 <= i < |order| ==> order[i] in nodes) &&
      (forall k :: k in nodes ==> k in order) &&
      Distinct(order) &&
      (forall k :: k in nodes ==> WellFormed(k) && NamesEntry(k) && ParentOk(k))
    }

    /** The directory that must hold `k` exists (or `k` is at the top). */
    predicate ParentOk(k: Path)
    {
      match Parent(k)
      case None => true
      case Some(q) => q in nodes && nodes[q].Directory?
    }

    /** `k` is a path a new entry may be created at. */
    predicate CanCreate(k: Path)
    {
      WellFormed(k) && NamesEntry(k) && ParentOk(k)
    }

    /** The entry a path names; a trailing slash can only name a directory. */
    function Lookup(p: Path): (r: Option<Node>)
      ensures p in nodes ==> r == Some(nodes[p])
      ensures r.Some? && p !in nodes ==> r.value.Directory? && RTrimSlash(p) in nodes
    {
      if p in nodes then Some(nodes[p])
      else
        var k := RTrimSlash(p);
        if k in nodes && nodes[k].Directory? then Some(nodes[k]) else None
    }

    /** The stored key of an existing path. */
    function KeyOf(p: Path): Path
    {
      if p in nodes then p else RTrimSlash(p)
    }

    /** `file_exists`. */
    predicate Exists(p: Path)
    {
      Lookup(p).Some?
    }

    /** `is_dir`. */
    predicate IsDir(p: Path)
    {
      Lookup(p).Some? && Lookup(p).value.Directory?
    }

    /** No entry is held directly by directory `k`. */
    predicate IsEmptyDir(k: Path)
    {
      forall q :: q in nodes ==> Parent(q) != Some(k)
    }

    /** `opendir` then all of `readdir`: ".", ".." and the entries in creation order; None when `p` is no directory. */
    function Opendir(p: Path): (r: Option<seq<string>>)
      ensures r.Some? <==> IsDir(p)
      ensures r.Some? ==> |r.value| >= 2 && r.value[0] == "." && r.value[1] == ".."
    {
      if IsDir(p) then Some([".", ".."] + ChildNames(order, KeyOf(p))) else None
    }

    /** The listing a directory iterator reads: a failed `opendir` reads as empty. */
    function Listing(p: Path): (r: seq<string>)
      ensures !IsDir(p) ==> r == []
      ensures IsDir(p) ==> |r| >= 2 && r[0] == "." && r[1] == ".."
    {
      match Opendir(p)
      case None => []
      case Some(names) => names
    }

    /**
     * `file_get_contents(p, false, null, offset, maxlen)`. A negative maxlen
     * fails. A negative offset counts from the end of the file and fails when
     * it reaches before the start; an offset past the end reads nothing. At
     * most maxlen bytes are read, so a maxlen of 0 reads nothing. A directory
     * reads as the empty string (PHP raises a notice and answers "").
     */
    function ReadFile(p: Path, offset: int, maxlen: int): (r: Option<string>)
      ensures r.Some? <==> 0 <= maxlen && ((p in nodes && nodes[p].Regular? && -|nodes[p].data| <= offset) || IsDir(p))
      ensures r.Some? ==> |r.value| <= maxlen
      ensures IsDir(p) && 0 <= maxlen ==> r == Some("")
      ensures p in nodes && nodes[p].Regular? && 0 <= maxlen && 0 <= offset <= |nodes[p].data| ==>
                r == Some(nodes[p].data[offset..if offset + maxlen <= |nodes[p].data| then offset + maxlen else |nodes[p].data|])
      ensures p in nodes && nodes[p].Regular? && 0 <= maxlen && offset > |nodes[p].data| ==> r == Some("")
      ensures p in nodes && nodes[p].Regular? && 0 <= maxlen && -|nodes[p].data| <= offset < 0 ==>
                r == Some(nodes[p].data[|nodes[p].data| + offset..if maxlen < -offset then |nodes[p].data| + offset + maxlen else |nodes[p].data|])
    {
      if maxlen < 0 then None
      else if p in nodes && nodes[p].Regular? then
        var d := nodes[p].data;
        if offset < -|d| then None
        else
          var from := if offset < 0 then |d| + offset else if offset <= |d| then offset else |d|;
          var to := if from + maxlen > |d| then |d| else from + maxlen;
          Some(d[from..to])
      else if IsDir(p) then Some("")
      else None
    }

    /** `stat`: size (0 for a directory), kind, mode and ownership, or None for a missing path. */
    function StatOf(p: Path): (r: Option<StatInfo>)
      ensures r.Some? <==> Exists(p)
      ensures r.Some? ==> r.value.isDir == IsDir(p) && r.value.mode == Lookup(p).value.attrs.mode
      ensures r.Some? && !r.value.isDir ==> r.value.size == |Lookup(p).value.data|
    {
      match Lookup(p)
      case None => None
      case Some(Regular(d, a)) => Some(StatInfo(|d|, false, a.mode, a.owner, a.group))
      case Some(Directory(a)) => Some(StatInfo(0, true, a.mode, a.owner, a.group))
    }

    /** Stores `n` at `k`; a new key goes to the end of the listing order. */
    function Insert(k: Path, n: Node): (r: FsState)
      ensures r.nodes == nodes[k := n]
    {
      FsState(nodes[k := n], if k in nodes then order else order + [k])
    }

    /** Drops the entry at `k`. */
    function Remove(k: Path): (r: FsState)
      ensures r.nodes == nodes - {k}
    {
      FsState(nodes - {k}, Drop(order, k))
    }

    /** `unlink`: removes a regular file. */
    function Unlink(p: Path): (r: (FsState, bool))
      ensures r.1 <==> p in nodes && nodes[p].Regular?
      ensures r.1 ==> r.0.nodes == nodes - {p}
      ensures !r.1 ==> r.0 == this
    {
      if p in nodes && nodes[p].Regular? then (Remove(p), true) else (this, false)
    }

    /** `rmdir`: removes an empty directory. */
    function Rmdir(p: Path): (r: (FsState, bool))
      ensures r.1 <==> IsDir(p) && IsEmptyDir(KeyOf(p))
      ensures r.1 ==> r.0.nodes == nodes - {KeyOf(p)}
      ensures !r.1 ==> r.0 == this
    {
      if IsDir(p) && IsEmptyDir(KeyOf(p)) then (Remove(KeyOf(p)), true) else (this, false)
    }

    /** `rename` of a regular file; renaming a file onto itself succeeds and changes nothing. */
    function Rename(a: Path, b: Path): (r: (FsState, bool))
      ensures r.1 <==> (a in nodes && nodes[a].Regular? &&
                       (a == b || (CanCreate(b) && !(b in nodes && nodes[b].Directory?))))
      ensures r.1 && a != b ==> r.0.nodes == (nodes - {a})[b := nodes[a]]
      ensures !r.1 || a == b ==> r.0 == this
    {
      if a in nodes && nodes[a].Regular? && a == b then (this, true)
      else if a in nodes && nodes[a].Regular? && CanCreate(b) && !(b in nodes && nodes[b].Directory?) then
        (Remove(a).Insert(b, nodes[a]), true)
      else (this, false)
    }

    /** `copy` of a regular file; an existing target keeps its attributes, a new one gets NewFileMode. */
    function Copy(a: Path, b: Path): (r: (FsState, bool))
      ensures r.1 <==> (a in nodes && nodes[a].Regular? && a != b && CanCreate(b) &&
                       !(b in nodes && nodes[b].Directory?))
      ensures r.1 ==> r.0.nodes.Keys == nodes.Keys + {b} && r.0.nodes[b].Regular? &&
                      r.0.nodes[b].data == nodes[a].data &&
                      forall k :: k in nodes && k != b ==> r.0.nodes[k] == nodes[k]
      ensures !r.1 ==> r.0 == this
    {
      if a in nodes && nodes[a].Regular? && a != b && CanCreate(b) && !(b in nodes && nodes[b].Directory?) then
        var at := if b in nodes then nodes[b].attrs else Attrs(NewFileMode, Null, Null);
        (Insert(b, Regular(nodes[a].data, at)), true)
      else (this, false)
    }

    /**
     * `file_put_contents(p, data)`, appending when `append`: writes an existing
     * regular file or creates a new one, and reports the number of bytes written.
     */
    function WriteFile(p: Path, data: string, append: bool): (r: (FsState, Option<nat>))
      ensures r.1.Some? <==> (p in nodes && nodes[p].Regular?) || (p !in nodes && CanCreate(p))
      ensures r.1.Some? ==> r.1.value == |data| && p in r.0.nodes && r.0.nodes[p].Regular? &&
                            r.0.nodes.Keys == nodes.Keys + {p} &&
                            (forall k :: k in nodes && k != p ==> r.0.nodes[k] == nodes[k]) &&
                            r.0.nodes[p].data == (if append && p in nodes then nodes[p].data + data else data)
      ensures r.1.None? ==> r.0 == this
    {
      if p in nodes && nodes[p].Regular? then
        var old_ := nodes[p];
        (Insert(p, Regular(if append then old_.data + data else data, old_.attrs)), Some(|data|))
      else if p !in nodes && CanCreate(p) then
        (Insert(p, Regular(data, Attrs(NewFileMode, Null, Null))), Some(|data|))
      else (this, None)
    }

    /**
     * `mkdir(p, mode, true)` below an existing directory chain: every missing
     * directory on the way to `k` is created with `mode`, outermost first.
     * None when some prefix of `k` is a regular file or not a path an entry can have.
     */
    function MakeDirs(k: Path, mode: int): (r: Option<FsState>)
      ensures r.Some? ==> k in r.value.nodes && r.value.nodes[k].Directory?
      ensures r.Some? ==> nodes.Keys <= r.value.nodes.Keys &&
                          forall q :: q in nodes ==> r.value.nodes[q] == nodes[q]
      ensures r.Some? ==> forall q :: q in r.value.nodes && q !in nodes ==> AtOrBelow(k, q) && r.value.nodes[q] == Directory(Attrs(mode, Null, Null))
      decreases |k|
    {
      if !WellFormed(k) || !NamesEntry(k) then None
      else if k in nodes then (if nodes[k].Directory? then Some(this) else None)
      else
        match Parent(k)
        case None => Some(Insert(k, Directory(Attrs(mode, Null, Null))))
        case Some(q) =>
          match MakeDirs(q, mode)
          case None => None
          case Some(s1) =>
            ParentIsContainer(k);
            Some(s1.Insert(k, Directory(Attrs(mode, Null, Null))))
    }

    /** `mkdir(p, mode, recursive)`: fails on an existing path; without `recursive` the parent must exist. */
    function Mkdir(p: Path, mode: int, recursive: bool): (r: (FsState, bool))
      ensures r.1 ==> !Exists(p) && r.0.IsDir(p)
      ensures Exists(p) ==> !r.1
      ensures !r.1 ==> r.0 == this
      ensures !recursive ==> (r.1 <==> !Exists(p) && RTrimSlash(p) !in nodes && CanCreate(RTrimSlash(p)))
      ensures r.1 ==> nodes.Keys <= r.0.nodes.Keys && (forall q :: q in nodes ==> r.0.nodes[q] == nodes[q])
      ensures r.1 ==> forall q :: q in r.0.nodes && q !in nodes ==> AtOrBelow(RTrimSlash(p), q)
    {
      var k := RTrimSlash(p);
      if Exists(p) || k in nodes then (this, false)
      else if !recursive then
        (if CanCreate(k) then (Insert(k, Directory(Attrs(mode, Null, Null))), true) else (this, false))
      else
        match MakeDirs(k, mode)
        case None => (this, false)
        case Some(s1) => (s1, true)
    }

    /** Replaces the attributes of an existing entry, reporting whether it exists. */
    function SetAttrs(p: Path, f: Attrs -> Attrs): (r: (FsState, bool))
      ensures r.1 <==> Exists(p)
      ensures r.1 ==> r.0.nodes == nodes[KeyOf(p) := nodes[KeyOf(p)].WithAttrs(f(nodes[KeyOf(p)].attrs))]
      ensures !r.1 ==> r.0 == this
    {
      if Exists(p) then
        var k := KeyOf(p);
        (Insert(k, nodes[k].WithAttrs(f(nodes[k].attrs))), true)
      else (this, false)
    }

    /** `chmod`. */
    function Chmod(p: Path, mode: int): (r: (FsState, bool))
      ensures r.1 <==> Exists(p)
      ensures r.1 ==> r.0.Lookup(p).Some? && r.0.Lookup(p).value.attrs.mode == mode
      ensures !r.1 ==> r.0 == this
    {
      SetAttrs(p, (a: Attrs) => a.(mode := mode))
    }

    /** `chown`. */
    function Chown(p: Path, owner: Value): (r: (FsState, bool))
      ensures r.1 <==> Exists(p)
      ensures r.1 ==> r.0.Lookup(p).Some? && r.0.Lookup(p).value.attrs.owner == owner
      ensures !r.1 ==> r.0 == this
    {
      SetAttrs(p, (a: Attrs) => a.(owner := owner))
    }

    /** `chgrp`. */
    function Chgrp(p: Path, group: Value): (r: (FsState, bool))
      ensures r.1 <==> Exists(p)
      ensures r.1 ==> r.0.Lookup(p).Some? && r.0.Lookup(p).value.attrs.group == group
      ensures !r.1 ==> r.0 == this
    {
      SetAttrs(p, (a: Attrs) => a.(group := group))
    }
  }

  /** Storing an entry at a creatable path keeps the filesystem well-formed, as long as no directory becomes a file. */
  lemma InsertValid(s: FsState, k: Path, n: Node)
    requires s.Valid() && s.CanCreate(k)
    requires k in s.nodes ==> s.nodes[k].Directory? == n.Directory?
    ensures s.Insert(k, n).Valid()
  {
    var t := s.Insert(k, n);
    if k !in s.nodes {
      assert k !in s.order;
      assert t.order == s.order + [k];
    }
    forall q | q in t.nodes
      ensures t.ParentOk(q)
    {
      if q != k {
        assert s.ParentOk(q);
      }
    }
  }

  /** Removing an entry that holds no other keeps the filesystem well-formed. */
  lemma RemoveValid(s: FsState, k: Path)
    requires s.Valid() && s.IsEmptyDir(k)
    ensures s.Remove(k).Valid()
  {
    DropDistinct(s.order, k);
    RemoveKeepsOrder(s, k);
    RemoveKeepsParents(s, k);
  }

  /** After a removal the listing order and the entries still name each other. */
  lemma RemoveKeepsOrder(s: FsState, k: Path)
    requires s.Valid()
    ensures forall i :: 0 <= i < |s.Remove(k).order| ==> s.Remove(k).order[i] in s.Remove(k).nodes
    ensures forall q :: q in s.Remove(k).nodes ==> q in s.Remove(k).order
  {
    var t := s.Remove(k);
    forall i | 0 <= i < |t.order|
      ensures t.order[i] in t.nodes
    {
      assert t.order[i] in s.order && t.order[i] != k;
    }
    forall q | q in t.nodes
      ensures q in t.order
    {
      assert q in s.order;
    }
  }

  /** After removing an entry that holds no other, every remaining entry still sits in a directory. */
  lemma RemoveKeepsParents(s: FsState, k: Path)
    requires s.IsEmptyDir(k)
    requires forall q :: q in s.nodes ==> WellFormed(q) && NamesEntry(q) && s.ParentOk(q)
    ensures forall q :: q in s.Remove(k).nodes ==> WellFormed(q) && NamesEntry(q) && s.Remove(k).ParentOk(q)
  {
    var t := s.Remove(k);
    forall q | q in t.nodes
      ensures WellFormed(q) && NamesEntry(q) && t.ParentOk(q)
    {
      assert q in s.nodes && s.ParentOk(q);
      if Parent(q).Some? {
        assert Parent(q) != Some(k);
        assert Parent(q).value in t.nodes;
      }
    }
  }

  /** A regular file holds no entries. */
  lemma FileIsLeaf(s: FsState, k: Path)
    requires s.Valid() && k in s.nodes && s.nodes[k].Regular?
    ensures s.IsEmptyDir(k)
  {
    forall q | q in s.nodes
      ensures Parent(q) != Some(k)
    {
      assert s.ParentOk(q);
    }
  }

  lemma UnlinkValid(s: FsState, p: Path)
    ensures s.Valid() ==> s.Unlink(p).0.Valid()
  {
    if s.Valid() && s.Unlink(p).1 {
      FileIsLeaf(s, p);
      RemoveValid(s, p);
    }
  }

  lemma RmdirValid(s: FsState, p: Path)
    ensures s.Valid() ==> s.Rmdir(p).0.Valid()
  {
    if s.Valid() && s.Rmdir(p).1 {
      RemoveValid(s, s.KeyOf(p));
    }
  }

  lemma RenameValid(s: FsState, a: Path, b: Path)
    ensures s.Valid() ==> s.Rename(a, b).0.Valid()
  {
    if s.Valid() && s.Rename(a, b).1 && a != b {
      FileIsLeaf(s, a);
      RemoveValid(s, a);
      var t := s.Remove(a);
      assert t.CanCreate(b);
      InsertValid(t, b, s.nodes[a]);
    }
  }

  lemma CopyValid(s: FsState, a: Path, b: Path)
    ensures s.Valid() ==> s.Copy(a, b).0.Valid()
  {
    if s.Valid() && s.Copy(a, b).1 {
      var at := if b in s.nodes then s.nodes[b].attrs else Attrs(NewFileMode, Null, Null);
      InsertValid(s, b, Regular(s.nodes[a].data, at));
    }
  }

  lemma WriteFileValid(s: FsState, p: Path, data: string, append: bool)
    ensures s.Valid() ==> s.WriteFile(p, data, append).0.Valid()
  {
    if s.Valid() && s.WriteFile(p, data, append).1.Some? {
      if p in s.nodes {
        var o := s.nodes[p];
        InsertValid(s, p, Regular(if append then o.data + data else data, o.attrs));
      } else {
        InsertValid(s, p, Regular(data, Attrs(NewFileMode, Null, Null)));
      }
    }
  }

  lemma {:induction false} MakeDirsValid(s: FsState, k: Path, mode: int)
    requires s.Valid()
    ensures s.MakeDirs(k, mode).Some? ==> s.MakeDirs(k, mode).value.Valid()
    decreases |k|
  {
    if s.MakeDirs(k, mode).Some? && WellFormed(k) && NamesEntry(k) && k !in s.nodes {
      var d := Directory(Attrs(mode, Null, Null));
      match Parent(k)
      case None =>
        InsertValid(s, k, d);
      case Some(q) =>
        MakeDirsValid(s, q, mode);
        var s1 := s.MakeDirs(q, mode).value;
        ParentIsContainer(k);
        InsertValid(s1, k, d);
    }
  }

  lemma MkdirValid(s: FsState, p: Path, mode: int, recursive: bool)
    ensures s.Valid() ==> s.Mkdir(p, mode, recursive).0.Valid()
  {
    var k := RTrimSlash(p);
    if s.Valid() && s.Mkdir(p, mode, recursive).1 {
      if recursive {
        MakeDirsValid(s, k, mode);
      } else {
        InsertValid(s, k, Directory(Attrs(mode, Null, Null)));
      }
    }
  }

  lemma SetAttrsValid(s: FsState, p: Path, f: Attrs -> Attrs)
    ensures s.Valid() ==> s.SetAttrs(p, f).0.Valid()
  {
    if s.Valid() && s.SetAttrs(p, f).1 {
      var k := s.KeyOf(p);
      assert k in s.nodes;
      InsertValid(s, k, s.nodes[k].WithAttrs(f(s.nodes[k].attrs)));
    }
  }

  /**
   * In a well-formed filesystem the listing of a directory names each of its
   * entries exactly once, after "." and "..".
   */
  lemma ListingSpec(s: FsState, p: Path)
    requires s.Valid() && s.IsDir(p)
    ensures s.KeyOf(p) in s.nodes && s.nodes[s.KeyOf(p)].Directory?
    ensures forall n :: n in s.Listing(p)[2..] <==> IsEntryName(n) && s.KeyOf(p) + "/" + n in s.nodes
    ensures forall i, j :: 2 <= i < j < |s.Listing(p)| ==> s.Listing(p)[i] != s.Listing(p)[j]
  {
    var d := s.KeyOf(p);
    ChildNamesSpec(s.order, d);
    var names := ChildNames(s.order, d);
    assert s.Listing(p)[2..] == names;
    forall n
      ensures n in names <==> IsEntryName(n) && d + "/" + n in s.nodes
    {
      if IsEntryName(n) && d + "/" + n in s.nodes {
        ChildParent(d, n);
      }
      if n in names {
        ChildPath(d + "/" + n, d);
        assert (d + "/" + n)[|d| + 1..] == n;
        assert WellFormed(d + "/" + n) && NamesEntry(d + "/" + n);
        assert LastSlash(d + "/" + n) == |d|;
      }
    }
  }

  /** Every entry strictly inside directory `p` lies at or below one of `p`'s own entries. */
  lemma {:induction false} ChildOnTheWay(s: FsState, k: Path, p: Path) returns (c: Path)
    requires s.Valid() && k in s.nodes && p != "" && IsBelow(k, p)
    ensures c in s.nodes && Parent(c) == Some(p) && AtOrBelow(k, c)
    ensures p in s.nodes && s.nodes[p].Directory?
    decreases |k|
  {
    ParentOfDescendant(k, p);
    var q := Parent(k).value;
    ParentIsContainer(k);
    assert s.ParentOk(k);
    if q == p {
      c := k;
    } else {
      c := ChildOnTheWay(s, q, p);
      if q != c {
        BelowTransitive(k, q, c);
      }
    }
    assert s.ParentOk(c);
  }

  /**
   * The filesystem the library runs against. Every primitive replaces the
   * state by the function of the same name and keeps it well-formed.
   */
  class FileSystem {
    var state: FsState

    ghost predicate Valid()
      reads this
    {
      state.Valid()
    }

    constructor (init: FsState)
      ensures state == init
    {
      state := init;
    }

    method Unlink(p: Path) returns (ok: bool)
      modifies this
      ensures (state, ok) == old(state).Unlink(p)
      ensures old(Valid()) ==> Valid()
    {
      UnlinkValid(state, p);
      state, ok := state.Unlink(p).0, state.Unlink(p).1;
    }

    method Rmdir(p: Path) returns (ok: bool)
      modifies this
      ensures (state, ok) == old(state).Rmdir(p)
      ensures old(Valid()) ==> Valid()
    {
      RmdirValid(state, p);
      state, ok := state.Rmdir(p).0, state.Rmdir(p).1;
    }

    method Rename(a: Path, b: Path) returns (ok: bool)
      modifies this
      ensures (state, ok) == old(state).Rename(a, b)
      ensures old(Valid()) ==> Valid()
    {
      RenameValid(state, a, b);
      state, ok := state.Rename(a, b).0, state.Rename(a, b).1;
    }

    method Copy(a: Path, b: Path) returns (ok: bool)
      modifies this
      ensures (state, ok) == old(state).Copy(a, b)
      ensures old(Valid()) ==> Valid()
    {
      CopyValid(state, a, b);
      state, ok := state.Copy(a, b).0, state.Copy(a, b).1;
    }

    method WriteFile(p: Path, data: string, append: bool) returns (written: Option<nat>)
      modifies this
      ensures (state, written) == old(state).WriteFile(p, data, append)
      ensures old(Valid()) ==> Valid()
    {
      WriteFileValid(state, p, data, append);
      state, written := state.WriteFile(p, data, append).0, state.WriteFile(p, data, append).1;
    }

    method Mkdir(p: Path, mode: int, recursive: bool) returns (ok: bool)
      modifies this
      ensures (state, ok) == old(state).Mkdir(p, mode, recursive)
      ensures old(Valid()) ==> Valid()
    {
      MkdirValid(state, p, mode, recursive);
      state, ok := state.Mkdir(p, mode, recursive).0, state.Mkdir(p, mode, recursive).1;
    }

    method Chmod(p: Path, mode: int) returns (ok: bool)
      modifies this
      ensures (state, ok) == old(state).Chmod(p, mode)
      ensures old(Valid()) ==> Valid()
    {
      SetAttrsValid(state, p, (a: Attrs) => a.(mode := mode));
      state, ok := state.Chmod(p, mode).0, state.Chmod(p, mode).1;
    }

    method Chown(p: Path, owner: Value) returns (ok: bool)
      modifies this
      ensures (state, ok) == old(state).Chown(p, owner)
      ensures old(Valid()) ==> Valid()
    {
      SetAttrsValid(state, p, (a: Attrs) => a.(owner := owner));
      state, ok := state.Chown(p, owner).0, state.Chown(p, owner).1;
    }

    method Chgrp(p: Path, group: Value) returns (ok: bool)
      modifies this
      ensures (state, ok) == old(state).Chgrp(p, group)
      ensures old(Valid()) ==> Valid()
    {
      SetAttrsValid(state, p, (a: Attrs) => a.(group := group));
      state, ok := state.Chgrp(p, group).0, state.Chgrp(p, group).1;
    }
  }
}
