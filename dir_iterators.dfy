/**
 * FS\DirIterator: a cursor over one directory listing. `skip_to_next` reads
 * names until one is neither "." nor ".." nor forbidden by the query, then
 * builds the object for `dir/name`; at the end of the listing the handle is
 * closed and `current` becomes null. The listing is the one `opendir` saw
 * (Os.FsState.Listing), and the filter is evaluated against the state given
 * to each call.
 */
module DirIterators {
  import opened Core
  import opened Paths
  import opened Os
  import opened Queries

  datatype Kind = FileKind | DirKind

  /** The value view of a File or Dir object: its class and its stored path. */
  datatype Entry = Entry(kind: Kind, path: Path)

  /** `FS::file_object_for(p)`: nothing for a missing path, a Dir (slashes trimmed) for a directory, a File otherwise. */
  function EntryFor(s: FsState, p: Path): (r: Option<Entry>)
    ensures r.None? <==> !s.Exists(p)
    ensures r.Some? ==> (r.value.kind == DirKind <==> s.IsDir(p))
    ensures r.Some? && r.value.kind == FileKind ==> r.value.path == p
    ensures r.Some? && r.value.kind == DirKind ==> r.value.path == RTrimSlash(p)
  {
    if !s.Exists(p) then None
    else if s.IsDir(p) then Some(Entry(DirKind, RTrimSlash(p)))
    else Some(Entry(FileKind, p))
  }

  lemma {:induction false} RTrimSlashIdempotent(p: string)
    ensures RTrimSlash(RTrimSlash(p)) == RTrimSlash(p)
  {
    var r := RTrimSlash(p);
    assert r == [] || r[|r| - 1] != '/';
  }

  /**
   * The object built for a path names the same entry as the path, and
   * building the object again from its own path gives the same object.
   */
  lemma EntryForStable(s: FsState, p: Path)
    requires s.Valid() && s.Exists(p)
    ensures EntryFor(s, p).Some?
    ensures s.Lookup(EntryFor(s, p).value.path) == s.Lookup(p)
    ensures EntryFor(s, EntryFor(s, p).value.path) == EntryFor(s, p)
  {
    var e := EntryFor(s, p).value;
    RTrimSlashIdempotent(p);
    if p in s.nodes {
      assert WellFormed(p);
      assert RTrimSlash(p) == p;
    }
    assert e.path in s.nodes;
  }

  /** The query and the state a walk filters with: the loop test of `skip_to_next`. */
  datatype Filter = Filter(s: FsState, dir: Path, recursive: bool, regexp: string, m: Matcher)
  {
    /** The do-while goes on past `name`: it is ".", ".." or its path is forbidden. */
    predicate Skips(name: string)
    {
      name == "." || name == ".." || !Admits(s, recursive, regexp, dir + "/" + name, m)
    }

    /** Where the do-while stops: the first name at or after `from` that is not skipped, or the end. */
    function NextIndex(names: seq<string>, from: nat): (j: nat)
      requires from <= |names|
      ensures from <= j <= |names|
      ensures forall k :: from <= k < j ==> Skips(names[k])
      ensures j < |names| ==> !Skips(names[j])
      decreases |names| - from
    {
      if from == |names| || !Skips(names[from]) then from else NextIndex(names, from + 1)
    }

    /** The names of `names[from..]` a walk yields, in order. */
    function Kept(names: seq<string>, from: nat): (r: seq<string>)
      requires from <= |names|
      ensures |r| <= |names| - from
      decreases |names| - from
    {
      if from == |names| then []
      else (if Skips(names[from]) then [] else [names[from]]) + Kept(names, from + 1)
    }
  }

  /** One stop of the do-while takes the head of the kept names and leaves the rest. */
  lemma {:induction false} KeptStep(f: Filter, names: seq<string>, from: nat)
    requires from <= |names|
    ensures var j := f.NextIndex(names, from);
            f.Kept(names, from) == if j == |names| then [] else [names[j]] + f.Kept(names, j + 1)
    decreases |names| - from
  {
    if from < |names| && f.Skips(names[from]) {
      KeptStep(f, names, from + 1);
    }
  }

  /** The kept names are exactly the listed names that are not skipped, in listing order. */
  lemma {:induction false} KeptSpec(f: Filter, names: seq<string>, from: nat)
    requires from <= |names|
    ensures forall n :: n in f.Kept(names, from) <==> exists k :: from <= k < |names| && names[k] == n && !f.Skips(n)
    ensures forall n :: n in f.Kept(names, from) ==> n != "." && n != ".."
    decreases |names| - from
  {
    if from < |names| {
      KeptSpec(f, names, from + 1);
      forall n
        ensures n in f.Kept(names, from) <==> exists k :: from <= k < |names| && names[k] == n && !f.Skips(n)
      {
        if n in f.Kept(names, from + 1) {
          var k :| from + 1 <= k < |names| && names[k] == n && !f.Skips(n);
          assert from <= k;
        }
        if exists k :: from <= k < |names| && names[k] == n && !f.Skips(n) {
          var k :| from <= k < |names| && names[k] == n && !f.Skips(n);
          if k > from {
            assert n in f.Kept(names, from + 1);
          }
        }
      }
    }
  }

  /** An open directory handle: the listing `opendir` saw and the position of the next `readdir`. */
  datatype Handle = Handle(names: seq<string>, next: nat)

  /** `$current`: false before the first rewind, null once the walk has ended, or the object of an entry. */
  datatype Slot = NotYet | Ended | At(entry: Entry)

  /** What `file_object_for` puts in `$current`. */
  function SlotFor(s: FsState, p: Path): (r: Slot)
    ensures r.At? <==> s.Exists(p)
    ensures r != NotYet
    ensures r.At? ==> Some(r.entry) == EntryFor(s, p)
  {
    match EntryFor(s, p)
    case None => Ended
    case Some(e) => At(e)
  }

  /**
   * The iterator as `skip_to_next` leaves it after searching `names` from
   * index `from` under filter `f`: at the first name `f` keeps, with the
   * handle just past it and the slot built from it, or ended.
   */
  ghost predicate StopsAt(f: Filter, names: seq<string>, from: nat, h: Option<Handle>, cur: Slot, name: string)
  {
    from <= |names| &&
    var j := f.NextIndex(names, from);
    (j == |names| ==> h.None? && cur == Ended) &&
    (j < |names| ==> h == Some(Handle(names, j + 1)) && name == names[j]) &&
    (h.None? ==> cur == Ended) &&
    (h.Some? ==> cur == SlotFor(f.s, f.dir + "/" + name))
  }

  /** An iterator stopped at an entry has the handle just past the name that entry was built from. */
  lemma StopsAtEntry(f: Filter, names: seq<string>, from: nat, h: Option<Handle>, cur: Slot, name: string)
    requires StopsAt(f, names, from, h, cur, name) && cur.At?
    ensures f.NextIndex(names, from) < |names|
    ensures h == Some(Handle(names, f.NextIndex(names, from) + 1))
    ensures name == names[f.NextIndex(names, from)]
    ensures cur == SlotFor(f.s, f.dir + "/" + name)
  {
  }

  /** What `skip_to_next` builds once its do-while has stopped at index `i`. */
  lemma SkipOutcome(f: Filter, names: seq<string>, from: nat, i: nat, h: Option<Handle>, cur: Slot, name: string)
    requires from <= i <= |names| && f.NextIndex(names, from) == f.NextIndex(names, i)
    requires i == |names| || !f.Skips(names[i])
    requires i < |names| ==> h == Some(Handle(names, i + 1)) && name == names[i] && cur == SlotFor(f.s, f.dir + "/" + names[i])
    requires i == |names| ==> h.None? && cur == Ended
    ensures StopsAt(f, names, from, h, cur, name)
    ensures h.Some? ==> h.value.next <= |h.value.names| && cur == SlotFor(f.s, f.dir + "/" + name) && !f.Skips(name)
    ensures h.None? ==> cur == Ended
    ensures f.Kept(names, from) == if h.None? then [] else [name] + f.Kept(h.value.names, h.value.next)
  {
    KeptStep(f, names, from);
  }

  class DirIterator {
    /** The path of the Dir being walked. */
    const dir: Path
    const query: Query
    /** `$id`: None when no directory is open. */
    var handle: Option<Handle>
    var current: Slot
    /** The listing name `current` was built from. */
    ghost var name: string

    ghost predicate Valid()
      reads this
    {
      handle.Some? ==> handle.value.next <= |handle.value.names|
    }

    /** The filter `skip_to_next` applies in state `s`. */
    function FilterIn(s: FsState, m: Matcher): (f: Filter)
      reads this, query
      ensures f.dir == dir && f.s == s && f.recursive == query.recursive && f.regexp == query.regexp
    {
      Filter(s, dir, query.recursive, query.regexp, m)
    }

    /** The names the walk still yields from the open handle when the state stays `s`. */
    ghost function Upcoming(s: FsState, m: Matcher): seq<string>
      reads this, query
      requires Valid()
    {
      if handle.None? then [] else FilterIn(s, m).Kept(handle.value.names, handle.value.next)
    }

    /** `new DirIterator(dir, query)`: a missing query is a fresh default one. */
    constructor (d: Path, q: Query?)
      ensures dir == d && handle.None? && current == NotYet
      ensures q != null ==> query == q
      ensures q == null ==> fresh(query) && query.regexp == DefaultRegexp && !query.recursive && query.self == Bool(false)
      ensures Valid()
    {
      dir := d;
      if q != null {
        query := q;
      } else {
        query := new Query();
      }
      handle := None;
      current := NotYet;
      name := "";
    }

    /**
     * `skip_to_next()`: reads past skipped names, then either builds the object
     * for the name it stopped at or, at the end, closes the handle and clears
     * `current`. Seen as names, it takes the head of the upcoming ones.
     */
    method SkipToNext(s: FsState, m: Matcher)
      requires Valid()
      modifies this
      ensures Valid()
      ensures old(handle).None? ==> handle.None? && current == Ended
      ensures old(handle).Some? ==>
                StopsAt(FilterIn(s, m), old(handle).value.names, old(handle).value.next, handle, current, name)
      ensures handle.None? ==> current == Ended
      ensures handle.Some? ==> current == SlotFor(s, dir + "/" + name) && !FilterIn(s, m).Skips(name)
      ensures old(Upcoming(s, m)) == if handle.None? then [] else [name] + Upcoming(s, m)
    {
      if handle.None? {
        current := Ended;
        return;
      }
      var h := handle.value;
      var f := Filter(s, dir, query.recursive, query.regexp, m);
      var i := h.next;
      while i < |h.names| && f.Skips(h.names[i])
        invariant h.next <= i <= |h.names|
        invariant f.NextIndex(h.names, h.next) == f.NextIndex(h.names, i)
      {
        i := i + 1;
      }
      var nh: Option<Handle>, nc: Slot;
      ghost var nn := name;
      if i < |h.names| {
        nh, nn, nc := Some(Handle(h.names, i + 1)), h.names[i], SlotFor(s, dir + "/" + h.names[i]);
      } else {
        nh, nc := None, Ended;
      }
      SkipOutcome(f, h.names, h.next, i, nh, nc, nn);
      handle, current, name := nh, nc, nn;
    }

    /** `rewind()`: opens the directory afresh and stops at the first yielded entry. */
    method Rewind(s: FsState, m: Matcher)
      requires Valid()
      modifies this
      ensures Valid()
      ensures StopsAt(FilterIn(s, m), s.Listing(dir), 0, handle, current, name)
      ensures handle.None? ==> current == Ended
      ensures handle.Some? ==> current == SlotFor(s, dir + "/" + name) && !FilterIn(s, m).Skips(name)
      ensures FilterIn(s, m).Kept(s.Listing(dir), 0) == if handle.None? then [] else [name] + Upcoming(s, m)
    {
      handle := Some(Handle(s.Listing(dir), 0));
      SkipToNext(s, m);
    }

    /** `next()`: one `skip_to_next`. */
    method Next(s: FsState, m: Matcher) returns (r: Slot)
      requires Valid()
      modifies this
      ensures Valid()
      ensures r == current
      ensures old(handle).Some? ==>
                StopsAt(FilterIn(s, m), old(handle).value.names, old(handle).value.next, handle, current, name)
      ensures handle.None? ==> current == Ended
      ensures handle.Some? ==> current == SlotFor(s, dir + "/" + name) && !FilterIn(s, m).Skips(name)
      ensures old(Upcoming(s, m)) == if handle.None? then [] else [name] + Upcoming(s, m)
    {
      SkipToNext(s, m);
      r := current;
    }

    /** `valid()`: `current` is an object, neither the null before the first `rewind` nor the null at the end. */
    predicate IsValid()
      reads this
      ensures IsValid() <==> current != NotYet && current != Ended
    {
      current.At?
    }

    /** `current()`: an object exactly when `valid()` holds, and then the one whose path `key()` gives. */
    function Current(): (r: Slot)
      reads this
      ensures r.At? <==> IsValid()
      ensures r.At? ==> Key() == Some(r.entry.path)
      ensures !r.At? ==> Key().None?
    {
      current
    }

    /** `key()`: the path of the current object. */
    function Key(): (r: Option<Path>)
      reads this
      ensures r.Some? <==> IsValid()
      ensures r.Some? ==> r.value == current.entry.path
    {
      if current.At? then Some(current.entry.path) else None
    }

    /** `hasChildren()`: a recursive query and a Dir in `current`. */
    predicate HasChildren()
      reads this, query
      ensures HasChildren() ==> IsValid() && query.recursive
      ensures !query.recursive ==> !HasChildren()
      ensures IsValid() && query.recursive ==> (HasChildren() <==> Current().entry.kind == DirKind)
    {
      query.IsRecursive() && current.At? && current.entry.kind == DirKind
    }

    /** `getChildren()`: an iterator over `current` with the same query; null when `current` is no Dir (a TypeError). */
    method GetChildren() returns (r: DirIterator?)
      ensures r != null <==> current.At? && current.entry.kind == DirKind
      ensures r != null ==> fresh(r) && r.dir == current.entry.path && r.query == query &&
                            r.handle.None? && r.current == NotYet && r.Valid()
    {
      if current.At? && current.entry.kind == DirKind {
        r := new DirIterator(current.entry.path, query);
      } else {
        r := null;
      }
    }
  }

  /**
   * The key of a yielded entry is the path of `dir/name` (slashes trimmed for a
   * directory), and a yielded name is never "." or "..".
   */
  lemma YieldedEntrySpec(it: DirIterator, s: FsState, m: Matcher)
    requires it.handle.Some? && it.current == SlotFor(s, it.dir + "/" + it.name) && !it.FilterIn(s, m).Skips(it.name)
    requires it.IsValid()
    ensures it.name != "." && it.name != ".."
    ensures it.Key() == Some(if s.IsDir(it.dir + "/" + it.name) then RTrimSlash(it.dir + "/" + it.name) else it.dir + "/" + it.name)
  {
  }

  /** The three walks `apply_to` can return. */
  datatype Walk = Flat | LeavesOnly | SelfFirst

  /** Which walk `apply_to` picks: flat unless recursive, then leaves only or self first as `self` is truthy. */
  function WalkOf(recursive: bool, self: Value): (w: Walk)
    ensures w == Flat <==> !recursive
    ensures w == LeavesOnly <==> recursive && !Truthy(self)
    ensures w == SelfFirst <==> recursive && Truthy(self)
  {
    if !recursive then Flat else if !Truthy(self) then LeavesOnly else SelfFirst
  }

  /** `Query::apply_to(dir)`: a new iterator over `dir` with this query, wrapped in the chosen walk. */
  method ApplyTo(q: Query, dir: Path) returns (w: Walk, it: DirIterator)
    ensures w == WalkOf(q.recursive, q.self)
    ensures fresh(it) && it.dir == dir && it.query == q && it.handle.None? && it.current == NotYet && it.Valid()
  {
    w := WalkOf(q.recursive, q.self);
    it := new DirIterator(dir, q);
  }

  /** `Dir::make_default_iterator()`: a flat walk with a fresh default query. */
  method DefaultIterator(dir: Path) returns (it: DirIterator)
    ensures fresh(it) && fresh(it.query) && it.dir == dir && it.handle.None? && it.current == NotYet && it.Valid()
    ensures it.query.regexp == DefaultRegexp && !it.query.recursive && it.query.self == Bool(false)
  {
    var q := new Query();
    var w;
    w, it := ApplyTo(q, dir);
    assert w == Flat;
  }
}
