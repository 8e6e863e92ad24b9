/**
 * What the recursive operations of Dir do to the filesystem, as functions of
 * the state: `rm` walks the directory with the default query, removes each
 * yielded entry (a file by `unlink`, a directory by its own `rm`) and then
 * the directory; `copy_to` clears and recreates the destination and copies
 * each yielded entry into it. Each foreach over a Dir is a default walk: the
 * listing `opendir` saw, filtered by the query with regexp "{.+}", stopping
 * early if an entry has vanished.
 */
module Trees {
  import opened Core
  import opened Paths
  import opened Os
  import opened FsOptions
  import opened Queries
  import opened DirIterators

  /** The filter of the fresh Query every foreach over a Dir uses. */
  function DefaultFilter(s: FsState, dir: Path, m: Matcher): (f: Filter)
    ensures f.s == s && f.dir == dir && !f.recursive && f.regexp == DefaultRegexp
  {
    Filter(s, dir, false, DefaultRegexp, m)
  }

  /** Every name is ".", ".." or an entry name, as in any listing. */
  predicate NamesOk(names: seq<string>)
  {
    forall k :: 0 <= k < |names| ==> names[k] == "." || names[k] == ".." || IsEntryName(names[k])
  }

  lemma ListingNamesOk(s: FsState, p: Path)
    requires s.Valid()
    ensures NamesOk(s.Listing(p))
  {
    if s.IsDir(p) {
      ListingSpec(s, p);
      DotsThenNamesOk(s.Listing(p));
    }
  }

  /** "." and ".." followed by entry names only. */
  lemma DotsThenNamesOk(names: seq<string>)
    requires |names| >= 2 && names[0] == "." && names[1] == ".."
    requires forall n :: n in names[2..] ==> IsEntryName(n)
    ensures NamesOk(names)
  {
    forall k | 2 <= k < |names|
      ensures IsEntryName(names[k])
    {
      assert names[k] in names[2..];
    }
  }

  /** The keys strictly inside `p`. */
  function Below(s: FsState, p: Path): set<Path>
  {
    set k | k in s.nodes && IsBelow(k, p)
  }

  lemma {:induction false} SubsetCard<T>(a: set<T>, b: set<T>)
    requires a <= b
    ensures |a| <= |b|
    decreases |a|
  {
    if a != {} {
      var x :| x in a;
      SubsetCard(a - {x}, b - {x});
    }
  }

  /** An entry inside `p` holds fewer entries than `p`. */
  lemma BelowShrinks(s: FsState, p: Path, c: Path)
    requires c in s.nodes && IsBelow(c, p)
    ensures |Below(s, c)| < |Below(s, p)|
  {
    forall k | k in Below(s, c)
      ensures k in Below(s, p)
    {
      BelowTransitive(k, c, p);
    }
    assert c in Below(s, p) && c !in Below(s, c);
    SubsetCard(Below(s, c) + {c}, Below(s, p));
  }

  lemma BelowMonotone(s: FsState, t: FsState, p: Path)
    requires t.nodes.Keys <= s.nodes.Keys
    ensures |Below(t, p)| <= |Below(s, p)|
  {
    SubsetCard(Below(t, p), Below(s, p));
  }

  /** An existing path without a trailing slash is a stored key. */
  lemma ExistingIsKey(s: FsState, p: Path)
    requires s.Valid() && s.Exists(p) && NoTrailingSlash(p)
    ensures p in s.nodes && p != ""
  {
    assert WellFormed(s.KeyOf(p));
  }

  /** The path of the object a child name yields is the child path itself. */
  lemma ChildEntry(s: FsState, p: Path, n: string)
    requires IsEntryName(n) && s.Exists(p + "/" + n)
    ensures EntryFor(s, p + "/" + n).Some? && EntryFor(s, p + "/" + n).value.path == p + "/" + n
    ensures p + "/" + n in s.nodes && IsBelow(p + "/" + n, p)
  {
    var c := p + "/" + n;
    assert c[|c| - 1] == n[|n| - 1] != '/';
    ChildBelow(p, n);
  }

  /**
   * `Dir(p)->rm()`: nothing when `p` does not exist; otherwise every yielded
   * entry is removed and then `rmdir(p)` is attempted.
   */
  function RmTree(s: FsState, p: Path, m: Matcher): (r: FsState)
    requires s.Valid() && NoTrailingSlash(p)
    ensures r.Valid() && r.nodes.Keys <= s.nodes.Keys
    ensures forall k :: k in s.nodes && !AtOrBelow(k, p) ==> k in r.nodes && r.nodes[k] == s.nodes[k]
    decreases |Below(s, p)|, 1, 0, 0
  {
    if !s.Exists(p) then s
    else
      ExistingIsKey(s, p);
      ListingNamesOk(s, p);
      var s1 := RmEntries(s, p, s.Listing(p), 0, m).0;
      RmdirValid(s1, p);
      s1.Rmdir(p).0
  }

  /** `obj->rm()` for a yielded object: `unlink` for a File, the recursive `rm` for a Dir. */
  function RmObject(s: FsState, e: Entry, m: Matcher): (r: (FsState, bool))
    requires s.Valid() && e.path in s.nodes && NoTrailingSlash(e.path)
    ensures r.0.Valid() && r.0.nodes.Keys <= s.nodes.Keys
    ensures forall k :: k in s.nodes && !AtOrBelow(k, e.path) ==> k in r.0.nodes && r.0.nodes[k] == s.nodes[k]
    ensures e.kind == DirKind ==> r.1
    decreases |Below(s, e.path)|, 2, 0, 0
  {
    UnlinkValid(s, e.path);
    if e.kind == FileKind then s.Unlink(e.path) else (RmTree(s, e.path, m), true)
  }

  lemma RmObjectCases(s: FsState, e: Entry, m: Matcher)
    requires s.Valid() && e.path in s.nodes && NoTrailingSlash(e.path)
    ensures e.kind == FileKind ==> RmObject(s, e, m).0 == s.Unlink(e.path).0
    ensures e.kind == DirKind ==> RmObject(s, e, m).0 == RmTree(s, e.path, m)
  {
  }

  /** What removing the entry `c` inside `p` keeps: everything not inside `p`, and no more entries inside `p`. */
  lemma RmObjectInside(s: FsState, t: FsState, p: Path, c: Path)
    requires IsBelow(c, p) && t.nodes.Keys <= s.nodes.Keys
    requires forall k :: k in s.nodes && !AtOrBelow(k, c) ==> k in t.nodes && t.nodes[k] == s.nodes[k]
    ensures forall k :: k in s.nodes && !IsBelow(k, p) ==> k in t.nodes && t.nodes[k] == s.nodes[k]
    ensures |Below(t, p)| <= |Below(s, p)|
  {
    forall k | k in s.nodes && !IsBelow(k, p) && IsBelow(k, c)
      ensures false
    {
      BelowTransitive(k, c, p);
    }
    BelowMonotone(s, t, p);
  }

  /**
   * The foreach of `rm` (and of `FS::clear_dir`) from listing position `i`:
   * the state it leaves and the conjunction of the results of the `rm` calls
   * (a Dir's `rm` answers the object itself, which is truthy).
   */
  function RmEntries(s: FsState, p: Path, names: seq<string>, i: nat, m: Matcher): (r: (FsState, bool))
    requires s.Valid() && p != "" && NoTrailingSlash(p) && NamesOk(names) && i <= |names|
    ensures r.0.Valid() && r.0.nodes.Keys <= s.nodes.Keys
    ensures forall k :: k in s.nodes && !IsBelow(k, p) ==> k in r.0.nodes && r.0.nodes[k] == s.nodes[k]
    decreases |Below(s, p)|, 0, |names| - i, 1
  {
    var j := DefaultFilter(s, p, m).NextIndex(names, i);
    if j == |names| then (s, true)
    else
      match EntryFor(s, p + "/" + names[j])
      case None => (s, true)
      case Some(e) => RmAt(s, p, names, j, e, m)
  }

  /** The turn of the foreach that meets the object `e` at listing position `j`: `e` is removed, then the walk goes on. */
  function RmAt(s: FsState, p: Path, names: seq<string>, j: nat, e: Entry, m: Matcher): (r: (FsState, bool))
    requires s.Valid() && p != "" && NoTrailingSlash(p) && NamesOk(names) && j < |names|
    requires EntryFor(s, p + "/" + names[j]) == Some(e) && !DefaultFilter(s, p, m).Skips(names[j])
    ensures r.0.Valid() && r.0.nodes.Keys <= s.nodes.Keys
    ensures forall k :: k in s.nodes && !IsBelow(k, p) ==> k in r.0.nodes && r.0.nodes[k] == s.nodes[k]
    decreases |Below(s, p)|, 0, |names| - j, 0
  {
    ChildEntry(s, p, names[j]);
    BelowShrinks(s, p, e.path);
    var r := RmObject(s, e, m);
    RmObjectInside(s, r.0, p, e.path);
    var rest := RmEntries(r.0, p, names, j + 1, m);
    (rest.0, r.1 && rest.1)
  }

  /** One turn of the foreach: the entry the walk stops at is removed, and the walk goes on after it. */
  lemma RmEntriesStep(s: FsState, p: Path, names: seq<string>, i: nat, m: Matcher, e: Entry)
    requires s.Valid() && p != "" && NoTrailingSlash(p) && NamesOk(names) && i <= |names|
    requires DefaultFilter(s, p, m).NextIndex(names, i) < |names|
    requires EntryFor(s, p + "/" + names[DefaultFilter(s, p, m).NextIndex(names, i)]) == Some(e)
    ensures e.path in s.nodes && NoTrailingSlash(e.path) && IsBelow(e.path, p)
    ensures !DefaultFilter(s, p, m).Skips(names[DefaultFilter(s, p, m).NextIndex(names, i)])
    ensures RmEntries(s, p, names, i, m) == RmAt(s, p, names, DefaultFilter(s, p, m).NextIndex(names, i), e, m)
  {
    var j := DefaultFilter(s, p, m).NextIndex(names, i);
    ChildEntry(s, p, names[j]);
    assert RmEntries(s, p, names, i, m) == RmAt(s, p, names, j, e, m);
  }

  lemma RmAtStep(s: FsState, p: Path, names: seq<string>, j: nat, e: Entry, m: Matcher)
    requires s.Valid() && p != "" && NoTrailingSlash(p) && NamesOk(names) && j < |names|
    requires EntryFor(s, p + "/" + names[j]) == Some(e) && !DefaultFilter(s, p, m).Skips(names[j])
    ensures e.path in s.nodes && NoTrailingSlash(e.path)
    ensures RmAt(s, p, names, j, e, m) ==
            (RmEntries(RmObject(s, e, m).0, p, names, j + 1, m).0,
             RmObject(s, e, m).1 && RmEntries(RmObject(s, e, m).0, p, names, j + 1, m).1)
  {
    ChildEntry(s, p, names[j]);
  }

  /** The foreach ends when the walk runs out of names or meets a name that no longer exists. */
  lemma RmEntriesDone(s: FsState, p: Path, names: seq<string>, i: nat, m: Matcher)
    requires s.Valid() && p != "" && NoTrailingSlash(p) && NamesOk(names) && i <= |names|
    requires var j := DefaultFilter(s, p, m).NextIndex(names, i);
             j == |names| || EntryFor(s, p + "/" + names[j]).None?
    ensures RmEntries(s, p, names, i, m) == (s, true)
  {
  }

  /** Where `skip_to_next` stops under the default filter of `dir` in state `s`. */
  ghost predicate Stopped(s: FsState, dir: Path, m: Matcher, names: seq<string>, from: nat,
                          h: Option<Handle>, cur: Slot, name: string)
  {
    StopsAt(DefaultFilter(s, dir, m), names, from, h, cur, name)
  }

  /**
   * Where a foreach that removes every yielded entry of directory `p`
   * stands: the entries of `names` yielded before index `i` are gone (the
   * state is now `s`), `rc` is the conjunction of what their `rm` answered,
   * and the iterator holds handle `h` and slot `cur` built from `name`.
   * Finishing the walk gives `goal`, with the final conjunction. `s0` is the
   * state before the walk.
   */
  ghost predicate RmWalk(s0: FsState, s: FsState, p: Path, names: seq<string>, i: nat,
                         h: Option<Handle>, cur: Slot, name: string, m: Matcher, rc: bool, goal: (FsState, bool))
  {
    s.Valid() && p != "" && NoTrailingSlash(p) && NamesOk(names) && i <= |names| &&
    |Below(s, p)| <= |Below(s0, p)| &&
    RmEntries(s, p, names, i, m).0 == goal.0 && (RmEntries(s, p, names, i, m).1 && rc) == goal.1 &&
    Stopped(s, p, m, names, i, h, cur, name)
  }

  /** The walk as `rewind` leaves it: nothing removed yet. */
  lemma RmWalkStart(s0: FsState, p: Path, h: Option<Handle>, cur: Slot, name: string, m: Matcher)
    requires s0.Valid() && s0.Exists(p) && NoTrailingSlash(p)
    requires Stopped(s0, p, m, s0.Listing(p), 0, h, cur, name)
    ensures p in s0.nodes && p != "" && NamesOk(s0.Listing(p))
    ensures RmWalk(s0, s0, p, s0.Listing(p), 0, h, cur, name, m, true, RmEntries(s0, p, s0.Listing(p), 0, m))
  {
    ExistingIsKey(s0, p);
    ListingNamesOk(s0, p);
  }

  /** The entry the walk stands at is stored, inside `p`, and has less below it than `p` had in `s0`. */
  lemma RmWalkChild(s0: FsState, s: FsState, p: Path, names: seq<string>, i: nat,
                    h: Option<Handle>, cur: Slot, name: string, m: Matcher, rc: bool, goal: (FsState, bool))
    requires RmWalk(s0, s, p, names, i, h, cur, name, m, rc, goal) && cur.At?
    ensures h.Some?
    ensures cur.entry.path in s.nodes && NoTrailingSlash(cur.entry.path)
    ensures |Below(s, cur.entry.path)| < |Below(s0, p)|
  {
    var j := DefaultFilter(s, p, m).NextIndex(names, i);
    RmEntriesStep(s, p, names, i, m, cur.entry);
    BelowShrinks(s, p, cur.entry.path);
  }

  /** After the turn that removes the entry at the walk's stop, the rest of the foreach reaches the same goal. */
  lemma RmTurnRest(s: FsState, p: Path, names: seq<string>, i: nat, e: Entry, m: Matcher, rc: bool, goal: (FsState, bool),
                   s1: FsState, ok: bool, j: nat, k: nat)
    requires s.Valid() && p != "" && NoTrailingSlash(p) && NamesOk(names) && i <= |names|
    requires RmEntries(s, p, names, i, m).0 == goal.0 && (RmEntries(s, p, names, i, m).1 && rc) == goal.1
    requires j == DefaultFilter(s, p, m).NextIndex(names, i) && j < |names| && k == j + 1
    requires EntryFor(s, p + "/" + names[j]) == Some(e)
    requires s1 == RmObject(s, e, m).0 && ok == RmObject(s, e, m).1
    ensures RmEntries(s1, p, names, k, m).0 == goal.0
    ensures (RmEntries(s1, p, names, k, m).1 && (ok && rc)) == goal.1
  {
    RmEntriesStep(s, p, names, i, m, e);
    RmAtStep(s, p, names, j, e, m);
  }

  /**
   * One turn of the foreach: removing the entry the walk stands at (which
   * answers `ok`) and then calling `next` on the new state leaves the walk
   * after that entry, with `ok` folded into the conjunction.
   */
  lemma RmWalkStep(s0: FsState, s: FsState, p: Path, names: seq<string>, i: nat,
                   h: Option<Handle>, cur: Slot, name: string, m: Matcher, rc: bool, goal: (FsState, bool),
                   s1: FsState, ok: bool, h1: Option<Handle>, cur1: Slot, name1: string)
    requires RmWalk(s0, s, p, names, i, h, cur, name, m, rc, goal) && cur.At?
    requires cur.entry.path in s.nodes && NoTrailingSlash(cur.entry.path)
    requires s1 == RmObject(s, cur.entry, m).0 && ok == RmObject(s, cur.entry, m).1
    requires h.Some? ==> Stopped(s1, p, m, h.value.names, h.value.next, h1, cur1, name1)
    ensures h.Some? && i < h.value.next
    ensures RmWalk(s0, s1, p, names, h.value.next, h1, cur1, name1, m, ok && rc, goal)
  {
    RmWalkTurn(s0, s, p, names, i, h, cur, name, m, rc, goal, s1, ok);
    StoppedRename(s1, p, m, h.value.names, names, h.value.next, h.value.next, h1, cur1, name1);
    RmWalkIntro(s0, s1, p, names, h.value.next, h1, cur1, name1, m, ok && rc, goal);
  }

  /** The facts one turn of the foreach establishes about the state after removing the entry the walk stands at. */
  lemma RmWalkTurn(s0: FsState, s: FsState, p: Path, names: seq<string>, i: nat,
                   h: Option<Handle>, cur: Slot, name: string, m: Matcher, rc: bool, goal: (FsState, bool),
                   s1: FsState, ok: bool)
    requires RmWalk(s0, s, p, names, i, h, cur, name, m, rc, goal) && cur.At?
    requires cur.entry.path in s.nodes && NoTrailingSlash(cur.entry.path)
    requires s1 == RmObject(s, cur.entry, m).0 && ok == RmObject(s, cur.entry, m).1
    ensures h.Some? && h.value.names == names && i < h.value.next <= |names|
    ensures s1.Valid() && p != "" && NoTrailingSlash(p) && NamesOk(names)
    ensures |Below(s1, p)| <= |Below(s0, p)|
    ensures RmEntries(s1, p, names, h.value.next, m).0 == goal.0
    ensures (RmEntries(s1, p, names, h.value.next, m).1 && (ok && rc)) == goal.1
  {
    var f := DefaultFilter(s, p, m);
    var j := f.NextIndex(names, i);
    StopsAtEntry(f, names, i, h, cur, name);
    var e := cur.entry;
    var k := h.value.next;
    assert k == j + 1;
    RmEntriesStep(s, p, names, i, m, e);
    RmTurnRest(s, p, names, i, e, m, rc, goal, s1, ok, j, k);
    RmTurnKeepsBelow(s0, s, p, e, m, s1);
  }

  /** Stopped at equal arguments. */
  lemma StoppedRename(s: FsState, p: Path, m: Matcher, names: seq<string>, names': seq<string>, i: nat, i': nat,
                      h: Option<Handle>, cur: Slot, name: string)
    requires names == names' && i == i'
    requires Stopped(s, p, m, names, i, h, cur, name)
    ensures Stopped(s, p, m, names', i', h, cur, name)
  {
  }

  /** Removing one entry leaves no more below `p` than there was. */
  lemma RmTurnKeepsBelow(s0: FsState, s: FsState, p: Path, e: Entry, m: Matcher, s1: FsState)
    requires s.Valid() && e.path in s.nodes && NoTrailingSlash(e.path)
    requires |Below(s, p)| <= |Below(s0, p)|
    requires s1 == RmObject(s, e, m).0
    ensures s1.Valid() && |Below(s1, p)| <= |Below(s0, p)|
  {
    BelowMonotone(s, s1, p);
  }

  /** The walk predicate from its conjuncts. */
  lemma RmWalkIntro(s0: FsState, s: FsState, p: Path, names: seq<string>, i: nat,
                    h: Option<Handle>, cur: Slot, name: string, m: Matcher, rc: bool, goal: (FsState, bool))
    requires s.Valid() && p != "" && NoTrailingSlash(p) && NamesOk(names) && i <= |names|
    requires |Below(s, p)| <= |Below(s0, p)|
    requires RmEntries(s, p, names, i, m).0 == goal.0 && (RmEntries(s, p, names, i, m).1 && rc) == goal.1
    requires Stopped(s, p, m, names, i, h, cur, name)
    ensures RmWalk(s0, s, p, names, i, h, cur, name, m, rc, goal)
  {
  }

  /** When the walk has no current entry left, the state and the conjunction are the goal's. */
  lemma RmWalkEnd(s0: FsState, s: FsState, p: Path, names: seq<string>, i: nat,
                  h: Option<Handle>, cur: Slot, name: string, m: Matcher, rc: bool, goal: (FsState, bool))
    requires RmWalk(s0, s, p, names, i, h, cur, name, m, rc, goal) && !cur.At?
    ensures s == goal.0 && rc == goal.1
  {
    RmEntriesDone(s, p, names, i, m);
  }

  /** The regex engine matches "{.+}" against every path holding a slash ('.' matches any character but a newline). */
  ghost predicate DefaultMatchesChildren(m: Matcher)
  {
    forall x: string {:trigger m(DefaultRegexp, x)} :: '/' in x ==> m(DefaultRegexp, x)
  }

  /** The default walk passes over exactly "." and ".." when the engine matches every child path. */
  lemma DefaultSkipsOnlyDots(s: FsState, p: Path, m: Matcher, n: string)
    requires DefaultMatchesChildren(m) && IsEntryName(n)
    ensures !DefaultFilter(s, p, m).Skips(n)
  {
    assert (p + "/" + n)[|p|] == '/';
  }

  /** `k` lies at or below one of the entries `p/names[j]`, `j >= i`. */
  ghost predicate UnderListed(k: Path, p: Path, names: seq<string>, i: nat)
  {
    exists j :: i <= j < |names| && IsEntryName(names[j]) && AtOrBelow(k, p + "/" + names[j])
  }

  /** Two different entries of one directory are not nested. */
  lemma SiblingsApart(p: Path, a: string, b: string)
    requires IsEntryName(a) && IsEntryName(b) && a != b
    ensures !AtOrBelow(p + "/" + b, p + "/" + a)
  {
    var ka, kb := p + "/" + a, p + "/" + b;
    ChildBelow(p, a);
    ChildBelow(p, b);
    assert ka[|p| + 1..] == a && kb[|p| + 1..] == b;
    if |kb| > |ka| + 1 {
      assert kb[|ka|] == b[|a|] != '/';
      assert kb[..|ka| + 1][|ka|] != (ka + "/")[|ka|];
    }
  }

  /** Nothing is stored inside a regular file. */
  lemma NothingBelowFile(s: FsState, f: Path, k: Path)
    requires s.Valid() && f != "" && f in s.nodes && s.nodes[f].Regular?
    requires k in s.nodes
    ensures !IsBelow(k, f)
  {
    if IsBelow(k, f) {
      var _ := ChildOnTheWay(s, k, f);
    }
  }

  /** An entry of directory `p` is `p`, a slash and a name the listing holds. */
  lemma ChildName(s: FsState, p: Path, c: Path) returns (n: string)
    requires s.Valid() && c in s.nodes && Parent(c) == Some(p)
    ensures IsEntryName(n) && c == p + "/" + n
  {
    ChildPath(c, p);
    n := c[|p| + 1..];
    assert LastSlash(c) == |p|;
    assert NamesEntry(c);
  }

  /** Nothing is stored at or inside a missing path. */
  lemma NothingBelowMissing(s: FsState, p: Path)
    requires s.Valid() && p != "" && !s.Exists(p)
    ensures forall k :: k in s.nodes ==> !AtOrBelow(k, p)
  {
    forall k | k in s.nodes && IsBelow(k, p)
      ensures false
    {
      var _ := ChildOnTheWay(s, k, p);
    }
  }

  /** Names at and after `i` up to `j` that are not entry names do not matter to UnderListed. */
  lemma UnderListedStep(k: Path, p: Path, names: seq<string>, i: nat, j: nat)
    requires i <= j <= |names|
    requires forall a :: i <= a < j ==> !IsEntryName(names[a])
    ensures j == |names| ==> !UnderListed(k, p, names, i)
    ensures j < |names| && IsEntryName(names[j]) ==>
              (UnderListed(k, p, names, i) <==> AtOrBelow(k, p + "/" + names[j]) || UnderListed(k, p, names, j + 1))
  {
    if UnderListed(k, p, names, i) {
      var a :| i <= a < |names| && IsEntryName(names[a]) && AtOrBelow(k, p + "/" + names[a]);
      assert a >= j;
      if a > j {
        assert UnderListed(k, p, names, j + 1);
      }
    }
    if j < |names| && IsEntryName(names[j]) && AtOrBelow(k, p + "/" + names[j]) {
      assert UnderListed(k, p, names, i);
    }
    if UnderListed(k, p, names, j + 1) {
      var a :| j + 1 <= a < |names| && IsEntryName(names[a]) && AtOrBelow(k, p + "/" + names[a]);
      assert UnderListed(k, p, names, i);
    }
  }

  /** The entry names after "." and ".." are those whose child paths are stored. */
  lemma EntryNamesStored(nodes: set<Path>, p: Path, names: seq<string>)
    requires |names| >= 2 && names[0] == "." && names[1] == ".."
    requires forall n :: n in names[2..] <==> IsEntryName(n) && p + "/" + n in nodes
    ensures forall a :: 0 <= a < |names| && IsEntryName(names[a]) ==> p + "/" + names[a] in nodes
  {
    forall a | 0 <= a < |names| && IsEntryName(names[a])
      ensures p + "/" + names[a] in nodes
    {
      assert names[a] == names[2..][a - 2];
    }
  }

  /** The entry names of a directory's listing are stored entries. */
  lemma ListingEntriesExist(s: FsState, p: Path)
    requires s.Valid() && p in s.nodes && s.nodes[p].Directory?
    ensures forall a :: 0 <= a < |s.Listing(p)| && IsEntryName(s.Listing(p)[a]) ==> p + "/" + s.Listing(p)[a] in s.nodes
  {
    ListingSpec(s, p);
    EntryNamesStored(s.nodes.Keys, p, s.Listing(p));
  }

  /** A directory's listing names each entry once. */
  lemma ListingDistinct(s: FsState, p: Path)
    requires s.Valid() && p in s.nodes && s.nodes[p].Directory?
    ensures forall a, b :: 0 <= a < b < |s.Listing(p)| ==> s.Listing(p)[a] != s.Listing(p)[b]
  {
    ListingSpec(s, p);
    var names := s.Listing(p);
    forall k | 2 <= k < |names|
      ensures IsEntryName(names[k])
    {
      assert names[k] == names[2..][k - 2];
    }
    DotsThenDistinct(names);
  }

  /** "." and ".." followed by distinct entry names is a list without repeats. */
  lemma DotsThenDistinct(names: seq<string>)
    requires |names| >= 2 && names[0] == "." && names[1] == ".."
    requires forall k :: 2 <= k < |names| ==> IsEntryName(names[k])
    requires forall a, b :: 2 <= a < b < |names| ==> names[a] != names[b]
    ensures forall a, b :: 0 <= a < b < |names| ==> names[a] != names[b]
  {
    forall a, b | 0 <= a < b < |names|
      ensures names[a] != names[b]
    {
      if a < 2 && b >= 2 {
        assert IsEntryName(names[b]);
      }
    }
  }

  /** Every path inside a directory lies at or below one of the entries its listing names. */
  lemma ListingCovers(s: FsState, p: Path)
    requires s.Valid() && p in s.nodes && s.nodes[p].Directory?
    ensures forall k :: k in s.nodes && IsBelow(k, p) ==> UnderListed(k, p, s.Listing(p), 0)
  {
    forall k | k in s.nodes && IsBelow(k, p)
      ensures UnderListed(k, p, s.Listing(p), 0)
    {
      ListingCoversOne(s, p, k);
    }
  }

  lemma ListingCoversOne(s: FsState, p: Path, k: Path)
    requires s.Valid() && p in s.nodes && s.nodes[p].Directory?
    requires k in s.nodes && IsBelow(k, p)
    ensures UnderListed(k, p, s.Listing(p), 0)
  {
    ListingSpec(s, p);
    assert s.KeyOf(p) == p;
    var c := ChildOnTheWay(s, k, p);
    var n := ChildName(s, p, c);
    ListedName(s.Listing(p), n, p, k);
  }

  /** A name among the entries after "." and ".." puts what lies under it under the listing. */
  lemma ListedName(names: seq<string>, n: string, p: Path, k: Path)
    requires |names| >= 2 && n in names[2..] && IsEntryName(n) && AtOrBelow(k, p + "/" + n)
    ensures UnderListed(k, p, names, 0)
  {
    var j :| 0 <= j < |names| - 2 && names[2..][j] == n;
    assert names[j + 2] == n;
  }

  /** Whatever lies at or below an entry of `p` lies inside `p`. */
  lemma UnderListedIsBelow(p: Path, names: seq<string>, i: nat)
    ensures forall k :: UnderListed(k, p, names, i) ==> IsBelow(k, p)
  {
    forall k | UnderListed(k, p, names, i)
      ensures IsBelow(k, p)
    {
      var j :| i <= j < |names| && IsEntryName(names[j]) && AtOrBelow(k, p + "/" + names[j]);
      ChildBelow(p, names[j]);
      if k != p + "/" + names[j] {
        BelowTransitive(k, p + "/" + names[j], p);
      }
    }
  }

  /** A directory with nothing inside it is empty for `rmdir`. */
  lemma NothingInsideIsEmpty(s: FsState, p: Path)
    requires s.Valid() && forall k :: k in s.nodes ==> !IsBelow(k, p)
    ensures s.IsEmptyDir(p)
  {
    forall q | q in s.nodes
      ensures Parent(q) != Some(p)
    {
      if Parent(q) == Some(p) {
        var n := ChildName(s, p, q);
        ChildBelow(p, n);
      }
    }
  }

  /** Removing exactly what lies under the listed entries removes exactly what lies inside `p`. */
  lemma UnderListedIsInside(keys: set<Path>, rest: set<Path>, p: Path, names: seq<string>)
    requires forall k :: k in rest <==> k in keys && !UnderListed(k, p, names, 0)
    requires forall k :: k in keys && IsBelow(k, p) ==> UnderListed(k, p, names, 0)
    ensures forall k :: k in rest <==> k in keys && !IsBelow(k, p)
  {
    UnderListedIsBelow(p, names, 0);
  }

  /**
   * With an engine that matches every child path, `rm` on a directory (or a
   * missing path) removes exactly that path and everything inside it.
   */
  lemma {:induction false} RmTreeRemoves(s: FsState, p: Path, m: Matcher)
    requires s.Valid() && p != "" && NoTrailingSlash(p) && DefaultMatchesChildren(m)
    requires !(p in s.nodes && s.nodes[p].Regular?)
    ensures forall k :: k in RmTree(s, p, m).nodes <==> k in s.nodes && !AtOrBelow(k, p)
    decreases |Below(s, p)|, 1, 0, 0
  {
    if !s.Exists(p) {
      NothingBelowMissing(s, p);
    } else {
      ExistingIsKey(s, p);
      ListingNamesOk(s, p);
      ListingEntriesExist(s, p);
      ListingDistinct(s, p);
      ListingCovers(s, p);
      var names := s.Listing(p);
      var s1 := RmEntries(s, p, names, 0, m).0;
      RmEntriesRemoves(s, p, names, 0, m);
      UnderListedIsInside(s.nodes.Keys, s1.nodes.Keys, p, names);
      NothingInsideIsEmpty(s1, p);
      assert !IsBelow(p, p);
      assert p in s1.nodes && s1.nodes[p] == s.nodes[p];
      assert s1.KeyOf(p) == p && s1.IsDir(p);
      var r := s1.Rmdir(p);
      assert r.1 && r.0.nodes == s1.nodes - {p};
      assert RmTree(s, p, m) == r.0;
    }
  }

  /** Removing a yielded object removes exactly its subtree, and its `rm` reports success. */
  lemma {:induction false} RmObjectRemoves(s: FsState, e: Entry, m: Matcher)
    requires s.Valid() && e.path != "" && e.path in s.nodes && NoTrailingSlash(e.path) && DefaultMatchesChildren(m)
    requires e.kind == DirKind <==> s.nodes[e.path].Directory?
    ensures RmObject(s, e, m).1
    ensures forall k :: k in RmObject(s, e, m).0.nodes <==> k in s.nodes && !AtOrBelow(k, e.path)
    decreases |Below(s, e.path)|, 2, 0, 0
  {
    if e.kind == FileKind {
      forall k | k in s.nodes
        ensures !IsBelow(k, e.path)
      {
        NothingBelowFile(s, e.path, k);
      }
    } else {
      RmTreeRemoves(s, e.path, m);
    }
  }

  /**
   * The foreach of `rm` over distinct, existing entries removes exactly their
   * subtrees, and every `rm` it calls succeeds.
   */
  lemma {:induction false} RmEntriesRemoves(s: FsState, p: Path, names: seq<string>, i: nat, m: Matcher)
    requires s.Valid() && p != "" && NoTrailingSlash(p) && NamesOk(names) && i <= |names|
    requires DefaultMatchesChildren(m)
    requires forall a :: i <= a < |names| && IsEntryName(names[a]) ==> p + "/" + names[a] in s.nodes
    requires forall a, b :: i <= a < b < |names| ==> names[a] != names[b]
    ensures RmEntries(s, p, names, i, m).1
    ensures forall k :: k in RmEntries(s, p, names, i, m).0.nodes <==> k in s.nodes && !UnderListed(k, p, names, i)
    decreases |Below(s, p)|, 0, |names| - i, 1
  {
    var j := DefaultFilter(s, p, m).NextIndex(names, i);
    SkippedAreDots(s, p, names, i, m);
    forall k {
      UnderListedStep(k, p, names, i, j);
    }
    if j < |names| {
      ChildEntry(s, p, names[j]);
      var e := EntryFor(s, p + "/" + names[j]).value;
      RmEntriesStep(s, p, names, i, m, e);
      RmAtRemoves(s, p, names, j, e, m);
    } else {
      RmEntriesDone(s, p, names, i, m);
    }
  }

  /** The turn at the entry `names[j]` removes its subtree, then the rest of the walk removes what lies under the later names. */
  lemma {:induction false} RmAtRemoves(s: FsState, p: Path, names: seq<string>, j: nat, e: Entry, m: Matcher)
    requires s.Valid() && p != "" && NoTrailingSlash(p) && NamesOk(names) && j < |names|
    requires EntryFor(s, p + "/" + names[j]) == Some(e) && !DefaultFilter(s, p, m).Skips(names[j])
    requires DefaultMatchesChildren(m) && IsEntryName(names[j])
    requires forall a :: j <= a < |names| && IsEntryName(names[a]) ==> p + "/" + names[a] in s.nodes
    requires forall a, b :: j <= a < b < |names| ==> names[a] != names[b]
    ensures RmAt(s, p, names, j, e, m).1
    ensures forall k :: k in RmAt(s, p, names, j, e, m).0.nodes <==>
              k in s.nodes && !AtOrBelow(k, p + "/" + names[j]) && !UnderListed(k, p, names, j + 1)
    decreases |Below(s, p)|, 0, |names| - j, 0
  {
    var c := p + "/" + names[j];
    ChildEntry(s, p, names[j]);
    BelowShrinks(s, p, c);
    var s1 := RmObject(s, e, m).0;
    RmObjectInside(s, s1, p, c);
    RmObjectRemoves(s, e, m);
    SiblingsSurvive(s.nodes.Keys, s1.nodes.Keys, p, names, j);
    RmEntriesRemoves(s1, p, names, j + 1, m);
    RmAtStep(s, p, names, j, e, m);
  }

  /** The default walk passes over no entry name. */
  lemma SkippedAreDots(s: FsState, p: Path, names: seq<string>, i: nat, m: Matcher)
    requires i <= |names| && DefaultMatchesChildren(m)
    ensures DefaultFilter(s, p, m).NextIndex(names, i) <= |names|
    ensures forall a :: i <= a < DefaultFilter(s, p, m).NextIndex(names, i) ==> !IsEntryName(names[a])
  {
    var j := DefaultFilter(s, p, m).NextIndex(names, i);
    forall a | i <= a < j
      ensures !IsEntryName(names[a])
    {
      if IsEntryName(names[a]) {
        DefaultSkipsOnlyDots(s, p, m, names[a]);
      }
    }
  }

  /** Removing the subtree of one entry keeps the entries listed after it, which are its siblings. */
  lemma SiblingsSurvive(keys: set<Path>, keys1: set<Path>, p: Path, names: seq<string>, j: nat)
    requires j < |names| && IsEntryName(names[j])
    requires forall a :: j <= a < |names| && IsEntryName(names[a]) ==> p + "/" + names[a] in keys
    requires forall a, b :: j <= a < b < |names| ==> names[a] != names[b]
    requires forall k :: k in keys1 <==> k in keys && !AtOrBelow(k, p + "/" + names[j])
    ensures forall a :: j + 1 <= a < |names| && IsEntryName(names[a]) ==> p + "/" + names[a] in keys1
  {
    forall a | j + 1 <= a < |names| && IsEntryName(names[a])
      ensures p + "/" + names[a] in keys1
    {
      SiblingsApart(p, names[j], names[a]);
    }
  }

  /**
   * File's `fix_destination`: a destination that is a directory receives the
   * file under its own basename (a slash is added unless one ends `dest`);
   * any other destination is used as given.
   */
  function FixDestination(s: FsState, path: Path, dest: Path): (r: Path)
  {
    if s.IsDir(dest) then (if EndsWith(dest, "/") then dest else dest + "/") + Basename(path) else dest
  }

  /** The basename of a child path is the child's name. */
  lemma ChildBasename(p: Path, n: string)
    requires IsEntryName(n)
    ensures Basename(p + "/" + n) == n
  {
    var k := p + "/" + n;
    assert RTrimSlash(k) == k;
    assert k[|p|] == '/';
    assert forall i :: |p| < i < |k| ==> k[i] == n[i - |p| - 1];
    assert LastSlash(k) == |p|;
    assert k[|p| + 1..] == n;
  }

  /** With an ordinary destination directory, the fixed destination is the file's name inside it. */
  lemma FixDestinationSpec(s: FsState, path: Path, dest: Path)
    ensures !s.IsDir(dest) ==> FixDestination(s, path, dest) == dest
    ensures s.IsDir(dest) && NoTrailingSlash(dest) ==> FixDestination(s, path, dest) == dest + "/" + Basename(path)
    ensures s.IsDir(dest) && dest != "" && !NoTrailingSlash(dest) ==> FixDestination(s, path, dest) == dest + Basename(path)
    ensures s.IsDir(dest) && NoTrailingSlash(dest) && IsEntryName(Basename(path)) ==>
              Basename(FixDestination(s, path, dest)) == Basename(path) && IsChildOf(FixDestination(s, path, dest), dest)
  {
    if s.IsDir(dest) && NoTrailingSlash(dest) {
      assert dest == "" || !EndsWith(dest, "/");
      if IsEntryName(Basename(path)) {
        ChildBasename(dest, Basename(path));
        ChildBelow(dest, Basename(path));
      }
    }
    if s.IsDir(dest) && dest != "" && !NoTrailingSlash(dest) {
      assert dest[|dest| - 1..] == "/";
    }
  }

  /** A stored path has a nonempty last component. */
  lemma StoredHasBasename(k: Path)
    requires WellFormed(k)
    ensures Basename(k) != ""
  {
    assert RTrimSlash(k) == k;
    assert LastSlash(k) < |k| - 1;
  }

  /** A destination without a trailing slash gets the file at or below it. */
  lemma FixDestinationBelow(s: FsState, path: Path, dest: Path)
    requires NoTrailingSlash(dest) && Basename(path) != ""
    ensures AtOrBelow(FixDestination(s, path, dest), dest)
  {
    FixDestinationSpec(s, path, dest);
    var fd := FixDestination(s, path, dest);
    if s.IsDir(dest) {
      assert fd == dest + "/" + Basename(path);
      assert fd[..|dest| + 1] == dest + "/";
    }
  }

  /** What a recursive copy may do: only paths comparable with `d` are created, only paths at or below `d` change. */
  ghost predicate CopyFrame(s: FsState, r: FsState, d: Path)
  {
    (forall k :: k in s.nodes && !AtOrBelow(k, d) ==> k in r.nodes && r.nodes[k] == s.nodes[k]) &&
    (forall k :: k in r.nodes && k !in s.nodes ==> Comparable(k, d))
  }

  /** A destination disjoint from `src` gains nothing inside `src`. */
  lemma CopyFrameKeepsBelow(s: FsState, r: FsState, d: Path, src: Path)
    requires CopyFrame(s, r, d)
    requires NoTrailingSlash(src) && NoTrailingSlash(d) && !Comparable(src, d)
    ensures Below(r, src) <= Below(s, src)
  {
    forall k | k in Below(r, src)
      ensures k in Below(s, src)
    {
      if k !in s.nodes {
        assert Comparable(k, d);
        if AtOrBelow(k, d) {
          CommonDescendant(k, src, d);
        } else if d != k {
          BelowTransitive(d, k, src);
        }
      }
    }
  }

  /**
   * `Dir(src)->copy_to(dst)`: nothing when `src` does not exist; otherwise
   * `Dir(dst)->rm()->create()`, then every yielded entry is copied to the
   * destination path under its own name.
   */
  function CopyTree(table: map<string, Value>, s: FsState, src: Path, dst: Path, m: Matcher): (r: FsState)
    requires s.Valid() && NoTrailingSlash(src) && !Comparable(src, RTrimSlash(dst))
    ensures r.Valid() && CopyFrame(s, r, RTrimSlash(dst))
    decreases |Below(s, src)|, 1, 0, 0
  {
    var d := RTrimSlash(dst);
    if !s.Exists(src) then s
    else
      ExistingIsKey(s, src);
      var s2 := MkdirEffect(table, RmTree(s, d, m), d, Null, true).0;
      RecreateFrame(table, s, d, m);
      CopyFrameKeepsBelow(s, s2, d, src);
      SubsetCard(Below(s2, src), Below(s, src));
      ListingNamesOk(s2, src);
      var r := CopyEntries(table, s2, src, d, s2.Listing(src), 0, m);
      CopyFrameTransitive(s, s2, r, d);
      r
  }

  /** `Dir(d)->rm()->create()` stays within what a copy into `d` may do. */
  lemma RecreateFrame(table: map<string, Value>, s: FsState, d: Path, m: Matcher)
    requires s.Valid() && NoTrailingSlash(d)
    ensures MkdirEffect(table, RmTree(s, d, m), d, Null, true).0.Valid()
    ensures CopyFrame(s, MkdirEffect(table, RmTree(s, d, m), d, Null, true).0, d)
  {
    var s1 := RmTree(s, d, m);
    assert CopyFrame(s, s1, d);
    MkdirFrame(table, s1, d);
    CopyFrameTransitive(s, s1, MkdirEffect(table, s1, d, Null, true).0, d);
  }

  /** `create()` on `d` stays within what a copy into `d` may do. */
  lemma MkdirFrame(table: map<string, Value>, s: FsState, d: Path)
    requires NoTrailingSlash(d)
    ensures CopyFrame(s, MkdirEffect(table, s, d, Null, true).0, d)
  {
    var arg := IntArg(PermissionFor(table, s, None, Null, "mod", "dir"));
    if !s.Exists(d) && arg.Some? {
      var r := s.Mkdir(d, arg.value, true);
      assert MkdirEffect(table, s, d, Null, true) == r;
      if r.1 {
        assert RTrimSlash(d) == d;
        forall k | k in r.0.nodes && k !in s.nodes
          ensures Comparable(k, d)
        {
          assert AtOrBelow(d, k);
        }
      }
    }
  }

  /** Copying a file to a path at or below `t` stays within what a copy into `t` may do. */
  lemma CopyFileFrame(s: FsState, a: Path, fd: Path, t: Path)
    requires AtOrBelow(fd, t)
    ensures CopyFrame(s, s.Copy(a, fd).0, t)
  {
  }

  /** Two steps of a copy into `d` are a copy into `d`. */
  lemma CopyFrameTransitive(s: FsState, t: FsState, r: FsState, d: Path)
    requires CopyFrame(s, t, d) && CopyFrame(t, r, d)
    ensures CopyFrame(s, r, d)
  {
  }

  /** `obj->copy_to(t)` for a yielded object: `copy` to the fixed destination for a File, the recursive copy for a Dir. */
  function CopyObject(table: map<string, Value>, s: FsState, e: Entry, t: Path, m: Matcher): (r: FsState)
    requires s.Valid() && e.path in s.nodes && NoTrailingSlash(e.path) && NoTrailingSlash(t) && !Comparable(e.path, t)
    ensures r.Valid() && CopyFrame(s, r, t)
    decreases |Below(s, e.path)|, 2, 0, 0
  {
    if e.kind == FileKind then
      var fd := FixDestination(s, e.path, t);
      CopyValid(s, e.path, fd);
      StoredHasBasename(e.path);
      FixDestinationBelow(s, e.path, t);
      CopyFileFrame(s, e.path, fd, t);
      s.Copy(e.path, fd).0
    else
      assert RTrimSlash(t) == t;
      CopyTree(table, s, e.path, t, m)
  }

  /** The foreach of `copy_to` from listing position `i`: each yielded entry of `src` goes to `d/name`. */
  function CopyEntries(table: map<string, Value>, s: FsState, src: Path, d: Path, names: seq<string>, i: nat, m: Matcher): (r: FsState)
    requires s.Valid() && src != "" && NoTrailingSlash(src) && NoTrailingSlash(d) && !Comparable(src, d)
    requires NamesOk(names) && i <= |names|
    ensures r.Valid() && CopyFrame(s, r, d)
    decreases |Below(s, src)|, 0, |names| - i, 1
  {
    var j := DefaultFilter(s, src, m).NextIndex(names, i);
    if j == |names| then s
    else
      match EntryFor(s, src + "/" + names[j])
      case None => s
      case Some(e) => CopyAt(table, s, src, d, names, j, e, m)
  }

  /** The turn of the foreach that stops at `names[j]`, whose object is `e`: `e` goes to `d/name`, then the walk goes on. */
  function CopyAt(table: map<string, Value>, s: FsState, src: Path, d: Path, names: seq<string>, j: nat, e: Entry, m: Matcher): (r: FsState)
    requires s.Valid() && src != "" && NoTrailingSlash(src) && NoTrailingSlash(d) && !Comparable(src, d)
    requires NamesOk(names) && j < |names|
    requires EntryFor(s, src + "/" + names[j]) == Some(e) && !DefaultFilter(s, src, m).Skips(names[j])
    ensures r.Valid() && CopyFrame(s, r, d)
    decreases |Below(s, src)|, 0, |names| - j, 0
  {
    ChildEntry(s, src, names[j]);
    ChildBasename(src, names[j]);
    var t := d + "/" + Basename(e.path);
    ChildrenStayApart(src, d, names[j]);
    BelowShrinks(s, src, e.path);
    var s1 := CopyObject(table, s, e, t, m);
    ChildFrameInParent(s, s1, d, names[j]);
    CopyFrameKeepsBelow(s, s1, d, src);
    SubsetCard(Below(s1, src), Below(s, src));
    CopyEntries(table, s1, src, d, names, j + 1, m)
  }

  /** One turn of the copying foreach: the entry the walk stops at is the one CopyAt copies. */
  lemma CopyEntriesStep(table: map<string, Value>, s: FsState, src: Path, d: Path, names: seq<string>, i: nat, m: Matcher, e: Entry)
    requires s.Valid() && src != "" && NoTrailingSlash(src) && NoTrailingSlash(d) && !Comparable(src, d)
    requires NamesOk(names) && i <= |names|
    requires DefaultFilter(s, src, m).NextIndex(names, i) < |names|
    requires EntryFor(s, src + "/" + names[DefaultFilter(s, src, m).NextIndex(names, i)]) == Some(e)
    ensures !DefaultFilter(s, src, m).Skips(names[DefaultFilter(s, src, m).NextIndex(names, i)])
    ensures CopyEntries(table, s, src, d, names, i, m) == CopyAt(table, s, src, d, names, DefaultFilter(s, src, m).NextIndex(names, i), e, m)
  {
    var j := DefaultFilter(s, src, m).NextIndex(names, i);
    ChildEntry(s, src, names[j]);
    assert CopyEntries(table, s, src, d, names, i, m) == CopyAt(table, s, src, d, names, j, e, m);
  }

  /** CopyAt copies `e` to `d/names[j]` and goes on from `j + 1`. */
  lemma CopyAtStep(table: map<string, Value>, s: FsState, src: Path, d: Path, names: seq<string>, j: nat, e: Entry, m: Matcher)
    requires s.Valid() && src != "" && NoTrailingSlash(src) && NoTrailingSlash(d) && !Comparable(src, d)
    requires NamesOk(names) && j < |names|
    requires EntryFor(s, src + "/" + names[j]) == Some(e) && !DefaultFilter(s, src, m).Skips(names[j])
    ensures e.path == src + "/" + names[j] && Basename(e.path) == names[j] && IsEntryName(names[j])
    ensures e.path in s.nodes && NoTrailingSlash(e.path) && IsBelow(e.path, src)
    ensures NoTrailingSlash(d + "/" + names[j]) && !Comparable(e.path, d + "/" + names[j])
    ensures CopyAt(table, s, src, d, names, j, e, m) ==
            CopyEntries(table, CopyObject(table, s, e, d + "/" + names[j], m), src, d, names, j + 1, m)
  {
    CopyAtFacts(s, src, d, names, j, e, m);
    var t := d + "/" + names[j];
    assert d + "/" + Basename(e.path) == t;
  }

  /** The entry a turn copies is the child `src/names[j]`, and its target `d/names[j]` stays apart from it. */
  lemma CopyAtFacts(s: FsState, src: Path, d: Path, names: seq<string>, j: nat, e: Entry, m: Matcher)
    requires NoTrailingSlash(src) && NoTrailingSlash(d) && !Comparable(src, d)
    requires NamesOk(names) && j < |names|
    requires EntryFor(s, src + "/" + names[j]) == Some(e) && !DefaultFilter(s, src, m).Skips(names[j])
    ensures e.path == src + "/" + names[j] && Basename(e.path) == names[j] && IsEntryName(names[j])
    ensures e.path in s.nodes && NoTrailingSlash(e.path) && IsBelow(e.path, src)
    ensures NoTrailingSlash(d + "/" + names[j]) && !Comparable(e.path, d + "/" + names[j])
  {
    assert IsEntryName(names[j]);
    ChildEntry(s, src, names[j]);
    CopyTargetApart(src, d, names[j]);
  }

  /** The child `src/n` is named `n`, and the target `d/n` has no trailing slash and stays apart from it. */
  lemma CopyTargetApart(src: Path, d: Path, n: string)
    requires IsEntryName(n) && NoTrailingSlash(src) && NoTrailingSlash(d) && !Comparable(src, d)
    ensures Basename(src + "/" + n) == n
    ensures NoTrailingSlash(src + "/" + n) && NoTrailingSlash(d + "/" + n) && !Comparable(src + "/" + n, d + "/" + n)
  {
    ChildBasename(src, n);
    ChildrenStayApart(src, d, n);
    var t := d + "/" + n;
    assert t[|t| - 1] == n[|n| - 1];
    var c := src + "/" + n;
    assert c[|c| - 1] == n[|n| - 1];
  }

  /** What a copy into `d/n` may do, a copy into `d` may do. */
  lemma ChildFrameInParent(s: FsState, r: FsState, d: Path, n: string)
    requires IsEntryName(n) && NoTrailingSlash(d) && CopyFrame(s, r, d + "/" + n)
    ensures CopyFrame(s, r, d)
  {
    var t := d + "/" + n;
    ChildBelow(d, n);
    forall k | k in s.nodes && !AtOrBelow(k, d)
      ensures !AtOrBelow(k, t)
    {
      if IsBelow(k, t) {
        BelowTransitive(k, t, d);
      }
    }
    forall k | k in r.nodes && k !in s.nodes
      ensures Comparable(k, d)
    {
      if IsBelow(k, t) {
        BelowTransitive(k, t, d);
      } else if IsBelow(t, k) {
        ChildContainedMeansContained(d, n, k);
      }
    }
  }

  /** `Dir(src)->move_to(dst)`: `copy_to(dst)`, then `rm()` of the source. */
  function MoveTree(table: map<string, Value>, s: FsState, src: Path, dst: Path, m: Matcher): (r: FsState)
    requires s.Valid() && NoTrailingSlash(src) && !Comparable(src, RTrimSlash(dst))
    ensures r.Valid()
    ensures forall k :: k in s.nodes && !AtOrBelow(k, src) && !AtOrBelow(k, RTrimSlash(dst)) ==> k in r.nodes && r.nodes[k] == s.nodes[k]
  {
    RmTree(CopyTree(table, s, src, dst, m), src, m)
  }

  /**
   * Where the foreach of `copy_to` from `src` into `d` stands: the entries
   * of `names` yielded before index `i` have been copied (the state is now
   * `s`), the iterator holds handle `h` and slot `cur` built from `name`,
   * and finishing the walk gives `goal`. `s0` is the state before the copy.
   */
  ghost predicate CopyWalk(table: map<string, Value>, s0: FsState, s: FsState, src: Path, d: Path,
                           names: seq<string>, i: nat, h: Option<Handle>, cur: Slot, name: string, m: Matcher,
                           goal: FsState)
  {
    s.Valid() && src != "" && NoTrailingSlash(src) && NoTrailingSlash(d) &&
    !Comparable(src, d) && NamesOk(names) && i <= |names| && |Below(s, src)| <= |Below(s0, src)| &&
    CopyEntries(table, s, src, d, names, i, m) == goal &&
    Stopped(s, src, m, names, i, h, cur, name)
  }

  /**
   * `copy_to` of an existing directory is `Dir(dst)->rm()->create()`, which
   * leaves no more inside `src` than before, followed by the foreach over
   * the listing of `src` in the state that gives.
   */
  lemma CopyTreeSteps(table: map<string, Value>, s0: FsState, src: Path, dst: Path, m: Matcher)
    requires s0.Valid() && s0.Exists(src) && NoTrailingSlash(src) && !Comparable(src, RTrimSlash(dst))
    ensures var s2 := MkdirEffect(table, RmTree(s0, RTrimSlash(dst), m), RTrimSlash(dst), Null, true).0;
            s2.Valid() && src != "" && |Below(s2, src)| <= |Below(s0, src)| && NamesOk(s2.Listing(src)) &&
            CopyTree(table, s0, src, dst, m) == CopyEntries(table, s2, src, RTrimSlash(dst), s2.Listing(src), 0, m)
  {
    var d := RTrimSlash(dst);
    var s2 := MkdirEffect(table, RmTree(s0, d, m), d, Null, true).0;
    ExistingIsKey(s0, src);
    RecreateFrame(table, s0, d, m);
    CopyFrameKeepsBelow(s0, s2, d, src);
    SubsetCard(Below(s2, src), Below(s0, src));
    ListingNamesOk(s2, src);
  }

  /** The walk as `rewind` leaves it: nothing copied yet. */
  lemma CopyWalkStart(table: map<string, Value>, s0: FsState, src: Path, d: Path,
                      h: Option<Handle>, cur: Slot, name: string, m: Matcher)
    requires s0.Valid() && src != "" && NoTrailingSlash(src) && NoTrailingSlash(d) && !Comparable(src, d)
    requires Stopped(s0, src, m, s0.Listing(src), 0, h, cur, name)
    ensures NamesOk(s0.Listing(src))
    ensures CopyWalk(table, s0, s0, src, d, s0.Listing(src), 0, h, cur, name, m,
                     CopyEntries(table, s0, src, d, s0.Listing(src), 0, m))
  {
    ListingNamesOk(s0, src);
  }

  /** The entry the walk stands at is named `name`, can be copied to `d/name`, and has less below it than `src` had in `s0`. */
  lemma CopyWalkChild(table: map<string, Value>, s0: FsState, s: FsState, src: Path, d: Path,
                      names: seq<string>, i: nat, h: Option<Handle>, cur: Slot, name: string, m: Matcher, goal: FsState)
    requires CopyWalk(table, s0, s, src, d, names, i, h, cur, name, m, goal) && cur.At?
    ensures h.Some? && Basename(cur.entry.path) == name
    ensures cur.entry.path in s.nodes && NoTrailingSlash(cur.entry.path)
    ensures NoTrailingSlash(d + "/" + name) && !Comparable(cur.entry.path, d + "/" + name)
    ensures |Below(s, cur.entry.path)| < |Below(s0, src)|
  {
    var j := DefaultFilter(s, src, m).NextIndex(names, i);
    CopyAtStep(table, s, src, d, names, j, cur.entry, m);
    BelowShrinks(s, src, cur.entry.path);
  }

  /** Copying an entry of `src` into `d/n` adds nothing below `src`. */
  lemma CopyTurnKeepsBelow(table: map<string, Value>, s0: FsState, s: FsState, src: Path, d: Path, n: string,
                           e: Entry, m: Matcher, s1: FsState)
    requires s.Valid() && NoTrailingSlash(src) && NoTrailingSlash(d) && !Comparable(src, d) && IsEntryName(n)
    requires e.path in s.nodes && NoTrailingSlash(e.path) && NoTrailingSlash(d + "/" + n) && !Comparable(e.path, d + "/" + n)
    requires |Below(s, src)| <= |Below(s0, src)|
    requires s1 == CopyObject(table, s, e, d + "/" + n, m)
    ensures s1.Valid() && |Below(s1, src)| <= |Below(s0, src)|
  {
    ChildFrameInParent(s, s1, d, n);
    CopyFrameKeepsBelow(s, s1, d, src);
    SubsetCard(Below(s1, src), Below(s, src));
  }

  /** After the turn that copies the entry at index `j`, the rest of the foreach finishes the same copy. */
  lemma CopyTurnRest(table: map<string, Value>, s: FsState, src: Path, d: Path, names: seq<string>, i: nat,
                     e: Entry, m: Matcher, goal: FsState)
    requires s.Valid() && src != "" && NoTrailingSlash(src) && NoTrailingSlash(d) && !Comparable(src, d)
    requires NamesOk(names) && i <= |names| && CopyEntries(table, s, src, d, names, i, m) == goal
    requires DefaultFilter(s, src, m).NextIndex(names, i) < |names|
    requires EntryFor(s, src + "/" + names[DefaultFilter(s, src, m).NextIndex(names, i)]) == Some(e)
    ensures var j := DefaultFilter(s, src, m).NextIndex(names, i);
            e.path in s.nodes && NoTrailingSlash(e.path) && NoTrailingSlash(d + "/" + names[j]) &&
            !Comparable(e.path, d + "/" + names[j]) &&
            CopyEntries(table, CopyObject(table, s, e, d + "/" + names[j], m), src, d, names, j + 1, m) == goal
  {
    var j := DefaultFilter(s, src, m).NextIndex(names, i);
    CopyEntriesStep(table, s, src, d, names, i, m, e);
    CopyAtStep(table, s, src, d, names, j, e, m);
  }

  /**
   * One turn of the foreach: copying the entry the walk stands at into
   * `d/name` and then calling `next` on the new state leaves the walk after
   * that entry, with the same goal.
   */
  lemma CopyWalkStep(table: map<string, Value>, s0: FsState, s: FsState, src: Path, d: Path,
                     names: seq<string>, i: nat, h: Option<Handle>, cur: Slot, name: string, m: Matcher, goal: FsState,
                     s1: FsState, h1: Option<Handle>, cur1: Slot, name1: string)
    requires CopyWalk(table, s0, s, src, d, names, i, h, cur, name, m, goal) && cur.At?
    requires cur.entry.path in s.nodes && NoTrailingSlash(cur.entry.path)
    requires NoTrailingSlash(d + "/" + name) && !Comparable(cur.entry.path, d + "/" + name)
    requires s1 == CopyObject(table, s, cur.entry, d + "/" + name, m)
    requires h.Some? ==> Stopped(s1, src, m, h.value.names, h.value.next, h1, cur1, name1)
    ensures h.Some? && i < h.value.next
    ensures CopyWalk(table, s0, s1, src, d, names, h.value.next, h1, cur1, name1, m, goal)
  {
    var j := DefaultFilter(s, src, m).NextIndex(names, i);
    CopyAtStep(table, s, src, d, names, j, cur.entry, m);
    CopyTurnKeepsBelow(table, s0, s, src, d, names[j], cur.entry, m, s1);
    CopyTurnRest(table, s, src, d, names, i, cur.entry, m, goal);
  }

  /** When the walk has no current entry left, the state is the goal. */
  lemma CopyWalkEnd(table: map<string, Value>, s0: FsState, s: FsState, src: Path, d: Path,
                    names: seq<string>, i: nat, h: Option<Handle>, cur: Slot, name: string, m: Matcher, goal: FsState)
    requires CopyWalk(table, s0, s, src, d, names, i, h, cur, name, m, goal) && !cur.At?
    ensures s == goal
  {
  }
}
