/**
 * What `Dir::copy_to` and `Dir::move_to` leave behind when the regex engine
 * matches every child path: the destination holds a copy of the source's
 * subtree (same paths below it, same kinds, same bytes) and nothing else,
 * and after a move nothing is left at or below the source.
 */
module Copies {
  import opened Core
  import opened Paths
  import opened Os
  import opened FsOptions
  import opened Queries
  import opened DirIterators
  import opened Trees

  /** The path `k`, which lies at or below `from`, put at the same place under `to`. */
  function Rebase(k: Path, from: Path, to: Path): Path
    requires |from| <= |k|
  {
    to + k[|from|..]
  }

  /** Entries of the same kind and, for regular files, with the same bytes (modes may differ). */
  predicate SameContent(a: Node, b: Node)
  {
    a.Directory? == b.Directory? && (a.Regular? && b.Regular? ==> a.data == b.data)
  }

  /** The configured directory mode is something `mkdir` accepts as an integer. */
  predicate NumericDirMode(table: map<string, Value>)
  {
    IntArg(IssetOr(table, "dir_mod")).Some?
  }

  /**
   * `r` is `s` with a copy of the subtree at `src` placed at `t`: every
   * entry of `s` stays as it was, every new entry lies at or below `t` and
   * copies the source entry at the same place, and every entry at or below
   * `src` has its copy.
   */
  ghost predicate Copied(s: FsState, r: FsState, src: Path, t: Path)
  {
    (forall k :: k in s.nodes ==> k in r.nodes && r.nodes[k] == s.nodes[k]) &&
    (forall k :: k in r.nodes && k !in s.nodes ==>
       AtOrBelow(k, t) && Rebase(k, t, src) in s.nodes && SameContent(r.nodes[k], s.nodes[Rebase(k, t, src)])) &&
    (forall k :: k in s.nodes && AtOrBelow(k, src) ==>
       Rebase(k, src, t) in r.nodes && SameContent(r.nodes[Rebase(k, src, t)], s.nodes[k]))
  }

  /**
   * `r` is `s` with the entries `src/names[a]`, `a >= i`, and what lies
   * below them copied to the same places under `d`.
   */
  ghost predicate CopiedEntries(s: FsState, r: FsState, src: Path, d: Path, names: seq<string>, i: nat)
  {
    (forall k :: k in s.nodes ==> k in r.nodes && r.nodes[k] == s.nodes[k]) &&
    (forall k :: k in r.nodes && k !in s.nodes ==>
       IsBelow(k, d) && Rebase(k, d, src) in s.nodes && UnderListed(Rebase(k, d, src), src, names, i) &&
       SameContent(r.nodes[k], s.nodes[Rebase(k, d, src)])) &&
    (forall k :: k in s.nodes && UnderListed(k, src, names, i) ==>
       IsBelow(k, src) && Rebase(k, src, d) in r.nodes && SameContent(r.nodes[Rebase(k, src, d)], s.nodes[k]))
  }

  /**
   * Where the copying foreach can run from index `i` without meeting
   * anything in its way: `d` is a directory, the names still to come are
   * distinct entries of `src`, and nothing exists yet at or below their
   * targets `d/name`.
   */
  ghost predicate CopyReady(s: FsState, src: Path, d: Path, names: seq<string>, i: nat)
  {
    s.Valid() && src != "" && NoTrailingSlash(src) && NoTrailingSlash(d) && !Comparable(src, d) &&
    NamesOk(names) && i <= |names| && d in s.nodes && s.nodes[d].Directory? &&
    (forall a :: i <= a < |names| && IsEntryName(names[a]) ==> src + "/" + names[a] in s.nodes) &&
    (forall a, b :: i <= a < b < |names| ==> names[a] != names[b]) &&
    (forall a, k :: i <= a < |names| && IsEntryName(names[a]) && k in s.nodes ==> !AtOrBelow(k, d + "/" + names[a]))
  }

  /** A path at or below `a/n` moves under `b/n` as it moves under `b`. */
  lemma RebaseChild(k: Path, a: Path, b: Path, n: string)
    requires AtOrBelow(k, a + "/" + n)
    ensures |a| <= |k| && Rebase(k, a + "/" + n, b + "/" + n) == Rebase(k, a, b)
  {
    var an := a + "/" + n;
    assert k[..|an|] == an;
    assert k[|a|..] == k[|a|..|an|] + k[|an|..];
    assert k[|a|..|an|] == an[|a|..] == "/" + n;
  }

  /** A path moved from `p` to itself stays, and `p` moves to the other end. */
  lemma RebaseEnds(p: Path, q: Path)
    ensures Rebase(p, p, q) == q
  {
    assert p[|p|..] == "";
  }

  /** A new entry `d/n` in a directory `d` of the filesystem can be created. */
  lemma ChildCreatable(s: FsState, d: Path, n: string)
    requires s.Valid() && d in s.nodes && s.nodes[d].Directory? && IsEntryName(n)
    ensures s.CanCreate(d + "/" + n) && NoTrailingSlash(d + "/" + n)
  {
    assert WellFormed(d);
    ChildWellFormed(d, n);
    ChildParent(d, n);
  }

  /** `mkdir(t, mode, true)` where only `t` is missing creates just `t`. */
  lemma MkdirFresh(s: FsState, t: Path, mode: int)
    requires s.Valid() && s.CanCreate(t) && t !in s.nodes
    ensures s.Mkdir(t, mode, true) == (s.Insert(t, Directory(Attrs(mode, Null, Null))), true)
  {
    RTrimNoSlash(t);
    assert !s.Exists(t);
    match Parent(t)
    case None =>
    case Some(q) =>
      assert q in s.nodes && WellFormed(q) && NamesEntry(q);
      assert s.MakeDirs(q, mode) == Some(s);
  }

  /** `Dir(t)->rm()->create()` on a missing `t` whose directory exists creates just `t`. */
  lemma RecreateFresh(table: map<string, Value>, s: FsState, t: Path, m: Matcher)
    requires s.Valid() && s.CanCreate(t) && t !in s.nodes && NumericDirMode(table)
    ensures NoTrailingSlash(t) && RTrimSlash(t) == t
    ensures MkdirEffect(table, RmTree(s, t, m), t, Null, true).0.nodes == s.nodes[t := Directory(Attrs(IntArg(IssetOr(table, "dir_mod")).value, Null, Null))]
  {
    RTrimNoSlash(t);
    assert !s.Exists(t);
    assert RmTree(s, t, m) == s;
    DirModeOption(table, s);
    MkdirFresh(s, t, IntArg(IssetOr(table, "dir_mod")).value);
  }

  /**
   * Copying a yielded object to a fresh target `t` whose directory exists
   * places a copy of its subtree at `t` and changes nothing else.
   */
  lemma {:induction false} CopyObjectCopies(table: map<string, Value>, s: FsState, e: Entry, t: Path, m: Matcher)
    requires s.Valid() && e.path in s.nodes && NoTrailingSlash(e.path) && NoTrailingSlash(t) && !Comparable(e.path, t)
    requires DefaultMatchesChildren(m) && NumericDirMode(table)
    requires e.kind == DirKind <==> s.nodes[e.path].Directory?
    requires s.CanCreate(t) && forall k :: k in s.nodes ==> !AtOrBelow(k, t)
    ensures Copied(s, CopyObject(table, s, e, t, m), e.path, t)
    decreases |Below(s, e.path)|, 2, 0, 0
  {
    if e.kind == FileKind {
      FileCopied(s, e.path, t);
    } else {
      RTrimNoSlash(t);
      assert CopyObject(table, s, e, t, m) == CopyTree(table, s, e.path, t, m);
      CopyTreeFresh(table, s, e.path, t, m);
    }
  }

  /** `copy` of a regular file to a fresh target: the target is a file with the same bytes. */
  lemma FileCopied(s: FsState, a: Path, t: Path)
    requires s.Valid() && a in s.nodes && s.nodes[a].Regular? && NoTrailingSlash(a) && !Comparable(a, t)
    requires s.CanCreate(t) && forall k :: k in s.nodes ==> !AtOrBelow(k, t)
    ensures FixDestination(s, a, t) == t && s.Copy(a, t).1
    ensures Copied(s, s.Copy(a, t).0, a, t)
  {
    assert t !in s.nodes && RTrimSlash(t) == t;
    assert !s.IsDir(t);
    assert a != t;
    var r := s.Copy(a, t);
    assert r.1;
    forall k | k in s.nodes && AtOrBelow(k, a)
      ensures k == a
    {
      NothingBelowFile(s, a, k);
    }
    FileCopiedKeys(s, r.0, a, t);
  }

  lemma FileCopiedKeys(s: FsState, r: FsState, a: Path, t: Path)
    requires a in s.nodes && s.nodes[a].Regular? && t !in s.nodes
    requires forall k :: k in s.nodes && AtOrBelow(k, a) ==> k == a
    requires r.nodes.Keys == s.nodes.Keys + {t} && r.nodes[t].Regular? && r.nodes[t].data == s.nodes[a].data
    requires forall k :: k in s.nodes && k != t ==> r.nodes[k] == s.nodes[k]
    ensures Copied(s, r, a, t)
  {
    forall k | k in s.nodes
      ensures k in r.nodes && r.nodes[k] == s.nodes[k]
    {
      assert k != t;
    }
    forall k | k in r.nodes && k !in s.nodes
      ensures AtOrBelow(k, t) && Rebase(k, t, a) in s.nodes && SameContent(r.nodes[k], s.nodes[Rebase(k, t, a)])
    {
      assert k == t;
      RebaseEnds(t, a);
    }
    forall k | k in s.nodes && AtOrBelow(k, a)
      ensures Rebase(k, a, t) in r.nodes && SameContent(r.nodes[Rebase(k, a, t)], s.nodes[k])
    {
      RebaseEnds(a, t);
    }
  }

  /**
   * `copy_to` of a directory to a fresh target `t` whose directory exists:
   * `t` is created and receives a copy of the whole subtree, and nothing
   * else changes.
   */
  lemma {:induction false} CopyTreeFresh(table: map<string, Value>, s: FsState, src: Path, t: Path, m: Matcher)
    requires s.Valid() && src in s.nodes && s.nodes[src].Directory? && NoTrailingSlash(src) && NoTrailingSlash(t)
    requires !Comparable(src, t) && DefaultMatchesChildren(m) && NumericDirMode(table)
    requires s.CanCreate(t) && forall k :: k in s.nodes ==> !AtOrBelow(k, t)
    ensures RTrimSlash(t) == t
    ensures Copied(s, CopyTree(table, s, src, t, m), src, t)
    decreases |Below(s, src)|, 1, 0, 0
  {
    RecreateFresh(table, s, t, m);
    var s2 := MkdirEffect(table, RmTree(s, t, m), t, Null, true).0;
    var dn := Directory(Attrs(IntArg(IssetOr(table, "dir_mod")).value, Null, Null));
    CopyTreeSteps(table, s, src, t, m);
    var names := s2.Listing(src);
    FreshReady(s, s2, dn, src, t, names);
    CopyEntriesCopies(table, s2, src, t, names, 0, m);
    var r := CopyEntries(table, s2, src, t, names, 0, m);
    FreshCopied(s, s2, dn, r, src, t, names);
  }

  /** After creating the fresh target `t`, the foreach over the listing of `src` is ready to run. */
  lemma FreshReady(s: FsState, s2: FsState, dn: Node, src: Path, t: Path, names: seq<string>)
    requires s.Valid() && s2.Valid() && src in s.nodes && s.nodes[src].Directory? && NoTrailingSlash(src) && NoTrailingSlash(t)
    requires !Comparable(src, t) && t !in s.nodes && (forall k :: k in s.nodes ==> !AtOrBelow(k, t))
    requires s2.nodes == s.nodes[t := dn] && dn.Directory?
    requires names == s2.Listing(src) && NamesOk(names)
    ensures CopyReady(s2, src, t, names, 0)
  {
    assert src != t && src != "";
    assert src in s2.nodes && s2.nodes[src].Directory?;
    ListingEntriesExist(s2, src);
    ListingDistinct(s2, src);
    TargetsFree(s, s2, dn, t, names);
  }

  /** Nothing at or below `t` but `t` itself leaves every `t/name` free. */
  lemma TargetsFree(s: FsState, s2: FsState, dn: Node, t: Path, names: seq<string>)
    requires (forall k :: k in s.nodes ==> !AtOrBelow(k, t)) && s2.nodes == s.nodes[t := dn]
    ensures forall a, k :: 0 <= a < |names| && IsEntryName(names[a]) && k in s2.nodes ==> !AtOrBelow(k, t + "/" + names[a])
  {
    forall a, k | 0 <= a < |names| && IsEntryName(names[a]) && k in s2.nodes
      ensures !AtOrBelow(k, t + "/" + names[a])
    {
      ChildBelow(t, names[a]);
      if k != t && AtOrBelow(k, t + "/" + names[a]) {
        if k != t + "/" + names[a] {
          BelowTransitive(k, t + "/" + names[a], t);
        }
      }
    }
  }

  /** The copy into the fresh `t` is `t` itself plus what the foreach copied below it. */
  lemma FreshCopied(s: FsState, s2: FsState, dn: Node, r: FsState, src: Path, t: Path, names: seq<string>)
    requires s2.Valid() && src in s.nodes && s.nodes[src].Directory? && NoTrailingSlash(src)
    requires !Comparable(src, t) && t !in s.nodes
    requires s2.nodes == s.nodes[t := dn] && dn.Directory?
    requires names == s2.Listing(src)
    requires CopiedEntries(s2, r, src, t, names, 0)
    ensures Copied(s, r, src, t)
  {
    FreshCopiedNew(s, s2, dn, r, src, t, names);
    FreshCopiedOld(s, s2, dn, r, src, t, names);
  }

  lemma FreshCopiedNew(s: FsState, s2: FsState, dn: Node, r: FsState, src: Path, t: Path, names: seq<string>)
    requires src in s.nodes && s.nodes[src].Directory? && !Comparable(src, t) && t !in s.nodes
    requires s2.nodes == s.nodes[t := dn] && dn.Directory?
    requires CopiedEntries(s2, r, src, t, names, 0)
    ensures forall k :: k in r.nodes && k !in s.nodes ==>
              AtOrBelow(k, t) && Rebase(k, t, src) in s.nodes && SameContent(r.nodes[k], s.nodes[Rebase(k, t, src)])
  {
    UnderListedIsBelow(src, names, 0);
    RebaseEnds(t, src);
    forall k | k in r.nodes && k !in s.nodes
      ensures AtOrBelow(k, t) && Rebase(k, t, src) in s.nodes && SameContent(r.nodes[k], s.nodes[Rebase(k, t, src)])
    {
      if k != t {
        var u := Rebase(k, t, src);
        assert IsBelow(u, src);
        assert u != t;
      }
    }
  }

  lemma FreshCopiedOld(s: FsState, s2: FsState, dn: Node, r: FsState, src: Path, t: Path, names: seq<string>)
    requires s2.Valid() && src in s.nodes && s.nodes[src].Directory? && !Comparable(src, t) && t !in s.nodes
    requires s2.nodes == s.nodes[t := dn] && dn.Directory?
    requires names == s2.Listing(src)
    requires CopiedEntries(s2, r, src, t, names, 0)
    ensures forall k :: k in s.nodes ==> k in r.nodes && r.nodes[k] == s.nodes[k]
    ensures forall k :: k in s.nodes && AtOrBelow(k, src) ==>
              Rebase(k, src, t) in r.nodes && SameContent(r.nodes[Rebase(k, src, t)], s.nodes[k])
  {
    forall k | k in s.nodes
      ensures k in s2.nodes && s2.nodes[k] == s.nodes[k]
    {
      assert k != t;
    }
    assert src != t;
    assert src in s2.nodes && s2.nodes[src].Directory?;
    ListingCovers(s2, src);
    SourceCopied(s, s2, r, src, t, names);
  }

  /** Every entry at or below `src` has its copy: `src` itself is the target, the rest the foreach copied. */
  lemma SourceCopied(s: FsState, s2: FsState, r: FsState, src: Path, t: Path, names: seq<string>)
    requires t in s2.nodes && s2.nodes[t].Directory? && src in s.nodes && s.nodes[src].Directory?
    requires forall k :: k in s.nodes ==> k in s2.nodes && s2.nodes[k] == s.nodes[k]
    requires forall k :: k in s2.nodes && IsBelow(k, src) ==> UnderListed(k, src, names, 0)
    requires CopiedEntries(s2, r, src, t, names, 0)
    ensures forall k :: k in s.nodes && AtOrBelow(k, src) ==>
              Rebase(k, src, t) in r.nodes && SameContent(r.nodes[Rebase(k, src, t)], s.nodes[k])
  {
    RebaseEnds(src, t);
    forall k | k in s.nodes && AtOrBelow(k, src)
      ensures Rebase(k, src, t) in r.nodes && SameContent(r.nodes[Rebase(k, src, t)], s.nodes[k])
    {
      if k != src {
        assert UnderListed(k, src, names, 0);
      }
    }
  }

  /**
   * The copying foreach from index `i`, ready to run, copies exactly the
   * entries it has still to meet and what lies below them.
   */
  lemma {:induction false} CopyEntriesCopies(table: map<string, Value>, s: FsState, src: Path, d: Path,
                                             names: seq<string>, i: nat, m: Matcher)
    requires CopyReady(s, src, d, names, i) && DefaultMatchesChildren(m) && NumericDirMode(table)
    ensures CopiedEntries(s, CopyEntries(table, s, src, d, names, i, m), src, d, names, i)
    decreases |Below(s, src)|, 0, |names| - i, 1
  {
    var j := DefaultFilter(s, src, m).NextIndex(names, i);
    SkippedAreDots(s, src, names, i, m);
    if j == |names| {
      forall k
        ensures !UnderListed(k, src, names, i)
      {
        UnderListedStep(k, src, names, i, j);
      }
    } else {
      assert IsEntryName(names[j]);
      ChildEntry(s, src, names[j]);
      var e := EntryFor(s, src + "/" + names[j]).value;
      CopyEntriesStep(table, s, src, d, names, i, m, e);
      CopyAtCopies(table, s, src, d, names, j, e, m);
      SkipToCopied(s, CopyEntries(table, s, src, d, names, i, m), src, d, names, i, j);
    }
  }

  /** Names the walk passes over are no entries, so copying from `j` is copying from `i`. */
  lemma SkipToCopied(s: FsState, r: FsState, src: Path, d: Path, names: seq<string>, i: nat, j: nat)
    requires i <= j < |names|
    requires forall a :: i <= a < j ==> !IsEntryName(names[a])
    requires CopiedEntries(s, r, src, d, names, j)
    ensures CopiedEntries(s, r, src, d, names, i)
  {
    forall k
      ensures UnderListed(k, src, names, i) <==> UnderListed(k, src, names, j)
    {
      UnderListedSkip(k, src, names, i, j);
    }
  }

  lemma UnderListedSkip(k: Path, p: Path, names: seq<string>, i: nat, j: nat)
    requires i <= j <= |names|
    requires forall a :: i <= a < j ==> !IsEntryName(names[a])
    ensures UnderListed(k, p, names, i) <==> UnderListed(k, p, names, j)
  {
    if UnderListed(k, p, names, i) {
      var a :| i <= a < |names| && IsEntryName(names[a]) && AtOrBelow(k, p + "/" + names[a]);
      assert j <= a;
    }
  }

  /** The turn at `names[j]` copies that entry's subtree to `d/names[j]`, then the rest of the walk copies the rest. */
  lemma {:induction false} CopyAtCopies(table: map<string, Value>, s: FsState, src: Path, d: Path,
                                        names: seq<string>, j: nat, e: Entry, m: Matcher)
    requires CopyReady(s, src, d, names, j) && j < |names| && DefaultMatchesChildren(m) && NumericDirMode(table)
    requires EntryFor(s, src + "/" + names[j]) == Some(e) && !DefaultFilter(s, src, m).Skips(names[j])
    ensures CopiedEntries(s, CopyAt(table, s, src, d, names, j, e, m), src, d, names, j)
    decreases |Below(s, src)|, 0, |names| - j, 0
  {
    CopyAtStep(table, s, src, d, names, j, e, m);
    var n := names[j];
    var t := d + "/" + n;
    ChildCreatable(s, d, n);
    BelowShrinks(s, src, e.path);
    CopyObjectCopies(table, s, e, t, m);
    var s1 := CopyObject(table, s, e, t, m);
    CopyTurnKeepsBelow(table, s, s, src, d, n, e, m, s1);
    ReadyAfterTurn(s, s1, src, d, names, j);
    CopyEntriesCopies(table, s1, src, d, names, j + 1, m);
    ComposeTurn(s, s1, CopyEntries(table, s1, src, d, names, j + 1, m), src, d, names, j);
  }

  /** The later targets stay free after one entry is copied, so the walk is ready to go on. */
  lemma ReadyAfterTurn(s: FsState, s1: FsState, src: Path, d: Path, names: seq<string>, j: nat)
    requires CopyReady(s, src, d, names, j) && j < |names| && IsEntryName(names[j])
    requires s1.Valid() && Copied(s, s1, src + "/" + names[j], d + "/" + names[j])
    ensures CopyReady(s1, src, d, names, j + 1)
  {
    var t := d + "/" + names[j];
    CopyTargetApart(src, d, names[j]);
    forall a, k | j + 1 <= a < |names| && IsEntryName(names[a]) && k in s1.nodes
      ensures !AtOrBelow(k, d + "/" + names[a])
    {
      if k !in s.nodes && AtOrBelow(k, d + "/" + names[a]) {
        CopyTargetApart(src, d, names[a]);
        CommonDescendant(k, t, d + "/" + names[a]);
        SiblingsApart(d, names[j], names[a]);
        SiblingsApart(d, names[a], names[j]);
      }
    }
  }

  /** One copied entry followed by the rest of the walk is the walk from that entry. */
  lemma ComposeTurn(s: FsState, s1: FsState, r: FsState, src: Path, d: Path, names: seq<string>, j: nat)
    requires NoTrailingSlash(src) && NoTrailingSlash(d) && !Comparable(src, d)
    requires j < |names| && IsEntryName(names[j])
    requires Copied(s, s1, src + "/" + names[j], d + "/" + names[j])
    requires CopiedEntries(s1, r, src, d, names, j + 1)
    ensures CopiedEntries(s, r, src, d, names, j)
  {
    forall k | k in r.nodes && k !in s.nodes
      ensures IsBelow(k, d) && Rebase(k, d, src) in s.nodes && UnderListed(Rebase(k, d, src), src, names, j) &&
              SameContent(r.nodes[k], s.nodes[Rebase(k, d, src)])
    {
      ComposeNew(s, s1, r, src, d, names, j, k);
    }
    forall k | k in s.nodes && UnderListed(k, src, names, j)
      ensures IsBelow(k, src) && Rebase(k, src, d) in r.nodes && SameContent(r.nodes[Rebase(k, src, d)], s.nodes[k])
    {
      ComposeOld(s, s1, r, src, d, names, j, k);
    }
  }

  /** A key the turn or the rest of the walk created copies a source key under the names from `j`. */
  lemma ComposeNew(s: FsState, s1: FsState, r: FsState, src: Path, d: Path, names: seq<string>, j: nat, k: Path)
    requires NoTrailingSlash(src) && NoTrailingSlash(d) && !Comparable(src, d)
    requires j < |names| && IsEntryName(names[j])
    requires Copied(s, s1, src + "/" + names[j], d + "/" + names[j])
    requires CopiedEntries(s1, r, src, d, names, j + 1)
    requires k in r.nodes && k !in s.nodes
    ensures IsBelow(k, d) && Rebase(k, d, src) in s.nodes && UnderListed(Rebase(k, d, src), src, names, j) &&
            SameContent(r.nodes[k], s.nodes[Rebase(k, d, src)])
  {
    var n := names[j];
    if k in s1.nodes {
      NewInTarget(k, src, d, n);
      assert r.nodes[k] == s1.nodes[k];
    } else {
      var u := Rebase(k, d, src);
      assert UnderListed(u, src, names, j + 1);
      UnderListedIsBelow(src, names, j + 1);
      if u !in s.nodes {
        assert AtOrBelow(u, d + "/" + n);
        ChildBelow(d, n);
        if u != d + "/" + n {
          BelowTransitive(u, d + "/" + n, d);
        }
        CommonDescendant(u, src, d);
      }
      assert s1.nodes[u] == s.nodes[u];
      DropFirstListed(u, src, names, j);
    }
  }

  /** A source key under the names from `j` has its copy once the turn and the rest of the walk are done. */
  lemma ComposeOld(s: FsState, s1: FsState, r: FsState, src: Path, d: Path, names: seq<string>, j: nat, k: Path)
    requires NoTrailingSlash(src) && NoTrailingSlash(d) && !Comparable(src, d)
    requires j < |names| && IsEntryName(names[j])
    requires Copied(s, s1, src + "/" + names[j], d + "/" + names[j])
    requires CopiedEntries(s1, r, src, d, names, j + 1)
    requires k in s.nodes && UnderListed(k, src, names, j)
    ensures IsBelow(k, src) && Rebase(k, src, d) in r.nodes && SameContent(r.nodes[Rebase(k, src, d)], s.nodes[k])
  {
    var n := names[j];
    UnderListedIsBelow(src, names, j);
    UnderListedStep(k, src, names, j, j);
    assert s1.nodes[k] == s.nodes[k];
    if AtOrBelow(k, src + "/" + n) {
      RebaseChild(k, src, d, n);
      var t := Rebase(k, src, d);
      assert t in s1.nodes && SameContent(s1.nodes[t], s.nodes[k]);
      assert r.nodes[t] == s1.nodes[t];
    } else {
      assert UnderListed(k, src, names, j + 1);
    }
  }

  /** A new entry at or below `d/n` is below `d` and copies the source at the same place under `src/n`. */
  lemma NewInTarget(k: Path, src: Path, d: Path, n: string)
    requires IsEntryName(n) && AtOrBelow(k, d + "/" + n)
    ensures IsBelow(k, d) && Rebase(k, d + "/" + n, src + "/" + n) == Rebase(k, d, src)
    ensures AtOrBelow(Rebase(k, d, src), src + "/" + n)
  {
    ChildBelow(d, n);
    if k != d + "/" + n {
      BelowTransitive(k, d + "/" + n, d);
    }
    RebaseChild(k, d, src, n);
    var t, c := d + "/" + n, src + "/" + n;
    var u := Rebase(k, t, c);
    assert u == c + k[|t|..];
    if k != t {
      assert k[|t|..][0] == '/';
      assert u[..|c| + 1] == c + "/";
    }
  }

  /** A path under a later name is under the names from `j`. */
  lemma DropFirstListed(u: Path, p: Path, names: seq<string>, j: nat)
    requires UnderListed(u, p, names, j + 1)
    ensures UnderListed(u, p, names, j)
  {
    var a :| j + 1 <= a < |names| && IsEntryName(names[a]) && AtOrBelow(u, p + "/" + names[a]);
  }

  /** `create()` of the empty path never succeeds: no stored path is empty. */
  lemma RecreateNotEmpty(table: map<string, Value>, s: FsState, m: Matcher)
    requires s.Valid()
    ensures !MkdirEffect(table, RmTree(s, "", m), "", Null, true).1
  {
    var s1 := RmTree(s, "", m);
    var r := MkdirEffect(table, s1, "", Null, true).0;
    assert "" !in s1.nodes && "" !in r.nodes;
    assert RTrimSlash("") == "";
  }

  /**
   * A successful `Dir(d)->rm()->create()` with an engine that matches every
   * child path leaves `d` an empty directory, keeps every entry not at or
   * below `d`, and adds only `d` and directories that contain it.
   */
  lemma RecreateEmpties(table: map<string, Value>, s: FsState, d: Path, m: Matcher)
    requires s.Valid() && NoTrailingSlash(d) && DefaultMatchesChildren(m)
    requires !(d in s.nodes && s.nodes[d].Regular?)
    requires MkdirEffect(table, RmTree(s, d, m), d, Null, true).1
    ensures var s2 := MkdirEffect(table, RmTree(s, d, m), d, Null, true).0;
            d != "" && NumericDirMode(table) && d in s2.nodes && s2.nodes[d].Directory? &&
            (forall k :: k in s2.nodes ==> !IsBelow(k, d)) &&
            (forall k :: k in s.nodes && !AtOrBelow(k, d) ==> k in s2.nodes && s2.nodes[k] == s.nodes[k]) &&
            (forall k :: k in s2.nodes && k !in s.nodes ==> AtOrBelow(d, k))
  {
    RecreateNotEmpty(table, s, m);
    var s1 := RmTree(s, d, m);
    RmTreeRemoves(s, d, m);
    CreateEmpties(table, s, s1, d);
  }

  /** `create()` of a missing `d` that succeeds ran `mkdir` with the table's `dir_mod`, so that option is a number. */
  lemma CreateMissing(table: map<string, Value>, s: FsState, d: Path)
    requires !s.Exists(d) && MkdirEffect(table, s, d, Null, true).1
    ensures NumericDirMode(table)
    ensures MkdirEffect(table, s, d, Null, true) == s.Mkdir(d, IntArg(IssetOr(table, "dir_mod")).value, true)
  {
    DirModeOption(table, s);
  }

  /** `create()` of `d` after everything at or below it is gone. */
  lemma CreateEmpties(table: map<string, Value>, s: FsState, s1: FsState, d: Path)
    requires NoTrailingSlash(d) && d != ""
    requires forall k :: k in s1.nodes <==> k in s.nodes && !AtOrBelow(k, d)
    requires forall k :: k in s.nodes && !AtOrBelow(k, d) ==> k in s1.nodes && s1.nodes[k] == s.nodes[k]
    requires MkdirEffect(table, s1, d, Null, true).1
    ensures var s2 := MkdirEffect(table, s1, d, Null, true).0;
            NumericDirMode(table) && d in s2.nodes && s2.nodes[d].Directory? &&
            (forall k :: k in s2.nodes ==> !IsBelow(k, d)) &&
            (forall k :: k in s.nodes && !AtOrBelow(k, d) ==> k in s2.nodes && s2.nodes[k] == s.nodes[k]) &&
            (forall k :: k in s2.nodes && k !in s.nodes ==> AtOrBelow(d, k))
  {
    RTrimNoSlash(d);
    assert d !in s1.nodes;
    assert !s1.Exists(d);
    CreateMissing(table, s1, d);
    var mode := IntArg(IssetOr(table, "dir_mod")).value;
    var s2 := MkdirEffect(table, s1, d, Null, true).0;
    assert s1.Mkdir(d, mode, true) == (s2, true);
    CreatedOnly(s, s1, s2, d);
  }

  /** What a successful `mkdir(d)` leaves when nothing was at or below `d`. */
  lemma CreatedOnly(s: FsState, s1: FsState, s2: FsState, d: Path)
    requires NoTrailingSlash(d)
    requires forall k :: k in s1.nodes <==> k in s.nodes && !AtOrBelow(k, d)
    requires forall k :: k in s.nodes && !AtOrBelow(k, d) ==> k in s1.nodes && s1.nodes[k] == s.nodes[k]
    requires s2.IsDir(d)
    requires s1.nodes.Keys <= s2.nodes.Keys && (forall q :: q in s1.nodes ==> s2.nodes[q] == s1.nodes[q])
    requires forall q :: q in s2.nodes && q !in s1.nodes ==> AtOrBelow(RTrimSlash(d), q)
    ensures d in s2.nodes && s2.nodes[d].Directory?
    ensures forall k :: k in s2.nodes ==> !IsBelow(k, d)
    ensures forall k :: k in s.nodes && !AtOrBelow(k, d) ==> k in s2.nodes && s2.nodes[k] == s.nodes[k]
    ensures forall k :: k in s2.nodes && k !in s.nodes ==> AtOrBelow(d, k)
  {
    RTrimNoSlash(d);
    forall k | k in s2.nodes
      ensures !IsBelow(k, d)
    {
      if k !in s1.nodes {
        assert AtOrBelow(d, k);
      }
    }
  }

  /** Every name's target inside a directory with nothing below it is free. */
  lemma TargetsFreeBelow(s: FsState, d: Path, names: seq<string>)
    requires forall k :: k in s.nodes ==> !IsBelow(k, d)
    ensures forall a, k :: 0 <= a < |names| && IsEntryName(names[a]) && k in s.nodes ==> !AtOrBelow(k, d + "/" + names[a])
  {
    forall a, k | 0 <= a < |names| && IsEntryName(names[a]) && k in s.nodes
      ensures !AtOrBelow(k, d + "/" + names[a])
    {
      ChildBelow(d, names[a]);
      if AtOrBelow(k, d + "/" + names[a]) && k != d + "/" + names[a] {
        BelowTransitive(k, d + "/" + names[a], d);
      }
    }
  }

  /** The source's subtree is the same after `Dir(d)->rm()->create()` for a `d` apart from it. */
  lemma SourceKept(s: FsState, s2: FsState, src: Path, d: Path)
    requires NoTrailingSlash(src) && NoTrailingSlash(d) && !Comparable(src, d)
    requires forall k :: k in s.nodes && !AtOrBelow(k, d) ==> k in s2.nodes && s2.nodes[k] == s.nodes[k]
    requires forall k :: k in s2.nodes && k !in s.nodes ==> AtOrBelow(d, k)
    ensures forall k :: k in s.nodes && AtOrBelow(k, src) ==> k in s2.nodes && s2.nodes[k] == s.nodes[k]
    ensures forall k :: k in s2.nodes && AtOrBelow(k, src) ==> k in s.nodes
  {
    forall k | k in s.nodes && AtOrBelow(k, src)
      ensures !AtOrBelow(k, d)
    {
      if AtOrBelow(k, d) {
        CommonDescendant(k, src, d);
      }
    }
    forall k | k in s2.nodes && AtOrBelow(k, src)
      ensures k in s.nodes
    {
      if k !in s.nodes {
        assert AtOrBelow(d, k);
        if d != k && k != src {
          BelowTransitive(d, k, src);
        }
      }
    }
  }

  /**
   * `Dir(src)->copy_to(dst)` of a directory, with an engine that matches
   * every child path and a destination that `rm()->create()` empties and
   * recreates: the destination is a directory, everything inside it is a
   * copy of the entry at the same place inside `src` (so nothing it held
   * before survives), and every entry inside `src` has its copy there,
   * a regular file with the same bytes.
   */
  lemma CopyTreeMirrors(table: map<string, Value>, s: FsState, src: Path, dst: Path, m: Matcher)
    requires s.Valid() && NoTrailingSlash(src) && !Comparable(src, RTrimSlash(dst)) && DefaultMatchesChildren(m)
    requires src in s.nodes && s.nodes[src].Directory?
    requires !(RTrimSlash(dst) in s.nodes && s.nodes[RTrimSlash(dst)].Regular?)
    requires MkdirEffect(table, RmTree(s, RTrimSlash(dst), m), RTrimSlash(dst), Null, true).1
    ensures var d, r := RTrimSlash(dst), CopyTree(table, s, src, dst, m);
            d in r.nodes && r.nodes[d].Directory?
    ensures var d, r := RTrimSlash(dst), CopyTree(table, s, src, dst, m);
            forall k :: k in r.nodes && IsBelow(k, d) ==>
              IsBelow(Rebase(k, d, src), src) && Rebase(k, d, src) in s.nodes &&
              SameContent(r.nodes[k], s.nodes[Rebase(k, d, src)])
    ensures var d, r := RTrimSlash(dst), CopyTree(table, s, src, dst, m);
            forall k :: k in s.nodes && IsBelow(k, src) ==>
              Rebase(k, src, d) in r.nodes && SameContent(r.nodes[Rebase(k, src, d)], s.nodes[k])
  {
    var d := RTrimSlash(dst);
    RecreateEmpties(table, s, d, m);
    var s2 := MkdirEffect(table, RmTree(s, d, m), d, Null, true).0;
    SourceKept(s, s2, src, d);
    CopyTreeSteps(table, s, src, dst, m);
    var names := s2.Listing(src);
    ListingEntriesExist(s2, src);
    ListingDistinct(s2, src);
    TargetsFreeBelow(s2, d, names);
    assert CopyReady(s2, src, d, names, 0);
    CopyEntriesCopies(table, s2, src, d, names, 0, m);
    var r := CopyEntries(table, s2, src, d, names, 0, m);
    MirrorsNew(s, s2, r, src, d, names);
    MirrorsOld(s, s2, r, src, d, names);
  }

  lemma MirrorsNew(s: FsState, s2: FsState, r: FsState, src: Path, d: Path, names: seq<string>)
    requires NoTrailingSlash(src) && NoTrailingSlash(d) && !Comparable(src, d)
    requires forall k :: k in s2.nodes ==> !IsBelow(k, d)
    requires forall k :: k in s.nodes && !AtOrBelow(k, d) ==> k in s2.nodes && s2.nodes[k] == s.nodes[k]
    requires forall k :: k in s2.nodes && AtOrBelow(k, src) ==> k in s.nodes
    requires CopiedEntries(s2, r, src, d, names, 0)
    ensures forall k :: k in r.nodes && IsBelow(k, d) ==>
              IsBelow(Rebase(k, d, src), src) && Rebase(k, d, src) in s.nodes &&
              SameContent(r.nodes[k], s.nodes[Rebase(k, d, src)])
  {
    UnderListedIsBelow(src, names, 0);
    forall k | k in r.nodes && IsBelow(k, d)
      ensures IsBelow(Rebase(k, d, src), src) && Rebase(k, d, src) in s.nodes &&
              SameContent(r.nodes[k], s.nodes[Rebase(k, d, src)])
    {
      var u := Rebase(k, d, src);
      assert k !in s2.nodes;
      assert IsBelow(u, src) && u in s.nodes;
      if AtOrBelow(u, d) {
        CommonDescendant(u, src, d);
      }
    }
  }

  lemma MirrorsOld(s: FsState, s2: FsState, r: FsState, src: Path, d: Path, names: seq<string>)
    requires s2.Valid() && src in s2.nodes && s2.nodes[src].Directory? && names == s2.Listing(src)
    requires d in s2.nodes && s2.nodes[d].Directory?
    requires forall k :: k in s.nodes && AtOrBelow(k, src) ==> k in s2.nodes && s2.nodes[k] == s.nodes[k]
    requires CopiedEntries(s2, r, src, d, names, 0)
    ensures d in r.nodes && r.nodes[d].Directory?
    ensures forall k :: k in s.nodes && IsBelow(k, src) ==>
              Rebase(k, src, d) in r.nodes && SameContent(r.nodes[Rebase(k, src, d)], s.nodes[k])
  {
    ListingCovers(s2, src);
  }

  /**
   * `Dir(src)->move_to(dst)` of a directory, with an engine that matches
   * every child path, leaves nothing at or below `src`; every other entry
   * is the one the copy left.
   */
  lemma MoveTreeRemovesSource(table: map<string, Value>, s: FsState, src: Path, dst: Path, m: Matcher)
    requires s.Valid() && NoTrailingSlash(src) && !Comparable(src, RTrimSlash(dst)) && DefaultMatchesChildren(m)
    requires src in s.nodes && s.nodes[src].Directory?
    ensures forall k :: k in MoveTree(table, s, src, dst, m).nodes ==> !AtOrBelow(k, src)
    ensures forall k :: k in CopyTree(table, s, src, dst, m).nodes && !AtOrBelow(k, src) ==>
              k in MoveTree(table, s, src, dst, m).nodes &&
              MoveTree(table, s, src, dst, m).nodes[k] == CopyTree(table, s, src, dst, m).nodes[k]
  {
    var r := CopyTree(table, s, src, dst, m);
    assert !AtOrBelow(src, RTrimSlash(dst));
    assert src in r.nodes && r.nodes[src] == s.nodes[src];
    RmTreeRemoves(r, src, m);
  }

  /**
   * After the move, the destination holds the same mirror of the source
   * as after the copy, with the source gone.
   */
  lemma MoveTreeMirrors(table: map<string, Value>, s: FsState, src: Path, dst: Path, m: Matcher)
    requires s.Valid() && NoTrailingSlash(src) && !Comparable(src, RTrimSlash(dst)) && DefaultMatchesChildren(m)
    requires src in s.nodes && s.nodes[src].Directory?
    requires !(RTrimSlash(dst) in s.nodes && s.nodes[RTrimSlash(dst)].Regular?)
    requires MkdirEffect(table, RmTree(s, RTrimSlash(dst), m), RTrimSlash(dst), Null, true).1
    ensures var d, r := RTrimSlash(dst), MoveTree(table, s, src, dst, m);
            d in r.nodes && r.nodes[d].Directory?
    ensures var d, r := RTrimSlash(dst), MoveTree(table, s, src, dst, m);
            forall k :: k in r.nodes && IsBelow(k, d) ==>
              IsBelow(Rebase(k, d, src), src) && Rebase(k, d, src) in s.nodes &&
              SameContent(r.nodes[k], s.nodes[Rebase(k, d, src)])
    ensures var d, r := RTrimSlash(dst), MoveTree(table, s, src, dst, m);
            forall k :: k in s.nodes && IsBelow(k, src) ==>
              Rebase(k, src, d) in r.nodes && SameContent(r.nodes[Rebase(k, src, d)], s.nodes[k])
  {
    CopyTreeMirrors(table, s, src, dst, m);
    MoveTreeRemovesSource(table, s, src, dst, m);
    MoveKeepsMirror(s, CopyTree(table, s, src, dst, m), MoveTree(table, s, src, dst, m), src, RTrimSlash(dst));
  }

  /** Removing what lies at or below `src` keeps the mirror at a `d` apart from it. */
  lemma MoveKeepsMirror(s: FsState, c: FsState, r: FsState, src: Path, d: Path)
    requires NoTrailingSlash(src) && NoTrailingSlash(d) && !Comparable(src, d)
    requires r.nodes.Keys <= c.nodes.Keys
    requires forall k :: k in c.nodes && !AtOrBelow(k, src) ==> k in r.nodes && r.nodes[k] == c.nodes[k]
    requires d in c.nodes && c.nodes[d].Directory?
    requires forall k :: k in c.nodes && IsBelow(k, d) ==>
               IsBelow(Rebase(k, d, src), src) && Rebase(k, d, src) in s.nodes &&
               SameContent(c.nodes[k], s.nodes[Rebase(k, d, src)])
    requires forall k :: k in s.nodes && IsBelow(k, src) ==>
               Rebase(k, src, d) in c.nodes && SameContent(c.nodes[Rebase(k, src, d)], s.nodes[k])
    ensures d in r.nodes && r.nodes[d].Directory?
    ensures forall k :: k in r.nodes && IsBelow(k, d) ==>
              IsBelow(Rebase(k, d, src), src) && Rebase(k, d, src) in s.nodes &&
              SameContent(r.nodes[k], s.nodes[Rebase(k, d, src)])
    ensures forall k :: k in s.nodes && IsBelow(k, src) ==>
              Rebase(k, src, d) in r.nodes && SameContent(r.nodes[Rebase(k, src, d)], s.nodes[k])
  {
    forall k | AtOrBelow(k, d)
      ensures !AtOrBelow(k, src)
    {
      if AtOrBelow(k, src) {
        CommonDescendant(k, src, d);
      }
    }
    forall k | k in s.nodes && IsBelow(k, src)
      ensures AtOrBelow(Rebase(k, src, d), d)
    {
      var t := Rebase(k, src, d);
      assert k[|src|] == '/' by { assert k[..|src| + 1][|src|] == '/'; }
      assert t[..|d| + 1] == d + "/";
    }
  }
}
