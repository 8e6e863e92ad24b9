/**
 * String and path helpers: Techart\Core\Strings' `replace` and `ends_with`,
 * PHP's `rtrim($p, '/')`, `basename` and `dirname`, and the prefix relations
 * the filesystem model uses to speak of a directory's children and subtree.
 */
module Paths {
  import opened Core

  type Path = string

  /** `Strings::replace(s, c, t)` for a one-character search string: every `c` becomes `t`, left to right. */
  function ReplaceChar(s: string, c: char, t: string): (r: string)
    ensures c !in s ==> r == s
    decreases |s|
  {
    if s == [] then []
    else (if s[0] == c then t else [s[0]]) + ReplaceChar(s[1..], c, t)
  }

  function CountChar(s: string, c: char): (n: nat)
    ensures n <= |s|
    ensures n == 0 <==> c !in s
    decreases |s|
  {
    if s == [] then 0 else (if s[0] == c then 1 else 0) + CountChar(s[1..], c)
  }

  /** `Strings::ends_with(s, suffix)`. */
  predicate EndsWith(s: string, suffix: string)
  {
    |suffix| <= |s| && s[|s| - |suffix|..] == suffix
  }

  /** `rtrim(p, '/')`: the longest prefix of `p` that does not end in a slash, all cut characters being slashes. */
  function RTrimSlash(p: string): (r: string)
    ensures |r| <= |p| && r == p[..|r|]
    ensures r == [] || r[|r| - 1] != '/'
    ensures forall i :: |r| <= i < |p| ==> p[i] == '/'
    decreases |p|
  {
    if p != [] && p[|p| - 1] == '/' then RTrimSlash(p[..|p| - 1]) else p
  }

  /** Index of the last slash of `s`, or -1 when it has none. */
  function LastSlash(s: string): (r: int)
    ensures -1 <= r < |s|
    ensures r >= 0 ==> s[r] == '/'
    ensures forall i :: r < i < |s| ==> s[i] != '/'
    decreases |s|
  {
    if s == [] then -1 else if s[|s| - 1] == '/' then |s| - 1 else LastSlash(s[..|s| - 1])
  }

  /** PHP `basename`: trailing slashes are ignored, then everything after the last slash. */
  function Basename(p: string): (r: string)
    ensures '/' !in r
  {
    var t := RTrimSlash(p);
    t[LastSlash(t) + 1..]
  }

  /**
   * PHP `dirname` (one level): trailing slashes are ignored, the last component
   * and the slashes before it are cut; "." when no slash is left, "/" when only
   * the root is, and "" for the empty string.
   */
  function Dirname(p: string): (r: string)
  {
    if p == "" then ""
    else
      var t := RTrimSlash(p);
      if t == "" then "/"
      else
        var i := LastSlash(t);
        if i < 0 then "."
        else
          var u := RTrimSlash(t[..i]);
          if u == "" then "/" else u
  }

  /** A path as a Dir object stores it: no trailing slash. */
  predicate NoTrailingSlash(p: string)
  {
    p == "" || p[|p| - 1] != '/'
  }

  /** Trimming a path without a trailing slash leaves it as it is. */
  lemma RTrimNoSlash(p: string)
    requires NoTrailingSlash(p)
    ensures RTrimSlash(p) == p
  {
  }

  /** `k` lies strictly inside directory `p`: it starts with `p` followed by a slash and has more after it. */
  predicate IsBelow(k: Path, p: Path)
  {
    |k| > |p| + 1 && k[..|p| + 1] == p + "/"
  }

  predicate AtOrBelow(k: Path, p: Path)
  {
    k == p || IsBelow(k, p)
  }

  /** `k` is an immediate entry of directory `p`. */
  predicate IsChildOf(k: Path, p: Path)
  {
    IsBelow(k, p) && '/' !in k[|p| + 1..]
  }

  /** Two paths one of which contains the other. */
  predicate Comparable(a: Path, b: Path)
  {
    AtOrBelow(a, b) || AtOrBelow(b, a)
  }

  /** A name a directory entry can have: not empty, without a slash, and neither "." nor "..". */
  predicate IsEntryName(n: string)
  {
    n != "" && '/' !in n && n != "." && n != ".."
  }

  /** The last component of a path. */
  function LastName(k: Path): string
  {
    k[LastSlash(k) + 1..]
  }

  /** A path whose last component names an entry rather than "." or "..". */
  predicate NamesEntry(k: Path)
  {
    LastName(k) != "." && LastName(k) != ".."
  }

  /** A path the model stores: not empty, no trailing slash and no empty component. */
  predicate WellFormed(k: Path)
  {
    k != "" && k[|k| - 1] != '/' &&
    forall i :: 0 <= i < |k| - 1 && k[i] == '/' ==> k[i + 1] != '/'
  }

  /** The directory that must hold `k`, or None when `k` sits at the top (no slash, or only a leading one). */
  function Parent(k: Path): (r: Option<Path>)
    ensures r.Some? ==> |r.value| < |k|
  {
    var i := LastSlash(k);
    if i <= 0 then None else Some(k[..i])
  }

  lemma ParentIsContainer(k: Path)
    requires WellFormed(k) && Parent(k).Some?
    ensures WellFormed(Parent(k).value)
    ensures IsChildOf(k, Parent(k).value)
  {
    var i := LastSlash(k);
    var q := k[..i];
    assert k[..i + 1] == q + "/";
    assert k[|q| + 1..] == k[i + 1..];
  }

  /** Every strict descendant of a named directory has a parent that is that directory or inside it. */
  lemma ParentOfDescendant(k: Path, p: Path)
    requires WellFormed(k) && p != "" && IsBelow(k, p)
    ensures Parent(k).Some? && AtOrBelow(Parent(k).value, p)
  {
    assert k[|p|] == '/' by { assert k[..|p| + 1][|p|] == '/'; }
    var i := LastSlash(k);
    if i > |p| {
      var q := k[..i];
      assert q[..|p| + 1] == k[..|p| + 1];
      if |q| == |p| + 1 {
        assert false;
      }
    } else {
      assert k[..i] == p;
    }
  }

  lemma BelowTransitive(a: Path, b: Path, c: Path)
    requires IsBelow(a, b) && IsBelow(b, c)
    ensures IsBelow(a, c)
  {
    assert a[..|c| + 1] == a[..|b| + 1][..|c| + 1];
  }

  /** Two directories that both contain a path are themselves nested one in the other. */
  lemma CommonDescendant(k: Path, a: Path, b: Path)
    requires AtOrBelow(k, a) && AtOrBelow(k, b)
    requires a == "" || a[|a| - 1] != '/'
    requires b == "" || b[|b| - 1] != '/'
    ensures Comparable(a, b)
  {
    if k == a || k == b {
    } else if |a| < |b| {
      assert b[..|a| + 1] == k[..|b| + 1][..|a| + 1];
    } else if |b| < |a| {
      assert a[..|b| + 1] == k[..|a| + 1][..|b| + 1];
    } else {
      assert a == (a + "/")[..|a|] == k[..|a|] == (b + "/")[..|b|] == b;
    }
  }

  /** Appending an entry name to a well-formed path gives a well-formed path. */
  lemma ChildWellFormed(d: Path, n: string)
    requires WellFormed(d) && IsEntryName(n)
    ensures WellFormed(d + "/" + n)
  {
    var k := d + "/" + n;
    assert forall i :: 0 <= i < |d| ==> k[i] == d[i];
    assert k[|d|] == '/';
    assert forall i :: |d| < i < |k| ==> k[i] == n[i - |d| - 1];
    assert k[|k| - 1] == n[|n| - 1];
  }

  /** The parent of `d/n` is `d`. */
  lemma ChildParent(d: Path, n: string)
    requires d != "" && IsEntryName(n)
    ensures Parent(d + "/" + n) == Some(d)
    ensures LastName(d + "/" + n) == n
  {
    var k := d + "/" + n;
    assert k[|d|] == '/';
    assert forall i :: |d| < i < |k| ==> k[i] == n[i - |d| - 1];
    assert LastSlash(k) == |d|;
    assert k[..|d|] == d;
  }

  /** A child path of `p` lies below `p` and its last component is the name. */
  lemma ChildBelow(p: Path, n: string)
    requires IsEntryName(n)
    ensures IsChildOf(p + "/" + n, p)
    ensures (p + "/" + n)[|p| + 1..] == n
  {
    var k := p + "/" + n;
    assert k[..|p| + 1] == p + "/";
    assert k[|p| + 1..] == n;
  }

  /** A directory containing `p/n` contains `p` or is `p`, when `p` has no trailing slash. */
  lemma ChildContainedMeansContained(p: Path, n: string, q: Path)
    requires IsEntryName(n) && (p == "" || p[|p| - 1] != '/')
    requires IsBelow(p + "/" + n, q)
    ensures AtOrBelow(p, q)
  {
    var k := p + "/" + n;
    assert k[|q|] == '/' by { assert k[..|q| + 1][|q|] == '/'; }
    if |q| > |p| {
      assert false;
    }
    if |q| == |p| {
      assert p == k[..|p|] == k[..|q| + 1][..|q|] == q;
    } else {
      assert p[..|q| + 1] == k[..|q| + 1];
      if |p| == |q| + 1 {
        assert false;
      }
    }
  }

  /**
   * Children of disjoint directories stay disjoint (read contrapositively): used for
   * the source and destination of a recursive copy.
   */
  lemma ChildrenStayApart(src: Path, dst: Path, n: string)
    requires IsEntryName(n)
    requires src == "" || src[|src| - 1] != '/'
    requires dst == "" || dst[|dst| - 1] != '/'
    ensures Comparable(src + "/" + n, dst + "/" + n) ==> Comparable(src, dst)
  {
    var a, b := src + "/" + n, dst + "/" + n;
    ChildBelow(src, n);
    ChildBelow(dst, n);
    if IsBelow(a, b) {
      BelowTransitive(a, b, dst);
      ChildContainedMeansContained(src, n, dst);
    } else if IsBelow(b, a) {
      BelowTransitive(b, a, src);
      ChildContainedMeansContained(dst, n, src);
    } else if a == b {
      assert |src| == |dst|;
      assert src == a[..|src|];
    }
  }

  /** dirname and basename split a path `d/n` back into `d` and `n`. */
  lemma {:induction false} SplitJoin(d: Path, n: string)
    requires IsEntryName(n) && d != "" && d[|d| - 1] != '/'
    ensures Basename(d + "/" + n) == n
    ensures Dirname(d + "/" + n) == d
  {
    var p := d + "/" + n;
    assert RTrimSlash(p) == p;
    var i := LastSlash(p);
    assert p[|d|] == '/';
    assert i == |d|;
    assert p[i + 1..] == n;
    assert p[..i] == d;
    assert RTrimSlash(d) == d;
  }

  /** A top-level name has "." as its dirname and is its own basename. */
  lemma TopLevelSplit(n: string)
    requires IsEntryName(n)
    ensures Basename(n) == n && Dirname(n) == "."
  {
    assert RTrimSlash(n) == n;
    assert LastSlash(n) == -1;
  }
}
