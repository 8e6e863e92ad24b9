/**
 * FS\Query: the filter a directory walk applies. It holds a regular
 * expression (matched by the regex engine, which is a parameter here), the
 * recursion flag and the `self` flag that picks the order of a recursive walk.
 */
module Queries {
  import opened Core
  import opened Paths
  import opened Os

  /** The regex engine: `Regexps::match(pattern, subject)`. */
  type Matcher = (string, string) -> bool

  /** `Query::DEFAULT_REGEXP`. */
  const DefaultRegexp: string := "{.+}"

  /** What one wildcard character becomes: `.` is escaped, `?` is any character, `*` any run. */
  function GlobChar(c: char): (r: string)
    ensures c == '.' ==> r == "\\."
    ensures c == '?' ==> r == "."
    ensures c == '*' ==> r == ".*"
    ensures c != '.' && c != '?' && c != '*' ==> r == [c]
  {
    if c == '.' then "\\." else if c == '?' then "." else if c == '*' then ".*" else [c]
  }

  /** The character-by-character reading of a wildcard. */
  function Translate(w: string): (r: string)
  {
    if w == [] then [] else GlobChar(w[0]) + Translate(w[1..])
  }

  /** The body of `glob`: the three replacement passes, in the order the source applies them. */
  function GlobBody(w: string): (r: string)
  {
    ReplaceChar(ReplaceChar(ReplaceChar(w, '.', "\\."), '?', "."), '*', ".*")
  }

  /** The pattern `glob(w)` stores. */
  function GlobPattern(w: string): (r: string)
    ensures r == "{" + GlobBody(w) + "}"
  {
    "{" + GlobBody(w) + "}"
  }

  lemma {:induction false} ReplaceCharConcat(a: string, b: string, c: char, t: string)
    ensures ReplaceChar(a + b, c, t) == ReplaceChar(a, c, t) + ReplaceChar(b, c, t)
    decreases |a|
  {
    if a == [] {
      assert a + b == b;
    } else {
      var ab := a + b;
      assert ab[0] == a[0] && ab[1..] == a[1..] + b;
      var h := if a[0] == c then t else [a[0]];
      calc {
        ReplaceChar(ab, c, t);
        h + ReplaceChar(a[1..] + b, c, t);
        { ReplaceCharConcat(a[1..], b, c, t); }
        h + (ReplaceChar(a[1..], c, t) + ReplaceChar(b, c, t));
        (h + ReplaceChar(a[1..], c, t)) + ReplaceChar(b, c, t);
        ReplaceChar(a, c, t) + ReplaceChar(b, c, t);
      }
    }
  }

  /**
   * The three passes compose to the per-character translation: a `.` the
   * `?` pass introduces is never escaped, and no pass sees another's output
   * as a wildcard.
   */
  lemma {:induction false} GlobIsTranslate(w: string)
    ensures GlobBody(w) == Translate(w)
    decreases |w|
  {
    if w != [] {
      var c, rest := w[0], w[1..];
      var p1 := if c == '.' then "\\." else [c];
      var p2 := if c == '?' then "." else p1;
      var p3 := if c == '*' then ".*" else p2;
      assert ReplaceChar(w, '.', "\\.") == p1 + ReplaceChar(rest, '.', "\\.");
      ReplaceCharConcat(p1, ReplaceChar(rest, '.', "\\."), '?', ".");
      assert ReplaceChar(p1, '?', ".") == p2 by {
        if c == '.' {
          assert ReplaceChar("\\.", '?', ".") == "\\.";
        }
      }
      ReplaceCharConcat(p2, ReplaceChar(ReplaceChar(rest, '.', "\\."), '?', "."), '*', ".*");
      assert ReplaceChar(p2, '*', ".*") == p3 by {
        if c == '.' {
          assert ReplaceChar("\\.", '*', ".*") == "\\.";
        } else if c == '?' {
          assert ReplaceChar(".", '*', ".*") == ".";
        }
      }
      assert p3 == GlobChar(c);
      GlobIsTranslate(rest);
    }
  }

  lemma {:induction false} TranslateLength(w: string)
    ensures |Translate(w)| == |w| + CountChar(w, '.') + CountChar(w, '*')
    decreases |w|
  {
    if w != [] {
      TranslateLength(w[1..]);
    }
  }

  lemma {:induction false} TranslatePlain(w: string)
    requires '.' !in w && '?' !in w && '*' !in w
    ensures Translate(w) == w
    decreases |w|
  {
    if w != [] {
      assert w[0] != '.' && w[0] != '?' && w[0] != '*';
      TranslatePlain(w[1..]);
    }
  }

  /**
   * `glob(w)` stores "{" + the translation + "}", whose length is that of `w`
   * plus the braces plus one for every `.` and every `*`; a wildcard without
   * `.`, `?` or `*` is only wrapped in braces.
   */
  lemma GlobSpec(w: string)
    ensures GlobPattern(w) == "{" + Translate(w) + "}"
    ensures |GlobPattern(w)| == |w| + 2 + CountChar(w, '.') + CountChar(w, '*')
    ensures '.' !in w && '?' !in w && '*' !in w ==> GlobPattern(w) == "{" + w + "}"
  {
    GlobIsTranslate(w);
    TranslateLength(w);
    if '.' !in w && '?' !in w && '*' !in w {
      TranslatePlain(w);
    }
  }

  /** The translation works piece by piece: translating a concatenation concatenates the translations. */
  lemma {:induction false} TranslateSplits(a: string, b: string)
    ensures Translate(a + b) == Translate(a) + Translate(b)
    decreases |a|
  {
    if a == [] {
      assert a + b == b;
    } else {
      var ab := a + b;
      assert ab[0] == a[0] && ab[1..] == a[1..] + b;
      TranslateSplits(a[1..], b);
      assert Translate(ab) == GlobChar(a[0]) + Translate(ab[1..]);
    }
  }

  /** The filter rule of `allows`, on the two fields it reads. */
  predicate Admits(s: FsState, recursive: bool, regexp: string, path: string, m: Matcher)
  {
    (s.IsDir(path) && recursive) || m(regexp, path)
  }

  /** `__isset` of a Query. */
  function PropertyIsSet(name: string): (r: bool)
    ensures r <==> name == "regexp" || name == "recursive"
  {
    name == "regexp" || name == "recursive"
  }

  /** `__unset` of a Query always throws: Undestroyable for its two properties, Missing otherwise. */
  function UnsetError(name: string): (e: Error)
    ensures e.UndestroyableProperty? <==> PropertyIsSet(name)
    ensures e.UndestroyableProperty? || e.MissingProperty?
    ensures e.name == name
  {
    if PropertyIsSet(name) then UndestroyableProperty(name) else MissingProperty(name)
  }

  class Query {
    var regexp: string
    var recursive: bool
    /** As passed to `recursive()`; only its truthiness is ever used. */
    var self: Value

    /** `new Query()`: every entry, no recursion. */
    constructor ()
      ensures regexp == DefaultRegexp && !recursive && self == Bool(false)
    {
      regexp := DefaultRegexp;
      recursive := false;
      self := Bool(false);
    }

    /** `regexp(re)`: stores the string form of `re`. */
    method Regexp(re: Value)
      modifies this
      ensures regexp == ToStr(re)
      ensures recursive == old(recursive) && self == old(self)
    {
      regexp := ToStr(re);
    }

    /** `glob(w)`: stores the pattern the wildcard translates to. */
    method Glob(w: string)
      modifies this
      ensures regexp == "{" + Translate(w) + "}"
      ensures recursive == old(recursive) && self == old(self)
    {
      GlobSpec(w);
      regexp := GlobPattern(w);
    }

    /** `recursive(use, self)`: the flag as a boolean, `self` as given. */
    method Recursive(useRecursion: Value, selfFirst: Value)
      modifies this
      ensures recursive == Truthy(useRecursion) && self == selfFirst
      ensures regexp == old(regexp)
    {
      recursive := Truthy(useRecursion);
      self := selfFirst;
    }

    /** `is_recursive()`. */
    function IsRecursive(): (r: bool)
      reads this
      ensures r == recursive
    {
      recursive
    }

    /** `allows(path)`: a directory always passes a recursive query; anything else must match. */
    predicate Allows(s: FsState, path: string, m: Matcher)
      reads this
      ensures recursive && s.IsDir(path) ==> Allows(s, path, m)
      ensures !(recursive && s.IsDir(path)) ==> (Allows(s, path, m) <==> m(regexp, path))
    {
      Admits(s, recursive, regexp, path, m)
    }

    /** `forbids(path)`. */
    predicate Forbids(s: FsState, path: string, m: Matcher)
      reads this
      ensures Forbids(s, path, m) <==> !(recursive && s.IsDir(path)) && !m(regexp, path)
    {
      !Allows(s, path, m)
    }

    /** `__get(name)`. */
    function GetProperty(name: string): (r: Result<Value>)
      reads this
      ensures r.Ok? <==> PropertyIsSet(name)
      ensures name == "regexp" ==> r == Ok(Str(regexp))
      ensures name == "recursive" ==> r == Ok(Bool(recursive))
      ensures r.Err? ==> r.error == MissingProperty(name)
    {
      if name == "regexp" then Ok(Str(regexp))
      else if name == "recursive" then Ok(Bool(recursive))
      else Err(MissingProperty(name))
    }

    /** `__set(name, value)`: `regexp` as a string, `recursive` as a boolean, anything else throws. */
    method SetProperty(name: string, value: Value) returns (thrown: Option<Error>)
      modifies this
      ensures name == "regexp" ==> thrown.None? && regexp == ToStr(value) && recursive == old(recursive)
      ensures name == "recursive" ==> thrown.None? && recursive == Truthy(value) && regexp == old(regexp)
      ensures !PropertyIsSet(name) ==>
                thrown == Some(MissingProperty(name)) && regexp == old(regexp) && recursive == old(recursive)
      ensures self == old(self)
    {
      thrown := None;
      if name == "regexp" {
        regexp := ToStr(value);
      } else if name == "recursive" {
        recursive := Truthy(value);
      } else {
        thrown := Some(MissingProperty(name));
      }
    }
  }
}
