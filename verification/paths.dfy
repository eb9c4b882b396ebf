/** `NSString.pathExtension` and `NSString.deletingPathExtension`, under Foundation's path
    rules.

    The path is tidied first: every run of `/` becomes a single `/`, and a trailing `/` is
    dropped unless the path is `/` itself. The extension then lives in the last path
    component, after its last `.`. There is none when the component has no dot, when that
    dot opens the component (a hidden file such as `.profile`), or when the component is
    `..` itself. A trailing dot gives an empty extension,
    and `DeletingPathExtension` removes it. `DeletingPathExtension` returns the tidied path
    up to the dot, or the whole tidied path when there is no extension. */
module Paths {
  import opened Common

  // ---------------------------------------------------------------------------
  // Tidying slashes

  /** A `/` sits at `i` right after another. */
  predicate DoubleSlashAt(s: string, i: int)
  {
    0 < i < |s| && s[i - 1] == '/' && s[i] == '/'
  }

  /** No `/` directly follows another. */
  predicate NoDoubleSlash(s: string)
  {
    forall i :: 0 < i < |s| ==> !DoubleSlashAt(s, i)
  }

  /** A tidied path: single slashes, and no trailing slash unless the path is `/`. */
  predicate Tidy(s: string)
  {
    NoDoubleSlash(s) && (|s| > 1 ==> s[|s| - 1] != '/')
  }

  /** `s` with every run of `/` collapsed to a single `/`. */
  function Compress(s: string): (r: string)
    ensures |r| <= |s|
    ensures NoDoubleSlash(r)
    ensures |s| > 0 ==> |r| > 0 && r[|r| - 1] == s[|s| - 1]
    decreases |s|
  {
    if |s| < 2 then s
    else
      var init := s[..|s| - 1];
      var c := Compress(init);
      if s[|s| - 1] == '/' && s[|s| - 2] == '/' then c
      else
        AppendKeepsSingle(c, s[|s| - 1]);
        c + [s[|s| - 1]]
  }

  /** Appending a character keeps the slashes single, unless it is a second `/`. */
  lemma AppendKeepsSingle(c: string, x: char)
    requires NoDoubleSlash(c)
    requires |c| > 0 && x == '/' ==> c[|c| - 1] != '/'
    ensures NoDoubleSlash(c + [x])
  {
    var s := c + [x];
    forall i | 0 < i < |s|
      ensures !DoubleSlashAt(s, i)
    {
      if 0 < i < |c| {
        assert !DoubleSlashAt(c, i);
      }
    }
  }

  /** Collapsing leaves a path with single slashes as it is. */
  lemma {:induction false} CompressSingle(s: string)
    requires NoDoubleSlash(s)
    ensures Compress(s) == s
    decreases |s|
  {
    if |s| >= 2 {
      var init := s[..|s| - 1];
      forall i | 0 < i < |init|
        ensures !DoubleSlashAt(init, i)
      {
        assert DoubleSlashAt(init, i) ==> DoubleSlashAt(s, i);
      }
      CompressSingle(init);
      assert !DoubleSlashAt(s, |s| - 1);
      assert init + [s[|s| - 1]] == s;
    }
  }

  /** `_stringByFixingSlashes`: runs of `/` collapsed and a trailing `/` removed, unless
      the whole path is `/`. */
  function FixSlashes(s: string): (r: string)
    ensures Tidy(r)
    ensures |r| == 0 <==> |s| == 0
  {
    StripTrailing(Compress(s))
  }

  /** Drops a trailing `/` unless the path is `/`. */
  function StripTrailing(c: string): (r: string)
    requires NoDoubleSlash(c)
    ensures Tidy(r)
    ensures |r| == 0 <==> |c| == 0
  {
    if |c| > 1 && c[|c| - 1] == '/' then
      var r := c[..|c| - 1];
      forall i | 0 < i < |r|
        ensures !DoubleSlashAt(r, i)
      {
        assert DoubleSlashAt(r, i) ==> DoubleSlashAt(c, i);
      }
      assert !DoubleSlashAt(c, |c| - 1);
      r
    else c
  }

  /** Tidying leaves a tidy path as it is. */
  lemma TidyUnchanged(s: string)
    requires Tidy(s)
    ensures FixSlashes(s) == s
  {
    CompressSingle(s);
  }

  /** Tidying a tidied path changes nothing. */
  lemma FixSlashesIdempotent(s: string)
    ensures FixSlashes(FixSlashes(s)) == FixSlashes(s)
  {
    TidyUnchanged(FixSlashes(s));
  }

  /** A path without `/` is already tidy. */
  lemma NoSlashIsTidy(s: string)
    requires Lacks(s, '/')
    ensures FixSlashes(s) == s
  {
    TidyUnchanged(s);
  }

  /** Joining two paths with single slashes keeps them single, unless a `/` meets a `/`. */
  lemma NoDoubleSlashJoin(a: string, b: string)
    requires NoDoubleSlash(a) && NoDoubleSlash(b)
    requires |a| > 0 && |b| > 0 ==> a[|a| - 1] != '/' || b[0] != '/'
    ensures NoDoubleSlash(a + b)
  {
    var s := a + b;
    forall i | 0 < i < |s|
      ensures !DoubleSlashAt(s, i)
    {
      if i < |a| {
        assert !DoubleSlashAt(a, i);
      } else if i > |a| {
        assert !DoubleSlashAt(b, i - |a|);
      }
    }
  }

  /** A slice of a path with single slashes has single slashes. */
  lemma NoDoubleSlashSlice(s: string, i: nat, j: nat)
    requires i <= j <= |s| && NoDoubleSlash(s)
    ensures NoDoubleSlash(s[i..j])
  {
    var t := s[i..j];
    forall k | 0 < k < |t|
      ensures !DoubleSlashAt(t, k)
    {
      assert !DoubleSlashAt(s, i + k);
    }
  }

  /** A string without `/` has no double slash. */
  lemma NoSlashNoDouble(s: string)
    requires Lacks(s, '/')
    ensures NoDoubleSlash(s)
  {
  }

  // ---------------------------------------------------------------------------
  // The last component and its extension

  /** No `c` at index `i` or after it. */
  predicate AbsentFrom(s: string, i: nat, c: char)
  {
    forall j :: i <= j < |s| ==> s[j] != c
  }

  /** Index just past the last `/` of `s`: where its last component starts. */
  function ComponentStart(s: string): (r: nat)
    ensures r <= |s| && AbsentFrom(s, r, '/')
    ensures r > 0 ==> s[r - 1] == '/'
    decreases |s|
  {
    if |s| == 0 || s[|s| - 1] == '/' then |s| else ComponentStart(s[..|s| - 1])
  }

  /** The start of the last component is the position after a `/` that no later
      character repeats. */
  lemma {:induction false} ComponentStartIs(s: string, r: nat)
    requires r <= |s| && AbsentFrom(s, r, '/')
    requires r > 0 ==> s[r - 1] == '/'
    ensures ComponentStart(s) == r
    decreases |s|
  {
    if r < |s| {
      ComponentStartIs(s[..|s| - 1], r);
    }
  }

  /** The last component of `a + b` lies in `b` when `b` holds a `/`, and otherwise
      starts where the one of `a` does. */
  lemma ComponentStartAppend(a: string, b: string)
    ensures ComponentStart(a + b) ==
      if ComponentStart(b) > 0 then |a| + ComponentStart(b) else ComponentStart(a)
  {
    var s := a + b;
    var cb := ComponentStart(b);
    if cb > 0 {
      assert s[|a| + cb - 1] == b[cb - 1];
      ComponentStartIs(s, |a| + cb);
    } else {
      var ca := ComponentStart(a);
      assert ca > 0 ==> s[ca - 1] == a[ca - 1];
      ComponentStartIs(s, ca);
    }
  }

  /** Index of the last `.` in `s`. */
  function LastDot(s: string): (r: Option<nat>)
    ensures r.Some? ==> r.value < |s| && s[r.value] == '.' && AbsentFrom(s, r.value + 1, '.')
    ensures r.None? ==> AbsentFrom(s, 0, '.')
    decreases |s|
  {
    if |s| == 0 then None
    else if s[|s| - 1] == '.' then Some(|s| - 1)
    else LastDot(s[..|s| - 1])
  }

  /** The last dot is the one every later character avoids. */
  lemma {:induction false} LastDotIs(s: string, k: nat)
    requires k < |s| && s[k] == '.' && AbsentFrom(s, k + 1, '.')
    ensures LastDot(s) == Some(k)
    decreases |s|
  {
    if k < |s| - 1 {
      LastDotIs(s[..|s| - 1], k);
    }
  }

  /** The last component of `s` is exactly `.`. */
  predicate DotComponent(s: string)
  {
    |s| > 0 && ComponentStart(s) == |s| - 1 && s[|s| - 1] == '.'
  }

  /** When a tail of `s` holds a `/` and ends with the component `.`, so does `s`. */
  lemma TailDotComponent(s: string, from: nat)
    requires from <= |s|
    ensures ComponentStart(s[from..]) > 0 && DotComponent(s[from..]) ==> DotComponent(s)
  {
    var tail := s[from..];
    var c := ComponentStart(tail);
    if c > 0 && DotComponent(tail) {
      assert s[from + c - 1] == tail[c - 1];
      ComponentStartIs(s, from + c);
    }
  }

  /** `_startOfPathExtension` of a tidied path, less one: the dot that introduces the
      extension of its last component. */
  function ComponentDot(f: string): (r: Option<nat>)
    ensures r.Some? ==>
      && ComponentStart(f) < r.value < |f| && f[r.value] == '.'
      && AbsentFrom(f, r.value + 1, '.') && AbsentFrom(f, r.value + 1, '/')
    ensures r.Some? ==> !(r.value == ComponentStart(f) + 1 && f[ComponentStart(f)] == '.' && r.value == |f| - 1)
  {
    var c := ComponentStart(f);
    match LastDot(f)
    case None => None
    case Some(k) => if k <= c || (k == c + 1 && f[c] == '.' && k == |f| - 1) then None else Some(k)
  }

  /** Index, in the tidied path, of the dot that introduces the extension. */
  function ExtensionDot(path: string): Option<nat>
  {
    ComponentDot(FixSlashes(path))
  }

  /** `NSString.pathExtension`. */
  function PathExtension(path: string): string
  {
    ExtensionOf(FixSlashes(path))
  }

  /** `NSString.deletingPathExtension`. */
  function DeletingPathExtension(path: string): string
  {
    StemOf(FixSlashes(path))
  }

  /** The extension of a tidied path: what follows the dot, or nothing. */
  function ExtensionOf(f: string): string
  {
    match ComponentDot(f)
    case None => ""
    case Some(k) => f[k + 1..]
  }

  /** The stem of a tidied path: everything before the dot, or the whole path. */
  function StemOf(f: string): string
  {
    match ComponentDot(f)
    case None => f
    case Some(k) => f[..k]
  }

  /** A stem that gets `ext` back whole: single slashes, a non-empty last component, and
      when that component is `.`, an extension that keeps the joined component from being
      `..`. */
  predicate ProperStem(stem: string, ext: string)
  {
    NoDoubleSlash(stem) && ComponentStart(stem) < |stem| && (DotComponent(stem) ==> ext != "")
  }

  // ---------------------------------------------------------------------------
  // Properties

  /** An extension holds neither a dot nor a slash. */
  lemma ExtensionLacksDot(path: string)
    ensures Lacks(PathExtension(path), '.') && Lacks(PathExtension(path), '/')
  {
  }

  /** The stem has single slashes; with an extension it is a proper stem, and without one
      the extension is empty. */
  lemma StemShape(path: string)
    ensures NoDoubleSlash(DeletingPathExtension(path))
    ensures ExtensionDot(path).Some? ==> ProperStem(DeletingPathExtension(path), PathExtension(path))
    ensures ExtensionDot(path).None? ==> PathExtension(path) == ""
    ensures var stem := DeletingPathExtension(path); |stem| > 1 ==> stem[|stem| - 1] != '/'
  {
    var f := FixSlashes(path);
    match ComponentDot(f)
    case None =>
    case Some(k) =>
      var stem := f[..k];
      var c := ComponentStart(f);
      forall i | 0 < i < |stem|
        ensures !DoubleSlashAt(stem, i)
      {
        assert DoubleSlashAt(stem, i) ==> DoubleSlashAt(f, i);
      }
      assert c > 0 ==> stem[c - 1] == f[c - 1];
      ComponentStartIs(stem, c);
      assert |f[k + 1..]| == |f| - k - 1;
  }

  /** Joining a proper stem and an extension free of dots and slashes with `.`, and
      splitting again, gives both back; the joined name is already tidy. */
  lemma SplitJoined(stem: string, ext: string)
    requires ProperStem(stem, ext) && Lacks(ext, '.') && Lacks(ext, '/')
    ensures FixSlashes(stem + "." + ext) == stem + "." + ext
    ensures DeletingPathExtension(stem + "." + ext) == stem
    ensures PathExtension(stem + "." + ext) == ext
  {
    var s := stem + "." + ext;
    JoinedTidy(stem, ext);
    TidyUnchanged(s);
    JoinedDot(stem, ext);
    assert s[..|stem|] == stem;
    assert s[|stem| + 1..] == ext;
  }

  /** The join of a proper stem, a dot and an extension without slashes is tidy. */
  lemma JoinedTidy(stem: string, ext: string)
    requires ProperStem(stem, ext) && Lacks(ext, '/')
    ensures Tidy(stem + "." + ext)
  {
    var s := stem + "." + ext;
    forall i | 0 < i < |s|
      ensures !DoubleSlashAt(s, i)
    {
      if 0 < i < |stem| {
        assert !DoubleSlashAt(stem, i);
      } else if |stem| + 1 < i < |s| {
        assert s[i] == ext[i - |stem| - 1];
      }
    }
    if |ext| > 0 {
      assert s[|s| - 1] == ext[|ext| - 1];
    }
  }

  /** In the join of a proper stem, a dot and an extension free of dots and slashes, the
      joining dot introduces the extension. */
  lemma JoinedDot(stem: string, ext: string)
    requires ProperStem(stem, ext) && Lacks(ext, '.') && Lacks(ext, '/')
    ensures ComponentDot(stem + "." + ext) == Some(|stem|)
  {
    var s := stem + "." + ext;
    var c := ComponentStart(stem);
    forall j | |stem| < j < |s|
      ensures s[j] != '.' && s[j] != '/'
    {
      assert s[j] == ext[j - |stem| - 1];
    }
    LastDotIs(s, |stem|);
    assert c > 0 ==> s[c - 1] == stem[c - 1];
    ComponentStartIs(s, c);
  }

  /** A stem whose last component is `.` gets no extension from an extra dot: the new last
      component `..` is left whole. */
  lemma AddedDotStays(stem: string)
    requires NoDoubleSlash(stem) && DotComponent(stem)
    ensures DeletingPathExtension(stem + ".") == stem + "."
    ensures PathExtension(stem + ".") == ""
  {
    var s := stem + ".";
    var c := ComponentStart(stem);
    AppendKeepsSingle(stem, '.');
    assert s[|s| - 1] == '.';
    TidyUnchanged(s);
    assert c > 0 ==> s[c - 1] == stem[c - 1];
    ComponentStartIs(s, c);
    LastDotIs(s, |stem|);
  }

  /** A path with an extension is its stem, a dot and its extension, once tidied. */
  lemma JoinSplit(path: string)
    requires ExtensionDot(path).Some?
    ensures DeletingPathExtension(path) + "." + PathExtension(path) == FixSlashes(path)
  {
    var f := FixSlashes(path);
    var k := ExtensionDot(path).value;
    assert f == f[..k] + [f[k]] + f[k + 1..];
  }

  /** A path without an extension is its own stem, once tidied. */
  lemma NoExtension(path: string)
    requires ExtensionDot(path).None?
    ensures DeletingPathExtension(path) == FixSlashes(path) && PathExtension(path) == ""
  {
  }

  // ---------------------------------------------------------------------------
  // Case

  /** Lower-casing a path keeps its dots and slashes where they are, so it finds the same
      extension and lower-cases it. */
  lemma ExtensionOfLower(path: string)
    ensures ExtensionDot(Lower(path)) == ExtensionDot(path)
    ensures PathExtension(Lower(path)) == Lower(PathExtension(path))
  {
    FixSlashesOfLower(path);
    ExtensionOfLowerTidy(FixSlashes(path));
  }

  /** Lower-casing a tidied path keeps its extension dot and lower-cases its extension. */
  lemma ExtensionOfLowerTidy(f: string)
    ensures ComponentDot(Lower(f)) == ComponentDot(f)
    ensures ExtensionOf(Lower(f)) == Lower(ExtensionOf(f))
  {
    ComponentDotOfLower(f);
    SameDotLowerExtension(f, Lower(f));
  }

  /** A lower-cased path with the same extension dot has the lower-cased extension. */
  lemma SameDotLowerExtension(f: string, g: string)
    requires g == Lower(f) && ComponentDot(g) == ComponentDot(f)
    ensures ExtensionOf(g) == Lower(ExtensionOf(f))
  {
    if ComponentDot(f).Some? {
      var k := ComponentDot(f).value;
      LowerSuffix(f, k + 1);
      SameDotExtension(f, g, k);
    } else {
      ExtensionNone(f);
      ExtensionNone(g);
      assert |Lower("")| == 0;
    }
  }

  /** Two paths with the same extension dot, one's tail the lower-cased other's, have
      extensions related the same way. */
  lemma SameDotExtension(f: string, g: string, k: nat)
    requires ComponentDot(f) == Some(k) && ComponentDot(g) == Some(k)
    requires k < |g| && g[k + 1..] == Lower(f[k + 1..])
    ensures ExtensionOf(g) == Lower(ExtensionOf(f))
  {
    ExtensionAt(f, k);
    ExtensionAt(g, k);
  }

  /** The extension of a tidied path is what follows its extension dot. */
  lemma ExtensionAt(f: string, k: nat)
    requires ComponentDot(f) == Some(k)
    ensures k < |f| && ExtensionOf(f) == f[k + 1..]
  {
  }

  /** A tidied path without an extension dot has an empty extension. */
  lemma ExtensionNone(f: string)
    requires ComponentDot(f).None?
    ensures ExtensionOf(f) == ""
  {
  }

  /** Lower-casing commutes with taking a suffix. */
  lemma LowerSuffix(s: string, i: nat)
    requires i <= |s|
    ensures Lower(s)[i..] == Lower(s[i..])
  {
  }

  /** Lower-casing and tidying commute. */
  lemma FixSlashesOfLower(s: string)
    ensures FixSlashes(Lower(s)) == Lower(FixSlashes(s))
  {
    CompressOfLower(s);
    var c := Compress(s);
    if |c| > 1 && c[|c| - 1] == '/' {
      LowerPrefix(c, |c| - 1);
    }
  }

  /** Lower-casing keeps a path tidy, and an untidy one untidy. */
  lemma TidyOfLower(s: string)
    ensures Tidy(Lower(s)) <==> Tidy(s)
  {
    forall i | 0 < i < |s|
      ensures DoubleSlashAt(Lower(s), i) == DoubleSlashAt(s, i)
    {
    }
  }

  /** Lower-casing and collapsing slashes commute. */
  lemma {:induction false} CompressOfLower(s: string)
    ensures Compress(Lower(s)) == Lower(Compress(s))
    decreases |s|
  {
    if |s| >= 2 {
      var init := s[..|s| - 1];
      LowerPrefix(s, |s| - 1);
      CompressOfLower(init);
      LowerAppend(Compress(init), s[|s| - 1]);
    }
  }

  /** Lower-casing commutes with taking a prefix. */
  lemma LowerPrefix(s: string, i: nat)
    requires i <= |s|
    ensures Lower(s)[..i] == Lower(s[..i])
  {
  }

  /** Lower-casing a string with a character appended. */
  lemma LowerAppend(s: string, x: char)
    ensures Lower(s + [x]) == Lower(s) + [LowerChar(x)]
  {
  }

  /** Lower-casing moves no dot and no slash. */
  lemma ComponentDotOfLower(f: string)
    ensures ComponentDot(Lower(f)) == ComponentDot(f)
  {
    LastDotOfLower(f);
    ComponentStartIs(Lower(f), ComponentStart(f));
  }

  /** Lower-casing keeps the last dot. */
  lemma LastDotOfLower(name: string)
    ensures LastDot(Lower(name)) == LastDot(name)
  {
    if LastDot(name).Some? {
      LastDotIs(Lower(name), LastDot(name).value);
    } else {
      assert AbsentFrom(Lower(name), 0, '.');
    }
  }

  /** Only the last component counts: a leading dot there starts no extension. */
  lemma HiddenFileExample()
    ensures PathExtension("photos/.gif") == ""
  {
    var s := "photos/.gif";
    assert Tidy(s) by {
      forall i | 0 < i < |s|
        ensures !DoubleSlashAt(s, i)
      {
      }
    }
    TidyUnchanged(s);
    ComponentStartIs(s, 7);
    LastDotIs(s, 7);
  }

  /** A trailing `/` is dropped before the extension is taken. */
  lemma TrailingSlashExample()
    ensures PathExtension("a.gif/") == "gif"
  {
    var s := "a.gif/";
    assert Compress(s) == s by {
      assert NoDoubleSlash(s) by {
        forall i | 0 < i < |s|
          ensures !DoubleSlashAt(s, i)
        {
        }
      }
      CompressSingle(s);
    }
    var f := "a.gif";
    assert FixSlashes(s) == f;
    ComponentStartIs(f, 0);
    LastDotIs(f, 1);
  }

  /** A dot in a directory name is not an extension. */
  lemma DirectoryDotExample()
    ensures DeletingPathExtension("dir.v2/file") == "dir.v2/file"
  {
    var s := "dir.v2/file";
    assert Tidy(s) by {
      forall i | 0 < i < |s|
        ensures !DoubleSlashAt(s, i)
      {
      }
    }
    TidyUnchanged(s);
    ComponentStartIs(s, 7);
    LastDotIs(s, 3);
  }

  /** A component that starts with `..` still has an extension after its second dot. */
  lemma LeadingDotsExample()
    ensures PathExtension("..tiff") == "tiff" && DeletingPathExtension("..tiff") == "."
  {
    var s := "..tiff";
    NoSlashIsTidy(s);
    ComponentStartIs(s, 0);
    LastDotIs(s, 1);
  }

  /** The component `..` has no extension. */
  lemma ParentComponentExample()
    ensures PathExtension("a/..") == "" && DeletingPathExtension("a/..") == "a/.."
  {
    var s := "a/..";
    assert Tidy(s) by {
      forall i | 0 < i < |s|
        ensures !DoubleSlashAt(s, i)
      {
      }
    }
    TidyUnchanged(s);
    ComponentStartIs(s, 2);
    LastDotIs(s, 3);
  }
}
