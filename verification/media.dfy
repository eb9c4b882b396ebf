/** `MediaUseCase`: classifying a file as video, image, raw image, gif or multimedia by the
    lower-cased extension of its name. The supported extension lists are not part of this
    model; they are parameters, as sets of lower-case extensions. */
module Media {
  import opened Common
  import opened Paths

  /** `videoSupportedExtensions`, `imagesSupportedExtensions` of the image and raw-image
      entities. */
  datatype ExtensionTables = ExtensionTables(video: set<string>, image: set<string>, raw: set<string>)

  /** `FileExtensionEntity.gif.rawValue`. */
  const Gif: string := "gif"

  // ---------------------------------------------------------------------------
  // File URLs

  /** A file URL, by its path. */
  datatype FileUrl = FileUrl(path: string)

  /** `URL(fileURLWithPath:)`: an absolute path is taken as it is, a relative one is
      resolved against the current directory `cwd`. */
  function FileUrlWithPath(cwd: string, name: string): (u: FileUrl)
    ensures |name| > 0 && name[0] != '/' ==> u.path == cwd + "/" + name
  {
    if |name| > 0 && name[0] == '/' then FileUrl(name) else FileUrl(cwd + "/" + name)
  }

  /** The characters after the last `/` of `s`. */
  function TailSegment(s: string): (r: string)
    ensures |r| <= |s| && r == s[|s| - |r|..]
    ensures Lacks(r, '/')
    ensures |r| < |s| ==> s[|s| - |r| - 1] == '/'
    decreases |s|
  {
    if |s| == 0 || s[|s| - 1] == '/' then ""
    else TailSegment(s[..|s| - 1]) + [s[|s| - 1]]
  }

  /** `lastPathComponent` of a path: trailing slashes are ignored. */
  function LastComponent(path: string): (r: string)
    ensures Lacks(r, '/')
    decreases |path|
  {
    if |path| > 0 && path[|path| - 1] == '/' then LastComponent(path[..|path| - 1])
    else TailSegment(path)
  }

  /** `URL.pathExtension`: the extension of the last path component. */
  function UrlPathExtension(u: FileUrl): string
  {
    PathExtension(LastComponent(u.path))
  }

  /** The last component of a path ending in `/name` is `name`. */
  lemma {:induction false} LastComponentOfJoin(dir: string, name: string)
    requires |name| > 0 && Lacks(name, '/')
    ensures LastComponent(dir + "/" + name) == name
  {
    TailSegmentOfJoin(dir, name);
  }

  lemma {:induction false} TailSegmentOfJoin(dir: string, name: string)
    requires Lacks(name, '/')
    ensures TailSegment(dir + "/" + name) == name
    decreases |name|
  {
    var s := dir + "/" + name;
    if |name| > 0 {
      var init := name[..|name| - 1];
      assert s[..|s| - 1] == dir + "/" + init;
      TailSegmentOfJoin(dir, init);
      assert init + [name[|name| - 1]] == name;
    } else {
      assert s[|s| - 1] == '/';
    }
  }

  /** A file name given to `URL(fileURLWithPath:)` is the last component of the URL when
      it is a non-empty single component. */
  lemma UrlOfName(cwd: string, name: string)
    requires |name| > 0 && Lacks(name, '/')
    ensures UrlPathExtension(FileUrlWithPath(cwd, name)) == PathExtension(name)
  {
    assert name[0] != '/';
    LastComponentOfJoin(cwd, name);
  }

  // ---------------------------------------------------------------------------
  // Classification

  /** The lower-cased extension of a name, as `NSString(string:).pathExtension.lowercased()`. */
  function LowerExtension(name: string): string
  {
    Lower(PathExtension(name))
  }

  /** `isVideo(for:)`. */
  predicate IsVideoUrl(t: ExtensionTables, u: FileUrl)
  {
    Lower(UrlPathExtension(u)) in t.video
  }

  /** `isImage(for:)`: an image or a raw image. */
  predicate IsImageUrl(t: ExtensionTables, u: FileUrl)
  {
    Lower(UrlPathExtension(u)) in t.image || Lower(UrlPathExtension(u)) in t.raw
  }

  /** `isVideo(_:)`: through the file URL of the name; for a single-component name, its
      own lower-cased extension decides. */
  function IsVideo(t: ExtensionTables, cwd: string, name: string): (r: bool)
    ensures |name| > 0 && Lacks(name, '/') ==> (r <==> LowerExtension(name) in t.video)
  {
    if |name| > 0 && Lacks(name, '/') then
      UrlOfName(cwd, name);
      IsVideoUrl(t, FileUrlWithPath(cwd, name))
    else IsVideoUrl(t, FileUrlWithPath(cwd, name))
  }

  /** `isImage(_:)`: through the file URL of the name; for a single-component name, its
      own lower-cased extension is in the image or the raw table. */
  function IsImage(t: ExtensionTables, cwd: string, name: string): (r: bool)
    ensures |name| > 0 && Lacks(name, '/') ==>
      (r <==> LowerExtension(name) in t.image || LowerExtension(name) in t.raw)
  {
    if |name| > 0 && Lacks(name, '/') then
      UrlOfName(cwd, name);
      IsImageUrl(t, FileUrlWithPath(cwd, name))
    else IsImageUrl(t, FileUrlWithPath(cwd, name))
  }

  /** `isRawImage(_:)`. */
  predicate IsRawImage(t: ExtensionTables, name: string)
  {
    LowerExtension(name) in t.raw
  }

  /** `isGifImage(_:)`: the extension is `gif` in any mix of cases. */
  function IsGifImage(name: string): (r: bool)
    ensures r <==> var e := PathExtension(name);
      |e| == 3 && (e[0] == 'g' || e[0] == 'G') && (e[1] == 'i' || e[1] == 'I') && (e[2] == 'f' || e[2] == 'F')
  {
    LowerExtension(name) == Gif
  }

  /** `isMultimedia(_:)`. */
  predicate IsMultimedia(t: ExtensionTables, cwd: string, name: string)
  {
    IsImage(t, cwd, name) || IsVideo(t, cwd, name)
  }

  // ---------------------------------------------------------------------------
  // Properties

  /** A raw image is an image. */
  lemma RawIsImage(t: ExtensionTables, cwd: string, name: string)
    requires |name| > 0 && Lacks(name, '/')
    ensures IsRawImage(t, name) ==> IsImage(t, cwd, name)
  {
  }

  /** A single-component name is multimedia exactly when its lower-cased extension is in
      one of the three tables. */
  lemma MultimediaByTables(t: ExtensionTables, cwd: string, name: string)
    requires |name| > 0 && Lacks(name, '/')
    ensures IsMultimedia(t, cwd, name) <==> LowerExtension(name) in t.image + t.raw + t.video
  {
  }

  /** Lower-casing is idempotent. */
  lemma LowerTwice(s: string)
    ensures Lower(Lower(s)) == Lower(s)
  {
  }

  /** Classification ignores case: names equal up to case get the same answers. */
  lemma {:induction false} CaseInsensitive(t: ExtensionTables, cwd: string, a: string, b: string)
    requires |a| > 0 && Lacks(a, '/') && |b| > 0 && Lacks(b, '/')
    requires Lower(a) == Lower(b)
    ensures IsVideo(t, cwd, a) == IsVideo(t, cwd, b)
    ensures IsImage(t, cwd, a) == IsImage(t, cwd, b)
    ensures IsRawImage(t, a) == IsRawImage(t, b)
    ensures IsGifImage(a) == IsGifImage(b)
    ensures IsMultimedia(t, cwd, a) == IsMultimedia(t, cwd, b)
  {
    SameLowerExtension(a, b);
  }

  /** Names equal up to case have the same lower-cased extension. */
  lemma SameLowerExtension(a: string, b: string)
    requires Lower(a) == Lower(b)
    ensures LowerExtension(a) == LowerExtension(b)
  {
    ExtensionOfLower(a);
    ExtensionOfLower(b);
    LowerTwice(PathExtension(a));
    LowerTwice(PathExtension(b));
  }
}
