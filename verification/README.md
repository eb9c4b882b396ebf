# Decision logic of the MEGA iOS app, in Dafny

This project models six small pieces of decision logic from the MEGA iOS client and proves
properties about them:

- **Name-collision renaming** (`NameCollisionUseCase`). `renameNode` finds a free name for a node
  copied or moved into a folder that already holds the name. It takes the first `(digits)` group
  of the name's stem and increments it, or appends ` (1)` when the stem has none, then puts the
  extension back. It repeats until no child of the parent carries the candidate. The module also
  covers `resolveNameCollisions` and the empty-string fallbacks of the size and date labels.
  - The counter search is proved to return the first free candidate.
  - The search is proved to fail exactly when every candidate up to `Int.max` is taken, so it
    always succeeds while the folder has fewer children than that.
  - The returned name is never taken and keeps the original extension.
- **Media classification** (`MediaUseCase`): video, image, raw image, gif and multimedia, decided
  by the lower-cased path extension of a file name.
- **Quick-access widget** (`FavouritesQuickAccessWidgetViewModel`): the connection status machine
  with its reload-per-assignment observer, and the entries of the favourites widget.
- **Album reload decision** (`AlbumContentsUpdateNotifierRepository`): when a batch of node
  updates makes the album on screen reload.
- **Context-menu action entities** (`ContextMenuBuilder+ActionEntities`). Each sort, view-mode
  and chat-status action is on exactly for the current selection. The other actions carry
  distinct types and no state.
- **Text editor** (`TextEditorViewModel`), as its unit tests pin it down. For each mode (view,
  create, edit, load) and action, the test file gives the commands sent to the view and the
  router calls made.

Foundation behaviour that these pieces depend on is modelled in helper modules:

- `Paths`: `NSString.pathExtension` and `deletingPathExtension`, after the open-source
  Foundation. A path is first tidied: runs of `/` collapse to one and a trailing `/` is dropped.
  Only the last component can carry the extension. Its extension starts at its last dot,
  unless that dot is the component's first character, or the component is `..` itself. So
  `..tiff` has the extension `tiff` and the stem `.`, while `a/..` has none.
- `Decimal`: `Int(String)` on ASCII digits, with its `Int.max` bound, and the decimal printing
  of an integer.
- `CounterPattern`: the first match of the regular expression `\(\d+\)`.

Where the Swift code calls a repository, the SDK, a formatter or the router, the model takes
that collaborator's answer as a parameter instead. Examples: `childNodeNamed` is membership in a
map of children; the supported extension lists are sets of strings.

A name without an extension is rebuilt by `renameNode` as `stem + "." + ""`, so it gains a
trailing dot. The model keeps that behaviour; `NameCollision.UnparsedCounterEchoesName` and
`NameCollision.CandidateEndsWithExtension` state it.

One consequence of that trailing dot: when the stem's last path component is `.` and there is
no extension (a name such as `a (1)/.`), the first candidate, `a (2)/..`, ends with the
component `..`, which has no extension.
Splitting it again moves the added dot into the stem, so from there on the search runs with a
suffix one dot longer. `NameCollision.DotRenameStep` states this case, and
`NameCollision.NoOverflowWithFewNames` covers it.

## Model

| member | source | states |
|---|---|---|
| NameCollision.ChildNodeNamed | MEGADomain/UseCase/General/NameCollisionUseCase.swift:38 | definition: the repository lookup finds a handle exactly when the parent has a child of that name, and returns that child's handle; NameCollision.RenameNode and NameCollision.ResolveOne use it as the collision test |
| NameCollision.SplitCounter | MEGADomain/UseCase/General/NameCollisionUseCase.swift:106-112 | any counter a split yields is at most `Int.max`, and the split's extension is the name's path extension |
| NameCollision.SplitStem | MEGADomain/UseCase/General/NameCollisionUseCase.swift:106-112 | the split of a stem keeps the extension it is given and bounds the counter by `Int.max` |
| NameCollision.SplitFailsIff | MEGADomain/UseCase/General/NameCollisionUseCase.swift:108-112 | the split fails exactly when the stem's first `(digits)` group holds digits that are not an `Int` |
| NameCollision.SplitWithoutCounter | MEGADomain/UseCase/General/NameCollisionUseCase.swift:120-121 | with no `(digits)` group, the split is the stem followed by a space, a counter of zero, an empty suffix and the extension |
| NameCollision.NextName | MEGADomain/UseCase/General/NameCollisionUseCase.swift:105-126 | one renaming step: the counter does not parse exactly when the split fails, and then the result is stem + "." + extension; the step overflows exactly when the counter is `Int.max`; otherwise the candidate is the split with its counter increased by one |
| NameCollision.IncrementCounter | MEGADomain/UseCase/General/NameCollisionUseCase.swift:108-114 | the branch with a `(digits)` group: the same three outcomes as `NextName`, and the candidate replaces the matched group by the incremented counter |
| NameCollision.AppendCounter | MEGADomain/UseCase/General/NameCollisionUseCase.swift:120-121 | with no `(digits)` group, the name reads as a counter of zero and the candidate is stem + " (1)." + extension |
| NameCollision.Rename | MEGADomain/UseCase/General/NameCollisionUseCase.swift:105-128 | a returned name is not among the parent's children, and it ends with "." and the original extension; "counter not parsed" happens exactly when the split fails, and returns stem + "." + extension |
| NameCollision.RenameNode | MEGADomain/UseCase/General/NameCollisionUseCase.swift:105-128 | against a node repository: the returned name has no child in the parent and keeps the extension |
| NameCollision.SplitShape | MEGADomain/UseCase/General/NameCollisionUseCase.swift:106-112 | every split is shaped: no counter group starts in the prefix or across its end, slashes are single, the suffix does not end with `/`, the extension holds no dot or slash |
| NameCollision.SplitPrefix | MEGADomain/UseCase/General/NameCollisionUseCase.swift:106-108 | no `(digits)` group starts in the prefix of a split, not even one closing past its end |
| NameCollision.SplitSlashes | MEGADomain/UseCase/General/NameCollisionUseCase.swift:106-112 | prefix and suffix keep the stem's single slashes, the suffix ends with no `/`, and it ends with the component `.` only when the stem does |
| NameCollision.AssembledStem | MEGADomain/UseCase/General/NameCollisionUseCase.swift:113-114 | a stem rebuilt around printed digits has single slashes and a non-empty last component, which is `.` exactly when the suffix ends with that component |
| NameCollision.NextSplitWellFormed | MEGADomain/UseCase/General/NameCollisionUseCase.swift:113-116 | the split after the first candidate is well-formed: its suffix no longer ends with the component `.` with an empty extension |
| NameCollision.CandidateParts | MEGADomain/UseCase/General/NameCollisionUseCase.swift:107-114 | a candidate of a well-formed split has the rebuilt stem as its stem and the split's extension as its extension |
| NameCollision.SplitAssembled | MEGADomain/UseCase/General/NameCollisionUseCase.swift:106-112 | a stem rebuilt around a printed counter up to `Int.max` splits back into the same prefix, counter and suffix |
| NameCollision.CandidateSplit | MEGADomain/UseCase/General/NameCollisionUseCase.swift:113-114 | splitting a candidate of a well-formed split gives back its prefix, suffix and extension, with the counter it was built with (round trip) |
| NameCollision.DotCandidateSplit | MEGADomain/UseCase/General/NameCollisionUseCase.swift:107-114 | when the suffix ends with the component `.` and the extension is empty, a candidate ends with `..`, has no extension, and splits with the counter it was built with and the suffix one dot longer |
| NameCollision.CounterGroup | MEGADomain/UseCase/General/NameCollisionUseCase.swift:106-109 | in a rebuilt stem, the first `(digits)` group is the printed counter, exactly where the prefix ends |
| NameCollision.NextCandidate | MEGADomain/UseCase/General/NameCollisionUseCase.swift:113-116 | the first candidate splits into the next split: the counter one higher, and the suffix one dot longer only when it ended with the component `.`; so each recursive call raises the counter |
| NameCollision.ShapedCandidate | MEGADomain/UseCase/General/NameCollisionUseCase.swift:113-116 | the same, stated on a shaped split |
| NameCollision.AppendedCandidate | MEGADomain/UseCase/General/NameCollisionUseCase.swift:121 | with no group, the first candidate is the stem followed by " (1)." and the extension |
| NameCollision.IncrementedSplit | MEGADomain/UseCase/General/NameCollisionUseCase.swift:108-110 | when the matched digits parse, the split is exactly the text around the match and the parsed value |
| NameCollision.IncrementedCandidate | MEGADomain/UseCase/General/NameCollisionUseCase.swift:113-114 | the source's replacement of the matched range by `(counter + 1)` equals the candidate built from the split |
| NameCollision.CandidateEndsWithExtension | MEGADomain/UseCase/General/NameCollisionUseCase.swift:114 | every candidate ends with "." and the original extension |
| NameCollision.RenameStep | MEGADomain/UseCase/General/NameCollisionUseCase.swift:113-119 | one unfolding of the recursion: overflow at `Int.max`, recursion on a taken candidate, the candidate when it is free |
| NameCollision.Search | MEGADomain/UseCase/General/NameCollisionUseCase.swift:113-119 | the counter search, which ends with a free name or an overflow and never fails to parse |
| NameCollision.RenameIsSearch | MEGADomain/UseCase/General/NameCollisionUseCase.swift:105-128 | renaming a name with a well-formed split is the counter search from its split |
| NameCollision.SearchFrom | MEGADomain/UseCase/General/NameCollisionUseCase.swift:105-128 | the same, by induction on the room left below `Int.max` |
| NameCollision.WellFormedCandidate | MEGADomain/UseCase/General/NameCollisionUseCase.swift:113-116 | the first candidate of a well-formed split splits into the same split one counter on, which is again well-formed |
| NameCollision.DotRenameStep | MEGADomain/UseCase/General/NameCollisionUseCase.swift:105-128 | when the suffix ends with the component `.` and the extension is empty: overflow at `Int.max`, the first candidate when it is free, and otherwise the counter search from the next split |
| NameCollision.SearchFindsFirstFree | MEGADomain/UseCase/General/NameCollisionUseCase.swift:115-119 | the search returns the first candidate that is not taken |
| NameCollision.ShiftedTaken | MEGADomain/UseCase/General/NameCollisionUseCase.swift:115-116 | the candidates after one recursive step are those of the caller, shifted by one |
| NameCollision.RenameIsFirstFreeCandidate | MEGADomain/UseCase/General/NameCollisionUseCase.swift:105-128 | for a well-formed split, when candidates 1 to j-1 are taken and j is free, renaming returns candidate j |
| NameCollision.ShiftedCandidates | MEGADomain/UseCase/General/NameCollisionUseCase.swift:115-116 | after a taken candidate, all later candidates are taken exactly when all candidates from the next counter are |
| NameCollision.SearchOverflowIffExhausted | MEGADomain/UseCase/General/NameCollisionUseCase.swift:113 | the search overflows exactly when every candidate up to `Int.max` is taken |
| NameCollision.OverflowIffExhausted | MEGADomain/UseCase/General/NameCollisionUseCase.swift:113 | for a well-formed split, renaming traps on `counter + 1` exactly when every candidate up to `Int.max` is taken |
| NameCollision.CandidateInjective | MEGADomain/UseCase/General/NameCollisionUseCase.swift:113-114 | different counters give different candidates |
| NameCollision.ManyCandidates | MEGADomain/UseCase/General/NameCollisionUseCase.swift:115-116 | if n candidates are all taken, the parent has at least n children |
| NameCollision.NoOverflowWithFewNames | MEGADomain/UseCase/General/NameCollisionUseCase.swift:113-126 | termination: for every name that splits, with fewer children than the counters left before `Int.max`, renaming returns a free name |
| NameCollision.FirstDotCandidateCounts | MEGADomain/UseCase/General/NameCollisionUseCase.swift:113-126 | when the suffix ends with the component `.`, the extension is empty and renaming overflows, the parent has at least as many children as counters were left |
| NameCollision.DotSearchCounts | MEGADomain/UseCase/General/NameCollisionUseCase.swift:113-126 | the same count, stated on the split |
| NameCollision.LaterCandidateDiffers | MEGADomain/UseCase/General/NameCollisionUseCase.swift:113-116 | past a suffix ending with the component `.` and an empty extension, no later candidate repeats the first one |
| NameCollision.UnparsedCounterEchoesName | MEGADomain/UseCase/General/NameCollisionUseCase.swift:110-112 | when the counter does not parse, the result is the tidied name, or the tidied name with a trailing dot when it had no extension, without consulting the parent |
| NameCollision.ResolveOne | MEGADomain/UseCase/General/NameCollisionUseCase.swift:37-39 | one collision keeps its request and gets the colliding handle the repository reports for its name and parent |
| NameCollision.ResolveNameCollisions | MEGADomain/UseCase/General/NameCollisionUseCase.swift:36-41 | the same collisions in the same order with only the colliding node set: it is set exactly when the parent has a child of that name, and then it is that child's handle; resolving the result again changes nothing |
| NameCollision.SizeLabel | MEGADomain/UseCase/General/NameCollisionUseCase.swift:73-79 | no size gives ""; a size above `Int64.max` traps (`None`); any other size gives the formatted byte count |
| NameCollision.DateLabel | MEGADomain/UseCase/General/NameCollisionUseCase.swift:81-87 | no date gives "", otherwise the formatted date |
| NameCollision.SizeForNode | MEGADomain/UseCase/General/NameCollisionUseCase.swift:73-79 | "" exactly when the repository has no size for the node; otherwise the formatted size |
| NameCollision.CreationDateForNode | MEGADomain/UseCase/General/NameCollisionUseCase.swift:81-87 | "" exactly when the repository has no creation date for the node; otherwise the formatted date |
| NameCollision.SizeForFile | MEGADomain/UseCase/General/NameCollisionUseCase.swift:89-95 | "" exactly when the file system has no size for the URL; otherwise the formatted size |
| NameCollision.CreationDateForFile | MEGADomain/UseCase/General/NameCollisionUseCase.swift:97-103 | "" exactly when the file system has no creation date for the URL; otherwise the formatted date |
| Paths.PathExtension | MEGADomain/UseCase/General/NameCollisionUseCase.swift:111 | no contract of its own: the extension of the tidied path's last component. Paths.ExtensionLacksDot, Paths.JoinSplit, Paths.NoExtension, Paths.SplitJoined and the three examples state its properties |
| Paths.DeletingPathExtension | MEGADomain/UseCase/General/NameCollisionUseCase.swift:107 | no contract of its own: the tidied path up to the extension dot, or all of it. Paths.StemShape, Paths.JoinSplit, Paths.NoExtension, Paths.SplitJoined and Paths.AddedDotStays state its properties |
| Paths.Compress | MEGADomain/UseCase/General/NameCollisionUseCase.swift:107 | collapsing runs of `/` leaves no `/` next to another, never lengthens the path and keeps its last character |
| Paths.FixSlashes | MEGADomain/UseCase/General/NameCollisionUseCase.swift:107 | a tidied path has single slashes and no trailing `/` (unless it is `/`), and is empty only when the path is |
| Paths.StripTrailing | MEGADomain/UseCase/General/NameCollisionUseCase.swift:107 | dropping the trailing `/` gives a tidy path, empty only when its input is |
| Paths.CompressSingle | MEGADomain/UseCase/General/NameCollisionUseCase.swift:107 | collapsing leaves a path with single slashes as it is |
| Paths.TidyUnchanged | MEGADomain/UseCase/General/NameCollisionUseCase.swift:107 | tidying leaves a tidy path as it is |
| Paths.FixSlashesIdempotent | MEGADomain/UseCase/General/NameCollisionUseCase.swift:107 | tidying is idempotent |
| Paths.NoSlashIsTidy | MEGADomain/UseCase/General/NameCollisionUseCase.swift:107 | a name without `/` is left as it is by tidying |
| Paths.ComponentStart | MEGADomain/UseCase/General/NameCollisionUseCase.swift:107 | the last component starts right after a `/` and holds no `/` |
| Paths.ComponentStartIs | MEGADomain/UseCase/General/NameCollisionUseCase.swift:107 | the position after a `/` with no `/` later is where the last component starts |
| Paths.ComponentStartAppend | MEGADomain/UseCase/General/NameCollisionUseCase.swift:107 | the last component of `a + b` starts in `b` when `b` holds a `/`, and otherwise where that of `a` starts |
| Paths.LastDot | MEGADomain/UseCase/General/NameCollisionUseCase.swift:107 | the position of the last dot of a string: no dot follows it; without a dot the string has none |
| Paths.LastDotIs | MEGADomain/UseCase/General/NameCollisionUseCase.swift:107 | a dot followed by no other dot is the last dot |
| Paths.ComponentDot | MEGADomain/UseCase/General/NameCollisionUseCase.swift:107 | the extension dot of a tidied path lies in the last component after its first character, no dot or `/` follows it, and the component is not `..` |
| Paths.ExtensionLacksDot | MEGADomain/UseCase/General/NameCollisionUseCase.swift:111 | a path extension holds neither a dot nor a `/` |
| Paths.StemShape | MEGADomain/UseCase/General/NameCollisionUseCase.swift:107 | the stem has single slashes and no trailing `/`; with an extension its last component is non-empty and not `.`; without one the extension is empty |
| Paths.SplitJoined | MEGADomain/UseCase/General/NameCollisionUseCase.swift:114 | a proper stem + "." + an extension without dot or `/` is tidy and splits back into that stem and extension (round trip) |
| Paths.JoinedTidy | MEGADomain/UseCase/General/NameCollisionUseCase.swift:114 | a proper stem joined with a dot and an extension without `/` is tidy |
| Paths.JoinedDot | MEGADomain/UseCase/General/NameCollisionUseCase.swift:114 | in that join, the extension dot is the added one |
| Paths.AddedDotStays | MEGADomain/UseCase/General/NameCollisionUseCase.swift:107-114 | a dot added after the component `.` starts no extension: the stem is the whole path and the extension is empty |
| Paths.JoinSplit | MEGADomain/UseCase/General/NameCollisionUseCase.swift:107-111 | a path with an extension is, once tidied, its stem, a dot and its extension (round trip) |
| Paths.NoExtension | MEGADomain/UseCase/General/NameCollisionUseCase.swift:107-111 | a path without an extension is, once tidied, its own stem, and its extension is empty |
| Paths.HiddenFileExample | Modules/MEGADomain/Sources/MEGADomain/UseCase/Media/MediaUseCase.swift:49 | "photos/.gif" has no extension, because its last component starts with the dot |
| Paths.TrailingSlashExample | Modules/MEGADomain/Sources/MEGADomain/UseCase/Media/MediaUseCase.swift:49 | "a.gif/" has the extension "gif" |
| Paths.DirectoryDotExample | MEGADomain/UseCase/General/NameCollisionUseCase.swift:107 | "dir.v2/file" has no extension: its stem is the whole path |
| Paths.LeadingDotsExample | MEGADomain/UseCase/General/NameCollisionUseCase.swift:107-111 | "..tiff" has the extension "tiff" and the stem "." |
| Paths.ParentComponentExample | MEGADomain/UseCase/General/NameCollisionUseCase.swift:107-111 | "a/.." has no extension and is its own stem |
| Paths.ExtensionOfLower | Modules/MEGADomain/Sources/MEGADomain/UseCase/Media/MediaUseCase.swift:45 | lower-casing a path moves no extension dot and lower-cases its extension |
| Paths.ExtensionOfLowerTidy | Modules/MEGADomain/Sources/MEGADomain/UseCase/Media/MediaUseCase.swift:45 | the same for a tidied path |
| Paths.FixSlashesOfLower | Modules/MEGADomain/Sources/MEGADomain/UseCase/Media/MediaUseCase.swift:45 | lower-casing and tidying commute |
| Paths.TidyOfLower | Modules/MEGADomain/Sources/MEGADomain/UseCase/Media/MediaUseCase.swift:45 | lower-casing keeps a path tidy, and an untidy one untidy |
| Paths.CompressOfLower | Modules/MEGADomain/Sources/MEGADomain/UseCase/Media/MediaUseCase.swift:45 | lower-casing and collapsing slashes commute |
| Paths.ComponentDotOfLower | Modules/MEGADomain/Sources/MEGADomain/UseCase/Media/MediaUseCase.swift:45 | lower-casing keeps the extension dot of a tidied path |
| Paths.LastDotOfLower | Modules/MEGADomain/Sources/MEGADomain/UseCase/Media/MediaUseCase.swift:45 | lower-casing keeps the last dot |
| Decimal.ToDecimal | MEGADomain/UseCase/General/NameCollisionUseCase.swift:113 | the printed counter is a non-empty run of ASCII digits |
| Decimal.ParseInt | MEGADomain/UseCase/General/NameCollisionUseCase.swift:110 | definition: `Int(String)` succeeds exactly on a non-empty run of ASCII digits whose value is at most `Int.max`, and then returns that value; its partner is Decimal.ParsePrinted, the round trip with the printed counter |
| Decimal.ValueOfDecimal | MEGADomain/UseCase/General/NameCollisionUseCase.swift:113 | the digits printed for n have value n |
| Decimal.ParsePrinted | MEGADomain/UseCase/General/NameCollisionUseCase.swift:110-113 | parsing a printed counter up to `Int.max` gives it back (round trip) |
| Decimal.ToDecimalInjective | MEGADomain/UseCase/General/NameCollisionUseCase.swift:113 | different counters print differently |
| CounterPattern.DigitRunEnd | MEGADomain/UseCase/General/NameCollisionUseCase.swift:106 | the end of the run of `\d` characters from a position: all before it are digits, the one at it is not |
| CounterPattern.FirstMatchFrom | MEGADomain/UseCase/General/NameCollisionUseCase.swift:108 | the leftmost match of `\(\d+\)` from a position: it matches, and no earlier position does; none means no position matches |
| CounterPattern.FirstMatch | MEGADomain/UseCase/General/NameCollisionUseCase.swift:108 | the range `range(of:options:.regularExpression)` finds: the leftmost match, or none when nothing matches |
| CounterPattern.CloseOf | MEGADomain/UseCase/General/NameCollisionUseCase.swift:106-109 | a match ends with ")" after one or more digits |
| CounterPattern.FirstMatchIs | MEGADomain/UseCase/General/NameCollisionUseCase.swift:108 | a match with none before it is the first match |
| CounterPattern.RunEndIs | MEGADomain/UseCase/General/NameCollisionUseCase.swift:106 | a digit run ending in a non-digit or at the end is the run `DigitRunEnd` finds |
| CounterPattern.RunEndAgree | MEGADomain/UseCase/General/NameCollisionUseCase.swift:106 | two strings that agree up to a non-digit barrier have the same digit runs before it |
| CounterPattern.MatchesAgree | MEGADomain/UseCase/General/NameCollisionUseCase.swift:108 | two strings that agree up to a barrier have the same matches before it |
| Media.FileUrlWithPath | Modules/MEGADomain/Sources/MEGADomain/UseCase/Media/MediaUseCase.swift:35 | a relative name is resolved against the current directory |
| Media.TailSegment | Modules/MEGADomain/Sources/MEGADomain/UseCase/Media/MediaUseCase.swift:26 | the text after the last `/` is a suffix of the path, holds no `/`, and is preceded by `/` when shorter than the path |
| Media.LastComponent | Modules/MEGADomain/Sources/MEGADomain/UseCase/Media/MediaUseCase.swift:26 | the last path component holds no `/` |
| Media.LastComponentOfJoin | Modules/MEGADomain/Sources/MEGADomain/UseCase/Media/MediaUseCase.swift:35-36 | the last component of directory + "/" + name is the name |
| Media.TailSegmentOfJoin | Modules/MEGADomain/Sources/MEGADomain/UseCase/Media/MediaUseCase.swift:35-36 | the text after the last `/` of directory + "/" + name is the name |
| Media.UrlOfName | Modules/MEGADomain/Sources/MEGADomain/UseCase/Media/MediaUseCase.swift:34-42 | the file URL of a single-component name has the name's own extension |
| Media.IsVideoUrl | Modules/MEGADomain/Sources/MEGADomain/UseCase/Media/MediaUseCase.swift:25-27 | no contract of its own: the URL's lower-cased path extension is in the video set; Media.IsVideo states what that gives for a name |
| Media.IsImageUrl | Modules/MEGADomain/Sources/MEGADomain/UseCase/Media/MediaUseCase.swift:29-32 | no contract of its own: the URL's lower-cased path extension is in the image or the raw-image set; Media.IsImage states what that gives for a name |
| Media.IsVideo | Modules/MEGADomain/Sources/MEGADomain/UseCase/Media/MediaUseCase.swift:25-27 | `isVideo(name)` via the file URL holds exactly when the name's lower-cased extension is in the video set |
| Media.IsImage | Modules/MEGADomain/Sources/MEGADomain/UseCase/Media/MediaUseCase.swift:29-32 | `isImage(name)` via the file URL holds exactly when the lower-cased extension is in the image set or the raw-image set |
| Media.IsGifImage | Modules/MEGADomain/Sources/MEGADomain/UseCase/Media/MediaUseCase.swift:48-50 | the extension is "gif" in any mix of upper and lower case |
| Media.IsRawImage | Modules/MEGADomain/Sources/MEGADomain/UseCase/Media/MediaUseCase.swift:44-46 | no contract of its own: the lower-cased path extension is in the raw-image set; Media.RawIsImage and Media.CaseInsensitive state its properties |
| Media.IsMultimedia | Modules/MEGADomain/Sources/MEGADomain/UseCase/Media/MediaUseCase.swift:52-54 | no contract of its own: an image or a video; Media.MultimediaByTables states it in terms of the three sets |
| Media.RawIsImage | Modules/MEGADomain/Sources/MEGADomain/UseCase/Media/MediaUseCase.swift:44-46 | a raw image is an image |
| Media.MultimediaByTables | Modules/MEGADomain/Sources/MEGADomain/UseCase/Media/MediaUseCase.swift:52-54 | a name is multimedia exactly when its lower-cased extension is in one of the three sets |
| Media.LowerTwice | Modules/MEGADomain/Sources/MEGADomain/UseCase/Media/MediaUseCase.swift:26 | lower-casing is idempotent |
| Media.CaseInsensitive | Modules/MEGADomain/Sources/MEGADomain/UseCase/Media/MediaUseCase.swift:25-54 | names equal up to case are classified alike by all five tests |
| Media.SameLowerExtension | Modules/MEGADomain/Sources/MEGADomain/UseCase/Media/MediaUseCase.swift:45 | names equal up to case have the same lower-cased extension |
| QuickAccessWidget.Initial | iMEGA/Extensions/MEGAWidget/QuickAccess/Favourites/FavouritesQuickAccessWidgetViewModel.swift:24 | a new view model is not connected |
| QuickAccessWidget.Reloads | iMEGA/Extensions/MEGAWidget/QuickAccess/Favourites/FavouritesQuickAccessWidgetViewModel.swift:16-24 | one reload per assignment, and none without a listener |
| QuickAccessWidget.Assign | iMEGA/Extensions/MEGAWidget/QuickAccess/Favourites/FavouritesQuickAccessWidgetViewModel.swift:24 | every assignment, even of the same status, replaces it and sends one reload |
| QuickAccessWidget.UpdateStatus | iMEGA/Extensions/MEGAWidget/QuickAccess/Favourites/FavouritesQuickAccessWidgetViewModel.swift:56-60 | the status becomes the new one, with a reload only when it differed |
| QuickAccessWidget.Connect | iMEGA/Extensions/MEGAWidget/QuickAccess/Favourites/FavouritesQuickAccessWidgetViewModel.swift:62-68 | nothing while connecting; otherwise connecting, one reload when it changed, and the copy requested |
| QuickAccessWidget.Finish | iMEGA/Extensions/MEGAWidget/QuickAccess/Favourites/FavouritesQuickAccessWidgetViewModel.swift:68-75 | the copy's completion leaves the widget connected on success and in error on failure |
| QuickAccessWidget.OnWidgetReady | iMEGA/Extensions/MEGAWidget/QuickAccess/Favourites/FavouritesQuickAccessWidgetViewModel.swift:27-33 | reset then connect: the widget is connecting, after two reloads and one copy request |
| QuickAccessWidget.Apply | iMEGA/Extensions/MEGAWidget/QuickAccess/Favourites/FavouritesQuickAccessWidgetViewModel.swift:16 | no event changes whether a listener is set |
| QuickAccessWidget.UpdateSameIsSilent | iMEGA/Extensions/MEGAWidget/QuickAccess/Favourites/FavouritesQuickAccessWidgetViewModel.swift:56-60 | repeating the current status changes nothing and sends nothing |
| QuickAccessWidget.UpdateTwice | iMEGA/Extensions/MEGAWidget/QuickAccess/Favourites/FavouritesQuickAccessWidgetViewModel.swift:56-60 | `updateStatus` is idempotent |
| QuickAccessWidget.ReadyAlwaysRequestsCopy | iMEGA/Extensions/MEGAWidget/QuickAccess/Favourites/FavouritesQuickAccessWidgetViewModel.swift:27-33 | `onWidgetReady` always requests exactly one copy, because the reset comes before the guard |
| QuickAccessWidget.ReadyThenCopy | iMEGA/Extensions/MEGAWidget/QuickAccess/Favourites/FavouritesQuickAccessWidgetViewModel.swift:27-75 | ready then a completed copy ends connected or in error, never connecting, after three reloads and one copy |
| QuickAccessWidget.RunInvariant | iMEGA/Extensions/MEGAWidget/QuickAccess/Favourites/FavouritesQuickAccessWidgetViewModel.swift:24-75 | over any run, one copy per `onWidgetReady`, and the status never becomes `noSession` |
| QuickAccessWidget.CountAppend | iMEGA/Extensions/MEGAWidget/QuickAccess/Favourites/FavouritesQuickAccessWidgetViewModel.swift:24 | effects of consecutive steps add up |
| QuickAccessWidget.CountReloads | iMEGA/Extensions/MEGAWidget/QuickAccess/Favourites/FavouritesQuickAccessWidgetViewModel.swift:24 | the reloads of n assignments hold n reloads and no copy |
| QuickAccessWidget.CountReloadsThenCopy | iMEGA/Extensions/MEGAWidget/QuickAccess/Favourites/FavouritesQuickAccessWidgetViewModel.swift:62-68 | the reloads followed by a copy request hold one copy |
| QuickAccessWidget.ImageForPathExtension | iMEGA/Extensions/MEGAWidget/QuickAccess/Favourites/FavouritesQuickAccessWidgetViewModel.swift:48-54 | "folder" for no extension; otherwise the asset the file type table gives, "generic" when it has none |
| QuickAccessWidget.AppendingPathComponent | iMEGA/Extensions/MEGAWidget/QuickAccess/Favourites/FavouritesQuickAccessWidgetViewModel.swift:38 | the result starts with the base and ends with a `/` followed by the component |
| QuickAccessWidget.Entry | iMEGA/Extensions/MEGAWidget/QuickAccess/Favourites/FavouritesQuickAccessWidgetViewModel.swift:38 | an entry keeps the favourite's name, has a URL exactly when the section link is one, and, for a name that is a single non-empty path component, its thumbnail is chosen by the name's extension |
| QuickAccessWidget.FetchFavouriteItems | iMEGA/Extensions/MEGAWidget/QuickAccess/Favourites/FavouritesQuickAccessWidgetViewModel.swift:35-44 | no session gives no entries and `noSession`; with a session, one entry per fetched favourite in order, and `connected` |
| AlbumNotifier.IsAnyNodeMovedIntoTrash | MEGAData/Repository/Album/AlbumContentsUpdateNotifierRepository.swift:21-26 | holds exactly when the SDK has a rubbish bin node and some node of the batch is that node |
| AlbumNotifier.HasChange | MEGAData/Repository/Album/AlbumContentsUpdateNotifierRepository.swift:30-34 | holds exactly when some node of the batch carries the change |
| AlbumNotifier.CheckAlbumForReload | MEGAData/Repository/Album/AlbumContentsUpdateNotifierRepository.swift:28-41 | the callback runs at most once, and exactly when it is set and some node of the batch is the rubbish bin or carries a change |
| AlbumNotifier.OnNodesUpdate | MEGAData/Repository/Album/AlbumContentsUpdateNotifierRepository.swift:16-18 | definition: while the repository lives, a batch goes through `checkAlbumForReload`; once it is gone, nothing happens; AlbumNotifier.DeliverCounts states the count over a run of batches |
| AlbumNotifier.Deliver | MEGAData/Repository/Album/AlbumContentsUpdateNotifierRepository.swift:16-18 | counts the callbacks over a run of batches; its contract is only the bound of one per batch, and AlbumNotifier.DeliverCounts states the count |
| AlbumNotifier.ReloadWorthy | MEGAData/Repository/Album/AlbumContentsUpdateNotifierRepository.swift:28-41 | counts the batches that make the album reload; its contract is only the bound of one per batch, and AlbumNotifier.DeliverCounts uses the count |
| AlbumNotifier.ReloadNeeded | MEGAData/Repository/Album/AlbumContentsUpdateNotifierRepository.swift:36-38 | no contract of its own: the source's six-way disjunction; AlbumNotifier.ReloadNeededIff relates it to a per-node reading |
| AlbumNotifier.ReloadNeededIff | MEGAData/Repository/Album/AlbumContentsUpdateNotifierRepository.swift:36-38 | the six conditions hold together exactly when some node of the batch makes the album reload |
| AlbumNotifier.ChangedIsWorthy | MEGAData/Repository/Album/AlbumContentsUpdateNotifierRepository.swift:30-34 | a batch with any change makes the album reload |
| AlbumNotifier.NothingToReload | MEGAData/Repository/Album/AlbumContentsUpdateNotifierRepository.swift:21-41 | an empty batch never reloads; without a callback, no batch does |
| AlbumNotifier.DeliverCounts | MEGAData/Repository/Album/AlbumContentsUpdateNotifierRepository.swift:16-41 | over any batches, the callback runs once per batch with a reloading node, and never without a callback or once the repository is gone |
| ContextMenu.Toggle | Modules/MEGADomain/Sources/MEGADomain/Entity/ContextMenu/ContextMenuBuilder+ActionEntities.swift:37 | `.on` exactly when the value is selected |
| ContextMenu.UploadAddActions | Modules/MEGADomain/Sources/MEGADomain/Entity/ContextMenu/ContextMenuBuilder+ActionEntities.swift:5-27 | six upload-add actions with no state, in their order |
| ContextMenu.UploadAddDistinct | Modules/MEGADomain/Sources/MEGADomain/Entity/ContextMenu/ContextMenuBuilder+ActionEntities.swift:5-27 | the upload-add actions carry distinct types |
| ContextMenu.DisplayActions | Modules/MEGADomain/Sources/MEGADomain/Entity/ContextMenu/ContextMenuBuilder+ActionEntities.swift:31-55 | select, empty rubbish bin, media discovery and filter: display actions with no state |
| ContextMenu.QuickFolderActions | Modules/MEGADomain/Sources/MEGADomain/Entity/ContextMenu/ContextMenuBuilder+ActionEntities.swift:101-143 | the eleven quick folder actions, with no state |
| ContextMenu.RubbishBinActions | Modules/MEGADomain/Sources/MEGADomain/Entity/ContextMenu/ContextMenuBuilder+ActionEntities.swift:147-161 | the four rubbish bin actions, with no state |
| ContextMenu.QrActions | Modules/MEGADomain/Sources/MEGADomain/Entity/ContextMenu/ContextMenuBuilder+ActionEntities.swift:176-186 | the three QR code actions, with no state |
| ContextMenu.MeetingActions | Modules/MEGADomain/Sources/MEGADomain/Entity/ContextMenu/ContextMenuBuilder+ActionEntities.swift:190-200 | the three meeting actions, with no state |
| ContextMenu.StatelessDistinct | Modules/MEGADomain/Sources/MEGADomain/Entity/ContextMenu/ContextMenuBuilder+ActionEntities.swift:1-200 | the 31 actions without a state carry pairwise distinct types, none of them the thumbnail or list type |
| ContextMenu.StatelessRanked | Modules/MEGADomain/Sources/MEGADomain/Entity/ContextMenu/ContextMenuBuilder+ActionEntities.swift:1-200 | each action without a state sits at the position its type names |
| ContextMenu.ThumbnailView | Modules/MEGADomain/Sources/MEGADomain/Entity/ContextMenu/ContextMenuBuilder+ActionEntities.swift:35-38 | the thumbnail action is on exactly in thumbnail mode |
| ContextMenu.ListView | Modules/MEGADomain/Sources/MEGADomain/Entity/ContextMenu/ContextMenuBuilder+ActionEntities.swift:40-43 | the list action is on exactly in list mode |
| ContextMenu.ViewModesExclusive | Modules/MEGADomain/Sources/MEGADomain/Entity/ContextMenu/ContextMenuBuilder+ActionEntities.swift:35-43 | thumbnail and list are never both on, and both are off in any other mode |
| ContextMenu.SortAction | Modules/MEGADomain/Sources/MEGADomain/Entity/ContextMenu/ContextMenuBuilder+ActionEntities.swift:59-97 | a sort action carries its order and is on exactly when it is the current order |
| ContextMenu.SortActions | Modules/MEGADomain/Sources/MEGADomain/Entity/ContextMenu/ContextMenuBuilder+ActionEntities.swift:59-97 | the eight sort actions, one per menu order in turn |
| ContextMenu.OnCount | Modules/MEGADomain/Sources/MEGADomain/Entity/ContextMenu/ContextMenuBuilder+ActionEntities.swift:59-97 | counts the actions that are on; its contract is only the bound by the number of actions, and ContextMenu.OneSortOn and ContextMenu.OnCountOfDistinct state the count |
| ContextMenu.MenuSortOrdersDistinct | Modules/MEGADomain/Sources/MEGADomain/Entity/ContextMenu/ContextMenuBuilder+ActionEntities.swift:59-97 | the eight menu orders are pairwise distinct |
| ContextMenu.OneSortOn | Modules/MEGADomain/Sources/MEGADomain/Entity/ContextMenu/ContextMenuBuilder+ActionEntities.swift:59-97 | exactly one sort action is on when the current order is in the menu, and none otherwise |
| ContextMenu.OnCountOfDistinct | Modules/MEGADomain/Sources/MEGADomain/Entity/ContextMenu/ContextMenuBuilder+ActionEntities.swift:59-97 | sort actions of distinct orders have at most one on, and one exactly when the current order is among them |
| ContextMenu.ChatStatusAction | Modules/MEGADomain/Sources/MEGADomain/Entity/ContextMenu/ContextMenuBuilder+ActionEntities.swift:165-168 | a chat status action carries its status and is on exactly when it is the current one |
| ContextMenu.OneChatStatusOn | Modules/MEGADomain/Sources/MEGADomain/Entity/ContextMenu/ContextMenuBuilder+ActionEntities.swift:165-168 | of two different statuses, at most one action is on |
| ContextMenu.DoNotDisturb | Modules/MEGADomain/Sources/MEGADomain/Entity/ContextMenu/ContextMenuBuilder+ActionEntities.swift:170-172 | the action carries the given option and no state, so different options give different actions |
| TextEditor.NavbarFor | MEGAUnitTests/TextEditor/TextEditorViewModelTests.swift:22-68 | view and load show Close on the left, create and edit show Cancel; the right item is More in view, Save in create and edit, none in load |
| TextEditor.Configure | MEGAUnitTests/TextEditor/TextEditorViewModelTests.swift:22-68 | configuring a mode is `configView` for the file in that mode, then that mode's navigation bar; only view mode carries the access level |
| TextEditor.Dispatch | MEGAUnitTests/TextEditor/TextEditorViewModelTests.swift:9-1030 | no action replaces the file or the node, and no action enters create mode from another mode |
| TextEditor.LastConfiguredMode | MEGAUnitTests/TextEditor/TextEditorViewModelTests.swift:9-1030 | the mode of the last `configView` of a trace, present exactly when the trace configures the view |
| TextEditor.ViewShowsMode | MEGAUnitTests/TextEditor/TextEditorViewModelTests.swift:9-952 | after every action, each `configView` is followed at once by the navigation bar of its mode, and the editor is in the mode last configured (or its mode before, when none was) |
| TextEditor.SetUp | MEGAUnitTests/TextEditor/TextEditorViewModelTests.swift:9-251 | no contract of its own: `setUpView` in each mode; TextEditor.SetUpConsistent, TextEditor.SetUpScreen and TextEditor.SetUpLoad state its behaviour |
| TextEditor.SetUpConsistent | MEGAUnitTests/TextEditor/TextEditorViewModelTests.swift:9-251 | `setUpView` keeps the view and the mode in step |
| TextEditor.LoadedTrace | MEGAUnitTests/TextEditor/TextEditorViewModelTests.swift:71-145 | the load trace followed by the view configuration pairs each configuration with its navigation bar |
| TextEditor.Save | MEGAUnitTests/TextEditor/TextEditorViewModelTests.swift:253-558 | no contract of its own: `saveText` in edit and create mode; TextEditor.SaveConsistent, TextEditor.SaveInEdit and TextEditor.CreateAsksForParent state its behaviour |
| TextEditor.SaveConsistent | MEGAUnitTests/TextEditor/TextEditorViewModelTests.swift:253-558 | `saveText` keeps the view and the mode in step |
| TextEditor.StartEditing | MEGAUnitTests/TextEditor/TextEditorViewModelTests.swift:653-800 | no contract of its own: entering edit mode below the size limit; TextEditor.EditingConsistent, TextEditor.EditThreshold and TextEditor.EnteringEdit state its behaviour |
| TextEditor.EditingConsistent | MEGAUnitTests/TextEditor/TextEditorViewModelTests.swift:653-800 | `editFile` and `editAfterOpen` keep the view and the mode in step |
| TextEditor.Cancel | MEGAUnitTests/TextEditor/TextEditorViewModelTests.swift:857-952 | no contract of its own: `cancelText` in create and edit mode; TextEditor.CancelConsistent, TextEditor.CancelChangedAsks and TextEditor.CancelUnchanged state its behaviour |
| TextEditor.CancelConsistent | MEGAUnitTests/TextEditor/TextEditorViewModelTests.swift:857-952 | `cancelText` keeps the view and the mode in step |
| TextEditor.LastConfigIs | MEGAUnitTests/TextEditor/TextEditorViewModelTests.swift:9-952 | a configuration with none after it is the last one |
| TextEditor.NoConfig | MEGAUnitTests/TextEditor/TextEditorViewModelTests.swift:9-1030 | a trace without configuration leaves the mode as it was |
| TextEditor.EditThreshold | MEGAUnitTests/TextEditor/TextEditorViewModelTests.swift:653-799 | `editFile` and `editAfterOpen` from view enter edit mode exactly when the size is below the limit, and then configure the view with the file in edit mode, no access level and `shallUpdateContent` false for `editFile` and true for `editAfterOpen`, followed by the Cancel/Save navigation bar; at or above the limit, only the large-file error is shown and nothing changes |
| TextEditor.EditAfterOpenWhileLoading | MEGAUnitTests/TextEditor/TextEditorViewModelTests.swift:801-828 | `editAfterOpen` in load mode emits no command, calls nothing and leaves the editor as it was |
| TextEditor.CancelChangedAsks | MEGAUnitTests/TextEditor/TextEditorViewModelTests.swift:857-884 | cancelling changed content in create or edit mode only asks whether to discard it |
| TextEditor.CreateAsksForParent | MEGAUnitTests/TextEditor/TextEditorViewModelTests.swift:348-558 | saving a new file asks for a destination once exactly when it has no parent, and never otherwise; a duplicate name shows only the duplicate alert and dismisses nothing; a unique name dismisses the editor and the browser once each and shows no command when the upload succeeds, only the upload error when it fails |
| TextEditor.SetUpScreen | MEGAUnitTests/TextEditor/TextEditorViewModelTests.swift:9-69 | in view, create or edit mode, `setUpView` configures the screen with its content, then its navigation bar |
| TextEditor.SetUpLoad | MEGAUnitTests/TextEditor/TextEditorViewModelTests.swift:71-251 | in load mode, `setUpView` emits exactly: the load views, the file in load mode with no access level and no content refresh, the Close navigation bar, and the download progress; then, when the file is read, the file in view mode with the node's access level and a content refresh and the Close/More navigation bar; the download error when the download fails; nothing more when the file cannot be read |
| TextEditor.SaveInEdit | MEGAUnitTests/TextEditor/TextEditorViewModelTests.swift:253-346 | saving in edit mode starts and stops loading, then returns to view mode without reloading, or shows the upload error and stays in edit mode |
| TextEditor.CancelUnchanged | MEGAUnitTests/TextEditor/TextEditorViewModelTests.swift:886-952 | cancelling unchanged content dismisses a new file and returns an edited one to view mode |
| TextEditor.RouterActions | MEGAUnitTests/TextEditor/TextEditorViewModelTests.swift:830-1031 | in view mode, `importNode` calls the router's `importNode` once, with or without a node; with a node, `showActions`, `downloadToOffline` and `exportFile` call `showActions`, `showDownloadTransfer` and `exportFile` once each; none sends a command or changes the editor |
| TextEditor.DismissAnywhere | MEGAUnitTests/TextEditor/TextEditorViewModelTests.swift:626-651 | dismissing works in every mode and only dismisses the editor |
| TextEditor.RunKeepsCreateAndLimit | MEGAUnitTests/TextEditor/TextEditorViewModelTests.swift:653-800 | over any run, the file is kept, create mode is never entered from another mode, and edit mode is reached only when the file is below the limit or the run started in edit mode |
| TextEditor.EnteringEdit | MEGAUnitTests/TextEditor/TextEditorViewModelTests.swift:653-800 | one action enters edit mode only from edit mode or with a file below the limit |

## Left out

- Copying and moving the resolved collisions (`copyNodesFromResolvedCollisions`, `moveNodesFromResolvedCollisions`): concurrent task groups over the SDK, with no local decision logic.
- `allPhotos` and `allVideos` of `MediaUseCase`: asynchronous searches in the SDK.
- `ByteCountFormatter` and `DateFormatter` output: the formatters are parameters.
- NameCollision.SizeLabel, NameCollision.DateLabel, NameCollision.SizeForNode, NameCollision.CreationDateForNode, NameCollision.SizeForFile, NameCollision.CreationDateForFile: assume the formatters never return an empty string. This is what separates the "no value" case from a formatted one.
- Sizes: the repositories' sizes are unbounded naturals. `Int64(size)` is modelled as a trap above `Int64.max`.
- QuickAccessWidget.Entry, Media.IsVideo, Media.IsImage: the extension rule is stated only for names that are a single non-empty path component. For other names the model takes the extension of the URL's last component, but does not resolve `.` and `..` components the way `URL(fileURLWithPath:)` standardises a path.
- Media.RawIsImage, Media.MultimediaByTables, Media.CaseInsensitive: stated for single non-empty path components, for the same reason.
- `CFURL`'s `pathExtension` is taken to follow the same rule as `NSString.pathExtension` for one path component.
- Paths: `_stringByFixingSlashes` is modelled for the default case, where it compresses runs of `/` and strips one trailing `/`. Its tilde expansion and `.`/`..` handling are options that `pathExtension` and `deletingPathExtension` do not request.
- NameCollision.ResolveNameCollisions: a value model. The source sets `collisionNodeHandle` on the caller's class instances in place and returns an array aliasing them. The model returns new records and leaves its input as it was.
- AlbumNotifier.IsAnyNodeMovedIntoTrash: reads the `MEGANode` comparison `==` (that is, `isEqual:`) as equality of handles. `isEqual:` is not part of this model.
- Characters:
  - Strings are sequences of Unicode scalars, not grapheme clusters.
  - Lower-casing covers ASCII letters only, not full Unicode case mapping.
  - `\d` covers the Unicode decimal-digit blocks listed in `CounterPattern.IsDecimalDigit`, not every `Nd` character.
- `Int.max` is fixed at 2^63 - 1, the 64-bit platform value.
- The supported extension lists, `FileTypes().allTypes` and the favourites section link are parameters.
- `MEGAQuickAccessWidgetMaxDisplayItems` is a parameter: the favourites use case is given as the list it returns for that limit.
- The widget's `Image` values are the asset names they are built from.
- The per-batch change tests `containsNewNode`, `hasModifiedAttributes`, `hasModifiedParent`, `hasPublicLink` and `isPublicLinkRemoved` are not part of this model. Each is read as "some node of the batch carries that change".
- `toMEGANodes(in:)`: the conversion of node entities to SDK nodes is taken to keep the batch as it is.
- The weak capture of the repository in its update handler is an `Option` that the caller supplies.
- `CMActionEntity`'s other fields (title, image, children) and the builder's other menus are not part of this model.
- Text editor:
  - `TextEditorViewModel` itself is not part of this model. The model is the behaviour its unit tests assert, and action and mode combinations that no test exercises give `None`.
  - Router calls are counted, not ordered, because the tests count them.
  - The router calls of the load paths are not modelled, because the tests do not count them.
  - Neither are the calls made after the upload that `renameFileTo` starts.
  - The rubbish-bin and backup flags of `configView` are passed through from the environment.
  - The file content read in load mode is not stored: the configuration carries the file as it was, as the tests expect.
  - Progress is the pair of transferred and total bytes, not the fraction.
- TextEditor.CreateAsksForParent: the conjunct that a duplicate name dismisses nothing is the model's reading of the create-mode save. The tests count only the destination requests for that case.
- TextEditor.Dispatch, TextEditor.RunKeepsCreateAndLimit: saving does not store the saved content in the editor's file, because no test checks what the file holds afterwards. So "the file is kept" holds partly because of that choice. A `cancelText` after a save compares against the content the editor was opened with, a case no test covers.
