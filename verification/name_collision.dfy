/** `NameCollisionUseCase`: renaming a node whose name is already taken in the target
    folder, recording which existing child a pending copy or move collides with, and the
    size and date labels of the collision dialog. The node repository is an oracle: the
    children of each folder by name, and the size and creation date of each node. */
module NameCollision {
  import opened Common
  import opened Decimal
  import opened Paths
  import opened CounterPattern

  /** `MEGAHandle`, an unsigned 64-bit node identifier. */
  type Handle = nat

  /** What the node repository answers: children by name, sizes and creation dates. */
  datatype NodeRepository = NodeRepository(
    children: map<Handle, map<string, Handle>>,
    sizes: map<Handle, nat>,
    creationDates: map<Handle, int>)

  /** What the file system repository answers, by file URL. */
  datatype FileSystem = FileSystem(sizes: map<string, nat>, creationDates: map<string, int>)

  /** `childNodeNamed(name:in:)`: the handle of the child of `parent` called `name`. */
  function ChildNodeNamed(repo: NodeRepository, name: string, parent: Handle): (r: Option<Handle>)
    ensures r.Some? <==> parent in repo.children && name in repo.children[parent]
    ensures r.Some? ==> r.value == repo.children[parent][name]
  {
    if parent in repo.children && name in repo.children[parent]
    then Some(repo.children[parent][name]) else None
  }

  /** The names already used by the children of `parent`. */
  function ChildNames(repo: NodeRepository, parent: Handle): (r: set<string>)
    ensures forall name :: name in r <==> ChildNodeNamed(repo, name, parent).Some?
  {
    if parent in repo.children then repo.children[parent].Keys else {}
  }

  // ---------------------------------------------------------------------------
  // renameNode

  /** How `renameNode` ends. The source returns the string in the first two cases; in the
      third, `counter + 1` overflows `Int` and the program traps. */
  datatype RenameOutcome =
    | Renamed(name: string)          // a candidate that no child of the parent carries
    | CounterNotParsed(name: string) // the counter digits are not an `Int`; parent not consulted
    | CounterOverflow                // the counter reached `Int.max`

  /** `s` ends with a dot followed by `ext`. */
  predicate EndsWithExtension(s: string, ext: string)
  {
    |s| > |ext| && s[|s| - |ext| - 1..] == "." + ext
  }

  /** A name seen by the search: everything before the counter's parenthesis, the counter,
      what follows the closing parenthesis in the stem, and the extension. A stem without a
      counter reads as the stem and a space followed by a counter of zero. */
  datatype CounterSplit = CounterSplit(prefix: string, counter: nat, suffix: string, ext: string)

  /** Splits `name` as `renameNode` does; `None` when its counter digits are not an `Int`. */
  function SplitCounter(name: string): (r: Option<CounterSplit>)
    ensures r.Some? ==> r.value.counter <= IntMax && r.value.ext == PathExtension(name)
  {
    SplitStem(DeletingPathExtension(name), PathExtension(name))
  }

  /** The split fails exactly when the stem holds a `(digits)` group whose digits are not
      an `Int`. */
  lemma SplitFailsIff(name: string)
    ensures var stem := DeletingPathExtension(name); var m := FirstMatch(stem);
      SplitCounter(name).None? <==> m.Some? && ParseInt(stem[m.value + 1..CloseOf(stem, m.value)]).None?
  {
  }

  /** Without a `(digits)` group, the split is the stem and a space with a counter of zero. */
  lemma SplitWithoutCounter(name: string)
    requires FirstMatch(DeletingPathExtension(name)).None?
    ensures SplitCounter(name) == Some(CounterSplit(DeletingPathExtension(name) + " ", 0, "", PathExtension(name)))
  {
  }

  /** The split of a stem and an extension. */
  function SplitStem(stem: string, ext: string): (r: Option<CounterSplit>)
    ensures r.Some? ==> r.value.counter <= IntMax && r.value.ext == ext
  {
    match FirstMatch(stem)
    case None => Some(CounterSplit(stem + " ", 0, "", ext))
    case Some(i) =>
      var close := CloseOf(stem, i);
      match ParseInt(stem[i + 1..close])
      case None => None
      case Some(n) => Some(CounterSplit(stem[..i], n, stem[close + 1..], ext))
  }

  /** The `j`-th name the search tries: the counter advanced by `j`, printed in decimal. */
  function Candidate(sp: CounterSplit, j: nat): string
  {
    sp.prefix + "(" + ToDecimal(sp.counter + j) + ")" + sp.suffix + "." + sp.ext
  }

  /** No `(digits)` group starts in `prefix`, not even one that closes past its end. */
  predicate NoCounterIn(prefix: string)
  {
    forall k :: 0 <= k < |prefix| ==> !MatchAt(prefix + "(", k)
  }

  /** The suffix ends with the path component `.`. */
  predicate DotTail(suffix: string)
  {
    ComponentStart(suffix) > 0 && DotComponent(suffix)
  }

  /** What every split of a name satisfies: the prefix hides no earlier counter, slashes
      are single, the suffix does not end with `/`, and the extension has neither a dot
      nor a slash. */
  predicate Shaped(sp: CounterSplit)
  {
    && Lacks(sp.ext, '.') && Lacks(sp.ext, '/')
    && NoCounterIn(sp.prefix)
    && NoDoubleSlash(sp.prefix) && NoDoubleSlash(sp.suffix)
    && (|sp.suffix| > 0 ==> sp.suffix[|sp.suffix| - 1] != '/')
  }

  /** The stem's last path component is `.` and there is no extension: the dot that joins
      the extension turns that component into `..`, which has none. */
  predicate DotRestart(sp: CounterSplit)
  {
    DotTail(sp.suffix) && sp.ext == ""
  }

  /** A split every candidate of which splits back to it: it is shaped, and no candidate
      ends with the component `..`. */
  predicate WellFormed(sp: CounterSplit)
  {
    Shaped(sp) && !DotRestart(sp)
  }

  /** The split of the first candidate: the counter one higher, and a suffix ending in the
      component `.` grown to `..` when there is no extension. */
  function NextSplit(sp: CounterSplit): CounterSplit
  {
    if DotRestart(sp) then sp.(counter := sp.counter + 1, suffix := sp.suffix + ".")
    else sp.(counter := sp.counter + 1)
  }

  /** Termination measure of the search: the room left below `Int.max`. */
  function Measure(name: string): nat
  {
    match SplitCounter(name)
    case None => 0
    case Some(sp) => IntMax + 1 - sp.counter
  }

  /** What one call of `renameNode` computes before consulting the parent. */
  datatype NextStep =
    | Try(candidate: string)     // the candidate name to look up in the parent
    | Unparsed(name: string)     // returned as is: the counter digits are not an `Int`
    | Overflow                   // `counter + 1` overflows

  /** The first part of `renameNode(named:inParent:)`: the stem loses its extension; the
      first `(digits)` group is incremented, or ` (1)` is appended when there is none; and
      the extension is put back after a dot. */
  function NextName(name: string): (r: NextStep)
    ensures r.Unparsed? <==> SplitCounter(name).None?
    ensures r.Unparsed? ==> r.name == DeletingPathExtension(name) + "." + PathExtension(name)
    ensures r.Overflow? <==> SplitCounter(name).Some? && SplitCounter(name).value.counter == IntMax
    ensures r.Try? ==> SplitCounter(name).Some? && r.candidate == Candidate(SplitCounter(name).value, 1)
  {
    match FirstMatch(DeletingPathExtension(name))
    case Some(i) => IncrementCounter(name, i)
    case None => AppendCounter(name)
  }

  /** The branch of `NextName` where the stem holds a `(digits)` group at `i`. */
  function IncrementCounter(name: string, i: nat): (r: NextStep)
    requires FirstMatch(DeletingPathExtension(name)) == Some(i)
    ensures r.Unparsed? <==> SplitCounter(name).None?
    ensures r.Unparsed? ==> r.name == DeletingPathExtension(name) + "." + PathExtension(name)
    ensures r.Overflow? <==> SplitCounter(name).Some? && SplitCounter(name).value.counter == IntMax
    ensures r.Try? ==> SplitCounter(name).Some? && r.candidate == Candidate(SplitCounter(name).value, 1)
  {
    var stem := DeletingPathExtension(name);
    var ext := PathExtension(name);
    var close := CloseOf(stem, i);
    // The match with every non-digit dropped is the digit run between the parentheses.
    match ParseInt(stem[i + 1..close])
    case None => Unparsed(stem + "." + ext)
    case Some(counter) =>
      if counter == IntMax then Overflow
      else
        var candidate := stem[..i] + "(" + ToDecimal(counter + 1) + ")" + stem[close + 1..] + "." + ext;
        IncrementedCandidate(name, i);
        Try(candidate)
  }

  /** The branch of `NextName` where the stem holds no `(digits)` group. */
  function AppendCounter(name: string): (r: NextStep)
    requires FirstMatch(DeletingPathExtension(name)).None?
    ensures r.Try? && SplitCounter(name).Some? && SplitCounter(name).value.counter == 0
    ensures r.candidate == Candidate(SplitCounter(name).value, 1)
  {
    var candidate := DeletingPathExtension(name) + " (1)." + PathExtension(name);
    AppendedCandidate(name);
    Try(candidate)
  }

  /** `renameNode(named:inParent:)` against the set of names already used in the parent:
      the search continues from the candidate while a child carries that name. */
  function Rename(existing: set<string>, name: string): (r: RenameOutcome)
    ensures r.Renamed? ==> r.name !in existing
    ensures r.Renamed? ==> EndsWithExtension(r.name, PathExtension(name))
    ensures r.Renamed? ==> PathExtension(r.name) == PathExtension(name)
    ensures r.CounterNotParsed? <==> SplitCounter(name).None?
    ensures r.CounterNotParsed? ==> r.name == DeletingPathExtension(name) + "." + PathExtension(name)
    decreases Measure(name)
  {
    match NextName(name)
    case Unparsed(n) => CounterNotParsed(n)
    case Overflow => CounterOverflow
    case Try(candidate) =>
      CandidateEndsWithExtension(SplitCounter(name).value, 1);
      NextCandidate(name);
      if candidate in existing then Rename(existing, candidate) else Renamed(candidate)
  }

  /** `renameNode` against the node repository: the result names no child of the parent. */
  function RenameNode(repo: NodeRepository, name: string, parent: Handle): (r: RenameOutcome)
    ensures r.Renamed? ==> ChildNodeNamed(repo, r.name, parent).None?
    ensures r.Renamed? ==> PathExtension(r.name) == PathExtension(name)
  {
    Rename(ChildNames(repo, parent), name)
  }

  /** The split of a name is shaped. */
  lemma SplitShape(name: string)
    requires SplitCounter(name).Some?
    ensures Shaped(SplitCounter(name).value)
  {
    var stem := DeletingPathExtension(name);
    var ext := PathExtension(name);
    ExtensionLacksDot(name);
    StemShape(name);
    SplitPrefix(stem, ext);
    SplitSlashes(stem, ext);
  }

  /** No `(digits)` group starts in the prefix of a split. */
  lemma SplitPrefix(stem: string, ext: string)
    requires SplitStem(stem, ext).Some?
    ensures NoCounterIn(SplitStem(stem, ext).value.prefix)
  {
    var t := SplitStem(stem, ext).value.prefix + "(";
    match FirstMatch(stem)
    case None =>
      assert t[..|stem|] == stem[..|stem|];
      MatchesAgree(t, stem, |stem|);
    case Some(i) =>
      assert t[..i] == stem[..i];
      MatchesAgree(t, stem, i);
  }

  /** The prefix and the suffix of a split keep the stem's single slashes, the suffix does
      not end with `/` when the stem does not, and it ends with the component `.` only when
      the stem does. */
  lemma SplitSlashes(stem: string, ext: string)
    requires SplitStem(stem, ext).Some?
    requires NoDoubleSlash(stem) && (|stem| > 1 ==> stem[|stem| - 1] != '/')
    ensures var sp := SplitStem(stem, ext).value;
      && NoDoubleSlash(sp.prefix) && NoDoubleSlash(sp.suffix)
      && (|sp.suffix| > 0 ==> sp.suffix[|sp.suffix| - 1] != '/')
      && (DotTail(sp.suffix) ==> DotComponent(stem))
  {
    var sp := SplitStem(stem, ext).value;
    match FirstMatch(stem)
    case None =>
      AppendKeepsSingle(stem, ' ');
    case Some(i) =>
      var close := CloseOf(stem, i);
      NoDoubleSlashSlice(stem, 0, i);
      TailOfStem(stem, close + 1);
  }

  /** A tail of a stem keeps its single slashes and its last character, and ends with the
      component `.` only when the stem does. */
  lemma TailOfStem(stem: string, from: nat)
    requires 0 < from <= |stem| && NoDoubleSlash(stem)
    ensures var tail := stem[from..];
      && NoDoubleSlash(tail)
      && (|tail| > 0 ==> tail[|tail| - 1] == stem[|stem| - 1])
      && (DotTail(tail) ==> DotComponent(stem))
  {
    NoDoubleSlashSlice(stem, from, |stem|);
    assert stem[from..|stem|] == stem[from..];
    TailDotComponent(stem, from);
  }

  /** The stem assembled from a shaped split and printed digits has single slashes and a
      non-empty last component, which is `.` exactly when the suffix ends with it. */
  lemma AssembledStem(sp: CounterSplit, d: string)
    requires Shaped(sp) && 1 <= |d| && AllAsciiDigits(d)
    ensures var stem := sp.prefix + "(" + d + ")" + sp.suffix;
      && NoDoubleSlash(stem) && ComponentStart(stem) < |stem|
      && (DotComponent(stem) <==> DotTail(sp.suffix))
  {
    var group := "(" + d + ")";
    assert Lacks(group, '/') by {
      forall k | 0 <= k < |group|
        ensures group[k] != '/'
      {
        if 0 < k < |group| - 1 {
          assert group[k] == d[k - 1];
        }
      }
    }
    NoSlashNoDouble(group);
    NoDoubleSlashJoin(sp.prefix, group);
    var a := sp.prefix + group;
    assert a[|a| - 1] == ')';
    NoDoubleSlashJoin(a, sp.suffix);
    var stem := a + sp.suffix;
    assert stem == sp.prefix + "(" + d + ")" + sp.suffix;
    ComponentStartAppend(a, sp.suffix);
    if ComponentStart(sp.suffix) == 0 {
      assert ComponentStart(a) < |a|;
    }
  }

  /** Starting a suffix that ends with the component `.` over with a dot gives a
      well-formed split. */
  lemma NextSplitWellFormed(sp: CounterSplit)
    requires Shaped(sp)
    ensures WellFormed(NextSplit(sp))
  {
    if DotRestart(sp) {
      var t := sp.suffix + ".";
      AppendKeepsSingle(sp.suffix, '.');
      ComponentStartAppend(sp.suffix, ".");
      assert ComponentStart(".") == 0;
    }
  }

  /** Every candidate splits back into its prefix, counter, suffix and extension. */
  lemma CandidateSplit(sp: CounterSplit, j: nat)
    requires WellFormed(sp) && sp.counter + j <= IntMax
    ensures SplitCounter(Candidate(sp, j)) == Some(sp.(counter := sp.counter + j))
  {
    var d := ToDecimal(sp.counter + j);
    var stem := sp.prefix + "(" + d + ")" + sp.suffix;
    CandidateParts(sp, j);
    SplitAssembled(sp, sp.counter + j);
  }

  /** A candidate of a well-formed split has the assembled stem and the split's
      extension. */
  lemma CandidateParts(sp: CounterSplit, j: nat)
    requires WellFormed(sp)
    ensures var stem := sp.prefix + "(" + ToDecimal(sp.counter + j) + ")" + sp.suffix;
      DeletingPathExtension(Candidate(sp, j)) == stem && PathExtension(Candidate(sp, j)) == sp.ext
  {
    var d := ToDecimal(sp.counter + j);
    var stem := sp.prefix + "(" + d + ")" + sp.suffix;
    assert Candidate(sp, j) == stem + "." + sp.ext;
    AssembledStem(sp, d);
    SplitJoined(stem, sp.ext);
  }

  /** The stem assembled from a split with a printed counter splits back. */
  lemma SplitAssembled(sp: CounterSplit, n: nat)
    requires NoCounterIn(sp.prefix) && n <= IntMax
    ensures SplitStem(sp.prefix + "(" + ToDecimal(n) + ")" + sp.suffix, sp.ext) == Some(sp.(counter := n))
  {
    var d := ToDecimal(n);
    var stem := sp.prefix + "(" + d + ")" + sp.suffix;
    var p := |sp.prefix|;
    CounterGroup(sp, d);
    ParsePrinted(n);
    SplitStemAt(stem, sp.ext, p);
  }

  /** The split of a stem whose first `(digits)` group at `i` holds an `Int`. */
  lemma SplitStemAt(stem: string, ext: string, i: nat)
    requires FirstMatch(stem) == Some(i)
    requires ParseInt(stem[i + 1..CloseOf(stem, i)]).Some?
    ensures var close := CloseOf(stem, i);
      SplitStem(stem, ext) == Some(CounterSplit(stem[..i], ParseInt(stem[i + 1..close]).value, stem[close + 1..], ext))
  {
  }

  /** When the stem ends with the component `.` and there is no extension, a candidate
      ends with `..`, which has none: the whole candidate is the next stem, so the suffix
      gains a dot. */
  lemma DotCandidateSplit(sp: CounterSplit, j: nat)
    requires Shaped(sp) && DotRestart(sp) && sp.counter + j <= IntMax
    ensures SplitCounter(Candidate(sp, j)) ==
      Some(sp.(counter := sp.counter + j, suffix := sp.suffix + "."))
  {
    var d := ToDecimal(sp.counter + j);
    var stem := sp.prefix + "(" + d + ")" + sp.suffix;
    assert Candidate(sp, j) == stem + ".";
    AssembledStem(sp, d);
    AddedDotStays(stem);
    var sp' := sp.(suffix := sp.suffix + ".");
    assert stem + "." == sp'.prefix + "(" + d + ")" + sp'.suffix;
    SplitAssembled(sp', sp.counter + j);
  }

  /** In a stem assembled from a well-formed split, the first `(digits)` group is the
      one around the printed counter. */
  lemma CounterGroup(sp: CounterSplit, d: string)
    requires NoCounterIn(sp.prefix) && 1 <= |d| && AllAsciiDigits(d)
    ensures var stem := sp.prefix + "(" + d + ")" + sp.suffix;
      var p := |sp.prefix|;
      && |stem| > 0
      && FirstMatch(stem) == Some(p)
      && CloseOf(stem, p) == p + 1 + |d|
      && stem[p + 1..p + 1 + |d|] == d
      && stem[..p] == sp.prefix
      && stem[p + 1 + |d| + 1..] == sp.suffix
  {
    var stem := sp.prefix + "(" + d + ")" + sp.suffix;
    var p := |sp.prefix|;
    var close := p + 1 + |d|;
    assert stem[p] == '(';
    assert stem[p + 1..close] == d;
    assert stem[close] == ')';
    forall k | p + 1 <= k < close
      ensures IsDecimalDigit(stem[k])
    {
      assert stem[k] == d[k - p - 1];
    }
    RunEndIs(stem, p + 1, close);
    assert MatchAt(stem, p);
    assert stem[..p] == (sp.prefix + "(")[..p];
    MatchesAgree(stem, sp.prefix + "(", p);
    FirstMatchIs(stem, p);
    assert stem[..p] == sp.prefix;
    assert stem[close + 1..] == sp.suffix;
  }

  /** The search resumes from the first candidate with the counter one higher. */
  lemma NextCandidate(name: string)
    requires SplitCounter(name).Some? && SplitCounter(name).value.counter < IntMax
    ensures var sp := SplitCounter(name).value;
      SplitCounter(Candidate(sp, 1)) == Some(NextSplit(sp))
  {
    SplitShape(name);
    ShapedCandidate(SplitCounter(name).value);
  }

  /** The first candidate of a shaped split splits into the next split. */
  lemma ShapedCandidate(sp: CounterSplit)
    requires Shaped(sp) && sp.counter < IntMax
    ensures SplitCounter(Candidate(sp, 1)) == Some(NextSplit(sp))
  {
    if DotRestart(sp) {
      DotCandidateSplit(sp, 1);
      assert NextSplit(sp) == sp.(counter := sp.counter + 1, suffix := sp.suffix + ".");
    } else {
      assert WellFormed(sp);
      CandidateSplit(sp, 1);
      assert NextSplit(sp) == sp.(counter := sp.counter + 1);
    }
  }

  /** Without a counter in the stem, the first candidate appends ` (1)` to it. */
  lemma AppendedCandidate(name: string)
    requires SplitCounter(name).Some?
    requires FirstMatch(DeletingPathExtension(name)).None?
    ensures Candidate(SplitCounter(name).value, 1) ==
      DeletingPathExtension(name) + " (1)." + PathExtension(name)
  {
    var sp := SplitCounter(name).value;
    OneIsOne();
    assert Candidate(sp, 1) == sp.prefix + "(" + "1" + ")" + "" + "." + sp.ext;
  }

  /** With a counter in the stem, the split keeps what surrounds the counter. */
  lemma IncrementedSplit(name: string, i: nat)
    requires FirstMatch(DeletingPathExtension(name)) == Some(i)
    requires ParseInt(DeletingPathExtension(name)[i + 1..CloseOf(DeletingPathExtension(name), i)]).Some?
    ensures var stem := DeletingPathExtension(name);
      var close := CloseOf(stem, i);
      SplitCounter(name) ==
        Some(CounterSplit(stem[..i], ParseInt(stem[i + 1..close]).value, stem[close + 1..], PathExtension(name)))
  {
  }

  lemma OneIsOne()
    ensures ToDecimal(1) == "1"
  {
  }

  /** One step of the search, stated on the split. */
  lemma RenameStep(existing: set<string>, name: string)
    requires SplitCounter(name).Some?
    ensures var sp := SplitCounter(name).value;
      Rename(existing, name) ==
        if sp.counter == IntMax then CounterOverflow
        else if Candidate(sp, 1) in existing then Rename(existing, Candidate(sp, 1))
        else Renamed(Candidate(sp, 1))
  {
  }

  /** A candidate ends with a dot and the extension. */
  lemma CandidateEndsWithExtension(sp: CounterSplit, j: nat)
    ensures EndsWithExtension(Candidate(sp, j), sp.ext)
  {
    var c := Candidate(sp, j);
    assert c[|c| - |sp.ext| - 1..] == "." + sp.ext;
  }

  /** With a counter in the stem, the first candidate increments that counter and keeps
      the rest of the stem and the extension. */
  lemma IncrementedCandidate(name: string, i: nat)
    requires FirstMatch(DeletingPathExtension(name)) == Some(i)
    requires ParseInt(DeletingPathExtension(name)[i + 1..CloseOf(DeletingPathExtension(name), i)]).Some?
    ensures var stem := DeletingPathExtension(name);
      var close := CloseOf(stem, i);
      Candidate(SplitCounter(name).value, 1) ==
        stem[..i] + "(" + ToDecimal(ParseInt(stem[i + 1..close]).value + 1) + ")"
        + stem[close + 1..] + "." + PathExtension(name)
  {
    var stem := DeletingPathExtension(name);
    var close := CloseOf(stem, i);
    IncrementedSplit(name, i);
    var sp := SplitCounter(name).value;
    assert sp.prefix == stem[..i];
    assert sp.suffix == stem[close + 1..];
    assert sp.ext == PathExtension(name);
  }

  /** Reference definition of the search: try the counters above the split's one after
      another, up to `Int.max`, and stop at the first name not taken. */
  function Search(existing: set<string>, sp: CounterSplit): (r: RenameOutcome)
    requires sp.counter <= IntMax
    ensures !r.CounterNotParsed?
    decreases IntMax - sp.counter
  {
    if sp.counter == IntMax then CounterOverflow
    else if Candidate(sp, 1) in existing then Search(existing, sp.(counter := sp.counter + 1))
    else Renamed(Candidate(sp, 1))
  }

  /** `renameNode`'s recursion on names is the search over counters. */
  lemma RenameIsSearch(existing: set<string>, name: string)
    requires SplitCounter(name).Some? && WellFormed(SplitCounter(name).value)
    ensures Rename(existing, name) == Search(existing, SplitCounter(name).value)
  {
    SearchFrom(existing, name, SplitCounter(name).value);
  }

  /** The induction behind `RenameIsSearch`, over the room left below `Int.max`. */
  lemma {:induction false} SearchFrom(existing: set<string>, name: string, sp: CounterSplit)
    requires SplitCounter(name) == Some(sp) && WellFormed(sp)
    ensures Rename(existing, name) == Search(existing, sp)
    decreases IntMax - sp.counter
  {
    RenameStep(existing, name);
    if sp.counter < IntMax && Candidate(sp, 1) in existing {
      WellFormedCandidate(sp);
      SearchFrom(existing, Candidate(sp, 1), sp.(counter := sp.counter + 1));
    }
  }

  /** The first candidate of a well-formed split splits into the same split one counter on,
      which is again well-formed. */
  lemma WellFormedCandidate(sp: CounterSplit)
    requires WellFormed(sp) && sp.counter < IntMax
    ensures SplitCounter(Candidate(sp, 1)) == Some(sp.(counter := sp.counter + 1))
    ensures WellFormed(sp.(counter := sp.counter + 1))
  {
    CandidateSplit(sp, 1);
  }

  /** When the stem ends with the path component `.` and there is no extension, the first
      candidate ends with `..`; from there on the search runs over counters with that
      longer suffix. */
  lemma DotRenameStep(existing: set<string>, name: string)
    requires SplitCounter(name).Some? && DotRestart(SplitCounter(name).value)
    ensures var sp := SplitCounter(name).value;
      Rename(existing, name) ==
        if sp.counter == IntMax then CounterOverflow
        else if Candidate(sp, 1) in existing then Search(existing, NextSplit(sp))
        else Renamed(Candidate(sp, 1))
  {
    var sp := SplitCounter(name).value;
    RenameStep(existing, name);
    if sp.counter < IntMax && Candidate(sp, 1) in existing {
      NextCandidate(name);
      SplitShape(name);
      NextSplitWellFormed(sp);
      RenameIsSearch(existing, Candidate(sp, 1));
    }
  }

  /** The search returns the first candidate that is not taken, provided the counter does
      not pass `Int.max` on the way. */
  lemma {:induction false} SearchFindsFirstFree(existing: set<string>, sp: CounterSplit, j: nat)
    requires 1 <= j && sp.counter + j <= IntMax
    requires forall k :: 1 <= k < j ==> Candidate(sp, k) in existing
    requires Candidate(sp, j) !in existing
    ensures Search(existing, sp) == Renamed(Candidate(sp, j))
    decreases j
  {
    if j > 1 {
      var sp' := sp.(counter := sp.counter + 1);
      ShiftedTaken(existing, sp, sp', j);
      SearchFindsFirstFree(existing, sp', j - 1);
    }
  }

  /** Seen from the next split, the taken candidates before the `j`-th are one fewer. */
  lemma ShiftedTaken(existing: set<string>, sp: CounterSplit, sp': CounterSplit, j: nat)
    requires 1 < j && sp' == sp.(counter := sp.counter + 1)
    requires forall k :: 1 <= k < j ==> Candidate(sp, k) in existing
    ensures forall k :: 1 <= k < j - 1 ==> Candidate(sp', k) in existing
    ensures Candidate(sp', j - 1) == Candidate(sp, j)
  {
    forall k | 1 <= k < j - 1
      ensures Candidate(sp', k) in existing
    {
      assert Candidate(sp', k) == Candidate(sp, k + 1);
    }
  }

  /** `renameNode` returns the first candidate that no child of the parent carries. */
  lemma RenameIsFirstFreeCandidate(existing: set<string>, name: string, j: nat)
    requires SplitCounter(name).Some? && WellFormed(SplitCounter(name).value)
    requires 1 <= j && SplitCounter(name).value.counter + j <= IntMax
    requires forall k :: 1 <= k < j ==> Candidate(SplitCounter(name).value, k) in existing
    requires Candidate(SplitCounter(name).value, j) !in existing
    ensures Rename(existing, name) == Renamed(Candidate(SplitCounter(name).value, j))
  {
    RenameIsSearch(existing, name);
    SearchFindsFirstFree(existing, SplitCounter(name).value, j);
  }

  /** Every candidate up to `Int.max` is taken. */
  predicate Exhausted(existing: set<string>, sp: CounterSplit)
  {
    forall k :: 1 <= k <= IntMax - sp.counter ==> Candidate(sp, k) in existing
  }

  /** The candidates after the first are those of the next split. */
  lemma ShiftedCandidates(existing: set<string>, sp: CounterSplit)
    requires sp.counter < IntMax && Candidate(sp, 1) in existing
    ensures Exhausted(existing, sp) <==> Exhausted(existing, sp.(counter := sp.counter + 1))
  {
    var sp' := sp.(counter := sp.counter + 1);
    if Exhausted(existing, sp) {
      forall k | 1 <= k <= IntMax - sp'.counter
        ensures Candidate(sp', k) in existing
      {
        assert Candidate(sp', k) == Candidate(sp, k + 1);
      }
    }
    if Exhausted(existing, sp') {
      forall k | 1 <= k <= IntMax - sp.counter
        ensures Candidate(sp, k) in existing
      {
        if k > 1 {
          assert Candidate(sp, k) == Candidate(sp', k - 1);
        }
      }
    }
  }

  /** The search overflows exactly when every candidate up to `Int.max` is taken. */
  lemma {:induction false} SearchOverflowIffExhausted(existing: set<string>, sp: CounterSplit)
    requires sp.counter <= IntMax
    ensures Search(existing, sp) == CounterOverflow <==> Exhausted(existing, sp)
    decreases IntMax - sp.counter
  {
    if sp.counter < IntMax && Candidate(sp, 1) in existing {
      SearchOverflowIffExhausted(existing, sp.(counter := sp.counter + 1));
      ShiftedCandidates(existing, sp);
    }
  }

  /** `renameNode` traps exactly when every candidate up to `Int.max` is taken. */
  lemma OverflowIffExhausted(existing: set<string>, name: string)
    requires SplitCounter(name).Some? && WellFormed(SplitCounter(name).value)
    ensures Rename(existing, name) == CounterOverflow <==> Exhausted(existing, SplitCounter(name).value)
  {
    RenameIsSearch(existing, name);
    SearchOverflowIffExhausted(existing, SplitCounter(name).value);
  }

  /** Distinct counters give distinct candidates. */
  lemma CandidateInjective(sp: CounterSplit, a: nat, b: nat)
    requires WellFormed(sp) && sp.counter + a <= IntMax && sp.counter + b <= IntMax
    requires Candidate(sp, a) == Candidate(sp, b)
    ensures a == b
  {
    CandidateSplit(sp, a);
    CandidateSplit(sp, b);
  }

  /** A set holding the first `n` candidates has at least `n` names. */
  lemma {:induction false} ManyCandidates(existing: set<string>, sp: CounterSplit, n: nat)
    requires WellFormed(sp) && sp.counter + n <= IntMax
    requires forall k :: 1 <= k <= n ==> Candidate(sp, k) in existing
    ensures |existing| >= n
    decreases n
  {
    if n > 0 {
      var rest := existing - {Candidate(sp, n)};
      forall k | 1 <= k < n
        ensures Candidate(sp, k) in rest
      {
        if Candidate(sp, k) == Candidate(sp, n) {
          CandidateInjective(sp, k, n);
        }
      }
      ManyCandidates(rest, sp, n - 1);
    }
  }

  /** With fewer taken names than counter values left below `Int.max`, `renameNode` always
      ends with a free name: the search terminates because the parent has finitely many
      children. */
  lemma NoOverflowWithFewNames(existing: set<string>, name: string)
    requires SplitCounter(name).Some?
    requires |existing| < IntMax - SplitCounter(name).value.counter
    ensures Rename(existing, name).Renamed?
  {
    var sp := SplitCounter(name).value;
    SplitShape(name);
    if !DotRestart(sp) {
      OverflowIffExhausted(existing, name);
      RenameIsSearch(existing, name);
      if Rename(existing, name) == CounterOverflow {
        ManyCandidates(existing, sp, IntMax - sp.counter);
      }
    } else {
      DotRenameStep(existing, name);
      if Rename(existing, name) == CounterOverflow {
        FirstDotCandidateCounts(existing, name);
      }
    }
  }

  /** When the stem ends with the path component `.`, there is no extension and every later
      candidate is taken too, the parent holds at least as many names as counters are
      left. */
  lemma FirstDotCandidateCounts(existing: set<string>, name: string)
    requires SplitCounter(name).Some? && DotRestart(SplitCounter(name).value)
    requires SplitCounter(name).value.counter < IntMax
    requires var sp := SplitCounter(name).value;
      Candidate(sp, 1) in existing && Search(existing, NextSplit(sp)) == CounterOverflow
    ensures |existing| >= IntMax - SplitCounter(name).value.counter
  {
    SplitShape(name);
    DotSearchCounts(existing, SplitCounter(name).value);
  }

  /** The count behind `FirstDotCandidateCounts`, stated on the split: the first candidate
      and every candidate of the next split are distinct names of the parent. */
  lemma DotSearchCounts(existing: set<string>, sp: CounterSplit)
    requires Shaped(sp) && DotRestart(sp) && sp.counter < IntMax
    requires Candidate(sp, 1) in existing && Search(existing, NextSplit(sp)) == CounterOverflow
    ensures |existing| >= IntMax - sp.counter
  {
    var sp' := NextSplit(sp);
    var first := Candidate(sp, 1);
    NextSplitWellFormed(sp);
    SearchOverflowIffExhausted(existing, sp');
    var rest := existing - {first};
    forall k | 1 <= k <= IntMax - sp'.counter
      ensures Candidate(sp', k) in rest
    {
      LaterCandidateDiffers(sp, k);
    }
    ManyCandidates(rest, sp', IntMax - sp'.counter);
  }

  /** Past a restart at the component `.`, no candidate of the next split repeats the first
      candidate. */
  lemma LaterCandidateDiffers(sp: CounterSplit, k: nat)
    requires Shaped(sp) && DotRestart(sp)
    requires 1 <= k && sp.counter + 1 + k <= IntMax
    ensures Candidate(NextSplit(sp), k) != Candidate(sp, 1)
  {
    DotCandidateSplit(sp, 1);
    NextSplitWellFormed(sp);
    CandidateSplit(NextSplit(sp), k);
  }

  /** When the counter is not an `Int`, the tidied name comes back unchanged, or with a dot
      added when it had no extension; the parent is not consulted, so it may still be
      taken. */
  lemma UnparsedCounterEchoesName(existing: set<string>, name: string)
    requires SplitCounter(name).None?
    ensures Rename(existing, name) ==
      CounterNotParsed(if ExtensionDot(name).Some? then FixSlashes(name) else FixSlashes(name) + ".")
  {
    if ExtensionDot(name).Some? {
      JoinSplit(name);
    } else {
      NoExtension(name);
    }
  }

  // ---------------------------------------------------------------------------
  // resolveNameCollisions

  /** `NameCollisionEntity`: a node about to be copied or moved under `parent` as `name`,
      the child it collides with once resolved, and the name chosen to avoid it. */
  datatype Collision = Collision(
    name: string,
    parent: Handle,
    node: Option<Handle>,
    collisionNode: Option<Handle>,
    renamed: string)

  /** The collision's `collisionNodeHandle` is the child of its parent with its name. */
  predicate Resolved(repo: NodeRepository, c: Collision)
  {
    c.collisionNode == ChildNodeNamed(repo, c.name, c.parent)
  }

  /** `b` is `a` with at most its `collisionNodeHandle` changed. */
  predicate SameRequest(a: Collision, b: Collision)
  {
    a.name == b.name && a.parent == b.parent && a.node == b.node && a.renamed == b.renamed
  }

  /** One collision of `resolveNameCollisions(for:)`: its `collisionNodeHandle` becomes the
      handle of the same-named child of its parent, or none. */
  function ResolveOne(repo: NodeRepository, c: Collision): (r: Collision)
    ensures SameRequest(c, r) && Resolved(repo, r)
  {
    c.(collisionNode := ChildNodeNamed(repo, c.name, c.parent))
  }

  /** `resolveNameCollisions(for:)`: every collision, in order, is resolved, and resolving
      the result again changes nothing. */
  method ResolveNameCollisions(repo: NodeRepository, collisions: seq<Collision>) returns (r: seq<Collision>)
    ensures |r| == |collisions|
    ensures forall i :: 0 <= i < |r| ==> SameRequest(collisions[i], r[i])
    ensures forall i :: 0 <= i < |r| ==>
      (r[i].collisionNode.Some? <==> r[i].name in ChildNames(repo, r[i].parent))
    ensures forall i :: 0 <= i < |r| && r[i].collisionNode.Some? ==>
      && r[i].parent in repo.children && r[i].name in repo.children[r[i].parent]
      && repo.children[r[i].parent][r[i].name] == r[i].collisionNode.value
    ensures forall i :: 0 <= i < |r| ==> ResolveOne(repo, r[i]) == r[i]
  {
    r := [];
    var n := 0;
    while n < |collisions|
      invariant 0 <= n <= |collisions| && |r| == n
      invariant forall i :: 0 <= i < n ==> SameRequest(collisions[i], r[i]) && Resolved(repo, r[i])
    {
      r := r + [ResolveOne(repo, collisions[n])];
      n := n + 1;
    }
  }

  // ---------------------------------------------------------------------------
  // Size and date labels

  /** `Int64.max`: `Int64(size)` traps above it. */
  const Int64Max: int := IntMax

  /** The label of a byte count. `None` when the count does not fit `Int64` and the
      conversion traps. */
  function SizeLabel(size: Option<nat>, formatBytes: int -> string): (r: Option<string>)
    requires forall n :: formatBytes(n) != ""
    ensures r == Some("") <==> size.None?
    ensures r.None? <==> size.Some? && size.value > Int64Max
    ensures size.Some? && size.value <= Int64Max ==> r == Some(formatBytes(size.value))
  {
    match size
    case None => Some("")
    case Some(n) => if n > Int64Max then None else Some(formatBytes(n))
  }

  /** The label of a creation date: empty when there is none. */
  function DateLabel(date: Option<int>, formatDate: int -> string): (r: string)
    requires forall d :: formatDate(d) != ""
    ensures r == "" <==> date.None?
    ensures date.Some? ==> r == formatDate(date.value)
  {
    match date
    case None => ""
    case Some(d) => formatDate(d)
  }

  /** `sizeForNode(handle:)`: empty when the repository knows no size for the node. */
  function SizeForNode(repo: NodeRepository, handle: Handle, formatBytes: int -> string): (r: Option<string>)
    requires forall n :: formatBytes(n) != ""
    ensures r == Some("") <==> handle !in repo.sizes
    ensures handle in repo.sizes && repo.sizes[handle] <= Int64Max ==>
      r == Some(formatBytes(repo.sizes[handle]))
  {
    SizeLabel(if handle in repo.sizes then Some(repo.sizes[handle]) else None, formatBytes)
  }

  /** `creationDateForNode(handle:)`: empty when the repository knows no date for the node. */
  function CreationDateForNode(repo: NodeRepository, handle: Handle, formatDate: int -> string): (r: string)
    requires forall d :: formatDate(d) != ""
    ensures r == "" <==> handle !in repo.creationDates
    ensures handle in repo.creationDates ==> r == formatDate(repo.creationDates[handle])
  {
    DateLabel(if handle in repo.creationDates then Some(repo.creationDates[handle]) else None, formatDate)
  }

  /** `sizeForFile(at:)`: empty when the file system reports no size for the file. */
  function SizeForFile(fs: FileSystem, url: string, formatBytes: int -> string): (r: Option<string>)
    requires forall n :: formatBytes(n) != ""
    ensures r == Some("") <==> url !in fs.sizes
    ensures url in fs.sizes && fs.sizes[url] <= Int64Max ==> r == Some(formatBytes(fs.sizes[url]))
  {
    SizeLabel(if url in fs.sizes then Some(fs.sizes[url]) else None, formatBytes)
  }

  /** `creationDateForFile(at:)`: empty when the file system reports no date for the file. */
  function CreationDateForFile(fs: FileSystem, url: string, formatDate: int -> string): (r: string)
    requires forall d :: formatDate(d) != ""
    ensures r == "" <==> url !in fs.creationDates
    ensures url in fs.creationDates ==> r == formatDate(fs.creationDates[url])
  {
    DateLabel(if url in fs.creationDates then Some(fs.creationDates[url]) else None, formatDate)
  }
}
