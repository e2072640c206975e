/** CopyDirectory as the source writes it: base/file_util_posix.cc, lines 216-316. */
module Copy {
  import opened FilePath
  import opened PathComponents
  import opened FileSystem
  import opened Enumeration
  import opened Enumerator
  import opened CopyPaths
  import opened Copying

  const PATH_MAX := 4096

  /** One call: the tree and working directory it starts from, its arguments, and whether
      the target is a directory that is to take in the source's top level. */
  datatype Job = Job(t0: Tree, cwd: Loc, from: string, to: string, recursive: bool, into: bool) {
    function Source(): Loc { Locate(cwd, from) }

    function Target(): Loc { Locate(cwd, to) + TopNames(from, into) }

    ghost function All(): set<Loc> { Covers(t0, Source(), recursive) }

    function PathFor(current: string): string
      requires |Front(from, into)| <= |current|
    {
      Append(to, Suffix(Front(from, into), current))
    }

    /** The target's place takes everything it is to receive. */
    ghost predicate Fits() { Compatible(t0, Source(), Target(), All()) }

    ghost predicate Separate() { Copying.Separate(t0, Source(), Target(), All()) }

    ghost predicate OnlyCopies(t: Tree) { Copying.OnlyCopies(t0, t, Source(), Target(), All()) }
  }

  /** What the loop relies on: a source that is there, and a target that it can cope with. */
  ghost predicate JobOk(j: Job) {
    && WellFormed(j.t0) && j.cwd in j.t0 && IsSourceStem(j.from) && WayOpen(j.t0, j.cwd, j.from)
    && j.Source() in j.t0 && j.Separate() && AllNames(j.Target())
    && (j.into ==> && Pastes(j.from, j.to) && (IsDeep(j.from) ==> IsName(BaseName(j.from)))
                   && Opens(j.t0, j.cwd, j.to))
  }

  /** The top can be put in place: the target's way is open, and there is a path for it,
      which Append denies to "" and ".". */
  predicate Ready(j: Job)
    requires j.Source() in j.t0
  {
    IsCopied(j.t0[j.Source()]) ==>
      WayOpen(j.t0, j.cwd, j.to) && (TopNames(j.from, j.into) != [] || (j.to != "" && j.to != CURRENT))
  }

  /** The entry in hand: where it lies below the source, what it is, and that nothing
      above it is still to come. */
  ghost predicate EntryInHand(j: Job, left: set<Loc>, current: string, info: Node, names: seq<string>) {
    var z := j.Source() + names;
    && AllNames(names) && current == AppendAll(j.from, names)
    && z in j.t0 && j.t0[z] == info && z in j.All() && z !in left && NoneAbove(left, z)
  }

  ghost predicate Copied(j: Job, t: Tree, todo: set<Loc>, broken: bool) {
    CopyState(j.t0, t, j.Source(), j.Target(), j.recursive, todo, broken)
  }

  // ------------------------------------------------------ target paths

  lemma {:induction false} TopIsNamed(j: Job)
    requires JobOk(j)
    ensures AllNames(TopNames(j.from, j.into))
  {
    hide Locate, Route, IsSourceStem, Pastes, BaseName, IsName, WellFormed, Opens, WayOpen, Separate;
  }

  lemma {:induction false} LowerPlace(j: Job, names: seq<string>)
    requires JobOk(j) && AllNames(names) && TopNames(j.from, j.into) + names != []
    ensures var p := AppendAll(j.to, TopNames(j.from, j.into) + names);
            p != "" && Locate(j.cwd, p) == j.Target() + names && !EndsInSeparator(p)
  {
    hide Append, Locate, Route, EndsInSeparator, IsSourceStem, DirName, BaseName, IsName, Pastes, WellFormed, Opens,
         WayOpen, Separate;
    var rel := TopNames(j.from, j.into) + names;
    assert AllNames(rel) by { TopIsNamed(j); }
    hide JobOk, TopNames, AppendAll, AllNames;
    LocateAppendAll(j.cwd, j.to, rel);
    assert Locate(j.cwd, j.to) + rel == j.Target() + names;
    var init, last := rel[..|rel|-1], rel[|rel|-1];
    assert rel == init + [last] && last in rel;
    AppendAllSnoc(j.to, init, last);
    AppendedHasNoSeparator(AppendAll(j.to, init), last);
  }

  /** Where the target of an entry lies. */
  lemma {:induction false} TargetPlace(j: Job, names: seq<string>)
    requires JobOk(j) && AllNames(names)
    ensures var current := AppendAll(j.from, names);
            && |Front(j.from, j.into)| <= |current|
            && (var p := j.PathFor(current);
                && (p != "" ==> Locate(j.cwd, p) == j.Target() + names)
                && (EndsInSeparator(p) ==> j.Target() + names == [])
                && (p == "" <==> TopNames(j.from, j.into) + names == [] && (j.to == "" || j.to == CURRENT))
                && (TopNames(j.from, j.into) + names == [] ==> Route(j.cwd, p) == Route(j.cwd, j.to) || p == ""))
  {
    hide Append, Locate, Route, EndsInSeparator, IsSourceStem, DirName, BaseName, IsName, AppendAll;
    TargetPath(j.cwd, j.from, j.to, j.into, names);
    if TopNames(j.from, j.into) + names != [] {
      LowerPlace(j, names);
    } else {
      TopTarget(j.cwd, j.to);
      assert Locate(j.cwd, j.to) + [] + [] == Locate(j.cwd, j.to);
    }
  }

  /** With the way open and the parent in place, the target path leads to its place. */
  lemma {:induction false} TargetReached(j: Job, t: Tree, names: seq<string>)
    requires JobOk(j) && AllNames(names) && WellFormed(t) && WayOpen(t, j.cwd, j.to)
    requires j.into ==> IsDirectory(t, Locate(j.cwd, j.to))
    requires names != [] ==> IsDirectory(t, Parent(j.Target() + names))
    ensures var current := AppendAll(j.from, names);
            && |Front(j.from, j.into)| <= |current|
            && (j.PathFor(current) != "" ==> Reaches(t, j.cwd, j.PathFor(current)))
  {
    assert j.into ==> j.to != "";
    hide Append, Locate, Route, EndsInSeparator, IsSourceStem, DirName, BaseName, IsName, WellFormed, AppendAll, Opens;
    TargetPlace(j, names);
    TargetPath(j.cwd, j.from, j.to, j.into, names);
    var p, rel, l := j.PathFor(AppendAll(j.from, names)), TopNames(j.from, j.into) + names, Locate(j.cwd, j.to);
    RootExists(t);
    if p != "" && rel != [] {
      forall v | v in Route(j.cwd, p) ensures IsDirectory(t, v) {
        RouteAppendAll(j.cwd, j.to, rel, v);
        if v !in Route(j.cwd, j.to) { PlaceOnTheWay(t, l, TopNames(j.from, j.into), names, v); }
      }
    }
  }

  lemma {:induction false} PlaceOnTheWay(t: Tree, l: Loc, top: seq<string>, names: seq<string>, v: Loc)
    requires WellFormed(t) && |top| <= 1 && top + names != [] && l <= v && v < l + (top + names)
    requires top != [] ==> IsDirectory(t, l)
    requires names != [] ==> IsDirectory(t, Parent(l + top + names))
    ensures IsDirectory(t, v)
  {
    assert l + (top + names) == l + top + names;
    if names != [] {
      var up := Parent(l + top + names);
      assert v <= up;
      PrefixesExist(t, up, v);
      if |v| == |up| { assert v == up; }
    } else {
      assert |v| == |l|;
      assert v == l;
    }
  }

  /** The parent of the top's missing place is a directory if the target's way is open. */
  lemma {:induction false} TopHasParent(j: Job)
    requires JobOk(j) && WayOpen(j.t0, j.cwd, j.to) && j.Target() !in j.t0
    ensures j.Target() != [] && IsDirectory(j.t0, Parent(j.Target()))
  {
    hide Locate, Route, IsSourceStem, DirName, BaseName, IsName, Opens, Pastes;
    var l := Locate(j.cwd, j.to);
    if j.into { OpensExactly(j.t0, j.cwd, j.to); }
    if TopNames(j.from, j.into) != [] {
      assert Parent(j.Target()) == l;
    } else {
      assert j.Target() == l;
      MissingHasParent(j.t0, j.cwd, j.to);
    }
  }

  // -------------------------------------------------- before an entry is copied

  /** In a copy without failures every directory and file finds its place. */
  lemma {:induction false} PlaceIsReady(j: Job, t: Tree, left: set<Loc>, current: string, info: Node,
                                        names: seq<string>)
    requires JobOk(j) && EntryInHand(j, left, current, info, names) && IsCopied(info)
    requires j.Fits() && Copied(j, t, left + {j.Source() + names}, false)
    requires Ready(j) && (names == [] ==> t == j.t0)
    ensures |Front(j.from, j.into)| <= |current| && Reaches(t, j.cwd, j.PathFor(current))
    ensures var z := j.Target() + names;
            if z in t then SameKind(info, t[z]) else z != [] && IsDirectory(t, Parent(z))
  {
    hide Append, Locate, Route, Mirrored, Compatible, Covers, NoneAbove, IsSourceStem, DirName, BaseName, IsName,
         Pastes, AppendAll, Opens, WayOpen, OnlyCopies;
    var x, y := j.Source(), j.Target();
    var done := j.All() - (left + {x + names});
    TopIsCopied(j, names, info);
    KindsKeepWays(j.t0, t, j.cwd, j.to);
    if j.into { OpensExactly(j.t0, j.cwd, j.to); }
    TargetFree(j.t0, t, x, y, j.All(), done, names);
    if names == [] {
      if y !in t { TopHasParent(j); }
      assert y + names == y;
    } else {
      ParentIsDone(j.t0, x, j.recursive, left, names);
      TargetReady(j.t0, t, x, y, done, names);
    }
    TargetReached(j, t, names);
    TargetPlace(j, names);
  }

  lemma {:induction false} TopIsCopied(j: Job, names: seq<string>, info: Node)
    requires WellFormed(j.t0) && j.Source() + names in j.t0 && j.t0[j.Source() + names] == info && IsCopied(info)
    ensures j.Source() in j.t0 && IsCopied(j.t0[j.Source()])
  {
    hide Locate;
    PrefixesExist(j.t0, j.Source() + names, j.Source());
    if names == [] { assert j.Source() + names == j.Source(); }
  }

  /** Without a place for the top nothing can be put there. */
  lemma {:induction false} NoPlaceForTop(j: Job)
    requires JobOk(j) && !Ready(j)
    ensures |Front(j.from, j.into)| <= |j.from| && !Reaches(j.t0, j.cwd, j.PathFor(j.from))
  {
    hide Append, Locate, Route, IsSourceStem, DirName, BaseName, IsName, Pastes;
    TargetPlace(j, []);
    OpenWay(j.t0, j.cwd, j.to);
  }

  /** The source's entries exist by their paths. */
  lemma {:induction false} SourceExists(j: Job, t: Tree, names: seq<string>)
    requires JobOk(j) && AllNames(names) && WellFormed(t) && KeepsKinds(j.t0, t) && j.Source() + names in t
    ensures Exists(t, j.cwd, AppendAll(j.from, names))
    ensures Locate(j.cwd, AppendAll(j.from, names)) == j.Source() + names
  {
    hide Append, Locate, Route, IsSourceStem, IsName, WellFormed, KeepsKinds, Pastes, DirName, BaseName, Opens,
         AppendAll;
    var current := AppendAll(j.from, names);
    LocateAppendAll(j.cwd, j.from, names);
    KindsKeepWays(j.t0, t, j.cwd, j.from);
    SourceEnds(j.from, names);
    forall v | v in Route(j.cwd, current) ensures IsDirectory(t, v) {
      RouteAppendAll(j.cwd, j.from, names, v);
      if v !in Route(j.cwd, j.from) { PrefixesExist(t, j.Source() + names, v); }
    }
  }

  lemma {:induction false} SourceEnds(from: string, names: seq<string>)
    requires IsSourceStem(from) && AllNames(names)
    ensures AppendAll(from, names) != "" && !EndsInSeparator(AppendAll(from, names))
  {
    hide Append, IsName;
    if names != [] {
      var init, last := names[..|names|-1], names[|names|-1];
      assert names == init + [last] && last in names && forall b :: b in init ==> b in names;
      AppendAllSnoc(from, init, last);
      AppendedHasNoSeparator(AppendAll(from, init), last);
      LocateAppend([], AppendAll(from, init), last);
    }
  }

  // ---------------------------------------------------- copying one entry

  lemma {:induction false} LastName(y: Loc, names: seq<string>)
    requires AllNames(y) && AllNames(names) && y + names != []
    ensures IsName((y + names)[|y + names| - 1])
  {
    hide IsName;
    if names != [] {
      assert (y + names)[|y + names| - 1] == names[|names| - 1];
      assert names[|names| - 1] in names;
    } else {
      assert (y + names)[|y + names| - 1] == y[|y| - 1];
      assert y[|y| - 1] in y;
    }
  }

  /** What copying an entry does to the tree: it writes the entry's node, or nothing. */
  ghost predicate Step(j: Job, t: Tree, t': Tree, names: seq<string>, made: bool, info: Node) {
    var z := j.Target() + names;
    if made then
      && z != [] && IsDirectory(t, Parent(z)) && (z in t ==> t[z].Regular? && info.Regular?)
      && t' == t[z := Written(j.Source(), j.Target(), info)]
    else t' == t
  }

  lemma {:induction false} StepKeepsState(j: Job, t: Tree, t': Tree, left: set<Loc>, current: string, info: Node,
                                          names: seq<string>, made: bool, broken: bool, failed: bool)
    requires JobOk(j) && EntryInHand(j, left, current, info, names)
    requires Copied(j, t, left + {j.Source() + names}, broken) && Step(j, t, t', names, made, info)
    requires !failed && j.Fits() && IsCopied(info) ==>
               t' == t[j.Target() + names := Written(j.Source(), j.Target(), info)]
    requires (broken ==> failed) && (made ==> IsCopied(info))
    ensures Copied(j, t', left, failed)
  {
    hide Locate, Mirrored, Covers, Compatible, NoneAbove, JobOk, WellFormed, KeepsKinds, OnlyCopies, AppendAll, IsName;
    var x, y := j.Source(), j.Target();
    StepKeepsTree(j, t, t', left, current, info, names, made, broken);
    if !failed && j.Fits() {
      CopyOne(j.t0, t, x, y, j.recursive, left, names);
    }
  }

  lemma {:induction false} StepKeepsTree(j: Job, t: Tree, t': Tree, left: set<Loc>, current: string, info: Node,
                                         names: seq<string>, made: bool, broken: bool)
    requires JobOk(j) && EntryInHand(j, left, current, info, names) && (made ==> IsCopied(info))
    requires Copied(j, t, left + {j.Source() + names}, broken) && Step(j, t, t', names, made, info)
    ensures WellFormed(t') && KeepsKinds(j.t0, t')
    ensures Copying.OnlyCopies(j.t0, t', j.Source(), j.Target(), j.All() - left)
  {
    TargetIsNamed(j, names);
    hide Locate, Mirrored, Covers, Compatible, NoneAbove, JobOk, WellFormed, KeepsKinds, OnlyCopies, AppendAll, IsName,
         TopNames, DirName, BaseName;
    var x, y := j.Source(), j.Target();
    if made {
      WriteKeepsTree(j.t0, t, x, y, j.All(), left, names, Written(x, y, info));
    } else {
      MoreCopies(j.t0, t, x, y, j.All() - (left + {x + names}), j.All() - left);
    }
  }

  lemma {:induction false} WriteKeepsTree(t0: Tree, t: Tree, x: Loc, y: Loc, all: set<Loc>, left: set<Loc>, rel: Loc,
                                          node: Node)
    requires WellFormed(t) && KeepsKinds(t0, t) && Copying.OnlyCopies(t0, t, x, y, all - (left + {x + rel}))
    requires x + rel in t0 && x + rel in all && x + rel !in left && IsCopied(t0[x + rel])
    requires y + rel != [] && IsDirectory(t, Parent(y + rel)) && IsName((y + rel)[|y + rel| - 1])
    requires y + rel in t ==> t[y + rel].Regular? && node.Regular?
    ensures var t' := t[y + rel := node];
            WellFormed(t') && KeepsKinds(t0, t') && Copying.OnlyCopies(t0, t', x, y, all - left)
  {
    hide WellFormed, KeepsKinds, OnlyCopies, IsName;
    var done := all - (left + {x + rel});
    assert done + {x + rel} == all - left;
    AddKeepsWellFormed(t, y + rel, node);
    AddKeepsOnlyCopies(t0, t, x, y, done, rel, node);
    AddKeepsKinds(t0, t, y + rel, node);
  }

  lemma {:induction false} TargetIsNamed(j: Job, names: seq<string>)
    requires JobOk(j)
    ensures AllNames(names) && j.Target() + names != [] ==> IsName((j.Target() + names)[|j.Target() + names| - 1])
  {
    if AllNames(names) && j.Target() + names != [] { LastName(j.Target(), names); }
  }

  /** The calls for one entry: mkdir, a file copy, or nothing. */
  method CopyNode(disk: Disk, current: string, targetPath: string, info: Node) returns (success: bool, made: bool)
    requires WellFormed(disk.tree)
    requires Exists(disk.tree, disk.cwd, current) && disk.tree[Locate(disk.cwd, current)] == info
    modifies disk`tree
    ensures var t, z := old(disk.tree), Locate(disk.cwd, targetPath);
            var node := if info.Regular? && Locate(disk.cwd, current) == z then EMPTY else info;
            && (if made then targetPath != "" && z != [] && IsDirectory(t, Parent(z)) && disk.tree == t[z := node]
                             && IsCopied(info) && (z in t ==> t[z].Regular? && info.Regular?)
                else disk.tree == t)
            && (success && IsCopied(info) ==> Reaches(t, disk.cwd, targetPath))
            && (!disk.faulty && IsCopied(info) && Reaches(t, disk.cwd, targetPath)
                && (EndsInSeparator(targetPath) ==> z == [])
                && (if z in t then SameKind(info, t[z]) else z != [] && IsDirectory(t, Parent(z))) ==>
                  success && disk.tree == t[z := node])
    ensures !success ==> !made
    ensures !IsCopied(info) ==> success
  {
    hide Locate, Route, EndsInSeparator, WayOpen;
    ghost var t := disk.tree;
    success, made := true, false;
    if info == Directory {
      var r := disk.Mkdir(targetPath);
      success, made := r != NotMade, r == Made;
      assert r == AlreadyThere ==> t[Locate(disk.cwd, targetPath) := t[Locate(disk.cwd, targetPath)]] == t;
    } else if info.Regular? {
      success := disk.CopyFile(current, targetPath);
      made := success;
    }
  }

  /** The body of the loop: copies one entry. */
  method CopyEntry(disk: Disk, fromBase: string, to: string, current: string, info: Node, ghost j: Job,
                   ghost left: set<Loc>, ghost names: seq<string>)
    returns (success: bool, ghost made: bool)
    requires JobOk(j) && j.cwd == disk.cwd && j.to == to && fromBase == Front(j.from, j.into)
    requires EntryInHand(j, left, current, info, names)
    requires Copied(j, disk.tree, left + {j.Source() + names}, disk.faulty)
    requires names == [] ==> disk.tree == j.t0
    requires !disk.faulty && j.Fits() && names != [] ==> Ready(j)
    modifies disk`tree
    ensures Copied(j, disk.tree, left, disk.faulty || !success)
    ensures Step(j, old(disk.tree), disk.tree, names, made, info)
    ensures !disk.faulty && j.Fits() ==> (success <==> !IsCopied(info) || names != [] || Ready(j))
    ensures !success ==> disk.tree == old(disk.tree)
    ensures made ==> IsCopied(info)
  {
    hide Locate, Route, Append, AppendAll, Suffix, Mirrored, Compatible, Covers, NoneAbove, WellFormed, IsSourceStem,
         Pastes, Front, Separate, Reaches, Ready, KeepsKinds, OnlyCopies, WayOpen, Opens, DirName, BaseName, Exists,
         EntryInHand, JobOk, Copied, EndsInSeparator;
    ghost var t := disk.tree;
    EntryFacts(j, t, left, current, info, names, disk.faulty);
    var targetPath := Append(to, Suffix(fromBase, current));
    assert targetPath == j.PathFor(current);
    success, made := CopyNode(disk, current, targetPath, info);
    StepKeepsState(j, t, disk.tree, left, current, info, names, made, disk.faulty, disk.faulty || !success);
  }

  /** What holds before an entry is copied: its source is there, its target is the same only
      if all targets are, and it can be reached and written exactly if the top could be. */
  lemma {:induction false} EntryFacts(j: Job, t: Tree, left: set<Loc>, current: string, info: Node, names: seq<string>,
                                      faulty: bool)
    requires JobOk(j) && EntryInHand(j, left, current, info, names)
    requires Copied(j, t, left + {j.Source() + names}, faulty) && (names == [] ==> t == j.t0)
    requires !faulty && j.Fits() && names != [] ==> Ready(j)
    ensures |Front(j.from, j.into)| <= |current| && Exists(t, j.cwd, current) && t[Locate(j.cwd, current)] == info
    ensures var p, z := j.PathFor(current), j.Target() + names;
            && (p != "" ==> && Locate(j.cwd, p) == z
                            && (IsCopied(info) ==> (Locate(j.cwd, current) == z <==> j.Source() == j.Target())))
            && WellFormed(t) && (EndsInSeparator(p) ==> z == [])
            && !Reaches(t, j.cwd, "")
            && j.Source() in j.t0
            && (!faulty && j.Fits() && IsCopied(info) ==>
                  if Ready(j) then && Reaches(t, j.cwd, p)
                                   && (if z in t then SameKind(info, t[z]) else z != [] && IsDirectory(t, Parent(z)))
                  else names == [] && !Reaches(t, j.cwd, p))
  {
    assert names == [] ==> current == j.from;
    hide Locate, Route, Append, AppendAll, Suffix, Mirrored, Compatible, Covers, NoneAbove, WellFormed, IsSourceStem,
         Pastes, Front, Separate, Reaches, Ready, KeepsKinds, OnlyCopies, WayOpen, Opens, DirName, BaseName, Exists;
    TargetPlace(j, names);
    if IsCopied(info) { SameOnlyForAll(j.t0, j.Source(), j.Target(), j.All(), names); }
    EmptyReachesNothing(t, j.cwd);
    SourceUnchanged(j.t0, t, j.Source(), j.Target(), j.All(), j.All() - (left + {j.Source() + names}), names);
    SourceExists(j, t, names);
    if IsCopied(info) && !faulty && j.Fits() {
      if Ready(j) {
        PlaceIsReady(j, t, left, current, info, names);
      } else {
        NoPlaceForTop(j);
      }
    }
  }

  lemma {:induction false} SameOnlyForAll(t0: Tree, x: Loc, y: Loc, all: set<Loc>, rel: Loc)
    requires Copying.Separate(t0, x, y, all) && x + rel in all && x + rel in t0 && IsCopied(t0[x + rel])
    ensures x + rel == y + rel <==> x == y
  {
    if x != y { TargetsOutside(t0, x, y, all, rel); }
  }

  lemma {:induction false} EmptyReachesNothing(t: Tree, cwd: Loc)
    ensures !Reaches(t, cwd, "")
  {}

  // ------------------------------------------------------------ the loop

  ghost function Hand(cwd: Loc, current: string): set<Loc> {
    if current == "" then {} else {Locate(cwd, current)}
  }

  /** The traversal belongs to this copy and is intact. */
  ghost predicate Enumerating(disk: Disk, traversal: FileEnumerator, j: Job)
    reads disk, traversal
  {
    && traversal.Valid(disk.tree) && traversal.setup.cwd == disk.cwd == j.cwd && traversal.recursive == j.recursive
    && traversal.setup.first == j.from && traversal.setup.start == j.Source()
  }

  /** What is known at the head of the loop. */
  ghost predicate LoopState(j: Job, t: Tree, left: set<Loc>, current: string, info: Node, names: seq<string>,
                            success: bool, faulty: bool)
  {
    && JobOk(j) && left <= j.All() && Copied(j, t, left + Hand(j.cwd, current), faulty || !success)
    && (success ==> if current == "" then left == {}
                    else EntryInHand(j, left, current, info, names) && Locate(j.cwd, current) == j.Source() + names)
    && (!faulty && j.Fits() ==>
          && (!success ==> !Ready(j) && t == j.t0)
          && (success && (current == "" || names != []) ==> Ready(j)))
  }

  /** Keeps the enumeration valid over the change that copying an entry made. */
  lemma {:induction false} StepKeepsTraversal(s: Setup, j: Job, t: Tree, t': Tree, c: Cursor, n: nat,
                                              names: seq<string>, made: bool, info: Node)
    requires JobOk(j) && KeepsKinds(j.t0, t) && s.cwd == j.cwd && s.first == j.from && s.start == j.Source()
    requires Good(s, t, c, n) && Step(j, t, t', names, made, info)
    requires j.Source() + names !in Remaining(s, t, c, n)
    requires made ==> && j.Source() + names in j.All() && j.Source() + names in j.t0
                      && j.t0[j.Source() + names] == info && IsCopied(info)
    ensures Good(s, t', c, n) && Remaining(s, t', c, n) == Remaining(s, t, c, n)
  {
    hide Locate, Route, Good, Remaining, IsSourceStem, KeepsKinds, WayOpen, DirName, BaseName, Pastes, Opens;
    var x, y := j.Source(), j.Target();
    if made {
      var node := Written(x, y, info);
      if x == y {
        KindKept(j.t0, t, x + names);
        OverwriteKeepsGood(s, t, c, n, y + names, node);
      } else {
        TargetsOutside(j.t0, x, y, j.All(), names);
        KindsKeepWays(j.t0, t, j.cwd, j.from);
        AddKeepsGood(s, t, c, n, y + names, node);
      }
    }
  }

  lemma {:induction false} KindKept(t0: Tree, t: Tree, z: Loc)
    requires KeepsKinds(t0, t) && z in t0
    ensures z in t && SameKind(t0[z], t[z])
  {}

  lemma {:induction false} RootedNames(from: string, current: string) returns (names: seq<string>)
    requires Rooted(from, current)
    ensures AllNames(names) && current == AppendAll(from, names)
  {
    names :| AllNames(names) && current == AppendAll(from, names);
  }

  lemma {:induction false} SourceIsStem(from: string)
    requires IsSourceStem(from)
    ensures IsStem(from)
  {}

  /** Fetches the next entry and says what it is. */
  method NextEntry(disk: Disk, traversal: FileEnumerator, info: Node, ghost j: Job)
    returns (current: string, next: Node, ghost names: seq<string>)
    requires WellFormed(disk.tree) && Enumerating(disk, traversal, j) && JobOk(j)
    requires traversal.Left(disk.tree) <= j.All()
    requires Copying.OnlyCopies(j.t0, disk.tree, j.Source(), j.Target(), j.All() - traversal.Left(disk.tree))
    modifies traversal
    ensures Enumerating(disk, traversal, j)
    ensures traversal.Left(disk.tree) + Hand(disk.cwd, current) <= old(traversal.Left(disk.tree))
    ensures !disk.faulty ==>
              traversal.Left(disk.tree) + Hand(disk.cwd, current) == old(traversal.Left(disk.tree))
    ensures if current == "" then traversal.Left(disk.tree) == {}
            else && EntryInHand(j, traversal.Left(disk.tree), current, next, names)
                 && Locate(disk.cwd, current) == j.Source() + names && names != []
  {
    hide Locate, Route, Append, AppendAll, Good, Remaining, Covers, IsSourceStem, IsStem, Rooted, NoneAbove, OnlyCopies,
         WellFormed, IsName, AllNames, StraightDown, Separate, Pastes, WayOpen, Opens, BaseName;
    ghost var left := traversal.Left(disk.tree);
    current := traversal.Next(disk);
    next := traversal.GetFindInfo(info);
    names := [];
    if current != "" {
      SourceIsStem(j.from);
      names := RootedNames(j.from, current);
      LocateAppendAll(disk.cwd, j.from, names);
      SourceUnchanged(j.t0, disk.tree, j.Source(), j.Target(), j.All(), j.All() - left, names);
    }
  }

  /** After the step and with the next entry fetched, the loop is at its head again. */
  lemma {:induction false} LoopAgain(j: Job, t: Tree, t': Tree, left: set<Loc>, current: string, info: Node,
                                     names: seq<string>, success: bool, faulty: bool,
                                     left': set<Loc>, current': string, info': Node, names': seq<string>)
    requires LoopState(j, t, left, current, info, names, true, faulty) && current != ""
    requires Copied(j, t', left, faulty || !success) && (!success ==> t' == t) && (names == [] ==> t == j.t0)
    requires !faulty && j.Fits() ==> (success <==> !IsCopied(info) || names != [] || Ready(j))
    requires left' + Hand(j.cwd, current') <= left && (!faulty ==> left' + Hand(j.cwd, current') == left)
    requires if current' == "" then left' == {}
             else && EntryInHand(j, left', current', info', names')
                  && Locate(j.cwd, current') == j.Source() + names' && names' != []
    ensures LoopState(j, t', left', current', info', names', success, faulty)
  {
    hide Locate, Route, Mirrored, Covers, NoneAbove, AllNames, WayOpen, Compatible, KeepsKinds, OnlyCopies, JobOk;
    if names == [] { assert j.Source() + names == j.Source(); }
    MoreCopies(j.t0, t', j.Source(), j.Target(), j.All() - left, j.All() - (left' + Hand(j.cwd, current')));
    if !faulty { assert left' + Hand(j.cwd, current') == left; }
  }

  lemma {:induction false} StateFacts(j: Job, t: Tree, todo: set<Loc>, broken: bool)
    requires Copied(j, t, todo, broken)
    ensures WellFormed(t) && KeepsKinds(j.t0, t)
    ensures Copying.OnlyCopies(j.t0, t, j.Source(), j.Target(), j.All() - todo)
  {}

  lemma {:induction false} LoopFacts(j: Job, t: Tree, left: set<Loc>, current: string, info: Node, names: seq<string>,
                                     faulty: bool)
    requires LoopState(j, t, left, current, info, names, true, faulty) && current != ""
    ensures JobOk(j) && left <= j.All() && EntryInHand(j, left, current, info, names)
    ensures Copied(j, t, left + {j.Source() + names}, faulty)
    ensures j.Source() + names in j.All() && j.Source() + names in j.t0 && j.t0[j.Source() + names] == info
    ensures Locate(j.cwd, current) == j.Source() + names && j.Source() + names !in left
    ensures !faulty && j.Fits() && names != [] ==> Ready(j)
  {
    hide Locate, Route, Mirrored, Covers, NoneAbove, AllNames, WayOpen, Compatible, KeepsKinds, OnlyCopies, JobOk;
  }

  /** One round of the loop: copies the entry in hand and fetches the next. */
  method CopyAndAdvance(disk: Disk, traversal: FileEnumerator, fromBase: string, to: string, current: string,
                        info: Node, ghost j: Job, ghost names: seq<string>)
    returns (success: bool, current': string, info': Node, ghost names': seq<string>)
    requires Enumerating(disk, traversal, j) && current != "" && j.to == to && fromBase == Front(j.from, j.into)
    requires LoopState(j, disk.tree, traversal.Left(disk.tree), current, info, names, true, disk.faulty)
    requires names == [] ==> disk.tree == j.t0
    modifies disk`tree, traversal
    ensures Enumerating(disk, traversal, j)
    ensures LoopState(j, disk.tree, traversal.Left(disk.tree), current', info', names', success, disk.faulty)
    ensures current' != "" ==> names' != []
    ensures traversal.Left(disk.tree) + Hand(disk.cwd, current') <= old(traversal.Left(disk.tree))
    ensures Locate(disk.cwd, current) !in old(traversal.Left(disk.tree))
  {
    hide Locate, Route, Append, AppendAll, Good, Remaining, Covers, IsSourceStem, NoneAbove, EntryInHand, CopyState,
         Ready, Step, OnlyCopies, Mirrored, WellFormed, JobOk, KeepsKinds, Compatible, Front, Copied, LoopState;
    ghost var t, left := disk.tree, traversal.Left(disk.tree);
    LoopFacts(j, t, left, current, info, names, disk.faulty);
    StateFacts(j, t, left + {j.Source() + names}, disk.faulty);
    ghost var made;
    success, made := CopyEntry(disk, fromBase, to, current, info, j, left, names);
    StepKeepsTraversal(traversal.setup, j, t, disk.tree, traversal.View(), traversal.currentDirectoryEntry + 1,
                       names, made, info);
    StateFacts(j, disk.tree, left, disk.faulty || !success);
    current', info', names' := NextEntry(disk, traversal, info, j);
    LoopAgain(j, t, disk.tree, left, current, info, names, success, disk.faulty,
              traversal.Left(disk.tree), current', info', names');
  }

  lemma {:induction false} StartLoop(j: Job, left: set<Loc>, first: Node, faulty: bool)
    requires JobOk(j) && j.t0[j.Source()] == first && left == j.All() - {j.Source()}
    ensures LoopState(j, j.t0, left, j.from, first, [], true, faulty)
  {
    hide Locate, Route, IsSourceStem, WayOpen, Opens, Pastes, BaseName, TopNames, Separate, WellFormed, Compatible;
    var x := j.Source();
    assert x + [] == x && x in j.All();
    assert j.All() - (left + {x}) == {};
    assert AppendAll(j.from, []) == j.from && j.from != "" by { SourceNotEmpty(j.from); }
    assert NoneAbove(left, x);
  }

  lemma {:induction false} SourceNotEmpty(from: string)
    requires IsSourceStem(from)
    ensures from != ""
  {}

  /** What the loop comes to. */
  ghost predicate Outcome(j: Job, t: Tree, success: bool, faulty: bool) {
    && WellFormed(t) && j.OnlyCopies(t) && KeepsKinds(j.t0, t) && j.Source() in j.t0
    && (!faulty && j.Fits() ==>
          && (success <==> Ready(j))
          && (if success then Mirrored(j.t0, t, j.Source(), j.Target(), j.All()) else t == j.t0))
  }

  lemma {:induction false} FinishLoop(j: Job, t: Tree, left: set<Loc>, current: string, info: Node, names: seq<string>,
                                      success: bool, faulty: bool)
    requires LoopState(j, t, left, current, info, names, success, faulty) && (success ==> current == "")
    ensures Outcome(j, t, success, faulty)
  {
    hide Locate, Route, Mirrored, Covers, Compatible, WayOpen, Opens, IsSourceStem, Pastes, BaseName;
    assert left + {} == left;
    assert j.All() - {} == j.All();
    var todo := left + Hand(j.cwd, current);
    MoreCopies(j.t0, t, j.Source(), j.Target(), j.All() - todo, j.All());
  }

  /** The loop: starts with the source itself. */
  method CopyTree(disk: Disk, traversal: FileEnumerator, fromBase: string, from: string, to: string, first: Node,
                  ghost j: Job)
    returns (success: bool)
    requires JobOk(j) && j.t0 == disk.tree && disk.tree[j.Source()] == first
    requires Enumerating(disk, traversal, j) && j.cwd == disk.cwd
    requires j.from == from && j.to == to && fromBase == Front(from, j.into)
    requires traversal.Left(disk.tree) == j.All() - {j.Source()}
    modifies disk`tree, traversal
    ensures Outcome(j, disk.tree, success, disk.faulty)
  {
    hide Locate, Route, Append, AppendAll, Covers, Enumerating, LoopState, IsSourceStem, Ready, OnlyCopies, Mirrored,
         WellFormed, JobOk, Front, Outcome;
    ghost var names: seq<string> := [];
    success := true;
    var info, current := first, from;
    StartLoop(j, traversal.Left(disk.tree), first, disk.faulty);
    while success && current != ""
      invariant Enumerating(disk, traversal, j) && j.cwd == disk.cwd
      invariant LoopState(j, disk.tree, traversal.Left(disk.tree), current, info, names, success, disk.faulty)
      invariant current != "" && names == [] ==> disk.tree == j.t0
      decreases traversal.Left(disk.tree) + Hand(disk.cwd, current)
    {
      success, current, info, names := CopyAndAdvance(disk, traversal, fromBase, to, current, info, j, names);
    }
    FinishLoop(j, disk.tree, traversal.Left(disk.tree), current, info, names, success, disk.faulty);
  }

  // ------------------------------------------------------------ the checks

  /** The path whose real path is compared with the source's. */
  function CheckedPath(t: Tree, cwd: Loc, to: string): string {
    if Answers(t, cwd, to) then to else DirName(to)
  }

  /** A source and a target that CopyDirectory does not turn away. */
  predicate Admitted(t: Tree, cwd: Loc, from: string, to: string) {
    var r := CheckedPath(t, cwd, to);
    && |from| < PATH_MAX && Answers(t, cwd, from) && Answers(t, cwd, r)
    && !(Render(Locate(cwd, from)) <= Render(Locate(cwd, r)))
  }

  /** The same in terms of the places. */
  lemma {:induction false} AdmittedExactly(t: Tree, cwd: Loc, from: string, to: string)
    requires WellFormed(t) && cwd in t
    ensures var r := if Answers(t, cwd, to) then to else DirName(to);
            var x, l := Locate(cwd, from), Locate(cwd, r);
            Admitted(t, cwd, from, to) <==>
              && |from| < 4096 && Answers(t, cwd, from) && Answers(t, cwd, r) && x != []
              && !(|x| <= |l| && Parent(x) <= l && x[|x|-1] <= l[|x|-1])
  {
    hide Locate, Route, DirName, Render, Answers, IsName;
    var r := CheckedPath(t, cwd, to);
    PlacesHaveNames(t, cwd);
    LocateHasNames(cwd, from);
    LocateHasNames(cwd, r);
    TurnedAwayExactly(Locate(cwd, from), Locate(cwd, r));
  }

  /** What is left to the caller: a source below a directory target passes the checks on
      its suffix; a target above the source takes nothing into it, where the checks would
      let it; and there are no links or special files to write through. */
  ghost predicate Suited(t: Tree, cwd: Loc, from: string, to: string, recursive: bool, into: bool) {
    var x, r, y := Locate(cwd, from), CheckedPath(t, cwd, to), Locate(cwd, to) + TopNames(from, into);
    && (into ==> Pastes(from, to) && (IsDeep(from) ==> IsName(BaseName(from))))
    && (y < x && Admitted(t, cwd, from, to) ==> !Reenters(t, x, y, recursive))
    && (forall z :: z in t && IsCopy(t, x, y, Covers(t, x, recursive), z) ==> IsCopied(t[z]))
    && (x in t ==> !t[x].Link?) && (Answers(t, cwd, r) ==> !t[Locate(cwd, r)].Link?)
  }

  /** Whether the target takes in the source's top level; a faulty disk may not tell. */
  predicate MayTakeIn(t: Tree, cwd: Loc, to: string, recursive: bool, faulty: bool, into: bool) {
    if recursive && Opens(t, cwd, to) then into || faulty else !into
  }

  lemma {:induction false} CheckedPlace(t: Tree, cwd: Loc, to: string, x: Loc)
    requires WellFormed(t) && x <= Locate(cwd, to) && x != Locate(cwd, to)
    ensures x <= Locate(cwd, CheckedPath(t, cwd, to))
  {
    hide Locate, DirName, Answers, Pieces;
    if Pieces(to) != [] {
      DirNameCovers(cwd, to, x);
    } else if to == "" {
      DirNameFixedPoints(to);
      EmptyDirName();
      LocateNothing(cwd, "");
      LocateNothing(cwd, CURRENT);
    } else {
      RootPlace(cwd, to);
    }
  }

  lemma {:induction false} EmptyDirName()
    ensures DirName("") == CURRENT
  {}

  lemma {:induction false} RootPlace(cwd: Loc, to: string)
    requires Pieces(to) == [] && to != ""
    ensures Locate(cwd, to) == []
  {
    if !IsAbsolute(to) { RelativeHasPiece(to); }
  }

  /** What the checks let through takes no copy into the source exactly unless its target
      lies at or above the source and there is something to copy where it would go. */
  lemma {:induction false} AdmittedIsApart(t: Tree, cwd: Loc, from: string, to: string, recursive: bool, into: bool)
    requires WellFormed(t) && Admitted(t, cwd, from, to) && (into ==> Opens(t, cwd, to))
    ensures var x, y := Locate(cwd, from), Locate(cwd, to) + TopNames(from, into);
            StaysOut(t, x, y, Covers(t, x, recursive)) <==> !(y <= x && Reenters(t, x, y, recursive))
  {
    hide Locate, Route, DirName, BaseName, Render, IsName, Opens, StaysOut, Covers, Reenters, IsDeep;
    var x, l, top := Locate(cwd, from), Locate(cwd, to), TopNames(from, into);
    OpensExactly(t, cwd, to);
    if l + top <= x {
      StaysOutExactly(t, x, l + top, recursive);
    } else if x <= l + top {
      assert x != l + top;
      assert top == [] ==> l + top == l;
      if top != [] || Answers(t, cwd, to) {
        assert x <= l;
        RenderPrefix(x, l);
      } else {
        CheckedPlace(t, cwd, to, x);
        RenderPrefix(x, Locate(cwd, CheckedPath(t, cwd, to)));
      }
    } else {
      UnrelatedStaysOut(t, x, l + top, Covers(t, x, recursive));
    }
  }

  /** realpath; where a link leads is not known. */
  method AbsolutePath(disk: Disk, path: string) returns (ok: bool, absolute: string)
    ensures ok ==> Answers(disk.tree, disk.cwd, path)
    ensures ok && !disk.tree[Locate(disk.cwd, path)].Link? ==> absolute == Render(Locate(disk.cwd, path))
    ensures !ok ==> disk.faulty || !Answers(disk.tree, disk.cwd, path)
  {
    var refused := disk.Refuses();
    ok := Answers(disk.tree, disk.cwd, path) && !refused;
    absolute := *;
    if ok && !disk.tree[Locate(disk.cwd, path)].Link? { absolute := Render(Locate(disk.cwd, path)); }
  }

  /** The checks in front of the copy: both ends exist, and the target's real path does
      not start with the source's. */
  method CheckPaths(disk: Disk, from: string, to: string) returns (ok: bool)
    requires var t, r := disk.tree, CheckedPath(disk.tree, disk.cwd, to);
             && (Locate(disk.cwd, from) in t ==> !t[Locate(disk.cwd, from)].Link?)
             && (Answers(t, disk.cwd, r) ==> !t[Locate(disk.cwd, r)].Link?)
    ensures ok ==> Admitted(disk.tree, disk.cwd, from, to)
    ensures !disk.faulty ==> (ok <==> Admitted(disk.tree, disk.cwd, from, to))
  {
    hide Locate, Route, DirName, Render;
    if |from| >= PATH_MAX { return false; }
    var present := Answers(disk.tree, disk.cwd, to);
    var found, realTo := AbsolutePath(disk, if present then to else DirName(to));
    if !found { return false; }
    var fromFound, realFrom := AbsolutePath(disk, from);
    if !fromFound || realFrom <= realTo { return false; }
    ok := true;
  }

  lemma {:induction false} TargetHasNames(t: Tree, cwd: Loc, to: string, top: seq<string>)
    requires WellFormed(t) && cwd in t && AllNames(top)
    ensures AllNames(Locate(cwd, to) + top)
  {
    hide Locate, IsName;
    PlacesHaveNames(t, cwd);
    LocateHasNames(cwd, to);
  }

  lemma {:induction false} AdmittedIsOk(j: Job)
    requires WellFormed(j.t0) && j.cwd in j.t0 && IsSourceStem(j.from) && (j.into ==> Opens(j.t0, j.cwd, j.to))
    requires Admitted(j.t0, j.cwd, j.from, j.to) && Suited(j.t0, j.cwd, j.from, j.to, j.recursive, j.into)
    ensures JobOk(j)
  {
    hide Locate, Route, DirName, BaseName, Render, Pastes, IsName, Opens, IsSourceStem, WellFormed, StaysOut, Reenters;
    AdmittedIsApart(j.t0, j.cwd, j.from, j.to, j.recursive, j.into);
    TargetHasNames(j.t0, j.cwd, j.to, TopNames(j.from, j.into));
    assert j.Target() <= j.Source() ==> j.Target() < j.Source() || j.Target() == j.Source();
  }

  lemma {:induction false} DueIsAll(j: Job)
    requires JobOk(j)
    ensures Due(j.t0, j.cwd, j.from, j.recursive, FileType(true, j.recursive)) == j.All() - {j.Source()}
  {
    hide Locate, Route;
    assert Opens(j.t0, j.cwd, j.from) <==> IsDirectory(j.t0, j.Source()) by { SourceNotEmpty(j.from); }
    forall z | z in j.t0 && j.Source() < z ensures IsDirectory(j.t0, j.Source()) {
      PrefixesExist(j.t0, z, j.Source());
    }
  }

  /** CopyDirectory. Nothing but the places of copies is touched, and nothing there goes
      away or becomes another kind of thing. When no call fails for outside reasons, the
      tree ends as the mirror of all directories and regular files that the enumeration
      covers, and the answer is true, exactly if the paths are admitted, the top can be
      put in place and the target fits; and a target that fits, as a missing one does,
      is left unchanged otherwise. */
  method CopyDirectory(disk: Disk, from: string, to: string, recursive: bool) returns (ok: bool)
    requires WellFormed(disk.tree) && disk.cwd in disk.tree && disk.tree[disk.cwd] == Directory && IsSourceStem(from)
    requires forall into :: MayTakeIn(disk.tree, disk.cwd, to, recursive, disk.faulty, into) ==>
               Suited(disk.tree, disk.cwd, from, to, recursive, into)
    modifies disk`tree
    ensures WellFormed(disk.tree) && KeepsKinds(old(disk.tree), disk.tree)
    ensures exists into :: MayTakeIn(old(disk.tree), disk.cwd, to, recursive, disk.faulty, into) &&
                           Job(old(disk.tree), disk.cwd, from, to, recursive, into).OnlyCopies(disk.tree)
    ensures var t0 := old(disk.tree);
            var j := Job(t0, disk.cwd, from, to, recursive, recursive && Opens(t0, disk.cwd, to));
            var done := Mirrored(t0, disk.tree, j.Source(), j.Target(), j.All());
            var may := Admitted(t0, disk.cwd, from, to) && j.Source() in t0 && Ready(j);
            !disk.faulty ==>
              && j.OnlyCopies(disk.tree)
              && (ok && done <==> may && j.Fits())
              && (j.Fits() ==> (ok <==> may) && (!ok ==> disk.tree == t0))
  {
    hide Locate, Route, Good, Render, DirName, IsSourceStem, Mirrored, JobOk, Ready, Suited, Opens, Compatible, Covers,
         Admitted, Due, Outcome, Answers, Remaining, WellFormed, KeepsKinds, OnlyCopies;
    ghost var t0 := disk.tree;
    ghost var j := Job(t0, disk.cwd, from, to, recursive, recursive && Opens(t0, disk.cwd, to));
    assert MayTakeIn(t0, disk.cwd, to, recursive, disk.faulty, j.into);
    NoLinksToCheck(t0, disk.cwd, from, to, recursive, j.into);
    NothingHappened(j);
    ok := CheckPaths(disk, from, to);
    if !ok { return false; }
    var traversal := new FileEnumerator(from, recursive, FileType(true, recursive), disk.cwd, disk.tree);
    var first := disk.Stat(from);
    var toInfo := disk.Stat(to);
    OpensExactly(t0, disk.cwd, to);
    var into := recursive && toInfo == Found(Directory);
    var fromBase := if into then DirName(from) else from;
    AdmittedExists(t0, disk.cwd, from, to);
    if !first.Found? {
      return false;
    }
    j := Job(t0, disk.cwd, from, to, recursive, into);
    assert MayTakeIn(t0, disk.cwd, to, recursive, disk.faulty, into);
    SourceIsSeen(t0, disk.cwd, from, to, recursive, into);
    AdmittedIsOk(j);
    DueIsAll(j);
    ok := CopyTree(disk, traversal, fromBase, from, to, first.node, j);
    Result(j, disk.tree, ok, disk.faulty);
  }

  /** The checks let a source be copied into the directory that it lies in. It is its own
      target then, which fits. */
  lemma {:induction false} OntoItselfIsAdmitted(t: Tree, cwd: Loc, from: string, to: string)
    requires Opens(t, cwd, to) && Answers(t, cwd, from) && |from| < PATH_MAX && IsDeep(from)
    requires IsName(BaseName(from)) && Locate(cwd, from) == Locate(cwd, to) + [BaseName(from)]
    ensures var j := Job(t, cwd, from, to, true, true);
            Admitted(t, cwd, from, to) && j.Target() == j.Source() && j.Source() in t && Ready(j) && j.Fits()
  {
    hide Locate, Route, BaseName, DirName;
    OpensExactly(t, cwd, to);
    OpenWay(t, cwd, to);
    var l := Locate(cwd, to);
    SlashedConcat(l, [BaseName(from)]);
    assert |Slashed([BaseName(from)])| >= 2;
    SelfFits(t, Locate(cwd, from), Covers(t, Locate(cwd, from), true));
  }

  lemma {:induction false} SelfFits(t: Tree, x: Loc, all: set<Loc>)
    ensures Compatible(t, x, x, all)
  {
    forall z | z in t && IsCopy(t, x, x, all, z) ensures SameKind(t[Original(x, x, z)], t[z]) {
      assert Original(x, x, z) == z;
    }
  }

  /** A tree mirrored onto itself has lost what was in its regular files. */
  lemma {:induction false} OntoItselfEmpties(t0: Tree, t: Tree, x: Loc)
    requires WellFormed(t0) && x in t0 && Mirrored(t0, t, x, x, Covers(t0, x, true))
    ensures t == map z | z in t0 :: if x <= z && t0[z].Regular? then EMPTY else t0[z]
  {
    var all := Covers(t0, x, true);
    forall z
      ensures z in t <==> z in t0
      ensures z in t0 ==> t[z] == if x <= z && t0[z].Regular? then EMPTY else t0[z]
    {
      if x <= z {
        assert Original(x, x, z) == z;
        assert z in all <==> z in t0 by { if |z| == |x| { assert z == x; } }
      }
    }
    assert t.Keys == t0.Keys;
  }

  /** So a file copied into its own directory is empty afterwards, and the answer is true. */
  method CopyFileIntoItsDirectory(disk: Disk, from: string, to: string) returns (ok: bool)
    requires WellFormed(disk.tree) && disk.cwd in disk.tree && disk.tree[disk.cwd] == Directory && !disk.faulty
    requires IsSourceStem(from) && Pastes(from, to) && IsDeep(from) && IsName(BaseName(from)) && |from| < PATH_MAX
    requires Opens(disk.tree, disk.cwd, to) && Exists(disk.tree, disk.cwd, from)
    requires disk.tree[Locate(disk.cwd, from)].Regular?
    requires Locate(disk.cwd, from) == Locate(disk.cwd, to) + [BaseName(from)]
    modifies disk`tree
    ensures ok && disk.tree == old(disk.tree)[Locate(disk.cwd, from) := EMPTY]
  {
    hide Locate, Route, BaseName, DirName, IsSourceStem, Pastes, IsDeep, Opens, Mirrored, Compatible, Covers, Admitted,
         Ready, Suited, WellFormed;
    ghost var t0, x := disk.tree, Locate(disk.cwd, from);
    OntoItselfIsAdmitted(t0, disk.cwd, from, to);
    OntoItselfIsSuited(t0, disk.cwd, from, to);
    ok := CopyDirectory(disk, from, to, true);
    OntoItselfEmpties(t0, disk.tree, x);
    NothingBelowFile(t0, x);
  }

  lemma {:induction false} OntoItselfIsSuited(t: Tree, cwd: Loc, from: string, to: string)
    requires WellFormed(t) && Pastes(from, to) && IsDeep(from) && IsName(BaseName(from)) && Opens(t, cwd, to)
    requires Locate(cwd, from) in t && t[Locate(cwd, from)].Regular?
    requires Locate(cwd, from) == Locate(cwd, to) + [BaseName(from)]
    ensures Suited(t, cwd, from, to, true, true)
  {
    hide Locate, Route, BaseName, DirName, Pastes, IsDeep, Opens, WellFormed, Admitted, Reenters;
    var x := Locate(cwd, from);
    OpensExactly(t, cwd, to);
    forall z | z in t && IsCopy(t, x, x, Covers(t, x, true), z) ensures IsCopied(t[z]) {
      assert Original(x, x, z) == z;
    }
  }

  lemma {:induction false} NothingBelowFile(t: Tree, x: Loc)
    requires WellFormed(t) && x in t && t[x].Regular?
    ensures (map z | z in t :: if x <= z && t[z].Regular? then EMPTY else t[z]) == t[x := EMPTY]
  {
    forall z | z in t && x <= z ensures z == x {
      if x < z { PrefixesExist(t, z, x); }
    }
  }

  lemma {:induction false} NoLinksToCheck(t: Tree, cwd: Loc, from: string, to: string, recursive: bool, into: bool)
    requires Suited(t, cwd, from, to, recursive, into)
    ensures var r := CheckedPath(t, cwd, to);
            && (Locate(cwd, from) in t ==> !t[Locate(cwd, from)].Link?)
            && (Answers(t, cwd, r) ==> Locate(cwd, r) in t && !t[Locate(cwd, r)].Link?)
  {
    hide Locate, Route, DirName, BaseName, Pastes;
  }

  lemma {:induction false} SourceIsSeen(t: Tree, cwd: Loc, from: string, to: string, recursive: bool, into: bool)
    requires Suited(t, cwd, from, to, recursive, into)
    ensures Locate(cwd, from) in t ==> !t[Locate(cwd, from)].Link?
  {
    hide Locate, Route, DirName, BaseName, Pastes;
  }

  lemma {:induction false} AdmittedExists(t: Tree, cwd: Loc, from: string, to: string)
    requires Admitted(t, cwd, from, to)
    ensures Answers(t, cwd, from) && Locate(cwd, from) in t
  {
    hide Locate, Route, DirName;
  }

  lemma {:induction false} NothingHappened(j: Job)
    ensures j.OnlyCopies(j.t0) && KeepsKinds(j.t0, j.t0)
  {}

  lemma {:induction false} Result(j: Job, t: Tree, ok: bool, faulty: bool)
    requires Outcome(j, t, ok, faulty)
    ensures WellFormed(t) && j.OnlyCopies(t) && KeepsKinds(j.t0, t) && j.Source() in j.t0
    ensures !faulty ==>
              && (ok && Mirrored(j.t0, t, j.Source(), j.Target(), j.All()) <==> Ready(j) && j.Fits())
              && (j.Fits() ==> (ok <==> Ready(j)) && (!ok ==> t == j.t0))
  {
    hide Locate, Route, Mirrored, Compatible, Ready, Covers, BaseName, KeepsKinds;
    if Mirrored(j.t0, t, j.Source(), j.Target(), j.All()) {
      MirroredIsCompatible(j.t0, t, j.Source(), j.Target(), j.All());
    }
  }
}
