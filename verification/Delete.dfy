/** Delete as the source writes it. */
module Delete {
  import opened FilePath
  import opened FileSystem
  import opened Enumeration
  import opened Enumerator
  import opened Deletion
  import PathComponents

  const EVERYTHING := FileType(true, true)

  /** The entry that Next has just delivered and the loop has not dealt with yet. */
  ghost function Hand(cwd: Loc, current: string): set<Loc> {
    if current == "" then {} else {Locate(cwd, current)}
  }

  ghost predicate InHand(disk: Disk, traversal: FileEnumerator, x: Loc, current: string)
    reads disk, traversal
  {
    var y := Locate(disk.cwd, current);
    if current == "" then traversal.Left(disk.tree) == {}
    else
      && y in disk.tree && x <= y && StackedPath(disk.cwd, traversal.setup.first, current) && !EndsInSeparator(current)
      && traversal.currentDirectoryEntry < |traversal.directoryEntries|
      && traversal.directoryEntries[traversal.currentDirectoryEntry].node == disk.tree[y]
      && y !in traversal.Left(disk.tree) && NoneAbove(traversal.Left(disk.tree), y)
  }

  ghost predicate Enumerating(disk: Disk, traversal: FileEnumerator, path: string)
    reads disk, traversal
  {
    && WellFormed(disk.tree) && traversal.Valid(disk.tree) && Opens(disk.tree, disk.cwd, path)
    && traversal.setup.cwd == disk.cwd && traversal.setup.first == path
    && traversal.setup.start == Locate(disk.cwd, path)
  }

  /** Asks the traversal for another entry. */
  method Advance(disk: Disk, traversal: FileEnumerator, ghost path: string, ghost t0: Tree, ghost ds: seq<Loc>,
                 ghost faulty: bool)
    returns (current: string)
    requires Enumerating(disk, traversal, path)
    requires disk.faulty ==> faulty
    requires Traversing(t0, disk.tree, traversal.setup.start, ds, traversal.Left(disk.tree), {}, faulty)
    modifies traversal
    ensures Enumerating(disk, traversal, path) && InHand(disk, traversal, traversal.setup.start, current)
    ensures Traversing(t0, disk.tree, traversal.setup.start, ds, traversal.Left(disk.tree),
                       Hand(disk.cwd, current), faulty)
    ensures traversal.Left(disk.tree) + Hand(disk.cwd, current) <= old(traversal.Left(disk.tree))
  {
    hide Locate, Append, StackOk, Accounted, OnlyLost, WellFormed, Good, NoneAbove, RemovablePath, Opens,
         EndsInSeparator;
    ghost var t := disk.tree;
    ghost var left := traversal.Left(t);
    current := traversal.Next(disk);
    if current == "" {
      LastEntryDelivered(t0, t, traversal.setup.start, ds, left, disk.faulty, faulty);
    } else {
      AppendedIsRemovable(disk.cwd, traversal.rootPath,
                          traversal.directoryEntries[traversal.currentDirectoryEntry].name);
      AppendedHasNoSeparator(traversal.rootPath, traversal.directoryEntries[traversal.currentDirectoryEntry].name);
      TakeInHand(t0, t, traversal.setup.start, ds, left, traversal.Left(t), Locate(disk.cwd, current), faulty);
    }
  }

  lemma {:induction false} LastEntryDelivered(t0: Tree, t: Tree, x: Loc, ds: seq<Loc>, left: set<Loc>,
                                              broken: bool, faulty: bool)
    requires Traversing(t0, t, x, ds, left, {}, faulty) && (broken ==> faulty) && (broken || left == {})
    ensures Traversing(t0, t, x, ds, {}, {}, faulty)
  {}

  /** One round of the traversal loop: stacks a directory, unlinks anything else. */
  method Process(disk: Disk, traversal: FileEnumerator, current: string, directories: seq<string>, ghost path: string,
                 ghost t0: Tree)
    returns (success: bool, stacked: seq<string>)
    requires Enumerating(disk, traversal, path) && current != "" && path != "" && directories != []
    requires InHand(disk, traversal, traversal.setup.start, current) && PathsOk(disk.cwd, path, directories)
    requires Traversing(t0, disk.tree, traversal.setup.start, Locs(disk.cwd, directories),
                        traversal.Left(disk.tree), Hand(disk.cwd, current), disk.faulty)
    modifies disk`tree
    ensures Enumerating(disk, traversal, path) && traversal.Left(disk.tree) == old(traversal.Left(disk.tree))
    ensures directories <= stacked && PathsOk(disk.cwd, path, stacked)
    ensures Traversing(t0, disk.tree, traversal.setup.start, Locs(disk.cwd, stacked),
                       traversal.Left(disk.tree), {}, disk.faulty || !success)
    ensures !disk.faulty ==> success
  {
    hide Locate, Route, StackOk, Accounted, OnlyLost, WellFormed, Good, Remaining, NoneAbove, RemovablePath, Opens,
         EndsInSeparator, StackedPath, Exists;
    ghost var x, y, t, ds := traversal.setup.start, Locate(disk.cwd, current), disk.tree, Locs(disk.cwd, directories);
    ghost var left := traversal.Left(t);
    success, stacked := true, directories;
    OpenWay(t, disk.cwd, path);
    EntryExists(t, disk.cwd, path, current);
    var info := traversal.GetFindInfo(Special);
    if info == Directory {
      stacked := stacked + [current];
      PushFromHand(t0, t, x, ds, left, y, disk.faulty);
      assert Locs(disk.cwd, stacked) == ds + [y];
    } else {
      success := disk.Unlink(current);
      if success {
        UnlinkFromHand(t0, t, x, ds, left, y, disk.faulty);
        UnlinkKeepsGood(traversal.setup, t, traversal.View(), traversal.currentDirectoryEntry + 1, y);
        UnlinkKeepsOpens(t, y, disk.cwd, path);
      } else {
        GiveUp(t0, t, x, ds, left, {y}, disk.faulty);
      }
    }
  }

  /** After a failure only the safety half of the invariant is kept. */
  lemma {:induction false} GiveUp(t0: Tree, t: Tree, x: Loc, ds: seq<Loc>, left: set<Loc>, hand: set<Loc>, faulty: bool)
    requires Traversing(t0, t, x, ds, left, hand, faulty)
    ensures forall left', hand' :: Traversing(t0, t, x, ds, left', hand', true)
  {}

  /** The first loop: unlinks the files below path and stacks the directories. */
  method Traverse(disk: Disk, path: string) returns (success: bool, directories: seq<string>)
    requires WellFormed(disk.tree) && Opens(disk.tree, disk.cwd, path)
    modifies disk`tree
    ensures directories != [] && directories[0] == path && PathsOk(disk.cwd, path, directories)
    ensures Opens(disk.tree, disk.cwd, path)
    ensures Traversing(old(disk.tree), disk.tree, Locate(disk.cwd, path), Locs(disk.cwd, directories), {}, {},
                       disk.faulty || !success)
    ensures !disk.faulty ==> success
  {
    hide Locate, Route, StackOk, Accounted, OnlyLost, WellFormed, Good, NoneAbove, RemovablePath, StackedPath;
    ghost var x, t0 := Locate(disk.cwd, path), disk.tree;
    success := true;
    directories := [path];
    OpensExactly(t0, disk.cwd, path);
    var traversal := new FileEnumerator(path, true, EVERYTHING, disk.cwd, disk.tree);
    StartTraversal(t0, x, traversal.Left(t0), disk.faulty);
    assert Locs(disk.cwd, directories) == [x];
    var current := Advance(disk, traversal, path, t0, [x], disk.faulty);
    while success && current != ""
      invariant fresh(traversal) && Enumerating(disk, traversal, path) && InHand(disk, traversal, x, current)
      invariant directories != [] && directories[0] == path && PathsOk(disk.cwd, path, directories)
      invariant Traversing(t0, disk.tree, x, Locs(disk.cwd, directories), traversal.Left(disk.tree),
                           Hand(disk.cwd, current), disk.faulty || !success)
      invariant !disk.faulty ==> success
      decreases traversal.Left(disk.tree) + Hand(disk.cwd, current)
    {
      ghost var left := traversal.Left(disk.tree);
      success, directories := Process(disk, traversal, current, directories, path, t0);
      current := Advance(disk, traversal, path, t0, Locs(disk.cwd, directories), disk.faulty || !success);
      assert traversal.Left(disk.tree) + Hand(disk.cwd, current) <= left;
    }
    if !success {
      GiveUp(t0, disk.tree, x, Locs(disk.cwd, directories), traversal.Left(disk.tree), Hand(disk.cwd, current), true);
    }
  }

  lemma {:induction false} StartTraversal(t0: Tree, x: Loc, left: set<Loc>, faulty: bool)
    requires WellFormed(t0) && x in t0 && t0[x] == Directory && left == set y | y in t0 && x < y
    ensures Traversing(t0, t0, x, [x], left, {}, faulty)
  {
    assert left + {} == left;
    forall y | y in t0 && x <= y ensures y in [x] || y in left {
      if |y| == |x| { assert x == y; }
    }
  }

  /** While popping: the directory tree shrinks from below, path's own node goes last. */
  ghost predicate Popping(t0: Tree, t: Tree, x: Loc, ds: seq<Loc>, faulty: bool) {
    && WellFormed(t) && OnlyLost(t0, t, x) && AllBelow(x, ds) && (ds == [] ==> x !in t) && (ds != [] ==> ds[0] == x)
    && (!faulty ==> StackOk(t, x, ds, {}) && Accounted(t, x, ds, {}, {}))
  }

  lemma {:induction false} PopOne(t0: Tree, t: Tree, x: Loc, ds: seq<Loc>, faulty: bool)
    requires Popping(t0, t, x, ds, faulty) && ds != []
    requires var d := ds[|ds|-1]; d in t && d != [] && IsEmpty(t, d)
    ensures Popping(t0, t - {ds[|ds|-1]}, x, ds[..|ds|-1], faulty)
  {
    var d := ds[|ds|-1];
    assert d in ds;
    RmdirKeepsWellFormed(t, d);
    UnlinkKeepsLost(t0, t, x, d);
    var rest := ds[..|ds|-1];
    assert AllBelow(x, rest) by {
      assert forall e :: e in rest ==> e in ds;
    }
    if !faulty { PopKeepsStack(t, x, ds); }
  }

  lemma {:induction false} StartPopping(t0: Tree, t: Tree, x: Loc, ds: seq<Loc>, faulty: bool)
    requires Traversing(t0, t, x, ds, {}, {}, faulty) && ds != [] && ds[0] == x
    ensures Popping(t0, t, x, ds, faulty)
  {
    var none: set<Loc> := {};
    assert none + none == none;
  }

  lemma {:induction false} TopCanGo(t: Tree, cwd: Loc, path: string, paths: seq<string>)
    requires paths != [] && WellFormed(t) && WayOpen(t, cwd, path) && PathsOk(cwd, path, paths) && path != ""
    requires var x := Locate(cwd, path);
             StackOk(t, x, Locs(cwd, paths), {}) && Accounted(t, x, Locs(cwd, paths), {}, {})
    requires RemovablePath(cwd, path)
    ensures CanRemove(t, cwd, paths[|paths|-1])
  {
    hide Locate, Route, RemovablePath, WayOpen, Opens;
    TopIsEmpty(t, Locate(cwd, path), Locs(cwd, paths));
    assert Locs(cwd, paths)[|paths|-1] in Locs(cwd, paths);
    StackedOpens(t, cwd, path, paths[|paths|-1]);
  }

  /** The stacked directories other than path's own lie strictly below it. */
  lemma {:induction false} TopIsBelow(t: Tree, x: Loc, ds: seq<Loc>)
    requires |ds| > 1 && ds[0] == x && StackOk(t, x, ds, {})
    ensures x < ds[|ds|-1]
  {
    assert ds[|ds|-1] in ds && ds[|ds|-1] != ds[0];
  }

  /** The second loop: removes the stacked directories, deepest first. */
  method RemoveDirectories(disk: Disk, path: string, directories: seq<string>, ghost t0: Tree)
    returns (success: bool)
    requires directories != [] && directories[0] == path && PathsOk(disk.cwd, path, directories)
    requires Opens(disk.tree, disk.cwd, path)
    requires Popping(t0, disk.tree, Locate(disk.cwd, path), Locs(disk.cwd, directories), disk.faulty)
    modifies disk`tree
    ensures WellFormed(disk.tree) && OnlyLost(t0, disk.tree, Locate(disk.cwd, path))
    ensures success ==> Locate(disk.cwd, path) !in disk.tree
    ensures !disk.faulty ==> (success <==> RemovablePath(disk.cwd, path) && NoDetour(disk.cwd, path))
  {
    hide Locate, Route, StackOk, Accounted, OnlyLost, WellFormed, RemovablePath, NoDetour, WayOpen, StackedPath,
         IsEmpty;
    ghost var x, good := Locate(disk.cwd, path), RemovablePath(disk.cwd, path) && NoDetour(disk.cwd, path);
    success := true;
    var stack := directories;
    OpenWay(disk.tree, disk.cwd, path);
    while success && stack != []
      invariant stack <= directories
      invariant success ==> Popping(t0, disk.tree, x, Locs(disk.cwd, stack), disk.faulty)
      invariant WellFormed(disk.tree) && OnlyLost(t0, disk.tree, x)
      invariant !disk.faulty && good && success && stack != [] ==> WayOpen(disk.tree, disk.cwd, path)
      invariant !disk.faulty && !success ==> !good
      invariant stack == [] && success ==> good
      decreases |stack|
    {
      ghost var t, ds := disk.tree, Locs(disk.cwd, stack);
      var dir := stack[|stack|-1];
      assert PathsOk(disk.cwd, path, stack);
      if !disk.faulty && good { TopCanGo(t, disk.cwd, path, stack); }
      stack := stack[..|stack|-1];
      assert Locs(disk.cwd, stack) == ds[..|ds|-1];
      success := disk.Rmdir(dir);
      if success {
        RemovedWasRemovable(t, disk.cwd, dir);
        RemovalHasNoDetour(t, disk.cwd, dir);
        PopOne(t0, t, x, ds, disk.faulty);
        if !disk.faulty && good && stack != [] {
          TopIsBelow(t, x, ds);
          RmdirKeepsWay(t, disk.cwd, path, Locate(disk.cwd, dir));
        }
      }
    }
  }

  lemma {:induction false} RemovedWasRemovable(t: Tree, cwd: Loc, path: string)
    requires CanRemove(t, cwd, path)
    ensures RemovablePath(cwd, path) && Locate(cwd, path) != [] && Opens(t, cwd, path)
    ensures IsDirectory(t, Locate(cwd, path)) && IsEmpty(t, Locate(cwd, path))
  {
    hide Locate, Route;
    OpensExactly(t, cwd, path);
  }

  /** Delete. It never touches anything that is not at or below path. A true answer means
      that nothing at or below path is left if path leads to something, and that nothing
      was done if it does not; and when unlink and rmdir fail for their stated reasons
      only, the answer is true exactly if path is deletable. */
  method Delete(disk: Disk, path: string, recursive: bool) returns (ok: bool)
    requires WellFormed(disk.tree)
    modifies disk`tree
    ensures WellFormed(disk.tree) && OnlyLost(old(disk.tree), disk.tree, Locate(disk.cwd, path))
    ensures ok ==> disk.tree == AfterDelete(old(disk.tree), disk.cwd, path)
    ensures !disk.faulty ==> (ok <==> Deletable(old(disk.tree), disk.cwd, path, recursive))
  {
    hide Locate, Route, StackOk, Accounted, Good, Remaining, RemovablePath, NoDetour, IsEmpty, PathsOk, WayOpen,
         EndsInSeparator, WellFormed, OnlyLost, Without, Popping, Traversing;
    ghost var t0, x := disk.tree, Locate(disk.cwd, path);
    NothingLost(t0, x);
    OpensExactly(t0, disk.cwd, path);
    var info := disk.Stat(path);
    match info
    case Missing =>
      return true;
    case Unreadable =>
      return false;
    case Found(node) =>
      if node != Directory {
        ok := disk.Unlink(path);
        if ok { UnlinkKeepsWellFormed(t0, x); UnlinkKeepsLost(t0, t0, x, x); LostAll(t0, disk.tree, x); }
      } else if !recursive {
        ok := disk.Rmdir(path);
        if ok {
          RemovedWasRemovable(t0, disk.cwd, path);
          RmdirKeepsWellFormed(t0, x);
          UnlinkKeepsLost(t0, t0, x, x);
          LostAll(t0, disk.tree, x);
        }
      } else {
        var success, directories := Traverse(disk, path);
        ok := false;
        TraversalSafe(t0, disk.tree, x, Locs(disk.cwd, directories), disk.faulty || !success);
        if success {
          StartPopping(t0, disk.tree, x, Locs(disk.cwd, directories), disk.faulty);
          ok := RemoveDirectories(disk, path, directories, t0);
          if ok { LostAll(t0, disk.tree, x); }
        }
      }
  }

  lemma {:induction false} NothingLost(t: Tree, x: Loc)
    ensures OnlyLost(t, t, x)
  {}

  lemma {:induction false} TraversalSafe(t0: Tree, t: Tree, x: Loc, ds: seq<Loc>, faulty: bool)
    requires Traversing(t0, t, x, ds, {}, {}, faulty)
    ensures WellFormed(t) && OnlyLost(t0, t, x)
  {}

  ghost predicate Deletable(t: Tree, cwd: Loc, path: string, recursive: bool) {
    || !Answers(t, cwd, path) || t[Locate(cwd, path)] != Directory
    || (if recursive then RemovablePath(cwd, path) && NoDetour(cwd, path) else CanRemove(t, cwd, path))
  }

  /** What a true answer leaves. */
  function AfterDelete(t: Tree, cwd: Loc, path: string): Tree {
    if Answers(t, cwd, path) then Without(t, Locate(cwd, path)) else t
  }

  /** The two in terms of the tree: what is below the path goes with it, and without
      recursion there must be nothing below it. */
  lemma {:induction false} DeleteMeans(t: Tree, cwd: Loc, path: string, recursive: bool)
    ensures var x := Locate(cwd, path);
            forall y :: && (y in AfterDelete(t, cwd, path) <==> y in t && !(Answers(t, cwd, path) && x <= y))
                        && (y in AfterDelete(t, cwd, path) ==> AfterDelete(t, cwd, path)[y] == t[y])
    ensures Answers(t, cwd, path) && t[Locate(cwd, path)] == Directory ==>
              var x, ps := Locate(cwd, path), PathComponents.Pieces(path);
              Deletable(t, cwd, path, recursive) <==>
                && x != [] && ps != [] && ps[|ps|-1] != "." && ps[|ps|-1] != ".."
                && (if recursive then forall v :: v in Route(cwd, path) ==> !(x < v)
                    else forall y :: y in t ==> !(x < y))
  {
    hide Locate, Route, PathComponents.Pieces;
    OpensExactly(t, cwd, path);
  }

  // ------------------------------------------- true, and still there

  /** A true answer leaves the node that the path spells in place exactly if the path
      leads to it through something that is no directory, or carries a separator behind
      it and it is none, or it is a link that leads nowhere. */
  lemma {:induction false} StillThere(t: Tree, cwd: Loc, path: string)
    requires path != ""
    ensures var x := Locate(cwd, path);
            x in AfterDelete(t, cwd, path) <==>
            && x in t
            && (|| (exists v :: v in Route(cwd, path) && !IsDirectory(t, v))
                || (EndsInSeparator(path) && t[x] != Directory)
                || t[x] == Link(true))
  {
    hide Locate, Route;
  }

  /** In particular "f/" and "f/." leave anything that is no directory in place, and both
      answers are true on a disk that refuses nothing. */
  lemma {:induction false} DecoratedSparesFile(t: Tree, cwd: Loc, path: string, recursive: bool)
    requires Exists(t, cwd, path) && t[Locate(cwd, path)] != Directory && path[|path|-1] != SEPARATOR
    ensures forall p :: p == path + "/" || p == path + "/." ==>
              && Locate(cwd, p) == Locate(cwd, path) && Deletable(t, cwd, p, recursive)
              && Locate(cwd, path) in AfterDelete(t, cwd, p)
  {
    hide Locate, Route;
    DecoratedRoute(cwd, path);
    OpensExactly(t, cwd, path);
  }

  lemma {:induction false} DecoratedRoute(cwd: Loc, path: string)
    requires path != "" && path[|path|-1] != SEPARATOR
    ensures Locate(cwd, path + "/") == Locate(cwd, path) == Locate(cwd, path + "/.")
    ensures Locate(cwd, path) in Route(cwd, path + "/.")
  {
    hide PathComponents.Pieces, Trim, Strip, Resolve, Visited;
    SeparatorIsStripped(path);
    LocateStrip(cwd, path + "/");
    assert Glue(path) == "/";
    PathComponents.PiecesOfPiece(CURRENT);
    PathComponents.GlueIsSeparator(path, CURRENT);
    assert path + "/" + CURRENT == path + "/.";
    ResolveSnoc(Base(cwd, path), PathComponents.Pieces(path), CURRENT);
  }

  lemma {:induction false} SeparatorIsStripped(path: string)
    requires path != "" && path[|path|-1] != SEPARATOR
    ensures Strip(path + "/") == path
  {
    var p := path + "/";
    assert !AllSeparators(p) by { assert p[|path|-1] != SEPARATOR; }
    TrimUnique(p, path);
  }
}
