/** FileEnumerator: base/file_util_posix.cc, lines 617-751. */
module Enumerator {
  import opened FilePath
  import opened FileSystem
  import opened Enumeration
  import PathComponents

  class FileEnumerator {
    var currentDirectoryEntry: nat
    var directoryEntries: seq<Entry>
    var rootPath: string
    var pendingPaths: seq<string>  // a stack, its top last
    const recursive: bool
    const fileType: FileType
    ghost const setup: Setup

    ghost function View(): Cursor
      reads this
    {
      Cursor(rootPath, directoryEntries, pendingPaths)
    }

    ghost predicate Valid(t: Tree)
      reads this
    {
      && setup.recursive == recursive && setup.fileType == fileType
      && Good(setup, t, View(), currentDirectoryEntry + 1)
    }

    /** What calls of Next have still to deliver. */
    ghost function Left(t: Tree): set<Loc>
      reads this
    {
      Remaining(setup, t, View(), currentDirectoryEntry + 1)
    }

    constructor (rootPath: string, recursive: bool, fileType: FileType, ghost cwd: Loc, ghost t: Tree)
      ensures Valid(t) && setup == Setup(cwd, recursive, fileType, rootPath, Locate(cwd, rootPath))
      ensures currentDirectoryEntry >= |directoryEntries|
      ensures Left(t) == Due(t, cwd, rootPath, recursive, fileType)
    {
      this.currentDirectoryEntry, this.directoryEntries := 0, [];
      this.rootPath, this.recursive, this.fileType := rootPath, recursive, fileType;
      this.pendingPaths := [rootPath];
      this.setup := Setup(cwd, recursive, fileType, rootPath, Locate(cwd, rootPath));
      new;
      assert PendingLoc(setup, View(), 0) == Locate(cwd, rootPath);
      RootedSelf(rootPath);
    }

    /** Keeps what ShouldSkip and the file type let through, and remembers subdirectories. */
    method TakeEntries(entries: seq<Entry>)
      requires forall e :: e in entries ==> PathComponents.IsPiece(e.name)
      modifies this`directoryEntries, this`pendingPaths
      ensures directoryEntries == old(directoryEntries) + Kept(fileType, entries)
      ensures pendingPaths == old(pendingPaths) + Pushed(recursive, rootPath, entries)
    {
      hide Append, BaseName, Kept, Pushed;
      var i := 0;
      TakeNothing(fileType, recursive, rootPath, entries);
      while i < |entries|
        invariant i <= |entries|
        invariant directoryEntries == old(directoryEntries) + Kept(fileType, entries[..i])
        invariant pendingPaths == old(pendingPaths) + Pushed(recursive, rootPath, entries[..i])
      {
        var e := entries[i];
        assert e in entries;
        TakeOne(fileType, recursive, rootPath, entries, i);
        var fullPath := Append(rootPath, e.name);
        if !IsDots(BaseName(fullPath)) {
          if recursive && e.node == Directory {
            pendingPaths := pendingPaths + [fullPath];
          }
          if (e.node == Directory && fileType.directories) || (e.node != Directory && fileType.files) {
            directoryEntries := directoryEntries + [e];
          }
        }
        i := i + 1;
      }
      assert entries[..i] == entries;
    }

    /** Pops the next path and reads it, if it can be read. */
    method ReadNext(disk: Disk)
      requires WellFormed(disk.tree) && disk.cwd == setup.cwd && pendingPaths != []
      requires currentDirectoryEntry >= |directoryEntries|
      requires setup.recursive == recursive && setup.fileType == fileType
      requires Good(setup, disk.tree, View(), currentDirectoryEntry)
      modifies this
      ensures Good(setup, disk.tree, View(), currentDirectoryEntry)
      ensures Remaining(setup, disk.tree, View(), currentDirectoryEntry)
              <= old(Remaining(setup, disk.tree, View(), currentDirectoryEntry))
      ensures !disk.faulty ==>
                Remaining(setup, disk.tree, View(), currentDirectoryEntry)
                == old(Remaining(setup, disk.tree, View(), currentDirectoryEntry))
      ensures Covered(setup, disk.tree, View()) < old(Covered(setup, disk.tree, View()))
              || (Covered(setup, disk.tree, View()) == old(Covered(setup, disk.tree, View()))
                  && |pendingPaths| < old(|pendingPaths|))
    {
      hide Locate, Append, Strip, Kept, Pushed, Remaining, Covered, Good, Opens, WellFormed, IsListing;
      ghost var t := disk.tree;
      ghost var before, n := View(), currentDirectoryEntry;
      var p := pendingPaths[|pendingPaths|-1];
      rootPath := Strip(p);
      pendingPaths := pendingPaths[..|pendingPaths|-1];
      assert View() == Dropped(before);
      LocateStrip(setup.cwd, p);
      OpensStrip(t, setup.cwd, p);
      var ok, entries := disk.ReadDirectory(rootPath);
      if !ok {
        DropKeepsAll(setup, t, before, n);
        return;
      }
      assert PendingLoc(setup, before, |before.pending| - 1) == Locate(setup.cwd, p);
      ListedNamesArePieces(t, Locate(setup.cwd, p), entries);
      directoryEntries, currentDirectoryEntry := [], 0;
      TakeEntries(entries);
      assert directoryEntries == Kept(fileType, entries);
      assert View() == AfterRead(setup, before, entries);
      ReadKeepsAll(setup, t, before, n, entries);
    }

    /** Next: the path of the next entry, or "" when there is none. */
    method Next(disk: Disk) returns (path: string)
      requires WellFormed(disk.tree) && Valid(disk.tree) && disk.cwd == setup.cwd
      modifies this
      ensures Valid(disk.tree)
      ensures Delivers(setup.cwd, disk.faulty, old(Left(disk.tree)), path, Left(disk.tree))
      ensures path != "" ==>
                var x := Locate(disk.cwd, path);
                && x in disk.tree && setup.start < x
                && (if disk.tree[x] == Directory then setup.fileType.directories else setup.fileType.files)
                && currentDirectoryEntry < |directoryEntries|
                && directoryEntries[currentDirectoryEntry].node == disk.tree[x]
                && path == Append(rootPath, directoryEntries[currentDirectoryEntry].name)
                && IsName(directoryEntries[currentDirectoryEntry].name)
                && (IsStem(setup.first) ==> Rooted(setup.first, path)) && StraightDown(setup, path)
    {
      hide Locate, Append, Covered, Good, NoneAbove, Remaining, EntryLoc, Rooted, IsStem, WellFormed, IsName,
           StraightDown;
      ghost var t := disk.tree;
      currentDirectoryEntry := currentDirectoryEntry + 1;
      while currentDirectoryEntry >= |directoryEntries|
        invariant Good(setup, t, View(), currentDirectoryEntry)
        invariant Remaining(setup, t, View(), currentDirectoryEntry) <= old(Left(t))
        invariant !disk.faulty ==> Remaining(setup, t, View(), currentDirectoryEntry) == old(Left(t))
        decreases Covered(setup, t, View()), |pendingPaths|
      {
        if pendingPaths == [] {
          NothingRemains(setup, t, View(), currentDirectoryEntry);
          NothingRemains(setup, t, View(), currentDirectoryEntry + 1);
          return "";
        }
        ReadNext(disk);
      }
      DeliverEntry(setup, t, View(), currentDirectoryEntry);
      DeliverPath(setup, t, View(), currentDirectoryEntry);
      DeliverShape(setup, t, View(), currentDirectoryEntry);
      RemainingBelowStart(setup, t, View(), currentDirectoryEntry, EntryLoc(setup, View(), currentDirectoryEntry));
      EntryIsWanted(setup, t, View(), currentDirectoryEntry);
      path := Append(rootPath, directoryEntries[currentDirectoryEntry].name);
    }

    /** GetFindInfo: the node of the entry that Next returned last. */
    method GetFindInfo(info: Node) returns (r: Node)
      ensures r == if currentDirectoryEntry < |directoryEntries|
                   then directoryEntries[currentDirectoryEntry].node else info
    {
      r := info;
      if currentDirectoryEntry >= |directoryEntries| {
        return;
      }
      r := directoryEntries[currentDirectoryEntry].node;
    }
  }

  /** Calls Next until it has nothing more, as the clients of an enumerator do. What they
      get are the wanted entries below the root, each once and before what is below it. */
  method Enumerate(disk: Disk, rootPath: string, recursive: bool, fileType: FileType) returns (paths: seq<string>)
    requires WellFormed(disk.tree)
    ensures "" !in paths
    ensures var ds := Delivered(disk.cwd, paths);
            var all := Due(disk.tree, disk.cwd, rootPath, recursive, fileType);
            && |ds| == |paths| && TopDown(ds) && (forall x :: x in ds ==> x in all)
            && (!disk.faulty ==> Elements(ds, all))
    ensures var t, root, ds := disk.tree, Locate(disk.cwd, rootPath), Delivered(disk.cwd, paths);
            && (forall x :: x in ds ==> && x in t && root < x && (recursive || |x| == |root| + 1)
                                        && (if t[x] == Directory then fileType.directories else fileType.files))
            && (!disk.faulty && Opens(t, disk.cwd, rootPath) ==>
                  forall x :: (&& x in t && root < x && (recursive || |x| == |root| + 1)
                               && (if t[x] == Directory then fileType.directories else fileType.files)) ==> x in ds)
  {
    hide Locate, Due, Good, Remaining, NoneAbove, WellFormed, Append, IsStem, Rooted, StraightDown;
    var enumerator := new FileEnumerator(rootPath, recursive, fileType, disk.cwd, disk.tree);
    ghost var all := enumerator.Left(disk.tree);
    ghost var remain := [all];
    paths := [];
    var path := enumerator.Next(disk);
    ghost var next := enumerator.Left(disk.tree);
    while path != ""
      invariant fresh(enumerator) && enumerator.Valid(disk.tree) && enumerator.setup.cwd == disk.cwd
      invariant "" !in paths && IsRun(disk.cwd, disk.faulty, remain, paths) && remain[0] == all
      invariant next == enumerator.Left(disk.tree)
      invariant Delivers(disk.cwd, disk.faulty, remain[|paths|], path, next)
      decreases next, if path == "" then 0 else 1
    {
      paths, remain := paths + [path], remain + [next];
      path := enumerator.Next(disk);
      next := enumerator.Left(disk.tree);
    }
    RunDeliversEachOnce(disk.cwd, disk.faulty, remain, paths);
    AllNonempty(disk.cwd, paths);
    DueMeans(disk.tree, disk.cwd, rootPath, recursive, fileType);
  }

  lemma {:induction false} ListedNamesArePieces(t: Tree, x: Loc, entries: seq<Entry>)
    requires WellFormed(t) && IsListing(t, x, entries)
    ensures forall e :: e in entries ==> PathComponents.IsPiece(e.name)
  {
    forall e | e in entries ensures PathComponents.IsPiece(e.name) {
      var i :| 0 <= i < |entries| && entries[i] == e;
      assert EntryOk(t, x, entries[i]);
      assert (x + [e.name])[|x|] == e.name;
    }
  }

  lemma {:induction false} TakeNothing(fileType: FileType, recursive: bool, root: string, es: seq<Entry>)
    ensures Kept(fileType, es[..0]) == [] && Pushed(recursive, root, es[..0]) == []
  {}

  lemma {:induction false} TakeOne(fileType: FileType, recursive: bool, root: string, es: seq<Entry>, i: nat)
    requires i < |es| && PathComponents.IsPiece(es[i].name)
    ensures BaseName(Append(root, es[i].name)) == es[i].name
    ensures Kept(fileType, es[..i+1]) ==
            Kept(fileType, es[..i]) + if !IsDots(es[i].name) && Wanted(fileType, es[i].node) then [es[i]] else []
    ensures Pushed(recursive, root, es[..i+1]) ==
            Pushed(recursive, root, es[..i]) +
            if recursive && !IsDots(es[i].name) && es[i].node == Directory then [Append(root, es[i].name)] else []
  {
    hide Append, BaseName;
    DirAndBaseOfAppend(root, es[i].name);
    assert es[..i+1][..i] == es[..i];
  }

  lemma {:induction false} NothingRemains(s: Setup, t: Tree, c: Cursor, n: nat)
    requires n >= |c.entries| && c.pending == []
    ensures Remaining(s, t, c, n) == {}
    ensures Good(s, t, c, n) ==> Good(s, t, c, n + 1)
  {}

  /** What popping a path that cannot be read comes to. */
  lemma {:induction false} DropKeepsAll(s: Setup, t: Tree, c: Cursor, n: nat)
    requires WellFormed(t) && n >= |c.entries| && c.pending != [] && Good(s, t, c, n)
    ensures Good(s, t, Dropped(c), n) && Remaining(s, t, Dropped(c), n) <= Remaining(s, t, c, n)
    ensures !Opens(t, s.cwd, c.pending[|c.pending|-1]) ==> Remaining(s, t, Dropped(c), n) == Remaining(s, t, c, n)
    ensures Covered(s, t, Dropped(c)) <= Covered(s, t, c)
  {
    hide Locate, Strip, Remaining, Covered, EntriesOk, ShapesOk, OpenOk, WaysOk, Opens;
    DropKeepsRemaining(s, t, c, n);
    DropCoversLess(s, t, c);
    DropKeepsEntries(s, t, c, n);
    DropKeepsOpen(s, t, c);
    DropKeepsShapes(s, c, n);
    DropKeepsWays(s, c, n);
  }

  /** What popping a path and reading it comes to. */
  lemma {:induction false} ReadKeepsAll(s: Setup, t: Tree, c: Cursor, n: nat, es: seq<Entry>)
    requires WellFormed(t) && n >= |c.entries| && c.pending != [] && Good(s, t, c, n)
    requires Opens(t, s.cwd, c.pending[|c.pending|-1]) && IsListing(t, PendingLoc(s, c, |c.pending| - 1), es)
    ensures var a := AfterRead(s, c, es);
            && Good(s, t, a, 0) && Remaining(s, t, a, 0) == Remaining(s, t, c, n)
            && Covered(s, t, a) < Covered(s, t, c)
  {
    hide Locate, Strip, Append, Kept, Pushed, Remaining, Covered, EntriesOk, ShapesOk, OpenOk, WaysOk, PendingOk, Opens,
         IsListing, WellFormed;
    OpensExactly(t, s.cwd, c.pending[|c.pending|-1]);
    ReadKeepsGood(s, t, c, n, es);
    ReadKeepsRemaining(s, t, c, n, es);
    ReadCoversLess(s, t, c, es);
  }

  lemma {:induction false} DropKeepsEntries(s: Setup, t: Tree, c: Cursor, n: nat)
    requires n >= |c.entries| && c.pending != [] && EntriesOk(s, t, c, n)
    ensures EntriesOk(s, t, Dropped(c), n)
  {}

  lemma {:induction false} DeliverPath(s: Setup, t: Tree, c: Cursor, n: nat)
    requires n < |c.entries| && Good(s, t, c, n)
    ensures Append(c.root, c.entries[n].name) != "" && IsName(c.entries[n].name)
    ensures Locate(s.cwd, Append(c.root, c.entries[n].name)) == EntryLoc(s, c, n)
    ensures EntryLoc(s, c, n) in t && t[EntryLoc(s, c, n)] == c.entries[n].node
  {
    hide Locate, Append, PendingOk, ApartOk;
    LocateAppend(s.cwd, c.root, c.entries[n].name);
  }

  lemma {:induction false} DeliverShape(s: Setup, t: Tree, c: Cursor, n: nat)
    requires n < |c.entries| && Good(s, t, c, n)
    ensures IsStem(s.first) ==> Rooted(s.first, Append(c.root, c.entries[n].name))
    ensures StraightDown(s, Append(c.root, c.entries[n].name))
  {
    hide Locate, Append, PendingOk, ApartOk, Rooted, OpenOk, StraightDown;
    StraightAppend(s, c.root, c.entries[n].name);
    if IsStem(s.first) { RootedAppend(s.first, c.root, c.entries[n].name); }
  }

  lemma {:induction false} DropKeepsOpen(s: Setup, t: Tree, c: Cursor)
    requires c.pending != [] && OpenOk(s, t, c)
    ensures OpenOk(s, t, Dropped(c))
  {
    hide Opens;
    assert forall i :: 0 <= i < |Dropped(c).pending| ==> Dropped(c).pending[i] == c.pending[i];
  }

  lemma {:induction false} DropKeepsWays(s: Setup, c: Cursor, n: nat)
    requires n >= |c.entries| && c.pending != [] && WaysOk(s, c, n)
    ensures WaysOk(s, Dropped(c), n)
  {
    hide StraightDown;
    assert forall i :: 0 <= i < |Dropped(c).pending| ==> Dropped(c).pending[i] == c.pending[i];
  }

  lemma {:induction false} DropKeepsShapes(s: Setup, c: Cursor, n: nat)
    requires n >= |c.entries| && c.pending != [] && ShapesOk(s, c, n)
    ensures ShapesOk(s, Dropped(c), n)
  {
    assert forall p :: p in Dropped(c).pending ==> p in c.pending;
  }
}
