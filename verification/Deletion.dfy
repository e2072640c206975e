/** Delete: base/file_util_posix.cc, lines 146-184. */
module Deletion {
  import opened FilePath
  import opened FileSystem
  import opened Enumeration
  import PathComponents

  /** The tree without x and everything below it. */
  function Without(t: Tree, x: Loc): Tree {
    map y | y in t && !(x <= y) :: t[y]
  }

  /** Only nodes at or below x are gone, and nothing else changed. */
  ghost predicate OnlyLost(t0: Tree, t: Tree, x: Loc) {
    && (forall y :: y in t ==> y in t0 && t[y] == t0[y])
    && (forall y :: y in t0 && y !in t ==> x <= y)
  }

  lemma {:induction false} LostAll(t0: Tree, t: Tree, x: Loc)
    requires WellFormed(t) && OnlyLost(t0, t, x) && x !in t
    ensures t == Without(t0, x)
  {
    forall y | y in t ensures !(x <= y) {
      if x <= y { PrefixesExist(t, y, x); }
    }
    assert t.Keys == Without(t0, x).Keys;
  }

  // ---------------------------------------------------- while traversing

  function Locs(cwd: Loc, paths: seq<string>): (xs: seq<Loc>)
    ensures |xs| == |paths| && forall i :: 0 <= i < |paths| ==> xs[i] == Locate(cwd, paths[i])
  {
    seq(|paths|, i requires 0 <= i < |paths| => Locate(cwd, paths[i]))
  }

  /** The stacked directories: there, in top-down order, and with nothing still to be
      delivered above them. */
  ghost predicate StackOk(t: Tree, x: Loc, ds: seq<Loc>, left: set<Loc>) {
    && TopDown(ds) && Sealed(ds, left)
    && forall d :: d in ds ==> d in t && t[d] == Directory && x <= d
  }

  /** Everything below x is still to be delivered, or stacked, or in hand. */
  ghost predicate Accounted(t: Tree, x: Loc, ds: seq<Loc>, left: set<Loc>, hand: set<Loc>) {
    forall y :: y in t && x <= y ==> y in ds || y in left || y in hand
  }

  lemma {:induction false} PushKeepsStack(t: Tree, x: Loc, ds: seq<Loc>, left: set<Loc>, y: Loc)
    requires StackOk(t, x, ds, left + {y}) && y !in left && NoneAbove(left, y)
    requires y in t && t[y] == Directory && x <= y
    ensures StackOk(t, x, ds + [y], left)
  {
    hide NoneAbove;
    TopDownSnoc(ds, left + {y}, y);
    assert left + {y} - {y} == left;
    SealedSnoc(ds, left + {y}, y);
  }

  lemma {:induction false} ShrinkLeft(t: Tree, x: Loc, ds: seq<Loc>, left: set<Loc>, less: set<Loc>)
    requires StackOk(t, x, ds, left) && less <= left
    ensures StackOk(t, x, ds, less)
  {
    forall d | d in ds ensures d !in less && NoneAbove(less, d) {
      assert NoneAbove(left, d);
    }
  }

  lemma {:induction false} UnlinkKeepsOpens(t: Tree, y: Loc, cwd: Loc, path: string)
    requires y in t && t[y] != Directory
    ensures Opens(t - {y}, cwd, path) <==> Opens(t, cwd, path)
  {
    hide Locate, Route;
    assert forall v :: IsDirectory(t - {y}, v) <==> IsDirectory(t, v);
  }

  lemma {:induction false} UnlinkKeepsRemaining(s: Setup, t: Tree, c: Cursor, n: nat, y: Loc)
    requires y in t && t[y] != Directory && y !in Remaining(s, t, c, n)
    ensures Remaining(s, t - {y}, c, n) == Remaining(s, t, c, n)
  {
    hide PendingLoc, EntryLoc, Under, Wanted, Opens;
    forall path ensures Opens(t - {y}, s.cwd, path) <==> Opens(t, s.cwd, path) {
      UnlinkKeepsOpens(t, y, s.cwd, path);
    }
    var u := t - {y};
    forall z | z in t && z != y ensures z in u && u[z] == t[z] {}
  }

  lemma {:induction false} UnlinkKeepsEntries(s: Setup, t: Tree, c: Cursor, n: nat, y: Loc)
    requires Good(s, t, c, n) && y in t && t[y] != Directory && y !in Remaining(s, t, c, n)
    ensures Good(s, t - {y}, c, n)
  {
    hide Locate, EntryLoc, Opens, WaysOk, ShapesOk;
    forall i | 0 <= i < |c.pending| ensures c.pending[i] == s.first || Opens(t - {y}, s.cwd, c.pending[i]) {
      UnlinkKeepsOpens(t, y, s.cwd, c.pending[i]);
    }
    forall k | n <= k < |c.entries| ensures EntryLoc(s, c, k) != y {
      assert IsUnread(s, c, n, EntryLoc(s, c, k));
    }
  }

  lemma {:induction false} UnlinkKeepsWellFormed(t: Tree, y: Loc)
    requires WellFormed(t) && y in t && t[y] != Directory
    ensures WellFormed(t - {y})
  {}

  /** Unlinking an entry that has been delivered does not disturb the enumeration. */
  lemma {:induction false} UnlinkKeepsGood(s: Setup, t: Tree, c: Cursor, n: nat, y: Loc)
    requires WellFormed(t) && Good(s, t, c, n) && y in t && t[y] != Directory && y !in Remaining(s, t, c, n)
    ensures WellFormed(t - {y}) && Good(s, t - {y}, c, n)
    ensures Remaining(s, t - {y}, c, n) == Remaining(s, t, c, n)
  {
    hide Good, Remaining, WellFormed;
    UnlinkKeepsWellFormed(t, y);
    UnlinkKeepsEntries(s, t, c, n, y);
    UnlinkKeepsRemaining(s, t, c, n, y);
  }

  lemma {:induction false} UnlinkKeepsLost(t0: Tree, t: Tree, x: Loc, y: Loc)
    requires OnlyLost(t0, t, x) && x <= y
    ensures OnlyLost(t0, t - {y}, x)
  {}

  // ------------------------------------------------- removing the stack

  /** The last directory on the stack is empty when the stack is all that is left. */
  lemma {:induction false} TopIsEmpty(t: Tree, x: Loc, ds: seq<Loc>)
    requires ds != [] && StackOk(t, x, ds, {}) && Accounted(t, x, ds, {}, {})
    ensures IsEmpty(t, ds[|ds|-1])
  {
    var d := ds[|ds|-1];
    assert d in ds;
    forall e | e in ds ensures !(d < e) {
      var i :| 0 <= i < |ds| && ds[i] == e;
      assert i < |ds| - 1 || e == d;
    }
    forall y | y in t ensures !(d < y) {
      assert x <= d && d < y ==> x <= y;
    }
  }

  lemma {:induction false} PopKeepsStack(t: Tree, x: Loc, ds: seq<Loc>)
    requires ds != [] && StackOk(t, x, ds, {}) && Accounted(t, x, ds, {}, {})
    ensures StackOk(t - {ds[|ds|-1]}, x, ds[..|ds|-1], {})
    ensures Accounted(t - {ds[|ds|-1]}, x, ds[..|ds|-1], {}, {})
  {
    var d, rest := ds[|ds|-1], ds[..|ds|-1];
    assert ds == rest + [d];
    forall e | e in rest ensures e in t - {d} && e in ds {
      var i :| 0 <= i < |rest| && rest[i] == e;
      assert ds[i] == e;
    }
  }

  lemma {:induction false} RmdirKeepsWellFormed(t: Tree, d: Loc)
    requires WellFormed(t) && d in t && d != [] && IsEmpty(t, d)
    ensures WellFormed(t - {d})
  {
    forall y | y in t - {d} && y != [] ensures Parent(y) in t - {d} {
      assert Parent(y) == d ==> d < y;
    }
  }

  lemma {:induction false} AppendedIsRemovable(cwd: Loc, root: string, name: string)
    requires IsName(name)
    ensures RemovablePath(cwd, Append(root, name))
  {
    hide Locate, Append;
    LocateAppend(cwd, root, name);
    LastPieceOfAppend(root, name);
  }

  lemma {:induction false} LastPieceOfAppend(d: string, b: string)
    requires IsName(b)
    ensures var ps := PathComponents.Pieces(Append(d, b)); ps != [] && ps[|ps|-1] == b
  {
    hide PathComponents.Pieces, Trim, Strip;
    if d == CURRENT || d == "" {
      BareAppend(d, b);
      PathComponents.PiecesOfPiece(b);
    } else {
      GluedPieces(d, b);
    }
  }

  lemma {:induction false} GluedPieces(d: string, b: string)
    requires d != "" && d != CURRENT && IsName(b)
    ensures PathComponents.Pieces(Append(d, b)) == PathComponents.Pieces(Strip(d)) + [b]
  {
    hide PathComponents.Pieces, Trim;
    StripKinds(d);
    AppendShape(d, b);
    PathComponents.GlueIsSeparator(Strip(d), b);
  }

  lemma {:induction false} BareAppend(d: string, b: string)
    requires d == CURRENT || d == ""
    ensures Append(d, b) == b
  {
    assert "" + b == b;
  }

  // ------------------------------------------------------------ the code

  predicate AllBelow(x: Loc, ds: seq<Loc>) {
    forall d :: d in ds ==> x <= d
  }

  /** The state of the traversal, with the entries in hand just delivered. */
  ghost predicate Traversing(t0: Tree, t: Tree, x: Loc, ds: seq<Loc>, left: set<Loc>, hand: set<Loc>, faulty: bool) {
    && WellFormed(t) && OnlyLost(t0, t, x) && x in t && t[x] == Directory && AllBelow(x, ds)
    && (!faulty ==> StackOk(t, x, ds, left + hand) && Accounted(t, x, ds, left, hand) && left !! hand)
  }

  /** A stacked path can be removed by name and leads straight down from path. */
  predicate StackedPath(cwd: Loc, path: string, p: string) {
    && RemovablePath(cwd, p)
    && forall v :: v in Route(cwd, p) ==> v in Route(cwd, path) || (Locate(cwd, path) <= v && v < Locate(cwd, p))
  }

  predicate PathsOk(cwd: Loc, path: string, paths: seq<string>) {
    forall k :: 0 <= k < |paths| ==> paths[k] == path || StackedPath(cwd, path, paths[k])
  }

  /** The path does not lead through anything below the place where it ends. */
  predicate NoDetour(cwd: Loc, path: string) {
    forall v :: v in Route(cwd, path) ==> !(Locate(cwd, path) < v)
  }

  /** As long as the stack is there, every stacked directory can be reached. */
  lemma {:induction false} StackedOpens(t: Tree, cwd: Loc, path: string, p: string)
    requires WellFormed(t) && path != "" && WayOpen(t, cwd, path)
    requires IsDirectory(t, Locate(cwd, p)) && (p == path || StackedPath(cwd, path, p))
    ensures Opens(t, cwd, p)
  {
    hide Locate, Route;
    forall v | v in Route(cwd, p) ensures IsDirectory(t, v) {
      if v !in Route(cwd, path) { PrefixesExist(t, Locate(cwd, p), v); }
    }
  }

  /** An entry below the path exists also by its path. */
  lemma {:induction false} EntryExists(t: Tree, cwd: Loc, path: string, p: string)
    requires WellFormed(t) && path != "" && WayOpen(t, cwd, path) && StackedPath(cwd, path, p)
    requires Locate(cwd, p) in t && !EndsInSeparator(p)
    ensures Exists(t, cwd, p)
  {
    hide Locate, Route;
    forall v | v in Route(cwd, p) ensures IsDirectory(t, v) {
      if v !in Route(cwd, path) { PrefixesExist(t, Locate(cwd, p), v); }
    }
  }

  /** Removing an empty directory below the path leaves the path's own way as it is,
      unless it makes a detour. */
  lemma {:induction false} RmdirKeepsWay(t: Tree, cwd: Loc, path: string, d: Loc)
    requires WayOpen(t, cwd, path) && NoDetour(cwd, path) && Locate(cwd, path) < d
    ensures WayOpen(t - {d}, cwd, path)
  {
    hide Locate, Route;
  }

  lemma {:induction false} RemovalHasNoDetour(t: Tree, cwd: Loc, path: string)
    requires CanRemove(t, cwd, path)
    ensures NoDetour(cwd, path)
  {
    hide Locate, Route, RemovablePath;
    forall v | v in Route(cwd, path) ensures v in Route(cwd, path) + {Locate(cwd, path)} {}
  }

  lemma {:induction false} TakeInHand(t0: Tree, t: Tree, x: Loc, ds: seq<Loc>, left: set<Loc>, less: set<Loc>,
                                      y: Loc, faulty: bool)
    requires Traversing(t0, t, x, ds, left, {}, faulty) && y in left
    requires (if faulty then less <= left - {y} else less == left - {y})
    ensures Traversing(t0, t, x, ds, less, {y}, faulty)
  {
    hide TopDown, Sealed;
    assert left + {} == left;
    if !faulty { assert less + {y} == left; }
  }

  lemma {:induction false} PushFromHand(t0: Tree, t: Tree, x: Loc, ds: seq<Loc>, left: set<Loc>, y: Loc, faulty: bool)
    requires Traversing(t0, t, x, ds, left, {y}, faulty) && NoneAbove(left, y)
    requires y in t && t[y] == Directory && x <= y
    ensures Traversing(t0, t, x, ds + [y], left, {}, faulty)
  {
    if !faulty {
      PushKeepsStack(t, x, ds, left, y);
      assert left + {} == left;
    }
  }

  lemma {:induction false} UnlinkFromHand(t0: Tree, t: Tree, x: Loc, ds: seq<Loc>, left: set<Loc>, y: Loc, faulty: bool)
    requires Traversing(t0, t, x, ds, left, {y}, faulty) && y in t && t[y] != Directory && x <= y
    ensures Traversing(t0, t - {y}, x, ds, left, {}, faulty)
  {
    UnlinkKeepsWellFormed(t, y);
    UnlinkKeepsLost(t0, t, x, y);
    if !faulty {
      ShrinkLeft(t, x, ds, left + {y}, left);
      assert left + {} == left;
    }
  }
}
