/** The tree while CopyDirectory is at work. */
module Copying {
  import opened FileSystem
  import opened Enumeration

  /** The place that is to y's tree what y's place is to Y's. */
  function Original(x: Loc, y: Loc, z: Loc): Loc
    requires y <= z
  {
    x + z[|y|..]
  }

  predicate IsCopied(node: Node) { node == Directory || node.Regular? }

  /** z is the copy of a node in done. */
  predicate IsCopy(t0: Tree, x: Loc, y: Loc, done: set<Loc>, z: Loc) {
    y <= z && Original(x, y, z) in done && Original(x, y, z) in t0 && IsCopied(t0[Original(x, y, z)])
  }

  /** What a copy holds: the original's node, except that a regular file copied onto itself
      is empty. */
  function Written(x: Loc, y: Loc, node: Node): Node {
    if x == y && node.Regular? then EMPTY else node
  }

  /** t is t0 with every directory and regular file of done, which lies at or below x,
      mirrored at or below y, and nothing else changed. */
  ghost predicate Mirrored(t0: Tree, t: Tree, x: Loc, y: Loc, done: set<Loc>) {
    forall z ::
      && (z in t <==> z in t0 || IsCopy(t0, x, y, done, z))
      && (z in t ==> t[z] == if IsCopy(t0, x, y, done, z) then Written(x, y, t0[Original(x, y, z)]) else t0[z])
  }

  /** Nothing but the places of copies is touched. */
  ghost predicate OnlyCopies(t0: Tree, t: Tree, x: Loc, y: Loc, all: set<Loc>) {
    forall z :: !IsCopy(t0, x, y, all, z) ==> (z in t <==> z in t0) && (z in t ==> t[z] == t0[z])
  }

  /** No copy gets its place in the source. */
  ghost predicate StaysOut(t0: Tree, x: Loc, y: Loc, all: set<Loc>) {
    forall z :: IsCopy(t0, x, y, all, z) ==> !(x <= z)
  }

  /** The loop can cope with its own writing: no copy gets its place in the source, or
      every one exactly its original's. */
  ghost predicate Separate(t0: Tree, x: Loc, y: Loc, all: set<Loc>) {
    StaysOut(t0, x, y, all) || x == y
  }

  /** What a run of CopyDirectory goes through: the source and what the enumeration finds. */
  ghost function Covers(t0: Tree, x: Loc, recursive: bool): set<Loc> {
    set z | z in t0 && (z == x || (Under(recursive, x, z) && (recursive || t0[z] != Directory)))
  }

  /** The same as far as directories and regular files go. */
  predicate SameKind(a: Node, b: Node) {
    (a == Directory <==> b == Directory) && (a.Regular? <==> b.Regular?)
  }

  /** Nothing goes away or becomes a different kind of thing. */
  ghost predicate KeepsKinds(t0: Tree, t: Tree) {
    forall z :: z in t0 ==> z in t && SameKind(t0[z], t[z])
  }

  /** Where copies meet something that is there already, it is of the same kind. */
  ghost predicate Compatible(t0: Tree, x: Loc, y: Loc, all: set<Loc>) {
    forall z :: z in t0 && IsCopy(t0, x, y, all, z) ==> SameKind(t0[Original(x, y, z)], t0[z])
  }

  /** Only a compatible target can end up as a mirror. */
  lemma {:induction false} MirroredIsCompatible(t0: Tree, t: Tree, x: Loc, y: Loc, all: set<Loc>)
    requires KeepsKinds(t0, t) && Mirrored(t0, t, x, y, all)
    ensures Compatible(t0, x, y, all)
  {
    hide Original;
    forall z | z in t0 && IsCopy(t0, x, y, all, z) ensures SameKind(t0[Original(x, y, z)], t0[z]) {
      assert t[z] == Written(x, y, t0[Original(x, y, z)]);
    }
  }

  /** A missing target is compatible. */
  lemma {:induction false} MissingIsCompatible(t0: Tree, x: Loc, y: Loc, all: set<Loc>)
    requires WellFormed(t0) && y !in t0
    ensures Compatible(t0, x, y, all)
  {
    forall z ensures !(z in t0 && IsCopy(t0, x, y, all, z)) {
      if y <= z { NothingBelowMissing(t0, y, z); }
    }
  }

  /** Adding a node away from the source, in the place of no directory, does not disturb
      the enumeration. */
  lemma {:induction false} AddKeepsEntries(s: Setup, t: Tree, c: Cursor, n: nat, y: Loc, node: Node)
    requires Good(s, t, c, n) && !(s.start <= y) && !IsDirectory(t, y)
    ensures Good(s, t[y := node], c, n)
  {
    hide Locate, Route, Opens, WaysOk, ShapesOk;
    forall k | n <= k < |c.entries| ensures EntryLoc(s, c, k) != y {
      assert s.start <= Locate(s.cwd, c.root) <= EntryLoc(s, c, k);
    }
    forall i | 0 <= i < |c.pending| ensures c.pending[i] == s.first || Opens(t[y := node], s.cwd, c.pending[i]) {
      if c.pending[i] != s.first { AddKeepsOpens(t, y, node, s.cwd, c.pending[i]); }
    }
  }

  lemma {:induction false} AddKeepsOpens(t: Tree, y: Loc, node: Node, cwd: Loc, path: string)
    requires !IsDirectory(t, y)
    ensures Opens(t, cwd, path) ==> Opens(t[y := node], cwd, path)
    ensures WayOpen(t, cwd, path) && Locate(cwd, path) != y && Opens(t[y := node], cwd, path) ==> Opens(t, cwd, path)
  {
    hide Locate, Route;
    assert forall v :: IsDirectory(t, v) ==> IsDirectory(t[y := node], v);
    var all := Route(cwd, path) + {Locate(cwd, path)};
    if WayOpen(t, cwd, path) && Locate(cwd, path) != y && Opens(t[y := node], cwd, path) {
      forall v | v in all ensures IsDirectory(t, v) {}
    }
  }

  lemma {:induction false} AddKeepsPending(s: Setup, t: Tree, c: Cursor, n: nat, y: Loc, node: Node, z: Loc)
    requires Good(s, t, c, n) && !(s.start <= y) && !IsDirectory(t, y)
    requires WayOpen(t, s.cwd, s.first) && s.start == Locate(s.cwd, s.first)
    ensures z in Remaining(s, t[y := node], c, n) <==> z in Remaining(s, t, c, n)
  {
    hide Locate, Route, Opens, WayOpen, WaysOk, ShapesOk, EntriesOk, Under, Wanted;
    var u := t[y := node];
    AddKeepsEntries(s, t, c, n, y, node);
    if z == y {
      if z in Remaining(s, t, c, n) { RemainingBelowStart(s, t, c, n, z); }
      if z in Remaining(s, u, c, n) { RemainingBelowStart(s, u, c, n, z); }
    } else {
      assert z in u <==> z in t;
      assert z in t ==> u[z] == t[z];
      forall i | 0 <= i < |c.pending| ensures Opens(u, s.cwd, c.pending[i]) <==> Opens(t, s.cwd, c.pending[i]) {
        AddKeepsOpens(t, y, node, s.cwd, c.pending[i]);
      }
    }
  }

  lemma {:induction false} AddKeepsGood(s: Setup, t: Tree, c: Cursor, n: nat, y: Loc, node: Node)
    requires Good(s, t, c, n) && !(s.start <= y) && !IsDirectory(t, y)
    requires WayOpen(t, s.cwd, s.first) && s.start == Locate(s.cwd, s.first)
    ensures Good(s, t[y := node], c, n)
    ensures Remaining(s, t[y := node], c, n) == Remaining(s, t, c, n)
  {
    hide Good, Remaining, WayOpen, Locate;
    AddKeepsEntries(s, t, c, n, y, node);
    forall z ensures z in Remaining(s, t[y := node], c, n) <==> z in Remaining(s, t, c, n) {
      AddKeepsPending(s, t, c, n, y, node, z);
    }
  }

  /** Nor does overwriting a regular file that has been delivered. */
  lemma {:induction false} OverwriteKeepsGood(s: Setup, t: Tree, c: Cursor, n: nat, y: Loc, node: Node)
    requires Good(s, t, c, n) && y in t && t[y].Regular? && node.Regular? && y !in Remaining(s, t, c, n)
    ensures Good(s, t[y := node], c, n)
    ensures Remaining(s, t[y := node], c, n) == Remaining(s, t, c, n)
  {
    hide Locate, Route, Opens, WaysOk, ShapesOk, EntryLoc, PendingLoc, Under;
    var u := t[y := node];
    forall path ensures Opens(u, s.cwd, path) <==> Opens(t, s.cwd, path) {
      OverwriteKeepsOpens(t, y, node, s.cwd, path);
    }
    forall k | n <= k < |c.entries| ensures EntryLoc(s, c, k) != y {
      assert IsUnread(s, c, n, EntryLoc(s, c, k));
    }
    forall z | z in t && z != y ensures z in u && u[z] == t[z] {}
    assert forall z :: z in u ==> z in t && (Wanted(s.fileType, u[z]) <==> Wanted(s.fileType, t[z]));
  }

  lemma {:induction false} OverwriteKeepsOpens(t: Tree, y: Loc, node: Node, cwd: Loc, path: string)
    requires y in t && t[y].Regular? && node.Regular?
    ensures Opens(t[y := node], cwd, path) <==> Opens(t, cwd, path)
  {
    hide Locate, Route;
    assert forall v :: IsDirectory(t[y := node], v) <==> IsDirectory(t, v);
  }

  lemma {:induction false} AddKeepsWellFormed(t: Tree, y: Loc, node: Node)
    requires WellFormed(t) && y != [] && Parent(y) in t && t[Parent(y)] == Directory && IsName(y[|y|-1])
    requires y in t ==> t[y] != Directory
    ensures WellFormed(t[y := node])
  {
    hide IsName;
    var u := t[y := node];
    assert Parent(y) != y && Parent(y) in u;
    forall z | z in u && z != [] ensures Parent(z) in u && u[Parent(z)] == Directory && IsName(z[|z|-1]) {
      if z != y { assert Parent(z) in t && Parent(z) != y; }
    }
    assert [] in u && u[[]] == Directory;
  }

  lemma {:induction false} AddKeepsKinds(t0: Tree, t: Tree, z: Loc, node: Node)
    requires KeepsKinds(t0, t) && (z in t ==> SameKind(t[z], node))
    ensures KeepsKinds(t0, t[z := node])
  {}

  lemma {:induction false} AddKeepsOnlyCopies(t0: Tree, t: Tree, x: Loc, y: Loc, done: set<Loc>, rel: Loc, node: Node)
    requires OnlyCopies(t0, t, x, y, done) && x + rel in t0 && IsCopied(t0[x + rel])
    ensures OnlyCopies(t0, t[y + rel := node], x, y, done + {x + rel})
  {
    OriginalInverse(x, y, y + rel, rel);
    MoreCopies(t0, t, x, y, done, done + {x + rel});
    assert IsCopy(t0, x, y, done + {x + rel}, y + rel);
  }

  lemma {:induction false} MoreCopies(t0: Tree, t: Tree, x: Loc, y: Loc, done: set<Loc>, more: set<Loc>)
    requires OnlyCopies(t0, t, x, y, done) && done <= more
    ensures OnlyCopies(t0, t, x, y, more)
  {
    assert forall z :: IsCopy(t0, x, y, done, z) ==> IsCopy(t0, x, y, more, z);
  }

  /** Copying one more node, or passing over one that is neither directory nor file. */
  lemma {:induction false} MirrorMore(t0: Tree, t: Tree, x: Loc, y: Loc, done: set<Loc>, rel: Loc)
    requires Mirrored(t0, t, x, y, done) && x + rel in t0 && x + rel !in done
    ensures Mirrored(t0, if IsCopied(t0[x + rel]) then t[y + rel := Written(x, y, t0[x + rel])] else t,
                     x, y, done + {x + rel})
  {
    var more := done + {x + rel};
    forall z ensures IsCopy(t0, x, y, more, z) <==>
                     IsCopy(t0, x, y, done, z) || (z == y + rel && IsCopied(t0[x + rel]))
    {
      if y <= z {
        assert Original(x, y, z) == x + rel <==> z == y + rel by {
          OriginalInverse(x, y, z, rel);
        }
      }
    }
    assert Original(x, y, y + rel) == x + rel;
  }

  /** A mirror away from its source, in terms of the trees: what is to be copied is there with
      the same node, and nothing else is new, different or gone. */
  lemma {:induction false} MirroredMeans(t0: Tree, t: Tree, x: Loc, y: Loc, recursive: bool)
    requires x != y && Mirrored(t0, t, x, y, Covers(t0, x, recursive))
    ensures forall z :: z in t0 && x <= z && (recursive || z == x || (|z| == |x| + 1 && t0[z] != Directory))
                        && (t0[z] == Directory || t0[z].Regular?) ==>
              y + z[|x|..] in t && t[y + z[|x|..]] == t0[z]
    ensures forall z :: z in t && !(z in t0 && t[z] == t0[z]) ==>
              y <= z && x + z[|y|..] in t0 && t0[x + z[|y|..]] == t[z]
    ensures forall z :: z in t0 ==> z in t
  {
    var all := Covers(t0, x, recursive);
    forall z | z in t0 && x <= z && (recursive || z == x || (|z| == |x| + 1 && t0[z] != Directory))
               && (t0[z] == Directory || t0[z].Regular?)
      ensures y + z[|x|..] in t && t[y + z[|x|..]] == t0[z]
    {
      assert z == x + z[|x|..] && (|z| == |x| ==> z == x);
      OriginalInverse(x, y, y + z[|x|..], z[|x|..]);
      assert z in all;
      assert IsCopy(t0, x, y, all, y + z[|x|..]);
    }
  }

  lemma {:induction false} OriginalInverse(x: Loc, y: Loc, z: Loc, rel: Loc)
    requires y <= z
    ensures Original(x, y, z) == x + rel <==> z == y + rel
  {
    assert z == y + z[|y|..];
    if Original(x, y, z) == x + rel {
      assert (x + z[|y|..])[|x|..] == z[|y|..] && (x + rel)[|x|..] == rel;
    }
  }

  /** In a mirrored tree the target's parent is a directory once the source's parent is done. */
  lemma {:induction false} TargetReady(t0: Tree, t: Tree, x: Loc, y: Loc, done: set<Loc>, rel: Loc)
    requires WellFormed(t0) && Mirrored(t0, t, x, y, done) && rel != [] && x + rel in t0 && Parent(x + rel) in done
    ensures IsDirectory(t, Parent(y + rel))
  {
    var up := rel[..|rel|-1];
    assert Parent(x + rel) == x + up && Parent(y + rel) == y + up;
    OriginalInverse(x, y, y + up, up);
    assert Parent(x + rel) in t0 && t0[Parent(x + rel)] == Directory by { assert x + rel != []; }
    assert IsCopy(t0, x, y, done, y + up);
  }

  /** What is in the target's place was there at the start and is of the copy's kind. */
  lemma {:induction false} TargetFree(t0: Tree, t: Tree, x: Loc, y: Loc, all: set<Loc>, done: set<Loc>, rel: Loc)
    requires Compatible(t0, x, y, all) && Mirrored(t0, t, x, y, done)
    requires x + rel in all && x + rel in t0 && x + rel !in done && IsCopied(t0[x + rel])
    ensures y + rel in t ==> SameKind(t0[x + rel], t[y + rel])
  {
    OriginalInverse(x, y, y + rel, rel);
    assert !IsCopy(t0, x, y, done, y + rel);
    assert IsCopy(t0, x, y, all, y + rel);
  }

  lemma {:induction false} NothingBelowMissing(t: Tree, y: Loc, z: Loc)
    requires WellFormed(t) && y !in t && y <= z
    ensures z !in t
  {
    if z in t { PrefixesExist(t, z, y); }
  }

  /** Where nothing gets its place in the source, an entry's place is not in it. */
  lemma {:induction false} TargetsOutside(t0: Tree, x: Loc, y: Loc, all: set<Loc>, rel: Loc)
    requires StaysOut(t0, x, y, all) && x + rel in all && x + rel in t0 && IsCopied(t0[x + rel])
    ensures !(x <= y + rel) && y + rel != x + rel
  {
    OriginalInverse(x, y, y + rel, rel);
    assert IsCopy(t0, x, y, all, y + rel);
    assert x <= x + rel;
  }

  /** Unrelated places are enough for that. */
  lemma {:induction false} UnrelatedStaysOut(t0: Tree, x: Loc, y: Loc, all: set<Loc>)
    requires Unrelated(x, y)
    ensures StaysOut(t0, x, y, all)
  {
    forall z | IsCopy(t0, x, y, all, z) ensures !(x <= z) {
      assert x <= z && |y| < |x| ==> y <= x;
    }
  }

  /** The place in the source that a copy reaches first when the target lies at or above
      the source: what is as far below the source as the source is below the target. */
  function Reentry(x: Loc, y: Loc): Loc
    requires y <= x
  {
    x + x[|y|..]
  }

  /** Such a target takes copies into the source exactly if there is something to copy there. */
  lemma {:induction false} StaysOutExactly(t: Tree, x: Loc, y: Loc, recursive: bool)
    requires WellFormed(t) && x in t && y <= x
    ensures StaysOut(t, x, y, Covers(t, x, recursive)) <==> !Reenters(t, x, y, recursive)
  {
    hide Covers, WellFormed, Reentry, IsCopied;
    var all := Covers(t, x, recursive);
    if Reenters(t, x, y, recursive) {
      assert Original(x, y, x) == Reentry(x, y) by { SourceIsReached(x, y); }
      CoveredExists(t, x, Reentry(x, y), recursive);
      assert IsCopy(t, x, y, all, x);
    }
    if !StaysOut(t, x, y, all) {
      var w :| IsCopy(t, x, y, all, w) && x <= w;
      ReentryOnTheWay(t, x, y, w, recursive);
    }
  }

  ghost predicate Reenters(t: Tree, x: Loc, y: Loc, recursive: bool)
    requires y <= x
  {
    var z := Reentry(x, y);
    z in Covers(t, x, recursive) && z in t && IsCopied(t[z])
  }

  lemma {:induction false} SourceIsReached(x: Loc, y: Loc)
    requires y <= x
    ensures Original(x, y, x) == Reentry(x, y)
  {}

  lemma {:induction false} CoveredExists(t: Tree, x: Loc, z: Loc, recursive: bool)
    requires z in Covers(t, x, recursive)
    ensures z in t && x <= z
  {}

  lemma {:induction false} ReentryOnTheWay(t: Tree, x: Loc, y: Loc, w: Loc, recursive: bool)
    requires WellFormed(t) && y <= x && x <= w && IsCopy(t, x, y, Covers(t, x, recursive), w)
    ensures Reenters(t, x, y, recursive)
  {
    hide WellFormed, Covers;
    var z, o := Reentry(x, y), Original(x, y, w);
    assert w[|y|..] == x[|y|..] + w[|x|..] by { assert w == x + w[|x|..]; }
    assert o == z + w[|x|..];
    PrefixesExist(t, o, z);
    if |z| == |o| {
      assert z == o;
    } else {
      ReentryCovered(t, x, z, o, recursive);
    }
  }

  lemma {:induction false} ReentryCovered(t: Tree, x: Loc, z: Loc, o: Loc, recursive: bool)
    requires o in Covers(t, x, recursive) && z in t && x <= z && z < o
    ensures z in Covers(t, x, recursive)
  {
    if |z| == |x| { assert z == x; }
  }

  // ------------------------------------------------------ the loop's state

  /** The copy so far, with todo still to be dealt with. When the target is compatible at
      the start and no call failed, the tree is exactly the mirror of the rest. */
  ghost predicate CopyState(t0: Tree, t: Tree, x: Loc, y: Loc, recursive: bool, todo: set<Loc>, broken: bool) {
    && WellFormed(t) && OnlyCopies(t0, t, x, y, Covers(t0, x, recursive) - todo) && KeepsKinds(t0, t)
    && (!broken && Compatible(t0, x, y, Covers(t0, x, recursive)) ==>
          Mirrored(t0, t, x, y, Covers(t0, x, recursive) - todo))
  }

  /** What is still to be copied stays as it was. */
  lemma {:induction false} SourceUnchanged(t0: Tree, t: Tree, x: Loc, y: Loc, all: set<Loc>, done: set<Loc>, rel: Loc)
    requires Separate(t0, x, y, all) && done <= all && OnlyCopies(t0, t, x, y, done) && x + rel !in done
    ensures x + rel in t <==> x + rel in t0
    ensures x + rel in t ==> t[x + rel] == t0[x + rel]
  {
    assert x <= x + rel;
    assert IsCopy(t0, x, y, done, x + rel) ==> IsCopy(t0, x, y, all, x + rel);
    if x == y { OriginalInverse(x, y, x + rel, rel); }
    assert !IsCopy(t0, x, y, done, x + rel);
  }

  lemma {:induction false} KindsKeepWays(t0: Tree, t: Tree, cwd: Loc, path: string)
    requires KeepsKinds(t0, t) && WayOpen(t0, cwd, path)
    ensures WayOpen(t, cwd, path)
  {
    hide Route;
  }

  lemma {:induction false} ParentIsDone(t0: Tree, x: Loc, recursive: bool, left: set<Loc>, rel: Loc)
    requires WellFormed(t0) && x in t0 && rel != [] && x + rel in Covers(t0, x, recursive)
    requires NoneAbove(left, x + rel)
    ensures Parent(x + rel) in Covers(t0, x, recursive) - (left + {x + rel})
  {
    var z := x + rel;
    var up := Parent(z);
    assert up < z && up in t0;
    if |rel| == 1 {
      assert up == x;
    } else {
      assert Under(recursive, x, z);
      assert up[..|x|] == x;
      assert x < up;
    }
  }

  lemma {:induction false} CopyOne(t0: Tree, t: Tree, x: Loc, y: Loc, recursive: bool, left: set<Loc>, rel: Loc)
    requires x + rel in t0 && x + rel in Covers(t0, x, recursive) && x + rel !in left
    requires Mirrored(t0, t, x, y, Covers(t0, x, recursive) - (left + {x + rel}))
    ensures Mirrored(t0, if IsCopied(t0[x + rel]) then t[y + rel := Written(x, y, t0[x + rel])] else t, x, y,
                     Covers(t0, x, recursive) - left)
  {
    hide Mirrored, Covers;
    var all := Covers(t0, x, recursive);
    MirrorMore(t0, t, x, y, all - (left + {x + rel}), rel);
    assert all - (left + {x + rel}) + {x + rel} == all - left;
  }
}
