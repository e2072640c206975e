/** A finite file tree and the system calls that file_util_posix.cc makes on it. */
module FileSystem {
  import opened FilePath
  import opened PathComponents
  import Sets

  /** A place in the tree: the names from the root down. */
  type Loc = seq<string>

  /** A symbolic link leads to something that is no directory, or to nothing. */
  datatype Node = Directory | Regular(content: nat) | Link(dangling: bool) | Special

  const EMPTY := Regular(0)

  type Tree = map<Loc, Node>

  datatype Entry = Entry(name: string, node: Node)

  predicate IsName(b: string) { IsPiece(b) && b != CURRENT && b != PARENT }

  function Parent(x: Loc): Loc
    requires x != []
  {
    x[..|x|-1]
  }

  ghost predicate WellFormed(t: Tree) {
    && [] in t && t[[]] == Directory
    && forall x :: x in t && x != [] ==> Parent(x) in t && t[Parent(x)] == Directory && IsName(x[|x|-1])
  }

  lemma {:induction false} PrefixesExist(t: Tree, x: Loc, y: Loc)
    requires WellFormed(t) && x in t && y <= x
    ensures y in t && (y < x ==> t[y] == Directory)
    decreases |x|
  {
    if |y| == |x| {
      assert y == x;
    } else {
      assert y <= Parent(x) && (|y| == |Parent(x)| ==> y == Parent(x));
      PrefixesExist(t, Parent(x), y);
    }
  }

  // ------------------------------------------------- resolving paths

  function Enter(x: Loc, piece: string): Loc {
    if piece == CURRENT then x
    else if piece == PARENT then (if x == [] then x else Parent(x))
    else x + [piece]
  }

  function Resolve(base: Loc, pieces: seq<string>): Loc {
    if pieces == [] then base
    else Enter(Resolve(base, pieces[..|pieces|-1]), pieces[|pieces|-1])
  }

  /** The places passed through before the last piece, the first one included. */
  function Visited(base: Loc, pieces: seq<string>): set<Loc> {
    if pieces == [] then {}
    else Visited(base, pieces[..|pieces|-1]) + {Resolve(base, pieces[..|pieces|-1])}
  }

  function Base(cwd: Loc, path: string): Loc { if IsAbsolute(path) then [] else cwd }

  /** The place that a path spells from the working directory, if it can be reached. */
  function Locate(cwd: Loc, path: string): Loc { Resolve(Base(cwd, path), Pieces(path)) }

  function Route(cwd: Loc, path: string): set<Loc> { Visited(Base(cwd, path), Pieces(path)) }

  predicate IsDirectory(t: Tree, x: Loc) { x in t && t[x] == Directory }

  predicate EndsInSeparator(path: string) { path != "" && path[|path|-1] == SEPARATOR }

  /** Every place on the path's way is a directory. */
  predicate WayOpen(t: Tree, cwd: Loc, path: string) {
    forall v :: v in Route(cwd, path) ==> IsDirectory(t, v)
  }

  /** Pathname resolution: every piece, "." and ".." included, is looked up in an existing
      directory, and what has a separator behind it must not be anything else. */
  predicate Reaches(t: Tree, cwd: Loc, path: string) {
    && path != "" && WayOpen(t, cwd, path)
    && (EndsInSeparator(path) && Locate(cwd, path) in t ==> IsDirectory(t, Locate(cwd, path)))
  }

  predicate Exists(t: Tree, cwd: Loc, path: string) { Reaches(t, cwd, path) && Locate(cwd, path) in t }

  /** The path leads to something also when a link at its end is followed. */
  predicate Answers(t: Tree, cwd: Loc, path: string) {
    Exists(t, cwd, path) && !(t[Locate(cwd, path)].Link? && t[Locate(cwd, path)].dangling)
  }

  predicate Opens(t: Tree, cwd: Loc, path: string) {
    path != "" && forall v :: v in Route(cwd, path) + {Locate(cwd, path)} ==> IsDirectory(t, v)
  }

  lemma {:induction false} OpenWay(t: Tree, cwd: Loc, path: string)
    ensures Opens(t, cwd, path) ==> WayOpen(t, cwd, path)
  {
    hide Locate, Route;
    assert forall v :: v in Route(cwd, path) ==> v in Route(cwd, path) + {Locate(cwd, path)};
  }

  lemma {:induction false} OpensExactly(t: Tree, cwd: Loc, path: string)
    ensures Opens(t, cwd, path) <==> Exists(t, cwd, path) && t[Locate(cwd, path)] == Directory
    ensures Opens(t, cwd, path) ==> Answers(t, cwd, path)
  {
    hide Locate, Route;
    assert forall v :: v in Route(cwd, path) + {Locate(cwd, path)} <==> v in Route(cwd, path) || v == Locate(cwd, path);
  }

  lemma {:induction false} LocateStrip(cwd: Loc, path: string)
    ensures Locate(cwd, Strip(path)) == Locate(cwd, path) && Route(cwd, Strip(path)) == Route(cwd, path)
    ensures Strip(path) == "" <==> path == ""
  {
    PiecesOfStrip(path);
    StripKinds(path);
  }

  lemma {:induction false} LocateName(cwd: Loc, b: string)
    requires IsName(b)
    ensures Locate(cwd, b) == cwd + [b] && Route(cwd, b) == {cwd}
  {
    PiecesOfPiece(b);
    ResolveSnoc(cwd, [], b);
    assert [] + [b] == [b];
  }

  lemma {:induction false} LocateNothing(cwd: Loc, d: string)
    requires d == "" || d == CURRENT
    ensures Locate(cwd, d) == cwd && Route(cwd, d) + {cwd} == {cwd}
  {
    hide Pieces, Resolve, Visited;
    assert Resolve(cwd, []) == cwd && Visited(cwd, []) == {} by { RouteStart(cwd); }
    if d == CURRENT {
      PiecesOfPiece(CURRENT);
      ResolveSnoc(cwd, [], CURRENT);
      assert [] + [CURRENT] == [CURRENT];
    } else {
      assert Pieces(d) == [] by { PiecesOfSeparators(d); }
    }
  }

  lemma {:induction false} RouteStart(base: Loc)
    ensures Resolve(base, []) == base && Visited(base, []) == {}
  {}

  lemma {:induction false} LocateGlued(cwd: Loc, p: string, b: string)
    requires p != "" && IsName(b)
    ensures Locate(cwd, p + Glue(p) + b) == Locate(cwd, p) + [b]
    ensures Route(cwd, p + Glue(p) + b) == Route(cwd, p) + {Locate(cwd, p)}
  {
    GlueIsSeparator(p, b);
    ResolveSnoc(Base(cwd, p), Pieces(p), b);
  }

  /** Appending a name to a path goes down by that name, through where the path led. */
  lemma {:induction false} LocateAppend(cwd: Loc, d: string, b: string)
    requires IsName(b)
    ensures Locate(cwd, Append(d, b)) == Locate(cwd, d) + [b] && Append(d, b) != ""
    ensures Route(cwd, Append(d, b)) == Route(cwd, d) + {Locate(cwd, d)}
  {
    hide Locate, Route, Pieces, Trim;
    if d == CURRENT || d == "" {
      assert Append(d, b) == b by { assert "" + b == b; }
      LocateName(cwd, b);
      LocateNothing(cwd, d);
    } else {
      AppendShape(d, b);
      LocateStrip(cwd, d);
      StripKinds(d);
      LocateGlued(cwd, Strip(d), b);
    }
  }

  lemma {:induction false} AppendedHasNoSeparator(root: string, name: string)
    requires IsName(name)
    ensures !EndsInSeparator(Append(root, name))
  {
    var p := Append(root, name);
    assert p[|p|-1] == name[|name|-1];
  }

  lemma {:induction false} OpensAppend(t: Tree, cwd: Loc, d: string, b: string)
    requires Opens(t, cwd, d) && IsName(b) && IsDirectory(t, Locate(cwd, d) + [b])
    ensures Opens(t, cwd, Append(d, b))
  {
    hide Locate, Route, Append;
    LocateAppend(cwd, d, b);
  }

  lemma {:induction false} OpensStrip(t: Tree, cwd: Loc, path: string)
    ensures Opens(t, cwd, Strip(path)) <==> Opens(t, cwd, path)
  {
    hide Locate, Route, Strip;
    LocateStrip(cwd, path);
  }

  lemma {:induction false} ResolveSnoc(base: Loc, ps: seq<string>, b: string)
    ensures Resolve(base, ps + [b]) == Enter(Resolve(base, ps), b)
    ensures Visited(base, ps + [b]) == Visited(base, ps) + {Resolve(base, ps)}
  {
    assert (ps + [b])[..|ps|] == ps;
  }

  // ------------------------------------------------------ system calls

  ghost predicate IsEmpty(t: Tree, x: Loc) {
    forall y :: y in t ==> !(x < y)
  }

  predicate Listed(entries: seq<Entry>, b: string) {
    exists i :: 0 <= i < |entries| && entries[i].name == b
  }

  /** What opendir and readdir give: every child once and the two dot entries, in any order. */
  ghost predicate IsListing(t: Tree, x: Loc, entries: seq<Entry>) {
    && (forall i, j :: 0 <= i < j < |entries| ==> entries[i].name != entries[j].name)
    && (forall i :: 0 <= i < |entries| ==> EntryOk(t, x, entries[i]))
    && (forall b :: x + [b] in t ==> Listed(entries, b))
  }

  datatype StatResult = Found(node: Node) | Missing | Unreadable
  datatype MakeResult = Made | AlreadyThere | NotMade

  class Disk {
    var tree: Tree
    const cwd: Loc
    /** A faulty disk may refuse any call for reasons outside this model. */
    const faulty: bool

    constructor (tree: Tree, cwd: Loc, faulty: bool)
      ensures this.tree == tree && this.cwd == cwd && this.faulty == faulty
    {
      this.tree, this.cwd, this.faulty := tree, cwd, faulty;
    }

    method Refuses() returns (r: bool)
      ensures r ==> faulty
    {
      r := *;
      r := r && faulty;
    }

    /** stat, which follows a link at the end of the path. */
    method Stat(path: string) returns (r: StatResult)
      ensures r.Found? ==> Answers(tree, cwd, path)
      ensures r.Found? && !tree[Locate(cwd, path)].Link? ==> r.node == tree[Locate(cwd, path)]
      ensures r.Found? && tree[Locate(cwd, path)].Link? ==> r.node != Directory
      ensures r.Missing? ==> !Answers(tree, cwd, path)
      ensures r.Unreadable? ==> faulty && Answers(tree, cwd, path)
    {
      var refused := Refuses();
      var x := Locate(cwd, path);
      r := if !Answers(tree, cwd, path) then Missing
           else if refused then Unreadable
           else Found(if tree[x].Link? then Special else tree[x]);
    }

    method Unlink(path: string) returns (ok: bool)
      modifies this`tree
      ensures var x := Locate(cwd, path);
              var may := Exists(old(tree), cwd, path) && old(tree)[x] != Directory;
              (ok ==> may) && (may ==> ok || faulty) && tree == if ok then old(tree) - {x} else old(tree)
    {
      var refused := Refuses();
      var x := Locate(cwd, path);
      ok := Exists(tree, cwd, path) && tree[x] != Directory && !refused;
      if ok { tree := tree - {x}; }
    }

    /** Fails for the root, for a path that ends in "." or "..", and if there is anything in it. */
    method Rmdir(path: string) returns (ok: bool)
      modifies this`tree
      ensures ok ==> CanRemove(old(tree), cwd, path)
      ensures CanRemove(old(tree), cwd, path) ==> ok || faulty
      ensures tree == if ok then old(tree) - {Locate(cwd, path)} else old(tree)
    {
      var refused := Refuses();
      OpensExactly(tree, cwd, path);
      var empty := IsEmptyDirectory(Locate(cwd, path));
      ok := RemovablePath(cwd, path) && Opens(tree, cwd, path) && empty && !refused;
      if ok { tree := tree - {Locate(cwd, path)}; }
    }

    method IsEmptyDirectory(x: Loc) returns (r: bool)
      ensures r == (x in tree && tree[x] == Directory && IsEmpty(tree, x))
    {
      r := x in tree && tree[x] == Directory && forall y | y in tree.Keys :: !(x < y);
    }

    method Mkdir(path: string) returns (r: MakeResult)
      modifies this`tree
      ensures var x := Locate(cwd, path);
              && (r == AlreadyThere ==> Exists(old(tree), cwd, path))
              && (Exists(old(tree), cwd, path) ==> r == AlreadyThere || faulty)
              && (r == Made ==> CanMake(old(tree), cwd, path))
              && (CanMake(old(tree), cwd, path) ==> r == Made || faulty)
              && tree == if r == Made then old(tree)[x := Directory] else old(tree)
    {
      var refused := Refuses();
      var x := Locate(cwd, path);
      if refused {
        r := NotMade;
      } else if Reaches(tree, cwd, path) && x in tree {
        r := AlreadyThere;
      } else if CanMake(tree, cwd, path) {
        r := Made;
        tree := tree[x := Directory];
      } else {
        r := NotMade;
      }
    }

    /** CopyFile: the target takes the source's content, unless it is the source, which
        is empty by the time it is read. */
    method CopyFile(from: string, to: string) returns (ok: bool)
      modifies this`tree
      ensures var x, y := Locate(cwd, from), Locate(cwd, to);
              && (ok ==> CanCopy(old(tree), cwd, from, to))
              && (CanCopy(old(tree), cwd, from, to) ==> ok || faulty)
              && tree == if ok then old(tree)[y := if x == y then EMPTY else old(tree)[x]] else old(tree)
    {
      var refused := Refuses();
      ok := CanCopy(tree, cwd, from, to) && !refused;
      var x, y := Locate(cwd, from), Locate(cwd, to);
      if ok { tree := tree[y := if x == y then EMPTY else tree[x]]; }
    }

    method ReadDirectory(path: string) returns (ok: bool, entries: seq<Entry>)
      requires WellFormed(tree)
      ensures ok ==> Opens(tree, cwd, path) && IsListing(tree, Locate(cwd, path), entries)
      ensures !ok ==> faulty || !Opens(tree, cwd, path)
    {
      var refused := Refuses();
      ok := Opens(tree, cwd, path) && !refused;
      entries := [];
      if ok {
        entries := List(tree, Locate(cwd, path));
      }
    }
  }

  predicate EntryOk(t: Tree, x: Loc, e: Entry) {
    if e.name == CURRENT || e.name == PARENT then e.node == Directory
    else x + [e.name] in t && e.node == t[x + [e.name]]
  }

  function ChildNames(t: Tree, x: Loc): (names: set<string>)
    ensures forall b :: b in names <==> x + [b] in t
  {
    var names := set y | y in t && |y| == |x| + 1 && x < y :: y[|x|];
    assert forall b :: x + [b] in t ==> (x + [b])[|x|] == b;
    assert forall y :: y in t && |y| == |x| + 1 && x < y ==> x + [y[|x|]] == y;
    names
  }

  method InSomeOrder(names: set<string>) returns (xs: seq<string>)
    ensures forall i, j :: 0 <= i < j < |xs| ==> xs[i] != xs[j]
    ensures forall b :: b in xs <==> b in names
  {
    var left := names;
    xs := [];
    while left != {}
      invariant left <= names && forall b :: b in names <==> b in left || b in xs
      invariant forall b :: b in left ==> b !in xs
      invariant forall i, j :: 0 <= i < j < |xs| ==> xs[i] != xs[j]
      decreases left
    {
      Sets.NonEmpty(left);
      var b :| b in left;
      xs := xs + [b];
      left := left - {b};
    }
  }

  method List(t: Tree, x: Loc) returns (entries: seq<Entry>)
    requires WellFormed(t)
    ensures IsListing(t, x, entries)
  {
    var names := ChildNames(t, x) + {CURRENT, PARENT};
    var xs := InSomeOrder(names);
    entries := seq(|xs|, i requires 0 <= i < |xs| =>
                         Entry(xs[i], if xs[i] in ChildNames(t, x) then t[x + [xs[i]]] else Directory));
    forall i | 0 <= i < |entries| ensures EntryOk(t, x, entries[i]) {
      NoDotEntries(t, x);
      assert xs[i] in xs;
    }
    forall b | x + [b] in t ensures Listed(entries, b) {
      assert b in names && b in xs;
      var i :| 0 <= i < |xs| && xs[i] == b;
      assert entries[i].name == b;
    }
  }

  lemma {:induction false} NoDotEntries(t: Tree, x: Loc)
    requires WellFormed(t)
    ensures x + [CURRENT] !in t && x + [PARENT] !in t
  {
    assert (x + [CURRENT])[|x|] == CURRENT && (x + [PARENT])[|x|] == PARENT;
  }

  /** What rmdir demands of the path itself: no root, and no "." or ".." at the end. */
  predicate RemovablePath(cwd: Loc, path: string) {
    && path != "" && Locate(cwd, path) != []
    && Pieces(path) != [] && Pieces(path)[|Pieces(path)|-1] !in {CURRENT, PARENT}
  }

  ghost predicate CanRemove(t: Tree, cwd: Loc, path: string) {
    RemovablePath(cwd, path) && Opens(t, cwd, path) && IsEmpty(t, Locate(cwd, path))
  }

  /** mkdir needs an existing parent directory. */
  predicate CanMake(t: Tree, cwd: Loc, path: string) {
    var x := Locate(cwd, path);
    Reaches(t, cwd, path) && x !in t && x != [] && IsDirectory(t, Parent(x))
  }

  predicate CanCopy(t: Tree, cwd: Loc, from: string, to: string) {
    var x, y := Locate(cwd, from), Locate(cwd, to);
    && Exists(t, cwd, from) && t[x].Regular?
    && Reaches(t, cwd, to) && !EndsInSeparator(to) && y != [] && IsDirectory(t, Parent(y)) && (y in t ==> t[y].Regular?)
  }
}
