/** What a FileEnumerator still has to deliver, and what each step does to that. */
module Enumeration {
  import opened FilePath
  import opened PathComponents
  import opened FileSystem

  datatype FileType = FileType(files: bool, directories: bool)

  /** What stays fixed during an enumeration. */
  datatype Setup = Setup(cwd: Loc, recursive: bool, fileType: FileType, first: string, start: Loc)

  /** The fields of the enumerator. */
  datatype Cursor = Cursor(root: string, entries: seq<Entry>, pending: seq<string>)

  predicate Wanted(fileType: FileType, node: Node) {
    if node == Directory then fileType.directories else fileType.files
  }

  predicate Under(recursive: bool, p: Loc, x: Loc) {
    p < x && (recursive || |x| == |p| + 1)
  }

  predicate Unrelated(x: Loc, y: Loc) { !(x <= y) && !(y <= x) }

  function EntryLoc(s: Setup, c: Cursor, k: nat): Loc
    requires k < |c.entries|
  {
    Locate(s.cwd, c.root) + [c.entries[k].name]
  }

  function PendingLoc(s: Setup, c: Cursor, i: nat): Loc
    requires i < |c.pending|
  {
    Locate(s.cwd, c.pending[i])
  }

  /** Entry x is still in the list of the current directory, at position n or later. */
  predicate IsUnread(s: Setup, c: Cursor, n: nat, x: Loc) {
    exists k :: n <= k < |c.entries| && EntryLoc(s, c, k) == x
  }

  predicate IsPending(s: Setup, t: Tree, c: Cursor, x: Loc) {
    && x in t && Wanted(s.fileType, t[x])
    && exists i :: 0 <= i < |c.pending| && Opens(t, s.cwd, c.pending[i]) && Under(s.recursive, PendingLoc(s, c, i), x)
  }

  ghost function Remaining(s: Setup, t: Tree, c: Cursor, n: nat): set<Loc> {
    set x | x in t && (IsUnread(s, c, n, x) || IsPending(s, t, c, x))
  }

  /** What an enumeration has to deliver: the wanted nodes below its root. */
  ghost function Due(t: Tree, cwd: Loc, root: string, recursive: bool, fileType: FileType): set<Loc> {
    set x | Opens(t, cwd, root) && x in t && Wanted(fileType, t[x]) && Under(recursive, Locate(cwd, root), x)
  }

  ghost predicate EntriesOk(s: Setup, t: Tree, c: Cursor, n: nat) {
    && (forall k :: n <= k < |c.entries| ==>
          && IsName(c.entries[k].name) && EntryLoc(s, c, k) in t
          && t[EntryLoc(s, c, k)] == c.entries[k].node && Wanted(s.fileType, c.entries[k].node))
    && (forall j, k :: 0 <= j < k < |c.entries| ==> c.entries[j].name != c.entries[k].name)
    && (n < |c.entries| ==> s.start <= Locate(s.cwd, c.root))
  }

  ghost predicate PendingOk(s: Setup, c: Cursor) {
    && (forall i, j :: 0 <= i < j < |c.pending| ==> Unrelated(PendingLoc(s, c, i), PendingLoc(s, c, j)))
    && (forall i :: 0 <= i < |c.pending| ==> s.start <= PendingLoc(s, c, i))
  }

  /** Every pending path but the first was found as a directory. */
  ghost predicate OpenOk(s: Setup, t: Tree, c: Cursor) {
    forall i :: 0 <= i < |c.pending| ==> c.pending[i] == s.first || Opens(t, s.cwd, c.pending[i])
  }

  ghost predicate ApartOk(s: Setup, c: Cursor, n: nat) {
    n < |c.entries| ==> forall i :: 0 <= i < |c.pending| ==> !(PendingLoc(s, c, i) <= Locate(s.cwd, c.root))
  }

  /** A path that appending to it only lengthens: stripped, not empty and not ".". */
  predicate IsStem(d: string) { d != "" && d != CURRENT && Strip(d) == d }

  /** Path p is d with names appended. */
  ghost predicate Rooted(d: string, p: string) {
    exists names: seq<string> :: AllNames(names) && p == AppendAll(d, names)
  }

  predicate AllNames(names: seq<string>) {
    forall b :: b in names ==> IsName(b)
  }

  /** From a stem, all paths are that path with names appended. */
  ghost predicate ShapesOk(s: Setup, c: Cursor, n: nat) {
    IsStem(s.first) ==>
      && (forall p :: p in c.pending ==> Rooted(s.first, p))
      && (n < |c.entries| ==> Rooted(s.first, c.root))
  }

  /** Beyond the first path's own way, path p leads straight down from the start. */
  predicate StraightDown(s: Setup, p: string) {
    forall v :: v in Route(s.cwd, p) ==> v in Route(s.cwd, s.first) || (s.start <= v && v < Locate(s.cwd, p))
  }

  ghost predicate WaysOk(s: Setup, c: Cursor, n: nat) {
    && (forall i :: 0 <= i < |c.pending| ==> StraightDown(s, c.pending[i]))
    && (n < |c.entries| ==> StraightDown(s, c.root))
  }

  /** The enumerator's invariant; entries from position n on are unread. */
  ghost predicate Good(s: Setup, t: Tree, c: Cursor, n: nat) {
    EntriesOk(s, t, c, n) && PendingOk(s, c) && OpenOk(s, t, c) && ApartOk(s, c, n) && ShapesOk(s, c, n)
    && WaysOk(s, c, n)
  }

  lemma {:induction false} AppendAllSnoc(d: string, names: seq<string>, b: string)
    ensures AppendAll(d, names + [b]) == Append(AppendAll(d, names), b)
    decreases |names|
  {
    hide Append;
    if names == [] {
      assert [b][1..] == [];
    } else {
      assert (names + [b])[1..] == names[1..] + [b];
      AppendAllSnoc(Append(d, names[0]), names[1..], b);
    }
  }

  lemma {:induction false} RootedAppend(d: string, p: string, b: string)
    requires Rooted(d, p) && IsName(b)
    ensures Rooted(d, Append(p, b))
  {
    hide Append, AppendAll;
    var names: seq<string> :| AllNames(names) && p == AppendAll(d, names);
    AppendAllSnoc(d, names, b);
    assert AllNames(names + [b]);
  }

  lemma {:induction false} RootedSelf(d: string)
    ensures Rooted(d, d)
  {
    assert AllNames([]) && d == AppendAll(d, []);
  }

  lemma {:induction false} StraightAppend(s: Setup, p: string, b: string)
    requires StraightDown(s, p) && s.start <= Locate(s.cwd, p) && IsName(b)
    ensures StraightDown(s, Append(p, b))
  {
    hide Locate, Route, Append;
    LocateAppend(s.cwd, p, b);
  }

  lemma {:induction false} StraightStrip(s: Setup, p: string)
    ensures StraightDown(s, Strip(p)) <==> StraightDown(s, p)
  {
    hide Locate, Route, Strip;
    LocateStrip(s.cwd, p);
  }

  lemma {:induction false} StemAppend(d: string, b: string)
    requires IsStem(d) && IsName(b)
    ensures IsStem(Append(d, b))
  {
    AppendIsStripped(d, b);
  }

  lemma {:induction false} StemAppendAll(d: string, names: seq<string>)
    requires IsStem(d) && AllNames(names)
    ensures IsStem(AppendAll(d, names))
    decreases |names|
  {
    hide Append, IsStem, IsName;
    if names != [] {
      StemAppend(d, names[0]);
      StemAppendAll(Append(d, names[0]), names[1..]);
    }
  }

  lemma {:induction false} RootedIsStem(d: string, p: string)
    requires IsStem(d) && Rooted(d, p)
    ensures IsStem(p)
  {
    hide AppendAll, IsStem;
    var names: seq<string> :| AllNames(names) && p == AppendAll(d, names);
    StemAppendAll(d, names);
  }

  // --------------------------------------------------- reading a directory

  predicate IsDots(name: string) { name == CURRENT || name == PARENT }

  function Kept(fileType: FileType, es: seq<Entry>): seq<Entry> {
    if es == [] then []
    else
      var e := es[|es|-1];
      Kept(fileType, es[..|es|-1]) + if !IsDots(e.name) && Wanted(fileType, e.node) then [e] else []
  }

  function Pushed(recursive: bool, root: string, es: seq<Entry>): seq<string> {
    if es == [] then []
    else
      var e := es[|es|-1];
      Pushed(recursive, root, es[..|es|-1]) +
      if recursive && !IsDots(e.name) && e.node == Directory then [Append(root, e.name)] else []
  }

  /** The cursor after popping path p and reading its directory. */
  function AfterRead(s: Setup, c: Cursor, es: seq<Entry>): Cursor
    requires c.pending != []
  {
    var p := c.pending[|c.pending|-1];
    Cursor(Strip(p), Kept(s.fileType, es), c.pending[..|c.pending|-1] + Pushed(s.recursive, Strip(p), es))
  }

  lemma {:induction false} KeptMembers(fileType: FileType, es: seq<Entry>, e: Entry)
    ensures e in Kept(fileType, es) <==> e in es && !IsDots(e.name) && Wanted(fileType, e.node)
  {
    if es != [] {
      KeptMembers(fileType, es[..|es|-1], e);
      assert es == es[..|es|-1] + [es[|es|-1]];
    }
  }

  lemma {:induction false} KeptDistinct(fileType: FileType, es: seq<Entry>)
    requires forall i, j :: 0 <= i < j < |es| ==> es[i].name != es[j].name
    ensures forall i, j :: 0 <= i < j < |Kept(fileType, es)| ==>
              Kept(fileType, es)[i].name != Kept(fileType, es)[j].name
  {
    if es != [] {
      var init := es[..|es|-1];
      KeptDistinct(fileType, init);
      forall k | 0 <= k < |Kept(fileType, init)|
        ensures Kept(fileType, init)[k].name != es[|es|-1].name
      {
        var e := Kept(fileType, init)[k];
        KeptMembers(fileType, init, e);
        var i :| 0 <= i < |init| && init[i] == e;
      }
    }
  }

  /** Every pushed path is the appended name of a subdirectory entry, and different
      pushes come from different entries. */
  lemma {:induction false} PushedShape(recursive: bool, root: string, es: seq<Entry>, i: nat)
    returns (k: nat)
    requires i < |Pushed(recursive, root, es)|
    ensures recursive && k < |es| && !IsDots(es[k].name) && es[k].node == Directory
    ensures Pushed(recursive, root, es)[i] == Append(root, es[k].name)
    ensures i == |Pushed(recursive, root, es[..k])|
  {
    var init := es[..|es|-1];
    if i < |Pushed(recursive, root, init)| {
      k := PushedShape(recursive, root, init, i);
      assert init[..k] == es[..k];
    } else {
      k := |es| - 1;
    }
  }

  lemma {:induction false} PushedMembers(root: string, es: seq<Entry>, k: nat)
    requires k < |es| && !IsDots(es[k].name) && es[k].node == Directory
    ensures Append(root, es[k].name) in Pushed(true, root, es)
  {
    if k < |es| - 1 {
      PushedMembers(root, es[..|es|-1], k);
    }
  }

  lemma {:induction false} PushedLoc(s: Setup, t: Tree, x: Loc, root: string, es: seq<Entry>, i: nat) returns (k: nat)
    requires WellFormed(t) && Locate(s.cwd, root) == x && IsListing(t, x, es)
    requires i < |Pushed(s.recursive, root, es)|
    ensures s.recursive && k < |es| && IsName(es[k].name) && es[k].node == Directory && x + [es[k].name] in t
    ensures Locate(s.cwd, Pushed(s.recursive, root, es)[i]) == x + [es[k].name]
    ensures t[x + [es[k].name]] == Directory && Pushed(s.recursive, root, es)[i] == Append(root, es[k].name)
    ensures i == |Pushed(s.recursive, root, es[..k])|
  {
    k := PushedShape(s.recursive, root, es, i);
    assert EntryOk(t, x, es[k]);
    assert (x + [es[k].name])[|x|] == es[k].name;
    LocateAppend(s.cwd, root, es[k].name);
  }

  lemma {:induction false} AfterReadPending(s: Setup, c: Cursor, es: seq<Entry>, i: nat)
    requires c.pending != [] && i < |AfterRead(s, c, es).pending|
    ensures var old_n := |c.pending| - 1;
            AfterRead(s, c, es).pending[i] ==
              if i < old_n then c.pending[i] else Pushed(s.recursive, Strip(c.pending[old_n]), es)[i - old_n]
  {}

  lemma {:induction false} NamesDiffer(t: Tree, x: Loc, es: seq<Entry>, m: nat, k: nat)
    requires IsListing(t, x, es) && m < |es| && k < |es| && m != k
    ensures es[m].name != es[k].name
  {}

  lemma {:induction false} PairApart(s: Setup, t: Tree, c: Cursor, es: seq<Entry>, i: nat, j: nat)
    requires WellFormed(t) && c.pending != [] && PendingOk(s, c)
    requires IsListing(t, PendingLoc(s, c, |c.pending| - 1), es)
    requires i < j < |AfterRead(s, c, es).pending|
    ensures Unrelated(PendingLoc(s, AfterRead(s, c, es), i), PendingLoc(s, AfterRead(s, c, es), j))
  {
    hide Locate, Append, Strip, Kept, Pushed, Unrelated, IsListing, WellFormed, IsName;
    var n := |c.pending| - 1;
    var x := PendingLoc(s, c, n);
    var root := Strip(c.pending[n]);
    LocateStrip(s.cwd, c.pending[n]);
    AfterReadPending(s, c, es, i);
    AfterReadPending(s, c, es, j);
    if j < n {
      assert Unrelated(PendingLoc(s, c, i), PendingLoc(s, c, j));
    } else {
      var k := PushedLoc(s, t, x, root, es, j - n);
      if i < n {
        assert Unrelated(PendingLoc(s, c, i), PendingLoc(s, c, n));
        UnrelatedChild(PendingLoc(s, c, i), x, es[k].name);
      } else {
        var m := PushedLoc(s, t, x, root, es, i - n);
        NamesDiffer(t, x, es, m, k);
        SiblingsUnrelated(x, es[m].name, es[k].name);
      }
    }
  }

  lemma {:induction false} ReadPendingOk(s: Setup, t: Tree, c: Cursor, es: seq<Entry>)
    requires WellFormed(t) && c.pending != [] && PendingOk(s, c)
    requires IsListing(t, PendingLoc(s, c, |c.pending| - 1), es)
    ensures PendingOk(s, AfterRead(s, c, es))
    ensures forall i :: 0 <= i < |AfterRead(s, c, es).pending| ==>
              !(PendingLoc(s, AfterRead(s, c, es), i) <= PendingLoc(s, c, |c.pending| - 1))
  {
    hide Locate, Append, Strip, Kept, Pushed, IsListing, WellFormed, IsName;
    var n := |c.pending| - 1;
    var x := PendingLoc(s, c, n);
    var a := AfterRead(s, c, es);
    LocateStrip(s.cwd, c.pending[n]);
    forall i | 0 <= i < |a.pending|
      ensures !(PendingLoc(s, a, i) <= x) && s.start <= PendingLoc(s, a, i)
    {
      AfterReadPending(s, c, es, i);
      if i < n {
        assert Unrelated(PendingLoc(s, c, i), PendingLoc(s, c, n));
      } else {
        var k := PushedLoc(s, t, x, a.root, es, i - n);
      }
    }
    forall i, j | 0 <= i < j < |a.pending|
      ensures Unrelated(PendingLoc(s, a, i), PendingLoc(s, a, j))
    {
      PairApart(s, t, c, es, i, j);
    }
  }

  lemma {:induction false} UnrelatedChild(o: Loc, x: Loc, b: string)
    requires Unrelated(o, x)
    ensures Unrelated(o, x + [b])
  {
    assert (x + [b])[..|x|] == x;
  }

  lemma {:induction false} SiblingsUnrelated(x: Loc, b: string, d: string)
    requires b != d
    ensures Unrelated(x + [b], x + [d])
  {
    assert (x + [b])[|x|] == b && (x + [d])[|x|] == d;
  }

  lemma {:induction false} ReadEntriesOk(s: Setup, t: Tree, c: Cursor, es: seq<Entry>)
    requires WellFormed(t) && c.pending != [] && PendingOk(s, c)
    requires IsListing(t, PendingLoc(s, c, |c.pending| - 1), es)
    ensures EntriesOk(s, t, AfterRead(s, c, es), 0)
  {
    hide Locate, Append, Strip;
    var x := PendingLoc(s, c, |c.pending| - 1);
    var a := AfterRead(s, c, es);
    LocateStrip(s.cwd, c.pending[|c.pending|-1]);
    KeptDistinct(s.fileType, es);
    forall k | 0 <= k < |a.entries|
      ensures IsName(a.entries[k].name) && EntryLoc(s, a, k) in t
      ensures t[EntryLoc(s, a, k)] == a.entries[k].node && Wanted(s.fileType, a.entries[k].node)
    {
      var e := a.entries[k];
      KeptMembers(s.fileType, es, e);
      var j :| 0 <= j < |es| && es[j] == e;
      assert EntryOk(t, x, es[j]);
      assert (x + [e.name])[|x|] == e.name;
    }
  }

  lemma {:induction false} PushedOpens(s: Setup, t: Tree, c: Cursor, es: seq<Entry>, i: nat)
    requires WellFormed(t) && c.pending != [] && Opens(t, s.cwd, c.pending[|c.pending|-1])
    requires IsListing(t, PendingLoc(s, c, |c.pending| - 1), es)
    requires |c.pending| - 1 <= i < |AfterRead(s, c, es).pending|
    ensures Opens(t, s.cwd, AfterRead(s, c, es).pending[i])
  {
    hide Locate, Route, Append, Strip, Kept, Pushed, Opens;
    var n := |c.pending| - 1;
    var root := Strip(c.pending[n]);
    LocateStrip(s.cwd, c.pending[n]);
    OpensStrip(t, s.cwd, c.pending[n]);
    AfterReadPending(s, c, es, i);
    var k := PushedLoc(s, t, PendingLoc(s, c, n), root, es, i - n);
    OpensAppend(t, s.cwd, root, es[k].name);
  }

  lemma {:induction false} ReadOpenOk(s: Setup, t: Tree, c: Cursor, es: seq<Entry>)
    requires WellFormed(t) && c.pending != [] && Opens(t, s.cwd, c.pending[|c.pending|-1]) && OpenOk(s, t, c)
    requires IsListing(t, PendingLoc(s, c, |c.pending| - 1), es)
    ensures OpenOk(s, t, AfterRead(s, c, es))
  {
    hide Locate, Strip, Kept, Pushed, Opens, IsListing, WellFormed;
    var a := AfterRead(s, c, es);
    forall i | 0 <= i < |a.pending| ensures a.pending[i] == s.first || Opens(t, s.cwd, a.pending[i]) {
      AfterReadPending(s, c, es, i);
      if i >= |c.pending| - 1 { PushedOpens(s, t, c, es, i); }
    }
  }

  lemma {:induction false} ReadWaysOk(s: Setup, t: Tree, c: Cursor, n: nat, es: seq<Entry>)
    requires WellFormed(t) && c.pending != [] && WaysOk(s, c, n) && PendingOk(s, c)
    requires IsListing(t, PendingLoc(s, c, |c.pending| - 1), es)
    ensures WaysOk(s, AfterRead(s, c, es), 0)
  {
    hide Locate, Append, Strip, Kept, Pushed, StraightDown, IsListing, WellFormed;
    var m := |c.pending| - 1;
    var a := AfterRead(s, c, es);
    StraightStrip(s, c.pending[m]);
    LocateStrip(s.cwd, c.pending[m]);
    forall i | 0 <= i < |a.pending| ensures StraightDown(s, a.pending[i]) {
      AfterReadPending(s, c, es, i);
      if i >= m {
        var k := PushedLoc(s, t, PendingLoc(s, c, m), a.root, es, i - m);
        StraightAppend(s, a.root, es[k].name);
      }
    }
  }

  lemma {:induction false} StemIsStripped(d: string)
    requires IsStem(d)
    ensures Strip(d) == d
  {}

  lemma {:induction false} ReadShapesOk(s: Setup, t: Tree, c: Cursor, n: nat, es: seq<Entry>)
    requires WellFormed(t) && c.pending != [] && ShapesOk(s, c, n)
    requires IsListing(t, PendingLoc(s, c, |c.pending| - 1), es)
    ensures ShapesOk(s, AfterRead(s, c, es), 0)
  {
    hide Locate, Append, Strip, Rooted, Kept, Pushed, IsStem, IsListing, WellFormed, IsName;
    var m := |c.pending| - 1;
    var p := c.pending[m];
    var a := AfterRead(s, c, es);
    if IsStem(s.first) {
      assert p in c.pending;
      RootedIsStem(s.first, p);
      StemIsStripped(p);
      LocateStrip(s.cwd, p);
      forall q | q in a.pending ensures Rooted(s.first, q) {
        var i :| 0 <= i < |a.pending| && a.pending[i] == q;
        AfterReadPending(s, c, es, i);
        if i < m {
          assert q in c.pending;
        } else {
          var k := PushedLoc(s, t, PendingLoc(s, c, m), a.root, es, i - m);
          RootedAppend(s.first, p, es[k].name);
        }
      }
    }
  }

  lemma {:induction false} ReadKeepsGood(s: Setup, t: Tree, c: Cursor, n: nat, es: seq<Entry>)
    requires WellFormed(t) && c.pending != [] && PendingOk(s, c) && OpenOk(s, t, c)
    requires ShapesOk(s, c, n) && WaysOk(s, c, n)
    requires Opens(t, s.cwd, c.pending[|c.pending|-1]) && IsListing(t, PendingLoc(s, c, |c.pending| - 1), es)
    ensures Good(s, t, AfterRead(s, c, es), 0)
  {
    hide Locate, Append, Strip, ShapesOk, OpenOk, Opens, WaysOk;
    ReadOpenOk(s, t, c, es);
    ReadWaysOk(s, t, c, n, es);
    ReadShapesOk(s, t, c, n, es);
    ReadEntriesOk(s, t, c, es);
    ReadPendingOk(s, t, c, es);
    LocateStrip(s.cwd, c.pending[|c.pending|-1]);
  }

  // ------------------------------------- reading moves nothing in or out

  /** Everything below a directory x is a child of x or lies below a subdirectory of x. */
  lemma {:induction false} BelowSplits(t: Tree, x: Loc, es: seq<Entry>, y: Loc) returns (k: nat)
    requires WellFormed(t) && IsListing(t, x, es) && y in t && x < y
    ensures k < |es| && es[k].name == y[|x|] && IsName(es[k].name) && x + [es[k].name] <= y
    ensures es[k].node == t[x + [es[k].name]]
    ensures |y| > |x| + 1 ==> es[k].node == Directory
  {
    var z := y[..|x|+1];
    StepDown(t, x, y);
    assert Listed(es, y[|x|]);
    k :| 0 <= k < |es| && es[k].name == y[|x|];
    assert EntryOk(t, x, es[k]);
  }

  /** The place just below x on the way to y. */
  lemma {:induction false} StepDown(t: Tree, x: Loc, y: Loc)
    requires WellFormed(t) && y in t && x < y
    ensures x + [y[|x|]] in t && IsName(y[|x|]) && x + [y[|x|]] <= y
    ensures |y| > |x| + 1 ==> t[x + [y[|x|]]] == Directory
  {
    hide WellFormed, IsName;
    var z := y[..|x|+1];
    PrefixesExist(t, y, z);
    assert z == x + [y[|x|]];
    LastIsName(t, z);
  }

  lemma {:induction false} LastIsName(t: Tree, x: Loc)
    requires WellFormed(t) && x in t && x != []
    ensures IsName(x[|x|-1])
  {}

  lemma {:induction false} ReadFindsChild(s: Setup, t: Tree, c: Cursor, es: seq<Entry>, k: nat)
    requires c.pending != [] && k < |es| && !IsDots(es[k].name) && Wanted(s.fileType, es[k].node)
    ensures IsUnread(s, AfterRead(s, c, es), 0, PendingLoc(s, c, |c.pending| - 1) + [es[k].name])
  {
    hide Locate, Append, Strip, Kept, Pushed;
    var a := AfterRead(s, c, es);
    LocateStrip(s.cwd, c.pending[|c.pending|-1]);
    KeptMembers(s.fileType, es, es[k]);
    var j :| 0 <= j < |a.entries| && a.entries[j] == es[k];
    assert EntryLoc(s, a, j) == PendingLoc(s, c, |c.pending| - 1) + [es[k].name];
  }

  lemma {:induction false} ReadFindsBelow(s: Setup, t: Tree, c: Cursor, es: seq<Entry>, k: nat) returns (i: nat)
    requires WellFormed(t) && c.pending != [] && Opens(t, s.cwd, c.pending[|c.pending|-1])
    requires IsListing(t, PendingLoc(s, c, |c.pending| - 1), es)
    requires s.recursive && k < |es| && IsName(es[k].name) && es[k].node == Directory
    ensures var a := AfterRead(s, c, es);
            && i < |a.pending| && Opens(t, s.cwd, a.pending[i])
            && PendingLoc(s, a, i) == PendingLoc(s, c, |c.pending| - 1) + [es[k].name]
  {
    hide Locate, Route, Append, Strip, Kept, Pushed, Opens, IsListing, WellFormed;
    var n := |c.pending| - 1;
    var root := Strip(c.pending[n]);
    LocateStrip(s.cwd, c.pending[n]);
    PushedMembers(root, es, k);
    var path := Append(root, es[k].name);
    var j :| 0 <= j < |Pushed(true, root, es)| && Pushed(true, root, es)[j] == path;
    LocateAppend(s.cwd, root, es[k].name);
    i := n + j;
    AfterReadPending(s, c, es, i);
    PushedOpens(s, t, c, es, i);
  }

  lemma {:induction false} ReadFinds(s: Setup, t: Tree, c: Cursor, es: seq<Entry>, y: Loc)
    requires WellFormed(t) && c.pending != [] && y in t && Wanted(s.fileType, t[y])
    requires Opens(t, s.cwd, c.pending[|c.pending|-1])
    requires IsListing(t, PendingLoc(s, c, |c.pending| - 1), es)
    requires Under(s.recursive, PendingLoc(s, c, |c.pending| - 1), y)
    ensures IsUnread(s, AfterRead(s, c, es), 0, y) || IsPending(s, t, AfterRead(s, c, es), y)
  {
    hide Locate, Opens, AfterRead, WellFormed, IsListing, Wanted, IsUnread;
    var x := PendingLoc(s, c, |c.pending| - 1);
    var k := BelowSplits(t, x, es, y);
    if |y| == |x| + 1 {
      assert y == x + [es[k].name];
      ReadFindsChild(s, t, c, es, k);
    } else {
      var i := ReadFindsBelow(s, t, c, es, k);
      assert Under(s.recursive, PendingLoc(s, AfterRead(s, c, es), i), y);
    }
  }

  lemma {:induction false} ReadEntryWasPending(s: Setup, t: Tree, c: Cursor, es: seq<Entry>, k: nat)
    requires WellFormed(t) && c.pending != [] && Opens(t, s.cwd, c.pending[|c.pending|-1]) && PendingOk(s, c)
    requires IsListing(t, PendingLoc(s, c, |c.pending| - 1), es) && k < |AfterRead(s, c, es).entries|
    ensures IsPending(s, t, c, EntryLoc(s, AfterRead(s, c, es), k))
  {
    hide Locate, Append, Strip, Kept, Pushed, IsListing, WellFormed, PendingOk, Opens, Wanted, IsName;
    LocateStrip(s.cwd, c.pending[|c.pending|-1]);
    ReadEntriesOk(s, t, c, es);
    assert Under(s.recursive, PendingLoc(s, c, |c.pending| - 1), EntryLoc(s, AfterRead(s, c, es), k));
  }

  lemma {:induction false} ReadPushWasPending(s: Setup, t: Tree, c: Cursor, es: seq<Entry>, i: nat, y: Loc)
    requires WellFormed(t) && c.pending != [] && Opens(t, s.cwd, c.pending[|c.pending|-1])
    requires IsListing(t, PendingLoc(s, c, |c.pending| - 1), es)
    requires i < |AfterRead(s, c, es).pending| && Opens(t, s.cwd, AfterRead(s, c, es).pending[i])
    requires Under(s.recursive, PendingLoc(s, AfterRead(s, c, es), i), y) && y in t && Wanted(s.fileType, t[y])
    ensures IsPending(s, t, c, y)
  {
    hide Locate, Append, Strip, Kept, Pushed, IsListing, WellFormed;
    var n := |c.pending| - 1;
    var x := PendingLoc(s, c, n);
    LocateStrip(s.cwd, c.pending[n]);
    AfterReadPending(s, c, es, i);
    if i < n {
      assert PendingLoc(s, AfterRead(s, c, es), i) == PendingLoc(s, c, i);
    } else {
      var k := PushedLoc(s, t, x, Strip(c.pending[n]), es, i - n);
      assert x <= x + [es[k].name];
      assert Under(s.recursive, x, y);
    }
  }

  lemma {:induction false} ReadAddsNothing(s: Setup, t: Tree, c: Cursor, es: seq<Entry>, y: Loc)
    requires WellFormed(t) && c.pending != [] && Opens(t, s.cwd, c.pending[|c.pending|-1]) && PendingOk(s, c)
    requires IsListing(t, PendingLoc(s, c, |c.pending| - 1), es)
    requires IsUnread(s, AfterRead(s, c, es), 0, y) || IsPending(s, t, AfterRead(s, c, es), y)
    ensures IsPending(s, t, c, y)
  {
    hide AfterRead, WellFormed, PendingOk, IsListing, Under, Wanted, EntryLoc, PendingLoc;
    var a := AfterRead(s, c, es);
    if IsUnread(s, a, 0, y) {
      var k :| 0 <= k < |a.entries| && EntryLoc(s, a, k) == y;
      ReadEntryWasPending(s, t, c, es, k);
    } else {
      var i :| 0 <= i < |a.pending| && Opens(t, s.cwd, a.pending[i]) && Under(s.recursive, PendingLoc(s, a, i), y);
      ReadPushWasPending(s, t, c, es, i, y);
    }
  }

  /** Reading a directory leaves what remains to be delivered as it was. */
  lemma {:induction false} ReadKeepsRemaining(s: Setup, t: Tree, c: Cursor, n: nat, es: seq<Entry>)
    requires WellFormed(t) && n >= |c.entries| && c.pending != [] && PendingOk(s, c)
    requires Opens(t, s.cwd, c.pending[|c.pending|-1]) && IsListing(t, PendingLoc(s, c, |c.pending| - 1), es)
    ensures Remaining(s, t, AfterRead(s, c, es), 0) == Remaining(s, t, c, n)
  {
    hide Locate, Append, Strip, Kept, Pushed, IsListing, WellFormed, Opens, PendingOk, Wanted, Under;
    var a := AfterRead(s, c, es);
    var m := |c.pending| - 1;
    forall y | y in t
      ensures IsUnread(s, a, 0, y) || IsPending(s, t, a, y) <==> IsPending(s, t, c, y)
    {
      if IsPending(s, t, c, y) {
        var i :| 0 <= i < |c.pending| && Opens(t, s.cwd, c.pending[i]) && Under(s.recursive, PendingLoc(s, c, i), y);
        if i < m {
          assert a.pending[i] == c.pending[i] && PendingLoc(s, a, i) == PendingLoc(s, c, i);
        } else {
          ReadFinds(s, t, c, es, y);
        }
      } else if IsUnread(s, a, 0, y) || IsPending(s, t, a, y) {
        ReadAddsNothing(s, t, c, es, y);
      }
    }
    assert forall y :: !IsUnread(s, c, n, y);
  }

  function Dropped(c: Cursor): Cursor
    requires c.pending != []
  {
    Cursor(Strip(c.pending[|c.pending|-1]), c.entries, c.pending[..|c.pending|-1])
  }

  /** A path that leads to no directory has nothing below it. */
  lemma {:induction false} DropKeepsRemaining(s: Setup, t: Tree, c: Cursor, n: nat)
    requires WellFormed(t) && n >= |c.entries| && c.pending != [] && PendingOk(s, c)
    ensures PendingOk(s, Dropped(c))
    ensures Remaining(s, t, Dropped(c), n) <= Remaining(s, t, c, n)
    ensures !Opens(t, s.cwd, c.pending[|c.pending|-1]) ==> Remaining(s, t, Dropped(c), n) == Remaining(s, t, c, n)
  {
    hide Locate, Strip, Opens, WellFormed, Wanted, Under, EntryLoc;
    var d := Dropped(c);
    var m := |c.pending| - 1;
    assert forall i :: 0 <= i < m ==> PendingLoc(s, d, i) == PendingLoc(s, c, i);
    forall y | IsPending(s, t, c, y)
      ensures IsPending(s, t, d, y) || Opens(t, s.cwd, c.pending[m])
    {
      var i :| 0 <= i < |c.pending| && Opens(t, s.cwd, c.pending[i]) && Under(s.recursive, PendingLoc(s, c, i), y);
      if i < m { assert d.pending[i] == c.pending[i]; }
    }
    forall y | IsPending(s, t, d, y) ensures IsPending(s, t, c, y) {
      var i :| 0 <= i < |d.pending| && Opens(t, s.cwd, d.pending[i]) && Under(s.recursive, PendingLoc(s, d, i), y);
      assert c.pending[i] == d.pending[i];
    }
  }

  // ------------------------------------------------ delivering an entry

  lemma {:induction false} BelowIsTransitive(x: Loc, y: Loc, z: Loc)
    ensures x < y && y < z ==> x < z
  {}

  predicate NoneAbove(xs: set<Loc>, x: Loc) {
    forall y :: y in xs ==> !(y < x)
  }

  /** Taking the next entry off the list delivers it once and before anything below it. */
  lemma {:induction false} DeliverEntry(s: Setup, t: Tree, c: Cursor, n: nat)
    requires n < |c.entries| && Good(s, t, c, n)
    ensures var x := EntryLoc(s, c, n);
            && x in Remaining(s, t, c, n)
            && Remaining(s, t, c, n + 1) == Remaining(s, t, c, n) - {x}
            && Good(s, t, c, n + 1)
            && NoneAbove(Remaining(s, t, c, n + 1), x)
  {
    hide Locate, Rooted;
    var x := EntryLoc(s, c, n);
    var d := Locate(s.cwd, c.root);
    assert IsUnread(s, c, n, x);
    forall k | n < k < |c.entries| ensures EntryLoc(s, c, k) != x {
      assert EntryLoc(s, c, k)[|d|] != x[|d|];
    }
    forall i | 0 <= i < |c.pending| ensures !(PendingLoc(s, c, i) < x) {
      assert x[..|d|] == d;
      assert !(PendingLoc(s, c, i) <= d);
    }
    forall y | y in Remaining(s, t, c, n + 1) ensures !(y < x) && y != x && y in Remaining(s, t, c, n) {
      if IsUnread(s, c, n + 1, y) {
        var k :| n + 1 <= k < |c.entries| && EntryLoc(s, c, k) == y;
      } else {
        var i :| 0 <= i < |c.pending| && Opens(t, s.cwd, c.pending[i]) && Under(s.recursive, PendingLoc(s, c, i), y);
        BelowIsTransitive(PendingLoc(s, c, i), y, x);
      }
    }
    forall y | y in Remaining(s, t, c, n) && y != x ensures y in Remaining(s, t, c, n + 1) {
      if IsUnread(s, c, n, y) {
        var k :| n <= k < |c.entries| && EntryLoc(s, c, k) == y;
        assert k != n;
      }
    }
  }

  lemma {:induction false} RemainingBelowStart(s: Setup, t: Tree, c: Cursor, n: nat, y: Loc)
    requires Good(s, t, c, n) && y in Remaining(s, t, c, n)
    ensures s.start < y
  {
    if IsUnread(s, c, n, y) {
      var k :| n <= k < |c.entries| && EntryLoc(s, c, k) == y;
      assert y[..|Locate(s.cwd, c.root)|] == Locate(s.cwd, c.root);
    } else {
      var i :| 0 <= i < |c.pending| && Opens(t, s.cwd, c.pending[i]) && Under(s.recursive, PendingLoc(s, c, i), y);
    }
  }

  /** An unread entry is of a kind that was asked for. */
  lemma {:induction false} EntryIsWanted(s: Setup, t: Tree, c: Cursor, n: nat)
    requires Good(s, t, c, n) && n < |c.entries|
    ensures if t[EntryLoc(s, c, n)] == Directory then s.fileType.directories else s.fileType.files
  {
    hide Locate, PendingOk, OpenOk, ApartOk, ShapesOk, WaysOk;
  }

  /** What is due, in terms of the tree and the two flags. */
  lemma {:induction false} DueMeans(t: Tree, cwd: Loc, root: string, recursive: bool, fileType: FileType)
    ensures var y := Locate(cwd, root);
            forall x :: x in Due(t, cwd, root, recursive, fileType) <==>
                        && Opens(t, cwd, root) && x in t && y < x && (recursive || |x| == |y| + 1)
                        && (if t[x] == Directory then fileType.directories else fileType.files)
  {
    hide Locate, Opens;
  }

  /** The termination measure: the nodes at or below a pending path. */
  ghost function Covered(s: Setup, t: Tree, c: Cursor): set<Loc> {
    set x | x in t && CoversLoc(s, c, x)
  }

  predicate CoversLoc(s: Setup, c: Cursor, x: Loc) {
    exists i :: 0 <= i < |c.pending| && PendingLoc(s, c, i) <= x
  }

  lemma {:induction false} DropCoversLess(s: Setup, t: Tree, c: Cursor)
    requires c.pending != []
    ensures Covered(s, t, Dropped(c)) <= Covered(s, t, c)
  {
    var d := Dropped(c);
    forall x | CoversLoc(s, d, x) ensures CoversLoc(s, c, x) {
      var i :| 0 <= i < |d.pending| && PendingLoc(s, d, i) <= x;
      assert PendingLoc(s, c, i) == PendingLoc(s, d, i);
    }
  }

  lemma {:induction false} ReadCoversLess(s: Setup, t: Tree, c: Cursor, es: seq<Entry>)
    requires WellFormed(t) && c.pending != [] && PendingOk(s, c)
    requires PendingLoc(s, c, |c.pending| - 1) in t
    requires IsListing(t, PendingLoc(s, c, |c.pending| - 1), es)
    ensures Covered(s, t, AfterRead(s, c, es)) < Covered(s, t, c)
  {
    hide Locate, Append, Strip, Kept, Pushed, IsListing, WellFormed, PendingOk, IsName;
    var n := |c.pending| - 1;
    var x := PendingLoc(s, c, n);
    var a := AfterRead(s, c, es);
    LocateStrip(s.cwd, c.pending[n]);
    ReadPendingOk(s, t, c, es);
    assert CoversLoc(s, c, x) && !CoversLoc(s, a, x);
    forall y | y in t && CoversLoc(s, a, y) ensures CoversLoc(s, c, y) {
      var i :| 0 <= i < |a.pending| && PendingLoc(s, a, i) <= y;
      AfterReadPending(s, c, es, i);
      if i < n {
        assert PendingLoc(s, c, i) == PendingLoc(s, a, i);
      } else {
        var k := PushedLoc(s, t, x, a.root, es, i - n);
        assert x <= x + [es[k].name] <= y;
      }
    }
    assert x in Covered(s, t, c) && x !in Covered(s, t, a);
  }

  // ----------------------------------------------------------- whole runs

  /** One call of Next on an unchanged tree: "" means that nothing remains. On a faulty
      disk entries may get lost besides. */
  ghost predicate Delivers(cwd: Loc, faulty: bool, before: set<Loc>, path: string, after: set<Loc>) {
    if path == "" then after == {} && (!faulty ==> before == {})
    else var x := Locate(cwd, path);
         && x in before && after <= before - {x} && (!faulty ==> after == before - {x})
         && NoneAbove(after, x)
  }

  /** The calls outs leave remain[k] to be delivered after the first k of them. */
  ghost predicate IsRun(cwd: Loc, faulty: bool, remain: seq<set<Loc>>, outs: seq<string>) {
    && |remain| == |outs| + 1
    && forall k :: 0 <= k < |outs| ==> Delivers(cwd, faulty, remain[k], outs[k], remain[k+1])
  }

  function Delivered(cwd: Loc, outs: seq<string>): seq<Loc> {
    if outs == [] then []
    else Delivered(cwd, outs[..|outs|-1]) +
         if outs[|outs|-1] == "" then [] else [Locate(cwd, outs[|outs|-1])]
  }

  ghost predicate Elements(ds: seq<Loc>, xs: set<Loc>) {
    forall x :: x in ds <==> x in xs
  }

  /** Nothing comes twice, and nothing after something below it. */
  predicate TopDown(ds: seq<Loc>) {
    forall i, j :: 0 <= i < j < |ds| ==> ds[i] != ds[j] && !(ds[j] < ds[i])
  }

  predicate Sealed(ds: seq<Loc>, rest: set<Loc>) {
    forall x :: x in ds ==> x !in rest && NoneAbove(rest, x)
  }

  /** ds and rest are disjoint parts of start, and all of it unless entries got lost;
      nothing in ds comes twice or after something below it, and nothing in rest lies
      above something in ds. */
  ghost predicate SplitsInOrder(start: set<Loc>, ds: seq<Loc>, rest: set<Loc>, faulty: bool) {
    && rest <= start && (forall x :: x in ds ==> x in start - rest) && |ds| + |rest| <= |start|
    && (!faulty ==> Elements(ds, start - rest) && |ds| + |rest| == |start|)
    && TopDown(ds) && Sealed(ds, rest)
  }

  lemma {:induction false} TopDownSnoc(ds: seq<Loc>, rest: set<Loc>, x: Loc)
    requires TopDown(ds) && Sealed(ds, rest) && x in rest
    ensures TopDown(ds + [x])
  {
    var longer := ds + [x];
    forall i, j | 0 <= i < j < |longer| ensures longer[i] != longer[j] && !(longer[j] < longer[i]) {
      assert longer[i] in ds;
    }
  }

  lemma {:induction false} SealedSnoc(ds: seq<Loc>, rest: set<Loc>, x: Loc)
    requires Sealed(ds, rest) && NoneAbove(rest - {x}, x)
    ensures Sealed(ds + [x], rest - {x})
  {
    assert forall y :: y in rest - {x} ==> y in rest;
  }

  lemma {:induction false} SealedShrinks(ds: seq<Loc>, rest: set<Loc>, less: set<Loc>)
    requires Sealed(ds, rest) && less <= rest
    ensures Sealed(ds, less)
  {
    forall x | x in ds ensures x !in less && NoneAbove(less, x) {
      assert NoneAbove(rest, x);
    }
  }

  lemma {:induction false} SmallerSet(less: set<Loc>, more: set<Loc>)
    requires less <= more
    ensures |less| <= |more|
  {
    assert more == less + (more - less);
  }

  lemma {:induction false} SplitStep(start: set<Loc>, ds: seq<Loc>, rest: set<Loc>, x: Loc, less: set<Loc>,
                                     faulty: bool)
    requires SplitsInOrder(start, ds, rest, faulty) && x in rest && less <= rest - {x} && NoneAbove(less, x)
    requires !faulty ==> less == rest - {x}
    ensures SplitsInOrder(start, ds + [x], less, faulty)
  {
    hide TopDown, Sealed, NoneAbove;
    TopDownSnoc(ds, rest, x);
    SealedShrinks(ds, rest, less + {x});
    SealedSnoc(ds, less + {x}, x);
    assert less + {x} - {x} == less;
    SmallerSet(less, rest - {x});
  }

  /** In every run what was delivered and what remains split the start, exactly unless
      the disk is faulty; no entry comes twice, and none comes after something below it. */
  lemma {:induction false} RunDeliversEachOnce(cwd: Loc, faulty: bool, remain: seq<set<Loc>>, outs: seq<string>)
    requires IsRun(cwd, faulty, remain, outs)
    ensures SplitsInOrder(remain[0], Delivered(cwd, outs), remain[|outs|], faulty)
  {
    if outs != [] {
      var n := |outs| - 1;
      var ds := Delivered(cwd, outs[..n]);
      RunDeliversEachOnce(cwd, faulty, remain[..n+1], outs[..n]);
      assert Delivers(cwd, faulty, remain[n], outs[n], remain[n+1]);
      if outs[n] != "" {
        SplitStep(remain[0], ds, remain[n], Locate(cwd, outs[n]), remain[n+1], faulty);
      } else {
        SealedShrinks(ds, remain[n], {});
        SmallerSet({}, remain[n]);
      }
    }
  }

  /** Once "" has been returned it is returned for good. */
  lemma {:induction false} RunEndsForGood(cwd: Loc, faulty: bool, remain: seq<set<Loc>>, outs: seq<string>,
                                          i: nat, j: nat)
    requires IsRun(cwd, faulty, remain, outs) && i <= j < |outs| && outs[i] == ""
    ensures outs[j] == "" && remain[j+1] == {}
  {
    assert Delivers(cwd, faulty, remain[j], outs[j], remain[j+1]);
    if i < j {
      RunEndsForGood(cwd, faulty, remain, outs, i, j - 1);
    }
  }

  /** A run has ended as soon as it has one call more than there are entries, and has
      delivered them all unless the disk is faulty. */
  lemma {:induction false} RunReachesTheEnd(cwd: Loc, faulty: bool, remain: seq<set<Loc>>, outs: seq<string>)
    requires IsRun(cwd, faulty, remain, outs) && |outs| > |remain[0]|
    ensures outs[|outs|-1] == ""
    ensures !faulty ==> forall x :: x in remain[0] <==> x in Delivered(cwd, outs)
  {
    RunDeliversEachOnce(cwd, faulty, remain, outs);
    AllNonempty(cwd, outs);
    assert "" in outs;
    var i :| 0 <= i < |outs| && outs[i] == "";
    RunEndsForGood(cwd, faulty, remain, outs, i, |outs| - 1);
  }

  lemma {:induction false} AllNonempty(cwd: Loc, outs: seq<string>)
    ensures "" in outs || |Delivered(cwd, outs)| == |outs|
  {
    if outs != [] { AllNonempty(cwd, outs[..|outs|-1]); }
  }
}
