/** The target paths of CopyDirectory, as strings and as places. */
module CopyPaths {
  import opened FilePath
  import opened PathComponents
  import opened FileSystem
  import opened Enumeration

  /** A source for which the suffix arithmetic works: not ".", no trailing separator
      and so no root either. */
  predicate IsSourceStem(d: string) { IsStem(d) && d[|d|-1] != SEPARATOR }

  function Slashed(names: seq<string>): string {
    if names == [] then "" else "/" + names[0] + Slashed(names[1..])
  }

  /** The part of current after from, without its leading separator. */
  function Suffix(from: string, current: string): string
    requires |from| <= |current|
  {
    if |current| == |from| then "" else current[|from|+1..]
  }

  lemma {:induction false} SourceAppend(d: string, b: string)
    requires IsSourceStem(d) && IsName(b)
    ensures Append(d, b) == d + "/" + b && IsSourceStem(Append(d, b))
  {
    AppendShape(d, b);
    StemAppend(d, b);
  }

  lemma {:induction false} SourceAppendAll(d: string, names: seq<string>)
    requires IsSourceStem(d) && AllNames(names)
    ensures AppendAll(d, names) == d + Slashed(names)
    decreases |names|
  {
    hide Append, IsSourceStem, IsName;
    if names == [] {
      assert d + "" == d;
    } else {
      SourceAppend(d, names[0]);
      SourceAppendAll(Append(d, names[0]), names[1..]);
      assert d + "/" + names[0] + Slashed(names[1..]) == d + ("/" + names[0] + Slashed(names[1..]));
    }
  }

  lemma {:induction false} LocateAppendAll(cwd: Loc, d: string, names: seq<string>)
    requires AllNames(names)
    ensures Locate(cwd, AppendAll(d, names)) == Locate(cwd, d) + names
    ensures names != [] ==> AppendAll(d, names) != ""
    decreases |names|
  {
    hide Append, Locate, IsName;
    if names == [] {
      assert Locate(cwd, d) + names == Locate(cwd, d);
    } else {
      LocateAppend(cwd, d, names[0]);
      LocateAppendAll(cwd, Append(d, names[0]), names[1..]);
      assert Locate(cwd, d) + [names[0]] + names[1..] == Locate(cwd, d) + names;
    }
  }

  /** Pasting several names at once is appending them one by one. */
  lemma {:induction false} AppendJoined(to: string, b: string, rest: seq<string>)
    requires IsName(b) && AllNames(rest)
    ensures Append(to, b + Slashed(rest)) == AppendAll(to, [b] + rest)
  {
    hide Slashed;
    assert ([b] + rest)[1..] == rest;
    AppendedIsSource(to, b);
    SourceAppendAll(Append(to, b), rest);
    AppendIsSplit(to, b, Slashed(rest));
  }

  lemma {:induction false} AppendIsSplit(to: string, b: string, tail: string)
    requires b != ""
    ensures Append(to, b + tail) == Append(to, b) + tail
  {
    var p := Strip(to);
    assert p + [SEPARATOR] + (b + tail) == p + [SEPARATOR] + b + tail;
    assert p + (b + tail) == p + b + tail;
  }

  lemma {:induction false} AppendedIsSource(to: string, b: string)
    requires IsName(b)
    ensures IsSourceStem(Append(to, b))
  {
    if to == CURRENT || to == "" {
      assert Append(to, b) == b by { assert "" + b == b; }
      StripNoTrailing(b);
    } else {
      AppendIsStripped(to, b);
      AppendShape(to, b);
    }
  }

  lemma {:induction false} RouteAppendAll(cwd: Loc, d: string, names: seq<string>, v: Loc)
    requires AllNames(names) && v in Route(cwd, AppendAll(d, names))
    ensures v in Route(cwd, d) || (Locate(cwd, d) <= v && v < Locate(cwd, d) + names)
    decreases |names|
  {
    hide Append, Locate, Route, IsName;
    if names != [] {
      LocateAppend(cwd, d, names[0]);
      RouteAppendAll(cwd, Append(d, names[0]), names[1..], v);
      assert Locate(cwd, d) + [names[0]] + names[1..] == Locate(cwd, d) + names;
    }
  }

  // --------------------------------------------------- the target path

  /** Where the suffix starts: when the target is a directory already, the source's own
      name is to be part of it. */
  function Front(from: string, into: bool): string { if into then DirName(from) else from }

  /** The check on the suffix, before its first character goes. */
  predicate SuffixChecks(front: string, current: string)
    requires |front| <= |current|
  {
    |current| == |front| || current[|front|] == SEPARATOR
  }

  /** The source is spelled with a directory in front of its name that is no bare root. */
  predicate IsDeep(from: string) {
    var last := LastSeparator(from);
    last > 0 && !(last == 1 && from[0] == SEPARATOR)
  }

  /** There is more than one separator between the source's directory and its name. */
  predicate IsDoubled(from: string) { |from| > |DirName(from)| + 1 + |BaseName(from)| }

  /** What the top of the source is called below the target. */
  function TopNames(from: string, into: bool): seq<string> {
    if into && IsDeep(from) then [BaseName(from)] else []
  }

  /** The debug checks on the way to the target path hold: the suffix starts with a
      separator, and what is left of it is not absolute where Append would take it so. */
  predicate Pastes(from: string, to: string) {
    |from| == 1 || (IsDeep(from) && (!IsDoubled(from) || to != CURRENT))
  }

  function Separators(k: nat): (r: string)
    ensures |r| == k && AllSeparators(r)
  {
    seq(k, i requires 0 <= i < k => SEPARATOR)
  }

  /** A deep source is its directory, one or more separators, and its name. */
  lemma {:induction false} DeepShape(from: string) returns (k: nat)
    requires IsSourceStem(from) && IsDeep(from)
    ensures from == DirName(from) + "/" + Separators(k) + BaseName(from)
    ensures BaseName(from) != "" && SeparatorFree(BaseName(from)) && (k > 0 <==> IsDoubled(from))
  {
    hide Pieces, Trim, Strip, Leading, DirName, BaseName, LastIndexOf;
    var last := LastSeparator(from);
    var cut := from[..last];
    DirNameCases(from);
    StemBase(from);
    var d := DirName(from);
    assert d == Strip(cut);
    k := last - |d|;
    CutShape(cut);
    assert from == cut + "/" + from[last+1..];
    assert Separators(k) + "/" == "/" + Separators(k);
  }

  lemma {:induction false} StemBase(from: string)
    requires IsSourceStem(from)
    ensures BaseName(from) == from[LastSeparator(from)+1..] && BaseName(from) != "" && SeparatorFree(BaseName(from))
  {
    assert !AllSeparators(from);
    BaseIsTail(from);
  }

  lemma {:induction false} CutShape(cut: string)
    requires cut != ""
    ensures cut == Strip(cut) + Separators(|cut| - |Strip(cut)|)
  {
    StripKinds(cut);
    var d := Strip(cut);
    assert forall i :: |d| <= i < |cut| ==> cut[i] == SEPARATOR;
    assert cut == d + cut[|d|..];
  }

  /** The check on the suffixes of a source that goes into a directory: they all pass it
      exactly for a one-letter name, whose top has no suffix, and for a deep source. */
  lemma {:induction false} SuffixChecksExactly(from: string, names: seq<string>)
    requires IsSourceStem(from) && AllNames(names)
    ensures |DirName(from)| <= |from| <= |AppendAll(from, names)|
    ensures SuffixChecks(DirName(from), AppendAll(from, names)) <==> |from| == 1 || IsDeep(from)
  {
    hide Pieces, Trim, Strip, Leading, Append, AppendAll, IsName;
    SourceAppendAll(from, names);
    if IsDeep(from) {
      var k := DeepShape(from);
      assert from[|DirName(from)|] == SEPARATOR;
    } else {
      ShallowDirName(from);
      if |from| == 1 { assert DirName(from) == CURRENT; }
    }
  }

  /** Without a deep source the name starts right behind the directory, or is cut itself. */
  lemma {:induction false} ShallowDirName(from: string)
    requires IsSourceStem(from) && !IsDeep(from)
    ensures DirName(from) == if LastSeparator(from) == -1 then CURRENT else from[..LastSeparator(from)+1]
    ensures |from| > 1 ==> |DirName(from)| < |from| && from[|DirName(from)|] != SEPARATOR
    ensures |from| == 1 ==> LastSeparator(from) == -1
    ensures |DirName(from)| <= |from|
    ensures BaseName(from) == from[LastSeparator(from)+1..] && IsPiece(BaseName(from))
  {
    hide Pieces, Trim, Strip, Leading;
    StemBase(from);
    DirNameCases(from);
    if LastSeparator(from) == 0 { assert from[..1] == "/"; }
    if LastSeparator(from) == 1 { assert from[..2] == "//"; }
  }

  lemma {:induction false} AppendedPiece(cwd: Loc, to: string, b: string)
    requires IsPiece(b)
    ensures Locate(cwd, Append(to, b)) == Enter(Locate(cwd, to), b)
  {
    hide Pieces, Trim, Strip, Resolve, Visited;
    if to == CURRENT || to == "" {
      assert Append(to, b) == b by { assert "" + b == b; }
      LocateNothing(cwd, to);
      PiecesOfPiece(b);
      ResolveSnoc(cwd, [], b);
      RouteStart(cwd);
      assert [] + [b] == [b];
    } else {
      AppendShape(to, b);
      LocateStrip(cwd, to);
      StripKinds(to);
      GlueIsSeparator(Strip(to), b);
      ResolveSnoc(Base(cwd, to), Pieces(Strip(to)), b);
    }
  }

  /** Two paths that lead the same way to the same place. */
  predicate SamePlace(cwd: Loc, p: string, q: string) {
    && p != "" && q != "" && Locate(cwd, p) == Locate(cwd, q) && Route(cwd, p) == Route(cwd, q)
    && EndsInSeparator(p) == EndsInSeparator(q)
  }

  /** Further separators behind a separator make no difference. */
  lemma {:induction false} MoreSeparators(cwd: Loc, x: string, k: nat, tail: string)
    requires tail != ""
    ensures SamePlace(cwd, x + "/" + Separators(k) + tail, x + "/" + tail)
  {
    hide Resolve, Visited, Pieces;
    var p := x + "/" + Separators(k) + tail;
    if k == 0 {
      assert p == x + "/" + tail;
    } else {
      assert p == x + "/" + Separators(k-1) + "/" + tail by {
        assert Separators(k) == Separators(k-1) + "/";
      }
      PiecesOfJoin(x + "/" + Separators(k-1), tail);
      PiecesOfJoin(x, tail);
      PiecesOfJoin(x, Separators(k-1));
      PiecesOfSeparators(Separators(k-1));
      assert Pieces(x) + [] == Pieces(x);
    }
  }

  /** Pasting a name with separators in front of it onto a path other than "" and ".". */
  lemma {:induction false} AppendSeparated(cwd: Loc, to: string, k: nat, tail: string)
    requires to != "" && to != CURRENT && tail != "" && tail[0] != SEPARATOR
    ensures SamePlace(cwd, Append(to, Separators(k) + tail), Append(to, tail))
  {
    hide Resolve, Visited, Pieces, Trim;
    var p := Strip(to);
    StripKinds(to);
    if p[|p|-1] == SEPARATOR {
      var x := p[..|p|-1];
      assert p == x + "/";
      assert Append(to, Separators(k) + tail) == x + "/" + Separators(k) + tail;
      MoreSeparators(cwd, x, k, tail);
    } else {
      assert Append(to, Separators(k) + tail) == p + "/" + Separators(k) + tail;
      MoreSeparators(cwd, p, k, tail);
    }
  }

  /** The part behind the checked separator. */
  lemma {:induction false} DeepSuffix(from: string, names: seq<string>) returns (k: nat)
    requires IsSourceStem(from) && IsDeep(from) && AllNames(names)
    ensures var current := AppendAll(from, names);
            && |DirName(from)| <= |current|
            && Suffix(DirName(from), current) == Separators(k) + (BaseName(from) + Slashed(names))
    ensures k > 0 <==> IsDoubled(from)
    ensures BaseName(from) != "" && SeparatorFree(BaseName(from))
  {
    hide IsSourceStem, Append, DirName, BaseName, IsName, IsDeep;
    SourceAppendAll(from, names);
    k := DeepShape(from);
    var d, b := DirName(from), BaseName(from);
    assert AppendAll(from, names) == d + "/" + (Separators(k) + (b + Slashed(names)));
  }

  /** Where the top of the source lands in a directory: at its own name exactly for a deep
      source, unless doubled separators meet the target ".", which makes the pasted path
      absolute. */
  lemma {:induction false} TopLandsExactly(cwd: Loc, from: string, to: string)
    requires IsSourceStem(from) && IsName(BaseName(from)) && to != ""
    ensures |DirName(from)| <= |from|
    ensures Locate(cwd, Append(to, Suffix(DirName(from), from))) == Locate(cwd, to) + [BaseName(from)]
            <==> IsDeep(from) && (!IsDoubled(from) || to != CURRENT || cwd == [])
  {
    hide Pieces, Trim, Strip, Leading, Append, Locate, Route, DirName, BaseName;
    var b := BaseName(from);
    if IsDeep(from) {
      var k := DeepSuffix(from, []);
      assert AppendAll(from, []) == from && b + Slashed([]) == b;
      LocateAppend(cwd, to, b);
      if k == 0 {
        assert Separators(0) + b == b;
      } else if to != CURRENT {
        AppendSeparated(cwd, to, k, b);
      } else {
        AppendToDot(cwd, k, b);
        LocateNothing(cwd, to);
      }
    } else {
      ShallowDirName(from);
      ShallowLands(cwd, from, to);
    }
  }

  lemma {:induction false} AppendToDot(cwd: Loc, k: nat, b: string)
    requires k > 0 && IsName(b)
    ensures Locate(cwd, Append(CURRENT, Separators(k) + b)) == [b]
  {
    hide Pieces, Trim, Strip, Resolve, Visited;
    var p := Separators(k) + b;
    assert p == "" + "/" + Separators(k-1) + b by { assert Separators(k) == "/" + Separators(k-1); }
    MoreSeparators(cwd, "", k - 1, b);
    PiecesOfJoin("", b);
    PiecesOfSeparators("");
    PiecesOfPiece(b);
    assert [] + [b] == [b];
    ResolveSnoc([], [], b);
    RouteStart([]);
  }

  lemma {:induction false} ShallowLands(cwd: Loc, from: string, to: string)
    requires IsSourceStem(from) && IsName(BaseName(from)) && !IsDeep(from)
    ensures |DirName(from)| <= |from|
    ensures Locate(cwd, Append(to, Suffix(DirName(from), from))) != Locate(cwd, to) + [BaseName(from)]
  {
    hide Pieces, Trim, Strip, Leading, Append, Locate, Route, DirName, BaseName;
    ShallowDirName(from);
    var b, s := BaseName(from), Suffix(DirName(from), from);
    var l := Locate(cwd, to);
    assert |s| < |b|;
    if s == "" {
      TopTarget(cwd, to);
      LocateNothing(cwd, "");
      if to == "" || to == CURRENT { LocateNothing(cwd, to); }
    } else {
      assert forall i :: 0 <= i < |s| ==> s[i] == from[|from|-|s|+i];
      AppendedPiece(cwd, to, s);
      assert (l + [s])[|l|] != (l + [b])[|l|];
    }
  }

  /** A lone name of several letters copied into a directory: without the check the suffix
      loses its first two characters, and "src" arrives as "c". */
  lemma {:induction false} LoneNameIsCut()
    ensures !SuffixChecks(Front("src", true), "src")
    ensures Front("src", true) == "." && Append("out", Suffix(Front("src", true), "src")) == "out/c"
  {
    StripNoTrailing("src");
    StripNoTrailing("out");
    LastSeparatorIs("src", -1);
  }

  /** The target path of the entry that lies names below the source. */
  lemma {:induction false} TargetPath(cwd: Loc, from: string, to: string, into: bool, names: seq<string>)
    requires IsSourceStem(from) && AllNames(names)
    requires into ==> Pastes(from, to) && to != "" && (IsDeep(from) ==> IsName(BaseName(from)))
    ensures var current, front, rel := AppendAll(from, names), Front(from, into), TopNames(from, into) + names;
            && |front| <= |current|
            && (rel != [] ==> SamePlace(cwd, Append(to, Suffix(front, current)), AppendAll(to, rel)))
            && (rel == [] ==> Suffix(front, current) == "")
  {
    hide IsSourceStem, Append, DirName, BaseName, IsName, SamePlace;
    SourceAppendAll(from, names);
    var current := AppendAll(from, names);
    if into && IsDeep(from) {
      DeepTargetPath(cwd, from, to, names);
    } else {
      if into { ShallowDirName(from); }
      assert [] + names == names;
      if names != [] {
        assert current == from + "/" + (names[0] + Slashed(names[1..]));
        assert Suffix(Front(from, into), current) == names[0] + Slashed(names[1..]);
        AppendJoined(to, names[0], names[1..]);
        assert [names[0]] + names[1..] == names;
        AppendAllNotEmpty(cwd, to, names);
      }
    }
  }

  lemma {:induction false} AppendAllNotEmpty(cwd: Loc, to: string, names: seq<string>)
    requires AllNames(names) && names != []
    ensures SamePlace(cwd, AppendAll(to, names), AppendAll(to, names))
  {
    hide Locate, Route, Append;
    LocateAppendAll(cwd, to, names);
  }

  lemma {:induction false} DeepTargetPath(cwd: Loc, from: string, to: string, names: seq<string>)
    requires IsSourceStem(from) && AllNames(names) && Pastes(from, to) && to != ""
    requires IsDeep(from) && IsName(BaseName(from))
    ensures var current := AppendAll(from, names);
            && |DirName(from)| <= |current|
            && SamePlace(cwd, Append(to, Suffix(DirName(from), current)), AppendAll(to, [BaseName(from)] + names))
  {
    hide Append, DirName, BaseName, IsName, SamePlace;
    var k := DeepSuffix(from, names);
    var b := BaseName(from);
    assert |from| > 1;
    AppendJoined(to, b, names);
    AppendAllNotEmpty(cwd, to, [b] + names);
    if k == 0 {
      assert Separators(0) + (b + Slashed(names)) == b + Slashed(names);
    } else {
      AppendSeparated(cwd, to, k, b + Slashed(names));
    }
  }

  lemma {:induction false} TopTarget(cwd: Loc, to: string)
    ensures Append(to, "") == "" <==> to == "" || to == CURRENT
    ensures Append(to, "") != "" ==> Locate(cwd, Append(to, "")) == Locate(cwd, to)
                                     && Route(cwd, Append(to, "")) == Route(cwd, to)
    ensures EndsInSeparator(Append(to, "")) ==> Locate(cwd, to) == []
  {
    if to != CURRENT {
      assert Append(to, "") == Strip(to) by { assert Strip(to) + "" == Strip(to); }
      LocateStrip(cwd, to);
      StripKinds(to);
      if AllSeparators(to) && to != "" { PiecesOfSeparators(to); }
    }
  }

  // ------------------------------------------------- the real paths

  /** What realpath prints for a place. */
  function Render(x: Loc): string {
    if x == [] then "/" else Slashed(x)
  }

  lemma {:induction false} SlashedConcat(x: seq<string>, y: seq<string>)
    ensures Slashed(x + y) == Slashed(x) + Slashed(y)
  {
    if x == [] {
      assert x + y == y && "" + Slashed(y) == Slashed(y);
    } else {
      assert (x + y)[1..] == x[1..] + y;
      SlashedConcat(x[1..], y);
    }
  }

  /** A place below another has the other's real path in front. */
  lemma {:induction false} RenderPrefix(x: Loc, y: Loc)
    requires x <= y
    ensures Render(x) <= Render(y)
  {
    if x != [] {
      SlashedConcat(x, y[|x|..]);
      assert y == x + y[|x|..];
    }
  }

  lemma {:induction false} ResolveKeepsNames(base: Loc, ps: seq<string>)
    requires AllNames(base) && forall b :: b in ps ==> IsPiece(b)
    ensures AllNames(Resolve(base, ps))
  {
    if ps != [] {
      var init := ps[..|ps|-1];
      assert forall b :: b in init ==> b in ps;
      ResolveKeepsNames(base, init);
      var r := Resolve(base, init);
      assert r != [] ==> forall b :: b in Parent(r) ==> b in r;
    }
  }

  lemma {:induction false} LocateHasNames(cwd: Loc, path: string)
    requires AllNames(cwd)
    ensures AllNames(Locate(cwd, path))
  {
    PiecesArePieces(path);
    ResolveKeepsNames(if IsAbsolute(path) then [] else cwd, Pieces(path));
  }

  lemma {:induction false} PlacesHaveNames(t: Tree, x: Loc)
    requires WellFormed(t) && x in t
    ensures AllNames(x)
    decreases |x|
  {
    if x != [] {
      PlacesHaveNames(t, Parent(x));
      assert x == Parent(x) + [x[|x|-1]];
    }
  }

  // ---------------------------------------- the directory of the target

  lemma {:induction false} NotAllSeparators(s: string)
    requires Pieces(s) != []
    ensures !AllSeparators(s)
  {
    if AllSeparators(s) { PiecesOfSeparators(s); }
  }

  /** Where the directory of a path leads, by its pieces. */
  lemma {:induction false} DirNameLocate(cwd: Loc, to: string)
    requires Pieces(to) != []
    ensures Locate(cwd, DirName(to)) ==
            Resolve(if IsAbsolute(to) then [] else cwd, Pieces(to)[..|Pieces(to)|-1])
  {
    NotAllSeparators(to);
    BaseNameShape(to);
    DirNameOfStripped(to);
    var q := Strip(to);
    DirNameCases(q);
    if LastSeparator(q) >= 0 {
      AboveLocate(cwd, q);
    } else {
      assert q[0..] == q;
      PiecesOfPiece(q);
      LocateNothing(cwd, CURRENT);
    }
  }

  lemma {:induction false} AboveLocate(cwd: Loc, q: string)
    requires q != "" && q[|q|-1] != SEPARATOR && LastSeparator(q) >= 0
    ensures Locate(cwd, Above(q)) ==
            Resolve(if IsAbsolute(q) then [] else cwd, Pieces(q)[..|Pieces(q)|-1])
  {
    hide Pieces, Above, Resolve, Root;
    AboveShape(q);
    assert Pieces(q)[..|Pieces(q)|-1] == Pieces(Above(q));
  }

  lemma {:induction false} EnterCases(x: Loc, d: Loc, last: string)
    requires x <= Enter(d, last)
    ensures x <= d || x == Enter(d, last)
  {}

  /** What lies at or above the place of a path, other than the place itself, lies at or
      above the place of its directory. */
  lemma {:induction false} DirNameCovers(cwd: Loc, to: string, x: Loc)
    requires Pieces(to) != [] && x <= Locate(cwd, to) && x != Locate(cwd, to)
    ensures x <= Locate(cwd, DirName(to))
  {
    hide DirName, Pieces, Enter;
    var base, ps := Base(cwd, to), Pieces(to);
    DirNameLocate(cwd, to);
    var init, last := ps[..|ps|-1], ps[|ps|-1];
    assert ps == init + [last];
    ResolveSnoc(base, init, last);
    EnterCases(x, Resolve(base, init), last);
  }

  lemma {:induction false} EnterParent(t: Tree, d: Loc, last: string)
    requires WellFormed(t) && IsDirectory(t, d) && Enter(d, last) !in t
    ensures Enter(d, last) != [] && Parent(Enter(d, last)) == d
  {}

  /** If the way to a missing place is open, its parent is a directory. */
  lemma {:induction false} MissingHasParent(t: Tree, cwd: Loc, to: string)
    requires WellFormed(t) && cwd in t && WayOpen(t, cwd, to) && Locate(cwd, to) !in t
    ensures Locate(cwd, to) != [] && IsDirectory(t, Parent(Locate(cwd, to)))
  {
    hide Pieces, WellFormed, Enter;
    var base, ps := Base(cwd, to), Pieces(to);
    RootExists(t);
    if ps != [] {
      var init, last := ps[..|ps|-1], ps[|ps|-1];
      assert ps == init + [last];
      ResolveSnoc(base, init, last);
      assert Resolve(base, init) in Route(cwd, to);
      EnterParent(t, Resolve(base, init), last);
    }
  }

  lemma {:induction false} RootExists(t: Tree)
    requires WellFormed(t)
    ensures IsDirectory(t, [])
  {}

  lemma {:induction false} NamePrefix(a: string, b: string, rest: string)
    requires SeparatorFree(a) && SeparatorFree(b) && (rest == "" || rest[0] == SEPARATOR)
    ensures a <= b + rest <==> a <= b
  {
    assert |a| > |b| ==> a[|b|] != SEPARATOR;
    assert rest != "" ==> (b + rest)[|b|] == SEPARATOR;
    if a <= b + rest && |a| <= |b| { assert a == (b + rest)[..|a|] == b[..|a|]; }
  }

  lemma {:induction false} NamesPrefix(a: string, more: string, b: string, rest: string)
    requires SeparatorFree(a) && SeparatorFree(b) && (rest == "" || rest[0] == SEPARATOR)
    requires more != "" && more[0] == SEPARATOR
    ensures a + more <= b + rest <==> a == b && more <= rest
  {
    var p, q := a + more, b + rest;
    assert p[|a|] == SEPARATOR && (rest != "" ==> q[|b|] == SEPARATOR);
    assert |a| < |b| ==> q[|a|] == b[|a|] != SEPARATOR;
    assert |a| > |b| ==> p[|b|] == a[|b|] != SEPARATOR;
    if p <= q {
      assert p == q[..|p|];
      assert a == q[..|a|] == b;
      assert more == p[|a|..] && rest == q[|a|..];
    }
  }

  lemma {:induction false} SlashedPrefix(x: Loc, y: Loc)
    requires AllNames(x) && AllNames(y) && x != []
    ensures Slashed(x) <= Slashed(y) <==> |x| <= |y| && Parent(x) <= y && x[|x|-1] <= y[|x|-1]
    decreases |x|
  {
    if y != [] {
      var a, b, rest := x[0], y[0], Slashed(y[1..]);
      assert a in x && b in y && IsName(a) && IsName(b);
      assert x == [a] + x[1..] && y == [b] + y[1..];
      assert Slashed(x) == "/" + (a + Slashed(x[1..])) && Slashed(y) == "/" + (b + rest);
      if |x| == 1 {
        assert a + Slashed(x[1..]) == a;
        NamePrefix(a, b, rest);
      } else {
        NamesPrefix(a, Slashed(x[1..]), b, rest);
        SlashedPrefix(x[1..], y[1..]);
        assert Parent(x) == [a] + Parent(x[1..]);
      }
      PrefixOfSlash(a + Slashed(x[1..]), b + rest);
    }
  }

  lemma {:induction false} PrefixOfSlash(p: string, q: string)
    ensures "/" + p <= "/" + q <==> p <= q
  {
    if "/" + p <= "/" + q { assert ("/" + p)[1..] == p && ("/" + q)[1..] == q; }
  }

  /** The comparison of real paths is one of strings. Besides a target in the source it also
      turns away one in a sibling, or in a sibling's place, whose name merely starts like
      the source's. */
  lemma {:induction false} TurnedAwayExactly(x: Loc, y: Loc)
    requires AllNames(x) && AllNames(y)
    ensures Render(x) <= Render(y) <==> x == [] || (|x| <= |y| && Parent(x) <= y && x[|x|-1] <= y[|x|-1])
  {
    if x != [] {
      SlashedPrefix(x, y);
      assert x[0] in x;
    }
  }
}
