/** Taking a path apart: GetComponents, AppendRelativePath and ReferencesParent. */
module PathComponents {
  import opened Basics
  import opened FilePath

  // ------------------------------------------------------------ pieces

  /** The nonempty separator-free runs of s, in order. */
  function Pieces(s: string): seq<string> {
    if s == "" then []
    else if s[|s|-1] == SEPARATOR then Pieces(s[..|s|-1])
    else
      var k := LastSeparator(s) + 1;
      Pieces(s[..k]) + [s[k..]]
  }

  predicate IsPiece(b: string) { b != "" && SeparatorFree(b) }

  lemma {:induction false} PiecesArePieces(s: string)
    ensures forall b :: b in Pieces(s) ==> IsPiece(b)
  {
    if s == "" {
    } else if s[|s|-1] == SEPARATOR {
      PiecesArePieces(s[..|s|-1]);
    } else {
      PiecesArePieces(s[..LastSeparator(s)+1]);
    }
  }

  lemma {:induction false} PiecesOfPiece(b: string)
    requires IsPiece(b)
    ensures Pieces(b) == [b]
  {
    LastSeparatorIs(b, -1);
    assert b[..0] == "" && b[0..] == b;
  }

  lemma {:induction false} PiecesAfterSeparator(s: string)
    requires s != "" && s[|s|-1] != SEPARATOR
    ensures var k := LastSeparator(s) + 1; Pieces(s) == Pieces(s[..k]) + [s[k..]]
  {}

  /** Splitting distributes over a separator; with PiecesOfPiece this pins Pieces down. */
  lemma {:induction false} PiecesOfJoin(x: string, y: string)
    ensures Pieces(x + "/" + y) == Pieces(x) + Pieces(y)
    decreases |y|
  {
    var s := x + "/" + y;
    if y == "" {
      assert s[..|s|-1] == x;
    } else if y[|y|-1] == SEPARATOR {
      PiecesOfJoin(x, y[..|y|-1]);
      assert s[..|s|-1] == x + "/" + y[..|y|-1];
    } else {
      JoinWithName(x, y);
    }
  }

  lemma {:induction false} CutBehind(x: string, y: string, k: nat)
    requires k <= |y|
    ensures (x + y)[..|x|+k] == x + y[..k] && (x + y)[|x|+k..] == y[k..]
  {}

  lemma {:induction false} JoinWithName(x: string, y: string)
    requires y != "" && y[|y|-1] != SEPARATOR
    ensures Pieces(x + "/" + y) == Pieces(x) + Pieces(y)
    decreases |y|, 0
  {
    hide Pieces;
    var s := x + "/" + y;
    var k := LastSeparator(y) + 1;
    LastSeparatorIs(s, |x| + k);
    assert s == (x + "/") + y && |x + "/"| == |x| + 1;
    CutBehind(x + "/", y, k);
    PiecesAfterSeparator(s);
    PiecesAfterSeparator(y);
    PiecesOfJoin(x, y[..k]);
  }

  lemma {:induction false} PiecesOfTrim(s: string)
    ensures Pieces(Trim(s)) == Pieces(s)
  {
    if s != "" && s[|s|-1] == SEPARATOR {
      PiecesOfTrim(s[..|s|-1]);
    }
  }

  lemma {:induction false} PiecesOfSeparators(s: string)
    requires AllSeparators(s)
    ensures Pieces(s) == []
  {
    if s != "" {
      PiecesOfSeparators(s[..|s|-1]);
    }
  }

  lemma {:induction false} PiecesOfStrip(s: string)
    ensures Pieces(Strip(s)) == Pieces(s)
  {
    if AllSeparators(s) {
      PiecesOfSeparators(s);
      PiecesOfSeparators(Strip(s));
    } else {
      PiecesOfTrim(s);
    }
  }

  /** A relative path with a single piece and no trailing separator is that piece. */
  lemma {:induction false} SinglePiece(s: string)
    requires s != "" && !IsAbsolute(s) && s[|s|-1] != SEPARATOR
    ensures |Pieces(s)| >= 1
    ensures |Pieces(s)| == 1 ==> Pieces(s) == [s]
    ensures Pieces(s)[0] == CURRENT && |Pieces(s)| == 1 ==> s == CURRENT
  {
    var k := LastSeparator(s) + 1;
    if k > 0 {
      RelativeHasPiece(s[..k]);
    } else {
      assert s[..k] == "" && s[k..] == s;
    }
  }

  lemma {:induction false} RelativeHasPiece(s: string)
    requires s != "" && !IsAbsolute(s)
    ensures |Pieces(s)| >= 1
  {
    if s[|s|-1] == SEPARATOR {
      RelativeHasPiece(s[..|s|-1]);
    }
  }

  // -------------------------------------------------------- components

  function Leading(s: string): (n: nat)
    ensures n <= |s| && forall i :: 0 <= i < n ==> s[i] == SEPARATOR
    ensures n < |s| ==> s[n] != SEPARATOR
  {
    if s == "" || s[0] != SEPARATOR then 0 else 1 + Leading(s[1..])
  }

  /** The root component of an absolute path: "//" for an alternate root, which two
      leading separators are, and three in front of a name become. */
  function Root(p: string): string {
    if p == "//" || (Leading(p) < |p| && 2 <= Leading(p) <= 3) then "//" else "/"
  }

  function Arrange(absolute: bool, root: string, ps: seq<string>): seq<string> {
    if absolute then [root] + ps
    else if |ps| > 1 && ps[0] == CURRENT then ps[1..]
    else ps
  }

  /** What GetComponents returns, read off the string: the root, if any, and the
      pieces, without a leading "." when other pieces follow. */
  function Components(p: string): seq<string> {
    if p == "" || p == CURRENT then [] else Arrange(IsAbsolute(p), Root(p), Pieces(p))
  }

  predicate IsRoot(p: string) { p == CURRENT || p == "/" || p == "//" }

  function Rank(p: string): nat { if p == CURRENT then 0 else |p| }

  lemma {:induction false} LeadingIs(s: string, n: nat)
    requires n <= |s| && forall i :: 0 <= i < n ==> s[i] == SEPARATOR
    requires n < |s| ==> s[n] != SEPARATOR
    ensures Leading(s) == n
  {}

  /** Base name and trimmed form of a path that is not all separators. */
  lemma {:induction false} BaseNameShape(p: string)
    requires p != "" && !AllSeparators(p)
    ensures var q := Strip(p);
            && q != "" && q[|q|-1] != SEPARATOR && IsAbsolute(p) == IsAbsolute(q)
            && Leading(q) == Leading(p) < |q| && Pieces(q) == Pieces(p)
            && BaseName(p) == q[LastSeparator(q)+1..] && IsPiece(BaseName(p))
  {
    hide Pieces, Trim, Strip, Leading, BaseName, LastIndexOf;
    StripKinds(p);
    var q := Strip(p);
    LeadingIs(q, Leading(p));
    PiecesOfStrip(p);
    BaseIsTail(p);
  }

  /** The directory of a stripped path q that is not all separators, when it has one. */
  function Above(q: string): string {
    var last := LastSeparator(q);
    if last == 0 then "/"
    else if last == 1 && q[0] == SEPARATOR then "//"
    else if last == -1 then ""
    else Strip(q[..last])
  }

  lemma {:induction false} DirNameCases(q: string)
    requires q != "" && q[|q|-1] != SEPARATOR
    ensures DirName(q) == if LastSeparator(q) == -1 then CURRENT else Above(q)
  {
    StripNoTrailing(q);
    var last := LastSeparator(q);
    if last == 0 { assert q[..1] == "/"; }
    if last == 1 && q[0] == SEPARATOR { assert q[..2] == "//"; }
    if last > 0 { StripKinds(q[..last]); }
  }

  lemma {:induction false} CutRoot(q: string, last: int)
    requires q != "" && IsAbsolute(q) && last == LastSeparator(q) && 1 < last < |q| - 1
    ensures Root(Strip(q[..last])) == Root(q) && IsAbsolute(Strip(q[..last]))
  {
    var cut := q[..last];
    StripKinds(cut);
    if AllSeparators(cut) {
      LeadingIs(q, last + 1);
      if last == 2 { assert cut == "//"; } else { assert cut[..1] == "/"; }
      LeadingIs("/", 1);
    } else {
      LeadingIs(cut, Leading(q));
      LeadingIs(Strip(cut), Leading(q));
    }
  }

  lemma {:induction false} CutPieces(q: string, last: int)
    requires q != "" && last == LastSeparator(q) && 0 < last < |q| - 1
    ensures Pieces(q) == Pieces(Strip(q[..last])) + [q[last+1..]]
  {
    hide Pieces, Trim, Strip, LastIndexOf;
    PiecesAfterSeparator(q);
    PiecesOfStrip(q[..last]);
    assert q[..last+1][..last] == q[..last];
    PiecesBeforeSeparator(q[..last+1]);
  }

  lemma {:induction false} PiecesBeforeSeparator(s: string)
    requires s != "" && s[|s|-1] == SEPARATOR
    ensures Pieces(s) == Pieces(s[..|s|-1])
  {}

  predicate AboveOk(q: string, d: string)
    requires q != ""
  {
    && 0 < |d| < |q| && d <= q && Pieces(q) == Pieces(d) + [q[LastSeparator(q)+1..]]
    && IsAbsolute(q) == IsAbsolute(d)
    && (IsAbsolute(q) ==> Root(d) == Root(q))
    && (!IsAbsolute(q) ==> d[|d|-1] != SEPARATOR)
  }

  lemma {:induction false} AboveRoot(q: string)
    requires q != "" && q[|q|-1] != SEPARATOR && LastSeparator(q) == 0
    ensures AboveOk(q, "/")
  {
    LeadingIs(q, 1);
    LeadingIs("/", 1);
    assert q[..1] == "/" && Pieces("/"[..0]) == [];
  }

  lemma {:induction false} AboveAlternateRoot(q: string)
    requires q != "" && q[|q|-1] != SEPARATOR && LastSeparator(q) == 1 && q[0] == SEPARATOR
    ensures AboveOk(q, "//")
  {
    LeadingIs(q, 2);
    PiecesOfSeparators("//");
    assert q[..2] == "//";
  }

  lemma {:induction false} AbovePlain(q: string, last: int)
    requires q != "" && q[|q|-1] != SEPARATOR && last == LastSeparator(q) && last > 0
    requires last > 1 || q[0] != SEPARATOR
    ensures AboveOk(q, Strip(q[..last]))
  {
    CutPieces(q, last);
    if IsAbsolute(q) { CutRoot(q, last); }
    CutEnd(q[..last]);
  }

  lemma {:induction false} CutEnd(cut: string)
    requires cut != ""
    ensures 0 < |Strip(cut)| && IsAbsolute(Strip(cut)) == IsAbsolute(cut)
    ensures !IsAbsolute(cut) ==> Strip(cut)[|Strip(cut)|-1] != SEPARATOR
  {
    StripKinds(cut);
  }

  lemma {:induction false} AboveShape(q: string)
    requires q != "" && q[|q|-1] != SEPARATOR && LastSeparator(q) >= 0
    ensures AboveOk(q, Above(q))
  {
    var last := LastSeparator(q);
    if last == 0 {
      AboveRoot(q);
    } else if last == 1 && q[0] == SEPARATOR {
      AboveAlternateRoot(q);
    } else {
      AbovePlain(q, last);
    }
  }

  lemma {:induction false} NameIsNoRoot(p: string)
    requires p != "" && !AllSeparators(p)
    ensures DirName(p) == p <==> p == CURRENT
    ensures p != CURRENT ==> Rank(DirName(p)) < Rank(p)
    ensures DirName(p) != ""
  {
    hide Pieces, Trim, Strip, DirName, BaseName, Leading, Above;
    BaseNameShape(p);
    DirNameOfStripped(p);
    var q := Strip(p);
    DirNameCases(q);
    if LastSeparator(q) >= 0 {
      AboveShape(q);
      assert p != CURRENT;
    } else if p != CURRENT && |p| == 1 {
      assert Rank(p) == 1;
    }
  }

  /** DirName stays put exactly at ".", "/" and "//" and moves towards them elsewhere. */
  lemma {:induction false} DirNameFixedPoints(p: string)
    ensures DirName(p) == p <==> IsRoot(p)
    ensures p != "" && !IsRoot(p) ==> Rank(DirName(p)) < Rank(p)
    ensures DirName(p) != ""
  {
    if p != "" {
      if AllSeparators(p) { AllSeparatorsDirName(p); } else { NameIsNoRoot(p); }
    }
  }

  /** The directory of a name behind n separators and nothing else: the alternate root for
      two of them, and for three, of which the trim leaves two. */
  lemma {:induction false} DirNameOfRooted(p: string, n: nat)
    requires n < |p| && (forall i :: 0 <= i < n ==> p[i] == '/') && (forall i :: n <= i < |p| ==> p[i] != '/')
    ensures DirName(p) == if n == 0 then "." else if n == 2 || n == 3 then "//" else "/"
    ensures BaseName(p) == p[n..]
  {
    StripNoTrailing(p);
    LastSeparatorIs(p, n - 1);
    DirNameCases(p);
    BaseIsTail(p);
    if n > 2 {
      var cut := p[..n-1];
      assert AllSeparators(cut);
      if n == 3 { assert cut == "//"; } else { assert cut[..1] == "/"; }
    }
  }

  /** The directory of a name behind another path and any separators. */
  lemma {:induction false} DirNameOfDeep(d: string, seps: string, b: string)
    requires d != "" && d[|d|-1] != '/' && seps != "" && AllSeparators(seps) && IsPiece(b)
    ensures DirName(d + seps + b) == d && BaseName(d + seps + b) == b
  {
    hide Pieces, Trim, Strip, Leading, LastIndexOf, DirName, BaseName, AllSeparators;
    var p := d + seps + b;
    var last := |d| + |seps| - 1;
    DeepParts(d, seps, b);
    StripNoTrailing(p);
    LastSeparatorIs(p, last);
    DirNameCases(p);
    BaseIsTail(p);
    StripKinds(d + seps[1..]);
  }

  lemma {:induction false} DeepParts(d: string, seps: string, b: string)
    requires d != "" && d[|d|-1] != '/' && seps != "" && AllSeparators(seps) && IsPiece(b)
    ensures var p, last := d + seps + b, |d| + |seps| - 1;
            && p[|p|-1] != '/' && p[last] == '/' && (forall i :: last < i < |p| ==> p[i] != '/')
            && p[last+1..] == b && p[..last] == d + seps[1..] && p[0] == d[0] && !AllSeparators(p)
    ensures Trim(d + seps[1..]) == d && !AllSeparators(d + seps[1..])
  {
    var p, last, cut := d + seps + b, |d| + |seps| - 1, d + seps[1..];
    assert p[last] == seps[|seps|-1] && forall i :: last < i < |p| ==> p[i] == b[i-last-1];
    assert p[|d|-1] == d[|d|-1] == cut[|d|-1];
    assert forall i :: |d| <= i < |cut| ==> cut[i] == seps[i-|d|+1];
    assert p[..last] == cut by { assert forall i :: |d| <= i < last ==> p[i] == seps[i-|d|] == cut[i]; }
    assert d <= cut;
    TrimUnique(cut, d);
  }

  lemma {:induction false} DirNameOfStripped(p: string)
    ensures DirName(Strip(p)) == DirName(p) && BaseName(Strip(p)) == BaseName(p)
  {
    StripIdempotent(p);
  }

  lemma {:induction false} AllSeparatorsDirName(p: string)
    requires p != "" && AllSeparators(p)
    ensures DirName(p) == BaseName(p) == Strip(p) == if |p| == 2 then "//" else "/"
  {
    if |p| == 2 {
      assert p == "//";
      LastSeparatorIs(p, 1);
      assert p[..2] == p;
    } else {
      assert p[..1] == "/";
      LastSeparatorIs("/", 0);
    }
  }

  // ------------------------------------------------------ the loop

  lemma {:induction false} ArrangeSnoc(absolute: bool, root: string, ps: seq<string>, b: string)
    requires absolute || ps != [CURRENT]
    ensures Arrange(absolute, root, ps + [b]) == Arrange(absolute, root, ps) + [b]
  {
    if !absolute && |ps| > 1 && ps[0] == CURRENT {
      assert (ps + [b])[1..] == ps[1..] + [b];
    }
  }

  /** A path p with directory d and base name b, seen through its stripped form q. */
  lemma {:induction false} StepBelow(p: string, q: string, d: string, b: string)
    requires p != "" && p != CURRENT && q != "" && AboveOk(q, d) && b == q[LastSeparator(q)+1..]
    requires Pieces(p) == Pieces(q) && IsAbsolute(p) == IsAbsolute(q) && Root(p) == Root(q)
    ensures Components(p) == Components(d) + [b]
  {
    var ps := Pieces(d);
    assert Pieces(p) == ps + [b];
    if d == CURRENT {
      PiecesOfPiece(CURRENT);
      assert (ps + [b])[1..] == [] + [b];
    } else {
      if !IsAbsolute(d) { SinglePiece(d); }
      ArrangeSnoc(IsAbsolute(d), Root(d), ps, b);
    }
  }

  lemma {:induction false} RootOfStripped(p: string)
    requires p != "" && !AllSeparators(p)
    ensures Root(Strip(p)) == Root(p)
  {
    StripKinds(p);
    LeadingIs(Strip(p), Leading(p));
  }

  lemma {:induction false} StepName(p: string)
    requires p != "" && p != CURRENT && !AllSeparators(p)
    ensures Components(p) == Components(DirName(p)) + [BaseName(p)]
  {
    hide Pieces, Root, Trim, Leading, BaseName, Above, Strip, DirName, LastIndexOf;
    BaseNameShape(p);
    DirNameOfStripped(p);
    RootOfStripped(p);
    var q := Strip(p);
    DirNameCases(q);
    if LastSeparator(q) >= 0 {
      AboveShape(q);
      StepBelow(p, q, Above(q), q[LastSeparator(q)+1..]);
    } else {
      PiecesOfPiece(BaseName(p));
      assert q[0..] == q;
    }
  }

  lemma {:induction false} StepSeparators(p: string)
    requires |p| > 2 && AllSeparators(p)
    ensures Components(p) == Components(DirName(p)) && AllSeparators(BaseName(p))
  {
    AllSeparatorsDirName(p);
    PiecesOfSeparators(p);
    PiecesOfSeparators("/");
  }

  lemma {:induction false} LongSeparators(p: string)
    requires p != "" && AllSeparators(p)
    ensures IsRoot(p) || |p| > 2
  {
    assert p == "/" || p == "//" || |p| > 2;
  }

  /** One round of the loop: the path has the components of its directory followed by
      its base name, unless that is just separators. */
  lemma {:induction false} ComponentsStep(p: string)
    requires p != "" && !IsRoot(p)
    ensures Components(p) == Components(DirName(p)) +
                             (if AllSeparators(BaseName(p)) then [] else [BaseName(p)])
  {
    if AllSeparators(p) {
      LongSeparators(p);
      StepSeparators(p);
    } else {
      StepName(p);
      BaseNameShape(p);
    }
  }

  lemma {:induction false} ReverseSnoc<T>(xs: seq<T>, x: T)
    ensures Reverse(xs + [x]) == [x] + Reverse(xs)
  {
    assert (xs + [x])[..|xs|] == xs;
  }

  /** The loop moves the front of its path, piece by piece, onto the list. */
  lemma {:induction false} LoopRound(path: string, current: string, reversed: seq<string>, next: seq<string>)
    requires current != "" && !IsRoot(current)
    requires Components(path) == Components(current) + Reverse(reversed)
    requires next == if AllSeparators(BaseName(current)) then reversed else reversed + [BaseName(current)]
    ensures Components(path) == Components(DirName(current)) + Reverse(next)
  {
    hide Components, BaseName, DirName, IsRoot, AllSeparators;
    ComponentsStep(current);
    ReverseSnoc(reversed, BaseName(current));
  }

  lemma {:induction false} LoopEnd(current: string, reversed: seq<string>)
    requires IsRoot(current)
    ensures Components(current) + Reverse(reversed) ==
            Reverse(if current != CURRENT then reversed + [BaseName(current)] else reversed)
    ensures BaseName(current) == current
  {
    RootComponents(current);
    ReverseSnoc(reversed, BaseName(current));
  }

  method GetComponents(path: string) returns (components: seq<string>)
    ensures components == Components(path)
  {
    if path == "" { return []; }
    var reversed: seq<string> := [];
    var current := path;
    while current != DirName(current)
      invariant current != ""
      invariant Components(path) == Components(current) + Reverse(reversed)
      decreases Rank(current)
    {
      DirNameFixedPoints(current);
      ghost var before := reversed;
      var base := BaseName(current);
      if !AllSeparators(base) {
        reversed := reversed + [base];
      }
      LoopRound(path, current, before, reversed);
      current := DirName(current);
    }
    DirNameFixedPoints(current);
    LoopEnd(current, reversed);
    var base := BaseName(current);
    if base != "" && base != CURRENT {
      reversed := reversed + [BaseName(current)];
    }
    components := Reverse(reversed);
  }

  lemma {:induction false} RootComponents(p: string)
    requires IsRoot(p)
    ensures BaseName(p) == p && Components(p) == if p == CURRENT then [] else [p]
  {
    if p == CURRENT {
      StripNoTrailing(p);
      LastSeparatorIs(p, -1);
    } else {
      AllSeparatorsDirName(p);
      PiecesOfSeparators(p);
    }
  }

  predicate ReferencesParent(p: string) { PARENT in Components(p) }

  lemma {:induction false} ReferencesParentIffPiece(p: string)
    ensures ReferencesParent(p) <==> PARENT in Pieces(p)
  {
    var ps := Pieces(p);
    if p == CURRENT {
      PiecesOfPiece(CURRENT);
    } else if IsAbsolute(p) {
      assert Root(p)[0] != PARENT[0];
    } else if |ps| > 1 && ps[0] == CURRENT {
      assert ps == [CURRENT] + ps[1..];
      assert |CURRENT| != |PARENT|;
    }
  }

  // ------------------------------------------------- relative paths

  /** The comparison of AppendRelativePath: the parent's components are a nonempty
      proper prefix of the child's. */
  predicate IsParent(parent: string, child: string) {
    Components(parent) != [] && Components(parent) < Components(child)
  }

  function AppendAll(path: string, names: seq<string>): string
    decreases |names|
  {
    if names == [] then path else AppendAll(Append(path, names[0]), names[1..])
  }

  method AppendRelativePath(parent: string, child: string, target: string)
    returns (ok: bool, path: string)
    ensures ok == IsParent(parent, child)
    ensures path == if ok then AppendAll(target, Components(child)[|Components(parent)|..]) else target
  {
    hide Append, Components;
    path := target;
    var parentComponents := GetComponents(parent);
    var childComponents := GetComponents(child);
    if parentComponents == [] || |parentComponents| >= |childComponents| {
      return false, target;
    }
    var k := 0;
    while k < |parentComponents|
      invariant k <= |parentComponents| && parentComponents[..k] == childComponents[..k]
    {
      if parentComponents[k] != childComponents[k] {
        return false, target;
      }
      k := k + 1;
    }
    ok := true;
    assert parentComponents[..k] == parentComponents;
    while k < |childComponents|
      invariant |parentComponents| <= k <= |childComponents|
      invariant AppendAll(target, childComponents[|parentComponents|..]) == AppendAll(path, childComponents[k..])
    {
      assert childComponents[k..][1..] == childComponents[k+1..];
      path := Append(path, childComponents[k]);
      k := k + 1;
    }
  }

  lemma {:induction false} IsParentIrreflexiveTransitive(a: string, b: string, c: string)
    ensures !IsParent(a, a)
    ensures IsParent(a, b) && IsParent(b, c) ==> IsParent(a, c)
  {}

  lemma {:induction false} GlueIsSeparator(p: string, b: string)
    requires p != "" && b != "" && SeparatorFree(b)
    ensures Pieces(p + Glue(p) + b) == Pieces(p) + [b]
  {
    PiecesOfPiece(b);
    if Glue(p) == "" {
      assert p + Glue(p) + b == p[..|p|-1] + "/" + b;
      PiecesOfJoin(p[..|p|-1], b);
    } else {
      PiecesOfJoin(p, b);
    }
  }

  lemma {:induction false} RootOfAppended(d: string, b: string)
    requires d != "" && IsPiece(b) && IsAbsolute(d)
    ensures Root(Strip(d) + Glue(Strip(d)) + b) == Root(d)
  {
    StripKinds(d);
    var p := Strip(d);
    var a := p + Glue(p) + b;
    if AllSeparators(d) {
      LongSeparators(d);
      LeadingIs(d, |d|);
      LeadingIs(a, |p|);
    } else {
      LeadingIs(p, Leading(d));
      LeadingIs(a, Leading(d));
    }
  }

  /** Appending a name appends a component, except to a path like "./". */
  lemma {:induction false} ComponentsOfAppend(d: string, b: string)
    requires d != "" && IsPiece(b) && Strip(d) != CURRENT
    ensures Components(Append(d, b)) == Components(d) + [b]
  {
    var p := Strip(d);
    StripKinds(d);
    CurrentIsStripped();
    AppendShape(d, b);
    var a := p + Glue(p) + b;
    GlueIsSeparator(p, b);
    PiecesOfStrip(d);
    if IsAbsolute(d) {
      RootOfAppended(d, b);
    } else {
      SinglePiece(p);
    }
    ArrangeSnoc(IsAbsolute(d), Root(d), Pieces(d), b);
    ComponentsAgain(a, d, Pieces(d), b);
  }

  lemma {:induction false} CurrentIsStripped()
    ensures Strip(CURRENT) == CURRENT
  {
    StripNoTrailing(CURRENT);
  }

  lemma {:induction false} ComponentsAgain(a: string, d: string, ps: seq<string>, b: string)
    requires |a| > 1 && d != "" && d != CURRENT && IsAbsolute(a) == IsAbsolute(d) && ps == Pieces(d)
    requires Pieces(a) == ps + [b] && (IsAbsolute(a) ==> Root(a) == Root(d))
    requires IsAbsolute(d) || ps != [CURRENT]
    ensures Components(a) == Components(d) + [b]
  {
    ArrangeSnoc(IsAbsolute(d), Root(d), ps, b);
  }

  /** Appending to a path like "./" swallows its single component. */
  lemma {:induction false} ComponentsOfDotAppend(d: string, b: string)
    requires IsPiece(b) && d != CURRENT && Strip(d) == CURRENT
    ensures Append(d, b) == "./" + b && Components(d) == [CURRENT] && Components(Append(d, b)) == [b]
  {
    hide Pieces, Trim, Strip, Append, Leading, Root;
    PiecesOfStrip(d);
    PiecesOfPiece(CURRENT);
    GlueIsSeparator(CURRENT, b);
    AppendShape(d, b);
    assert Glue(CURRENT) == "/" && CURRENT + "/" + b == "./" + b;
    assert ([CURRENT] + [b])[1..] == [b];
    StripKinds(d);
    assert d[0] == CURRENT[0];
  }

  lemma {:induction false} AppendIsStripped(d: string, b: string)
    requires d != "" && d != CURRENT && IsPiece(b)
    ensures var a := Append(d, b); |a| > 1 && Strip(a) == a
  {
    StripKinds(d);
    AppendShape(d, b);
    var a := Append(d, b);
    StripNoTrailing(a);
  }

  /** A directory that takes names without ambiguity. */
  predicate TakesNames(d: string) { d != "" && Strip(d) != CURRENT }

  lemma {:induction false} AppendTakesNames(d: string, b: string)
    requires d != "" && d != CURRENT && IsPiece(b)
    ensures TakesNames(Append(d, b))
  {
    AppendIsStripped(d, b);
  }

  lemma {:induction false} TakerIsNotCurrent(d: string)
    requires TakesNames(d)
    ensures d != CURRENT
  {
    CurrentIsStripped();
  }

  lemma {:induction false} ComponentsOfAppendAll(d: string, names: seq<string>)
    requires TakesNames(d) && forall b :: b in names ==> IsPiece(b)
    ensures Components(AppendAll(d, names)) == Components(d) + names
    decreases |names|
  {
    hide Append, Components, TakesNames, IsPiece;
    if names != [] {
      assert IsPiece(names[0]);
      var next := Append(d, names[0]);
      assert TakesNames(next) && Components(next) == Components(d) + [names[0]] by {
        ExtendTaker(d, names[0]);
      }
      ComponentsOfAppendAll(next, names[1..]);
      assert [names[0]] + names[1..] == names;
    }
  }

  lemma {:induction false} ExtendTaker(d: string, b: string)
    requires TakesNames(d) && IsPiece(b)
    ensures TakesNames(Append(d, b)) && Components(Append(d, b)) == Components(d) + [b]
  {
    TakerIsNotCurrent(d);
    AppendTakesNames(d, b);
    ComponentsOfAppend(d, b);
  }

  lemma {:induction false} ComponentsArePieces(p: string, k: nat)
    requires 0 < k < |Components(p)|
    ensures IsPiece(Components(p)[k])
  {
    PiecesArePieces(p);
    assert Components(p)[k] in Pieces(p);
  }

  lemma {:induction false} ComponentsOfDotAppendAll(d: string, names: seq<string>)
    requires Strip(d) == CURRENT && d != CURRENT && names != [] && forall b :: b in names ==> IsPiece(b)
    ensures Components(d) == [CURRENT] && Components(AppendAll(d, names)) == names
  {
    ComponentsOfDotAppend(d, names[0]);
    AppendTakesNames(d, names[0]);
    ComponentsOfAppendAll(Append(d, names[0]), names[1..]);
    assert [names[0]] + names[1..] == names;
  }

  lemma {:induction false} RestArePieces(child: string, n: nat)
    requires 0 < n <= |Components(child)|
    ensures forall b :: b in Components(child)[n..] ==> IsPiece(b)
  {
    var rest := Components(child)[n..];
    forall b | b in rest ensures IsPiece(b) {
      var k :| 0 <= k < |rest| && rest[k] == b;
      ComponentsArePieces(child, n + k);
    }
  }

  /** AppendRelativePath onto the parent itself rebuilds the child's components exactly
      when the parent is not a decorated ".". */
  lemma {:induction false} AppendRelativeRebuildsChild(parent: string, child: string)
    requires IsParent(parent, child)
    ensures Components(AppendAll(parent, Components(child)[|Components(parent)|..])) == Components(child)
            <==> Strip(parent) != CURRENT
  {
    hide Pieces, Append, AppendAll, Root, Leading, Trim;
    var n := |Components(parent)|;
    var rest := Components(child)[n..];
    assert Components(child) == Components(parent) + rest;
    assert parent != "" && parent != CURRENT;
    RestArePieces(child, n);
    if Strip(parent) != CURRENT {
      ComponentsOfAppendAll(parent, rest);
    } else {
      ComponentsOfDotAppendAll(parent, rest);
    }
  }
}
