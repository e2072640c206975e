/** POSIX paths as strings: base/file_path.cc. */
module FilePath {

  const SEPARATOR := '/'
  const CURRENT := "."
  const PARENT := ".."

  // -------------------------------------------------------- searching

  /** rfind: the last position of c before end, or -1. */
  function LastIndexOf(s: string, c: char, end: nat): (r: int)
    requires end <= |s|
    ensures -1 <= r < end
    ensures r >= 0 ==> s[r] == c
    ensures forall q :: r < q < end ==> s[q] != c
  {
    if end == 0 then -1
    else if s[end-1] == c then end - 1
    else LastIndexOf(s, c, end - 1)
  }

  function LastSeparator(s: string): (r: int)
    ensures -1 <= r < |s|
    ensures r >= 0 ==> s[r] == SEPARATOR
    ensures forall q :: r < q < |s| ==> s[q] != SEPARATOR
  {
    LastIndexOf(s, SEPARATOR, |s|)
  }

  predicate AllSeparators(s: string) {
    forall i :: 0 <= i < |s| ==> s[i] == SEPARATOR
  }

  predicate SeparatorsFrom(s: string, k: int) {
    forall i :: k <= i < |s| && 0 <= i ==> s[i] == SEPARATOR
  }

  predicate SeparatorFree(s: string) {
    forall i :: 0 <= i < |s| ==> s[i] != SEPARATOR
  }

  predicate IsAbsolute(s: string) { s != "" && s[0] == SEPARATOR }

  // -------------------------------------------- stripping separators

  /** s without its trailing separators. */
  function Trim(s: string): (r: string)
    ensures r <= s && SeparatorsFrom(s, |r|)
    ensures r != "" ==> r[|r|-1] != SEPARATOR
  {
    if s == "" || s[|s|-1] != SEPARATOR then s else Trim(s[..|s|-1])
  }

  /** Two separators are kept as an alternate root, any other string of separators
      is the root, and otherwise all trailing separators go. */
  function Strip(s: string): (r: string)
    ensures r <= s
  {
    if s == "//" || s == "" then s
    else if AllSeparators(s) then s[..1]
    else Trim(s)
  }

  /** The strip loop as the source runs it, with no drive letter (start is 1). */
  method StripTrailingSeparatorsInternal(path: string) returns (r: string)
    ensures r == Strip(path)
    ensures r <= path && (forall i :: |r| <= i < |path| ==> path[i] == '/') && (r == "" <==> path == "")
    ensures if forall i :: 0 <= i < |path| ==> path[i] == '/'
            then r == if path == "" then "" else if |path| == 2 then "//" else "/"
            else r[|r|-1] != '/'
  {
    StripMeans(path);
    var start := 1;
    var lastStripped := -1;
    r := path;
    var pos := |path|;
    while pos > start && r[pos-1] == SEPARATOR
      invariant 0 <= pos <= |path| && (path != "" ==> pos >= 1)
      invariant SeparatorsFrom(path, pos)
      invariant (r == path[..pos] && lastStripped == (if pos == |path| then -1 else pos + 1)) ||
                (path == "//" && pos == 1 && r == path)
      invariant path == "//" ==> r == path
    {
      if pos != start + 1 || lastStripped == start + 2 || r[start-1] != SEPARATOR {
        r := r[..pos-1];
        lastStripped := pos;
      }
      pos := pos - 1;
    }
    if path != "//" {
      StripStops(path, pos);
    }
  }

  lemma {:induction false} TrimUnique(s: string, r: string)
    requires r <= s && SeparatorsFrom(s, |r|)
    requires r != "" ==> r[|r|-1] != SEPARATOR
    ensures Trim(s) == r
  {
    var t := Trim(s);
    assert r == s[..|r|] && t == s[..|t|];
  }

  lemma {:induction false} StripStops(path: string, pos: nat)
    requires path != "//" && pos <= |path| && SeparatorsFrom(path, pos) && (path != "" ==> pos >= 1)
    requires pos <= 1 || path[pos-1] != SEPARATOR
    ensures Strip(path) == path[..pos]
  {
    if path != "" && path[pos-1] != SEPARATOR {
      TrimUnique(path, path[..pos]);
    }
  }

  lemma {:induction false} StripKinds(s: string)
    ensures Strip(s) == s || (s != "" && s[|s|-1] == SEPARATOR)
    ensures Strip(s) == "" <==> s == ""
    ensures AllSeparators(s) ==> Strip(s) in {"", "/", "//"}
    ensures !AllSeparators(s) ==> Strip(s) == Trim(s) && !AllSeparators(Strip(s)) &&
                                  Strip(s)[|Strip(s)|-1] != SEPARATOR
  {
    if AllSeparators(s) && s != "" {
      assert s[..1] == "/";
    }
  }

  lemma {:induction false} StripMeans(s: string)
    ensures Strip(s) <= s && (forall i :: |Strip(s)| <= i < |s| ==> s[i] == '/') && (Strip(s) == "" <==> s == "")
    ensures if forall i :: 0 <= i < |s| ==> s[i] == '/'
            then Strip(s) == if s == "" then "" else if |s| == 2 then "//" else "/"
            else Strip(s)[|Strip(s)|-1] != '/'
  {
    StripKinds(s);
    if AllSeparators(s) {
      if |s| == 2 { assert s == "//"; } else if s != "" { assert s[..1] == "/"; }
    }
  }

  lemma {:induction false} StripIdempotent(s: string)
    ensures Strip(Strip(s)) == Strip(s)
  {
    StripKinds(s);
    if !AllSeparators(s) {
      TrimUnique(Trim(s), Trim(s));
    }
  }

  // -------------------------------------------- directory and base name

  /** A stripped path cut before its base name; a root keeps its separators. */
  function CutBase(p: string): string {
    var last := LastSeparator(p);
    if last == -1 then ""
    else if last == 0 then p[..1]
    else if last == 1 && p[0] == SEPARATOR then p[..2]
    else p[..last]
  }

  function DirName(path: string): string {
    var q := Strip(CutBase(Strip(path)));
    if q == "" then CURRENT else q
  }

  function BaseName(path: string): string {
    var p := Strip(path);
    var last := LastSeparator(p);
    if last != -1 && last < |p| - 1 then p[last+1..] else p
  }

  function Append(path: string, component: string): string {
    if path == CURRENT then component
    else
      var p := Strip(path);
      if component != "" && p != "" && p[|p|-1] != SEPARATOR
      then p + [SEPARATOR] + component
      else p + component
  }

  /** What Append puts between a stripped directory and a name. */
  function Glue(p: string): string {
    if p == "" || p[|p|-1] == SEPARATOR then "" else "/"
  }

  lemma {:induction false} AppendShape(d: string, b: string)
    requires d != "" && b != ""
    ensures d != CURRENT ==> Append(d, b) == Strip(d) + Glue(Strip(d)) + b
  {
    StripKinds(d);
  }

  lemma {:induction false} StripNoTrailing(s: string)
    requires s != "" && s[|s|-1] != SEPARATOR
    ensures Strip(s) == s
  {
    TrimUnique(s, s);
  }

  lemma {:induction false} LastSeparatorIs(s: string, k: int)
    requires -1 <= k < |s|
    requires k >= 0 ==> s[k] == SEPARATOR
    requires forall q :: k < q < |s| ==> s[q] != SEPARATOR
    ensures LastSeparator(s) == k
  {}

  /** Taking a path apart after its last separator, which sits at the end of p + Glue(p). */
  lemma {:induction false} SplitAfterGlue(p: string, b: string)
    requires p != "" && Strip(p) == p && b != "" && SeparatorFree(b)
    ensures BaseName(p + Glue(p) + b) == b
    ensures DirName(p + Glue(p) + b) == p
  {
    var g := p + Glue(p);
    var a := g + b;
    StripNoTrailing(a);
    StripKinds(p);
    LastSeparatorIs(a, |g| - 1);
    assert a[|g|..] == b;
    if AllSeparators(p) {
      assert p == "/" || p == "//";
      assert a[..|p|] == p;
    } else {
      assert a[..|p|] == p && |g| == |p| + 1;
      if |p| == 1 { assert a[0] != SEPARATOR; }
    }
  }

  /** The base name is what follows the last separator of the stripped path. */
  lemma {:induction false} BaseIsTail(p: string)
    requires p != "" && !AllSeparators(p)
    ensures var q := Strip(p);
            BaseName(p) == q[LastSeparator(q)+1..] && BaseName(p) != "" && SeparatorFree(BaseName(p))
  {
    hide Trim, Strip, LastIndexOf;
    StripKinds(p);
    var q := Strip(p);
    if LastSeparator(q) == -1 { assert q[0..] == q; }
  }

  lemma {:induction false} BareName(b: string)
    requires b != "" && SeparatorFree(b)
    ensures BaseName(b) == b && DirName(b) == CURRENT
  {
    StripNoTrailing(b);
    LastSeparatorIs(b, -1);
    assert b[..0] == "";
  }

  /** Appending a name and taking it apart again: the directory comes back stripped
      and the name comes back as it was. */
  /** Nothing is put in front of what is appended to "" or ".", and not more than a
      separator between. */
  lemma {:induction false} AppendAddsLittle(d: string, c: string)
    ensures d == "" || d == "." ==> Append(d, c) == c
    ensures |Append(d, c)| <= |d| + 1 + |c|
  {
    if d == "" { assert "" + c == c; }
  }

  lemma {:induction false} DirAndBaseOfAppend(d: string, b: string)
    requires b != "" && SeparatorFree(b)
    ensures BaseName(Append(d, b)) == b
    ensures DirName(Append(d, b)) == Strip(d) <==> d != ""
  {
    StripKinds(d);
    if d == CURRENT || d == "" {
      assert Append(d, b) == b by { assert "" + b == b; }
      BareName(b);
      StripNoTrailing(".");
    } else {
      AppendShape(d, b);
      StripIdempotent(d);
      SplitAfterGlue(Strip(d), b);
    }
  }
}
