/** Extensions: ExtensionSeparatorPosition, Extension and RemoveExtension. */
module PathExtensions {
  import opened FilePath

  const DOT := '.'

  function ToLower(c: char): char {
    if 'A' <= c <= 'Z' then c + 32 as char else c
  }

  function Lowercase(s: string): string { seq(|s|, i requires 0 <= i < |s| => ToLower(s[i])) }

  /** The final extensions that may follow another one. */
  predicate IsCommonDouble(extension: string) {
    Lowercase(extension) == "gz" || Lowercase(extension) == "z" || Lowercase(extension) == "bz2"
  }

  /** The position of the dot that starts the extension, or -1. */
  function ExtensionSeparatorPosition(path: string): (r: int)
    ensures -1 <= r < |path|
    ensures r >= 0 ==> path[r] == DOT
  {
    if path == CURRENT || path == PARENT then -1
    else
      var lastDot := LastIndexOf(path, DOT, |path|);
      if lastDot <= 0 || !IsCommonDouble(path[lastDot+1..]) then lastDot
      else
        var penultimateDot := LastIndexOf(path, DOT, lastDot);
        var lastSeparator := LastIndexOf(path, SEPARATOR, lastDot);
        if penultimateDot != -1 && penultimateDot > lastSeparator && 1 < lastDot - penultimateDot <= 5
        then penultimateDot
        else lastDot
  }

  function Extension(path: string): string {
    var base := BaseName(path);
    var dot := ExtensionSeparatorPosition(base);
    if dot == -1 then "" else base[dot..]
  }

  function RemoveExtension(path: string): string {
    if Extension(path) == "" then path
    else
      var dot := ExtensionSeparatorPosition(path);
      if dot == -1 then path else path[..dot]
  }

  lemma {:induction false} LastIndexIs(s: string, c: char, end: nat, r: int)
    requires -1 <= r < end <= |s| || (r == -1 && end <= |s|)
    requires r >= 0 ==> s[r] == c
    requires forall q :: r < q < end ==> s[q] != c
    ensures LastIndexOf(s, c, end) == r
  {}

  /** "gz", "z" and "bz2", in capitals or not. */
  lemma {:induction false} CommonDoubles(e: string)
    ensures IsCommonDouble(e) <==>
            || (|e| == 1 && e[0] in "zZ")
            || (|e| == 2 && e[0] in "gG" && e[1] in "zZ")
            || (|e| == 3 && e[0] in "bB" && e[1] in "zZ" && e[2] == '2')
  {
    var l := Lowercase(e);
    forall i | 0 <= i < |e|
      ensures (l[i] == 'z' <==> e[i] in "zZ") && (l[i] == 'g' <==> e[i] in "gG") && (l[i] == 'b' <==> e[i] in "bB")
      ensures l[i] == '2' <==> e[i] == '2'
    {}
    assert l == "z" <==> |l| == 1 && l[0] == 'z';
    assert l == "gz" <==> |l| == 2 && l[0] == 'g' && l[1] == 'z';
    assert l == "bz2" <==> |l| == 3 && l[0] == 'b' && l[1] == 'z' && l[2] == '2';
  }

  predicate DotFrom(s: string, k: int) {
    exists i :: k <= i < |s| && 0 <= i && s[i] == DOT
  }

  /** A double extension: dots at q and d with one to four characters between them, neither
      dot nor separator, and a common final extension without a dot. */
  predicate IsDouble(s: string, q: int, d: int) {
    && 0 <= q < d < |s| && s[q] == DOT && s[d] == DOT && !DotFrom(s, d + 1)
    && 1 <= d - q - 1 <= 4 && (forall i :: q < i < d ==> s[i] != DOT && s[i] != SEPARATOR)
    && IsCommonDouble(s[d+1..])
  }

  ghost predicate HasDouble(s: string) { exists q, d :: IsDouble(s, q, d) }

  /** There is no extension in "." and ".." and where there is no dot; otherwise it is the
      double extension if there is one, and starts at the last dot if there is none. */
  lemma {:induction false} LongestExtension(s: string)
    ensures var r := ExtensionSeparatorPosition(s);
            && (r == -1 <==> s == CURRENT || s == PARENT || !DotFrom(s, 0))
            && (r >= 0 ==> if HasDouble(s) then exists d :: IsDouble(s, r, d) else !DotFrom(s, r + 1))
  {
    var last := LastIndexOf(s, DOT, |s|);
    if last > 0 && s != PARENT {
      DoubleIsFound(s, last);
    }
  }

  /** A double extension can only stand at the last two dots. */
  lemma {:induction false} DoubleIsLast(s: string, q: int, d: int)
    requires IsDouble(s, q, d)
    ensures d == LastIndexOf(s, DOT, |s|) && q == LastIndexOf(s, DOT, d) > LastIndexOf(s, SEPARATOR, d)
  {
    hide IsCommonDouble;
    assert forall i :: d < i < |s| ==> s[i] != DOT;
    LastIndexIs(s, DOT, |s|, d);
    LastIndexIs(s, DOT, d, q);
  }

  /** The search with two rfinds finds the double extension exactly if there is one. */
  lemma {:induction false} DoubleIsFound(s: string, last: int)
    requires last == LastIndexOf(s, DOT, |s|) > 0 && s != PARENT
    ensures var r := ExtensionSeparatorPosition(s);
            if HasDouble(s) then IsDouble(s, r, last) else r == last
  {
    hide IsCommonDouble;
    var r := ExtensionSeparatorPosition(s);
    if HasDouble(s) {
      var q, d :| IsDouble(s, q, d);
      hide IsDouble;
      DoubleIsLast(s, q, d);
      assert r == q by { DoubleGap(s, q, d); }
    } else {
      assert !IsDouble(s, r, last);
    }
  }

  lemma {:induction false} DoubleGap(s: string, q: int, d: int)
    requires IsDouble(s, q, d)
    ensures 0 <= q < d < |s| && 1 < d - q <= 5 && IsCommonDouble(s[d+1..])
  {}

  /** The extension is the end of the base name from there on. */
  lemma {:induction false} ExtensionMeans(p: string)
    ensures var b, e := BaseName(p), Extension(p);
            var q := |b| - |e|;
            && (e == "" <==> b == "." || b == ".." || '.' !in b)
            && (e != "" ==> && 0 <= q && b[q..] == e && e[0] == '.'
                            && (if HasDouble(b) then exists d :: IsDouble(b, q, d) else '.' !in e[1..]))
  {
    hide BaseName, ExtensionSeparatorPosition, IsDouble, HasDouble;
    var b := BaseName(p);
    LongestExtension(b);
    assert DotFrom(b, 0) <==> '.' in b;
    var r := ExtensionSeparatorPosition(b);
    if r != -1 {
      assert b[r..][1..] == b[r+1..];
      assert DotFrom(b, r + 1) <==> '.' in b[r+1..];
    }
  }

  /** The last dot of the whole path is the last dot of its base name. */
  lemma {:induction false} SameLastDot(p: string, k: nat)
    requires k < |p| && LastIndexOf(p[k..], DOT, |p| - k) >= 0
    ensures LastIndexOf(p, DOT, |p|) == k + LastIndexOf(p[k..], DOT, |p| - k)
  {
    var b := p[k..];
    var d := LastIndexOf(b, DOT, |b|);
    forall q | k + d < q < |p| ensures p[q] != DOT { assert p[q] == b[q-k]; }
    LastIndexIs(p, DOT, |p|, k + d);
  }

  /** A leading dot of the base name has no dot in front of it that counts. */
  lemma {:induction false} LeadingDot(p: string, k: nat)
    requires 0 < k < |p| && p[k-1] == SEPARATOR
    ensures !(LastIndexOf(p, DOT, k) > LastIndexOf(p, SEPARATOR, k))
  {
    LastIndexIs(p, SEPARATOR, k, k - 1);
  }

  /** Searching the base name and searching the whole path find the same dot. */
  lemma {:induction false} SameDot(p: string, k: nat)
    requires k < |p| && SeparatorFree(p[k..]) && (k > 0 ==> p[k-1] == SEPARATOR)
    requires ExtensionSeparatorPosition(p[k..]) != -1
    ensures ExtensionSeparatorPosition(p) == k + ExtensionSeparatorPosition(p[k..])
  {
    hide LastIndexOf, IsCommonDouble;
    var b := p[k..];
    var d := LastIndexOf(b, DOT, |b|);
    SameLastDot(p, k);
    assert p[k+d+1..] == b[d+1..];
    NotSpecial(p, k);
    if d > 0 {
      SamePenultimate(p, k, d);
    } else if k > 0 {
      LeadingDot(p, k);
    }
  }

  lemma {:induction false} NotSpecial(p: string, k: nat)
    requires k < |p| && (k > 0 ==> p[k-1] == SEPARATOR)
    requires p[k..] != CURRENT && p[k..] != PARENT
    ensures p != CURRENT && p != PARENT
  {
    assert k == 0 ==> p[k..] == p;
  }

  lemma {:induction false} SamePenultimate(p: string, k: nat, d: int)
    requires k < |p| && SeparatorFree(p[k..]) && (k > 0 ==> p[k-1] == SEPARATOR) && 0 < d < |p| - k
    ensures LastIndexOf(p, SEPARATOR, k + d) == k - 1
    ensures var e := LastIndexOf(p[k..], DOT, d);
            if e == -1 then LastIndexOf(p, DOT, k + d) <= k - 1 else LastIndexOf(p, DOT, k + d) == k + e
    ensures LastIndexOf(p[k..], SEPARATOR, d) == -1
  {
    var b := p[k..];
    forall q | k <= q < k + d ensures p[q] != SEPARATOR { assert p[q] == b[q-k]; }
    LastIndexIs(p, SEPARATOR, k + d, k - 1);
    var e := LastIndexOf(b, DOT, d);
    forall q | k + e < q < k + d && q >= k ensures p[q] != DOT { assert p[q] == b[q-k]; }
    if e != -1 {
      LastIndexIs(p, DOT, k + d, k + e);
    }
  }

  lemma {:induction false} ExtensionHasNoSeparator(p: string)
    ensures SeparatorFree(Extension(p)) && (Extension(p) != "" ==> Extension(p)[0] == DOT)
  {
    var q := Strip(p);
    StripKinds(p);
    if Extension(p) != "" {
      var base := BaseName(p);
      if AllSeparators(p) {
        assert false by { SeparatorsHaveNoDot(p); }
      }
    }
  }

  lemma {:induction false} SeparatorsHaveNoDot(p: string)
    requires AllSeparators(p)
    ensures Extension(p) == ""
  {
    StripKinds(p);
    var base := BaseName(p);
    assert AllSeparators(base);
  }

  lemma {:induction false} BaseBehind(p: string)
    requires Strip(p) == p && Extension(p) != ""
    ensures var k := LastSeparator(p) + 1; k < |p| && BaseName(p) == p[k..]
  {
    StripKinds(p);
    if AllSeparators(p) {
      SeparatorsHaveNoDot(p);
    }
    BaseIsTail(p);
  }

  lemma {:induction false} CutsAt(p: string, k: nat, e: int)
    requires k <= |p| && BaseName(p) == p[k..] && e == ExtensionSeparatorPosition(p[k..]) && e != -1
    requires ExtensionSeparatorPosition(p) == k + e
    ensures Extension(p) == p[k..][e..] && RemoveExtension(p) == p[..k+e]
  {
    hide ExtensionSeparatorPosition, BaseName;
  }

  lemma {:induction false} HasExtension(p: string)
    ensures Extension(p) != "" <==> ExtensionSeparatorPosition(BaseName(p)) != -1
  {
    hide ExtensionSeparatorPosition, BaseName;
  }

  lemma {:induction false} TailIsName(p: string)
    ensures var k := LastSeparator(p) + 1;
            SeparatorFree(p[k..]) && (k > 0 ==> p[k-1] == SEPARATOR)
  {}

  lemma {:induction false} StrippedRejoins(p: string)
    requires Strip(p) == p && Extension(p) != ""
    ensures RemoveExtension(p) + Extension(p) == p
  {
    hide ExtensionSeparatorPosition, BaseName, LastSeparator, Strip, RemoveExtension, SeparatorFree, Extension;
    var k := LastSeparator(p) + 1;
    BaseBehind(p);
    TailIsName(p);
    HasExtension(p);
    SameDot(p, k);
    var e := ExtensionSeparatorPosition(p[k..]);
    CutsAt(p, k, e);
    CutAndJoin(p, k, e);
  }

  lemma {:induction false} CutAndJoin(p: string, k: nat, e: nat)
    requires k + e <= |p|
    ensures p[..k+e] + p[k..][e..] == p
  {}

  lemma {:induction false} TrailingIsLost(p: string)
    requires Strip(p) != p && Extension(p) != ""
    ensures RemoveExtension(p) + Extension(p) != p
  {
    hide ExtensionSeparatorPosition, RemoveExtension, Extension;
    StripKinds(p);
    ExtensionHasNoSeparator(p);
    var e := Extension(p);
    var joined := RemoveExtension(p) + e;
    assert joined[|joined|-1] == e[|e|-1] && p[|p|-1] == SEPARATOR;
  }

  /** Taking the extension off and putting it back gives the path, unless trailing
      separators stood between the extension and the end. */
  lemma {:induction false} RemoveThenExtension(p: string)
    ensures RemoveExtension(p) + Extension(p) == p <==> Strip(p) == p || Extension(p) == ""
  {
    hide ExtensionSeparatorPosition, BaseName, Strip;
    if Extension(p) != "" {
      if Strip(p) == p { StrippedRejoins(p); } else { TrailingIsLost(p); }
    }
  }
}
