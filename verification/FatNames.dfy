/** Path components and the eleven-byte names of FAT directory entries. */
module FatNames {
  import opened ByteMemory

  /** A character of a C string, so never zero. */
  type Char = b: Byte | b != 0 witness 1

  const SLASH: Char := 47

  const BACKSLASH: Char := 92

  const DOT: Char := 46

  const SPACE: Char := 32

  predicate IsSep(c: Byte) {
    c == SLASH || c == BACKSLASH
  }

  predicate Plain(s: seq<Char>) {
    forall q: nat :: q < |s| ==> !IsSep(s[q])
  }

  // ----- Components of a path

  /** The maximal runs of characters that are not separators. */
  function Components(p: seq<Char>): (cs: seq<seq<Char>>)
    ensures p != [] && !IsSep(p[0]) ==> cs != []
    ensures forall q: nat :: q < |cs| ==> cs[q] != [] && Plain(cs[q])
  {
    if p == [] then []
    else if IsSep(p[0]) then Components(p[1..])
    else if |p| == 1 || IsSep(p[1]) then [[p[0]]] + Components(p[1..])
    else
      var cs := Components(p[1..]);
      [[p[0]] + cs[0]] + cs[1..]
  }

  /** What the first character does to the components. */
  lemma {:induction false} ComponentsStep(p: seq<Char>)
    ensures p == [] ==> Components(p) == []
    ensures p != [] && IsSep(p[0]) ==> Components(p) == Components(p[1..])
    ensures p != [] && !IsSep(p[0]) && (|p| == 1 || IsSep(p[1])) ==> Components(p) == [[p[0]]] + Components(p[1..])
    ensures p != [] && !IsSep(p[0]) && |p| > 1 && !IsSep(p[1]) ==>
              var cs := Components(p[1..]);
              cs != [] && Components(p) == [[p[0]] + cs[0]] + cs[1..]
  {
  }

  lemma {:induction false} SeparatorsSplit(a: seq<Char>, b: seq<Char>)
    requires a == [] || b == [] || IsSep(a[|a| - 1]) || IsSep(b[0])
    ensures Components(a + b) == Components(a) + Components(b)
  {
    hide Components;
    ComponentsStep([]);
    if a == [] {
      assert a + b == b && [] + Components(b) == Components(b);
    } else if b == [] {
      assert a + b == a && Components(a) + [] == Components(a);
    } else {
      assert (a + b)[1..] == a[1..] + b;
      SeparatorsSplit(a[1..], b);
      ComponentsStep(a);
      ComponentsStep(a + b);
    }
  }

  lemma {:induction false} PlainIsOne(c: seq<Char>)
    requires c != [] && Plain(c)
    ensures Components(c) == [c]
  {
    if |c| > 1 {
      PlainIsOne(c[1..]);
      assert [c[0]] + c[1..] == c;
    } else {
      assert c == [c[0]];
    }
  }

  lemma {:induction false} SeparatorsAreNone(s: seq<Char>)
    requires forall q: nat :: q < |s| ==> IsSep(s[q])
    ensures Components(s) == []
  {
    if s != [] {
      SeparatorsAreNone(s[1..]);
    }
  }

  /** A separator run between components, in front or behind changes nothing, whatever its length and its mix of
      slashes and backslashes. */
  lemma {:induction false} OneComponent(before: seq<Char>, c: seq<Char>, after: seq<Char>)
    requires forall q: nat :: q < |before| ==> IsSep(before[q])
    requires c != [] && Plain(c) && (after == [] || IsSep(after[0]))
    ensures Components(before + c + after) == [c] + Components(after)
  {
    hide Components;
    SeparatorsAreNone(before);
    PlainIsOne(c);
    assert [] + [c] == [c];
    SeparatorsSplit(before, c);
    SeparatorsSplit(before + c, after);
  }

  // ----- Eight plus three

  function Upper(c: Byte): (u: Byte)
    ensures c != 0 ==> u != 0
  {
    if 97 <= c <= 122 then c - 32 else c
  }

  function UpperAll(s: seq<Byte>): (u: seq<Byte>)
    ensures |u| == |s| && forall q: nat :: q < |s| ==> u[q] == Upper(s[q])
  {
    seq(|s|, q requires 0 <= q < |s| => Upper(s[q]))
  }

  /** How far the first separator is. */
  function SepAt(s: seq<Char>): (k: nat)
    ensures k <= |s| && Plain(s[..k]) && (k < |s| ==> IsSep(s[k]))
  {
    if s == [] || IsSep(s[0]) then
      0
    else
      var k := 1 + SepAt(s[1..]);
      assert forall q: nat :: 0 < q < k ==> s[q] == s[1..][q - 1];
      k
  }

  /** Where the last dot is, or the length. */
  function LastDot(s: seq<Byte>): (k: nat)
    ensures k <= |s| && (k < |s| ==> s[k] == DOT) && forall q: nat :: k < q < |s| ==> s[q] != DOT
    ensures k == |s| ==> forall q: nat :: q < |s| ==> s[q] != DOT
  {
    if s == [] then 0
    else if s[|s| - 1] == DOT then |s| - 1
    else
      var k := LastDot(s[..|s| - 1]);
      if k == |s| - 1 then |s| else k
  }

  /** The part of a segment that names an entry: one leading separator skipped, up to the next. */
  function Element(segment: seq<Char>): (e: seq<Char>)
    ensures Plain(e)
  {
    var s := if segment != [] && IsSep(segment[0]) then segment[1..] else segment;
    s[..SepAt(s)]
  }

  function Stem(e: seq<Byte>): seq<Byte> {
    e[..LastDot(e)]
  }

  function Extension(e: seq<Byte>): seq<Byte> {
    if LastDot(e) < |e| then e[LastDot(e) + 1..] else []
  }

  function Spaces(n: nat): (s: seq<Byte>)
    ensures |s| == n && forall q: nat :: q < n ==> s[q] == SPACE
  {
    seq(n, _ => SPACE)
  }

  /** Cut to n or padded with spaces to n. */
  function Fit(s: seq<Byte>, n: nat): (r: seq<Byte>)
    ensures |r| == n
  {
    if |s| >= n then s[..n] else s + Spaces(n - |s|)
  }

  function To8dot3(segment: seq<Char>): (r: seq<Byte>)
    ensures |r| == 11
  {
    var e := Element(segment);
    Fit(UpperAll(Stem(e)), 8) + Fit(UpperAll(Extension(e)), 3)
  }

  /** Small letters count as capitals, and every other character as itself. */
  function Capital(c: Byte): nat {
    if 'a' as int <= c <= 'z' as int then c - 'a' as int + 'A' as int else c
  }

  /** The eleven bytes, one by one: eight of the element before its last dot and three behind it, as capitals, cut
      off or filled up with blanks. */
  lemma NameBytes(e: seq<Char>, dot: nat)
    requires Plain(e) && dot <= |e| && (dot < |e| ==> e[dot] == '.' as int)
    requires forall q: nat :: (if dot == |e| then 0 else dot + 1) <= q < |e| ==> e[q] != '.' as int
    ensures forall i: nat :: i < 8 ==> To8dot3(e)[i] == if i < dot then Capital(e[i]) else ' ' as int
    ensures var ext := To8dot3(e)[8..];
            forall i: nat :: i < 3 ==> ext[i] == if dot + 1 + i < |e| then Capital(e[dot + 1 + i]) else ' ' as int
  {
    ElementIsItself(e);
    DotIs(e, dot);
    var stem, ext := UpperAll(Stem(e)), UpperAll(Extension(e));
    assert stem == UpperAll(e[..dot]);
  }

  lemma {:induction false} DotIs(e: seq<Char>, dot: nat)
    requires dot <= |e| && (dot < |e| ==> e[dot] == '.' as int)
    requires forall q: nat :: (if dot == |e| then 0 else dot + 1) <= q < |e| ==> e[q] != '.' as int
    ensures LastDot(e) == dot
  {
    var k := LastDot(e);
    if k < |e| && dot < |e| {
      assert !(k < dot) && !(dot < k);
    }
  }

  /** Paths are cut at slashes of either kind. */
  lemma Separators(c: Byte)
    ensures IsSep(c) <==> c == '/' as int || c == '\\' as int
  {
  }

  // ----- Reading such a name back

  function Trim(s: seq<Byte>): (r: seq<Byte>)
    ensures |r| <= |s| && r == s[..|r|] && (r != [] ==> r[|r| - 1] != SPACE)
    ensures forall q: nat :: |r| <= q < |s| ==> s[q] == SPACE
  {
    if s != [] && s[|s| - 1] == SPACE then Trim(s[..|s| - 1]) else s
  }

  function Rejoin(name: seq<Byte>): seq<Byte>
    requires |name| == 11
  {
    var ext := Trim(name[8..]);
    Trim(name[..8]) + if ext == [] then [] else [DOT] + ext
  }

  predicate EndsInSpace(s: seq<Byte>) {
    s != [] && s[|s| - 1] == SPACE
  }

  /** Short enough, nothing the padding would hide, and no dot with nothing after it. */
  predicate Fits(e: seq<Char>) {
    |Stem(e)| <= 8 && !EndsInSpace(Stem(e))
    && (LastDot(e) < |e| ==> 1 <= |Extension(e)| <= 3 && !EndsInSpace(Extension(e)))
  }

  lemma TrimFit(s: seq<Byte>, n: nat)
    ensures Trim(Fit(s, n)) == s <==> |s| <= n && !EndsInSpace(s)
    ensures |Trim(Fit(s, n))| <= |s| && Trim(Fit(s, n)) == s[..|Trim(Fit(s, n))|]
  {
    var f, t := Fit(s, n), Trim(Fit(s, n));
    assert forall q: nat :: |s| <= q < |f| ==> f[q] == SPACE;
    assert forall q: nat :: q < |s| && q < |f| ==> f[q] == s[q];
    assert t == f[..|t|];
    if |s| <= n && !EndsInSpace(s) {
      assert s != [] ==> f[|s| - 1] != SPACE;
      assert |t| == |s|;
    }
  }

  lemma UpperConcat(a: seq<Byte>, b: seq<Byte>)
    ensures UpperAll(a + b) == UpperAll(a) + UpperAll(b)
  {
  }

  lemma UpperDot(b: seq<Byte>)
    ensures UpperAll([DOT] + b) == [DOT] + UpperAll(b)
  {
  }

  lemma UpperSpace(s: seq<Byte>)
    ensures EndsInSpace(UpperAll(s)) <==> EndsInSpace(s)
  {
  }

  lemma {:induction false} DotFacts(e: seq<Byte>)
    ensures LastDot(e) <= |e| && (LastDot(e) < |e| ==> e[LastDot(e)] == DOT)
  {
  }

  lemma UpperAround(e: seq<Byte>, k: nat)
    requires k < |e| && e[k] == DOT
    ensures UpperAll(e) == UpperAll(e[..k]) + ([DOT] + UpperAll(e[k + 1..]))
  {
    hide UpperAll;
    assert e == e[..k] + ([DOT] + e[k + 1..]);
    UpperConcat(e[..k], [DOT] + e[k + 1..]);
    UpperDot(e[k + 1..]);
  }

  lemma {:induction false} UpperParts(e: seq<Char>)
    ensures UpperAll(e) == UpperAll(Stem(e)) + if LastDot(e) < |e| then [DOT] + UpperAll(Extension(e)) else []
  {
    hide UpperAll, LastDot;
    DotFacts(e);
    if LastDot(e) < |e| {
      UpperAround(e, LastDot(e));
    } else {
      assert Stem(e) == e;
      NothingAppended(UpperAll(e));
    }
  }

  lemma NothingAppended(s: seq<Byte>)
    ensures s + [] == s
  {
  }

  /** Trimming and joining gives the name back, in capitals, exactly when it fits. */
  lemma RejoinIsUpper(e: seq<Char>)
    requires Plain(e)
    ensures Rejoin(To8dot3(e)) == UpperAll(e) <==> Fits(e)
  {
    hide Trim, Fit, UpperAll, LastDot;
    ElementIsItself(e);
    UpperParts(e);
    var stem, ext := UpperAll(Stem(e)), UpperAll(Extension(e));
    UpperSpace(Stem(e));
    UpperSpace(Extension(e));
    TrimFit(stem, 8);
    TrimFit(ext, 3);
    var full := To8dot3(e);
    assert full[..8] == Fit(stem, 8) && full[8..] == Fit(ext, 3);
  }

  lemma ElementIsItself(e: seq<Char>)
    requires Plain(e)
    ensures Element(e) == e
  {
    assert e[..SepAt(e)] == e;
  }

  /** So two names that fit stand for the same entry exactly when they differ in letter case only. */
  lemma SameNames(a: seq<Char>, b: seq<Char>)
    requires Plain(a) && Plain(b) && Fits(a) && Fits(b)
    ensures To8dot3(a) == To8dot3(b) <==> UpperAll(a) == UpperAll(b)
  {
    hide UpperAll, Rejoin, Fit, Element, Stem, Extension, LastDot;
    RejoinIsUpper(a);
    RejoinIsUpper(b);
    if UpperAll(a) == UpperAll(b) {
      CaseIgnored(a, b);
    }
  }

  /** ABCDEFGHI and ABCDEFGHJ have stems a letter too long: they fall together, and neither is read back. */
  lemma NineLetters()
    ensures var a: seq<Char> := [65, 66, 67, 68, 69, 70, 71, 72, 73];
            var b: seq<Char> := [65, 66, 67, 68, 69, 70, 71, 72, 74];
            && Plain(a) && Plain(b) && UpperAll(a) != UpperAll(b) && To8dot3(a) == To8dot3(b)
            && Rejoin(To8dot3(a)) != UpperAll(a) && Rejoin(To8dot3(b)) != UpperAll(b)
  {
    hide Trim, LastDot, UpperAll, Fit, Element, Rejoin;
    var a: seq<Char>, b: seq<Char> := [65, 66, 67, 68, 69, 70, 71, 72, 73], [65, 66, 67, 68, 69, 70, 71, 72, 74];
    ElementIsItself(a);
    ElementIsItself(b);
    NoDot(a);
    NoDot(b);
    FitCuts(a, b, 8);
    RejoinIsUpper(a);
    RejoinIsUpper(b);
  }

  lemma FitCuts(a: seq<Byte>, b: seq<Byte>, n: nat)
    requires |a| == |b| == n + 1 && a[..n] == b[..n] && Upper(a[n]) != Upper(b[n])
    ensures Fit(UpperAll(a), n) == Fit(UpperAll(b), n) && UpperAll(a) != UpperAll(b)
  {
    assert forall q: nat :: q < n ==> a[q] == a[..n][q] && b[q] == b[..n][q];
    assert UpperAll(a)[n] != UpperAll(b)[n];
  }

  lemma {:induction false} NoDot(e: seq<Byte>)
    requires forall q: nat :: q < |e| ==> e[q] != DOT
    ensures LastDot(e) == |e| && Stem(e) == e && Extension(e) == []
  {
  }

  lemma CaseIgnored(a: seq<Char>, b: seq<Char>)
    requires Plain(a) && Plain(b) && UpperAll(a) == UpperAll(b)
    ensures To8dot3(a) == To8dot3(b)
  {
    hide LastDot, UpperAll;
    ElementIsItself(a);
    ElementIsItself(b);
    SameDots(a, b);
    DotFacts(a);
    UpperSlices(a, LastDot(a));
    UpperSlices(b, LastDot(b));
  }

  lemma {:induction false} SameDots(a: seq<Byte>, b: seq<Byte>)
    requires UpperAll(a) == UpperAll(b)
    ensures |a| == |b| && LastDot(a) == LastDot(b) <= |a|
  {
    assert |UpperAll(a)| == |a| == |b|;
    var i, j := LastDot(a), LastDot(b);
    assert forall q: nat :: q < |a| ==> UpperAll(a)[q] == Upper(a[q]) == Upper(b[q]);
  }

  lemma UpperSlices(e: seq<Byte>, k: nat)
    requires k <= |e|
    ensures |UpperAll(e)| == |e| && UpperAll(e[..k]) == UpperAll(e)[..k]
    ensures k < |e| ==> UpperAll(e[k + 1..]) == UpperAll(e)[k + 1..]
  {
  }

  // ----- In place

  /** Copies up to `width` characters in capitals. */
  method CopyUpper(s: seq<Byte>, out11: array<Byte>, at: nat, width: nat)
    requires at + width <= out11.Length
    requires out11[at..at + width] == Spaces(width)
    modifies out11
    ensures out11[..] == old(out11[..at]) + Fit(UpperAll(s), width) + old(out11[at + width..])
  {
    hide LastDot, Fit, Spaces;
    ghost var was := out11[..];
    var i := 0;
    while i < |s| && i < width
      invariant i <= |s| && i <= width
      invariant out11[..] == was[..at] + UpperAll(s)[..i] + was[at + i..]
    {
      ghost var now := out11[..];
      out11[at + i] := if 97 <= s[i] <= 122 then s[i] - 32 else s[i];
      assert out11[..] == now[at + i := UpperAll(s)[i]];
      FilledOn(was, UpperAll(s), at, i);
      i := i + 1;
    }
    FitFilled(s, was, at, width, i);
  }

  lemma FilledOn(was: seq<Byte>, u: seq<Byte>, at: nat, i: nat)
    requires i < |u| && at + i < |was|
    ensures (was[..at] + u[..i] + was[at + i..])[at + i := u[i]] == was[..at] + u[..i + 1] + was[at + i + 1..]
  {
  }

  lemma FitFilled(s: seq<Byte>, was: seq<Byte>, at: nat, width: nat, i: nat)
    requires at + width <= |was| && was[at..at + width] == Spaces(width)
    requires i == if |s| < width then |s| else width
    ensures was[..at] + UpperAll(s)[..i] + was[at + i..] == was[..at] + Fit(UpperAll(s), width) + was[at + width..]
  {
    hide LastDot;
    assert was[at + i..] == was[at + i..at + width] + was[at + width..];
    assert was[at + i..at + width] == was[at..at + width][i..] == Spaces(width)[i..] == Spaces(width - i);
  }

  /** Finds the end of the element and its last dot; with no dot, `dot` is the end. */
  method ScanElement(s: seq<Char>) returns (dot: nat, end: nat)
    ensures end == SepAt(s) <= |s| && dot == LastDot(s[..end]) <= end
  {
    hide SepAt;
    SepStep(s, 0);
    end := 0;
    var seen := false;
    dot := 0;
    while end < |s| && !IsSep(s[end])
      invariant end <= SepAt(s) <= |s| && (if seen then dot < end else dot == 0)
      invariant LastDot(s[..end]) == if seen then dot else end
    {
      SepStep(s, end);
      assert s[..end + 1][..end] == s[..end];
      if s[end] == DOT {
        seen, dot := true, end;
      }
      end := end + 1;
    }
    SepStep(s, end);
    dot := if seen then dot else end;
  }

  /** A field of spaces, the stem over its first eight, the extension over its last three. */
  method To8dot3Upper(segment: seq<Char>, out11: array<Byte>)
    requires out11.Length == 11
    modifies out11
    ensures out11[..] == To8dot3(segment)
  {
    hide Fit, UpperAll, LastDot, SepAt, Spaces;
    for i := 0 to 11
      invariant forall q: nat :: q < i ==> out11[q] == SPACE
    {
      out11[i] := SPACE;
    }
    var s := if segment != [] && IsSep(segment[0]) then segment[1..] else segment;
    var dot, end := ScanElement(s);
    ghost var blank := out11[..];
    SpacesApart(blank);
    var ext := if dot < end then s[dot + 1..end] else [];
    assert ext == Extension(s[..end]) && s[..dot] == Stem(s[..end]);
    CopyUpper(s[..dot], out11, 0, 8);
    FieldApart(blank, Fit(UpperAll(s[..dot]), 8), out11[..]);
    CopyUpper(ext, out11, 8, 3);
  }

  lemma FieldApart(blank: seq<Byte>, stem: seq<Byte>, now: seq<Byte>)
    requires |blank| == 11 && |stem| == 8 && now == blank[..0] + stem + blank[8..]
    ensures now[..8] == stem && now[8..11] == blank[8..11]
  {
  }

  lemma SpacesApart(s: seq<Byte>)
    requires |s| == 11 && forall q: nat :: q < 11 ==> s[q] == SPACE
    ensures s[0..8] == Spaces(8) && s[8..11] == Spaces(3)
  {
  }

  lemma {:induction false} SepStep(s: seq<Char>, k: nat)
    requires k <= SepAt(s)
    ensures k <= SepAt(s) <= |s|
    ensures k == |s| || (k < |s| && IsSep(s[k])) ==> k == SepAt(s)
    ensures k < |s| && !IsSep(s[k]) ==> k + 1 <= SepAt(s)
  {
    var n := SepAt(s);
    assert forall q: nat :: q < n ==> s[q] == s[..n][q];
  }
}
