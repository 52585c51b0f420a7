/**
  POSIX path operations the converter calls: `os.path.splitext` and the
  two-argument `os.path.join`, with '/' as the separator.
 */
module Paths {
  import opened Strings

  const Sep: char := '/'
  const ExtSep: char := '.'

  /** `s.rfind(c)`: the index of the last `c` in `s`, or -1 when there is none. */
  function RFind(s: string, c: char): (k: int)
    ensures -1 <= k < |s|
    ensures k >= 0 ==> s[k] == c
    ensures forall j :: k < j < |s| ==> s[j] != c
  {
    if s == [] then -1
    else if s[|s| - 1] == c then |s| - 1
    else RFind(s[..|s| - 1], c)
  }

  /** Some character of `p[lo..hi]` is not a dot. */
  predicate HasNonDot(p: string, lo: int, hi: int)
    requires 0 <= lo <= hi <= |p|
  {
    exists j :: lo <= j < hi && p[j] != ExtSep
  }

  /**
    `os.path.splitext(p)`: the extension is the part from the last dot of
    the last path component on, provided that dot is preceded in the
    component by something other than dots; otherwise it is empty
    (".jpg" and "..jpg" have no extension).
   */
  function SplitExt(p: string): (r: (string, string))
    ensures r.0 + r.1 == p
    ensures r.1 == [] || r.1[0] == ExtSep
    ensures forall i :: 0 < i < |r.1| ==> r.1[i] != ExtSep && r.1[i] != Sep
  {
    var sep := RFind(p, Sep);
    var dot := RFind(p, ExtSep);
    if dot > sep && HasNonDot(p, sep + 1, dot) then (p[..dot], p[dot..]) else (p, [])
  }

  /**
    The converse of SplitExtAppended: an extension is split off only behind
    a stem whose last component is not all dots, so "..jpg" and "d/.jpg"
    have none.
   */
  lemma SplitExtStemNamed(p: string)
    ensures SplitExt(p).1 != [] ==> NamedComponent(SplitExt(p).0)
  {
    var sep := RFind(p, Sep);
    var dot := RFind(p, ExtSep);
    if dot > sep && HasNonDot(p, sep + 1, dot) {
      StemNamed(p, dot);
    }
  }

  /** Cutting `s` behind its last `c` does not change where that last `c` is. */
  lemma RFindPrefix(s: string, c: char, n: nat)
    requires RFind(s, c) < n <= |s|
    ensures RFind(s[..n], c) == RFind(s, c)
  {
    assert forall j :: 0 <= j < n ==> s[..n][j] == s[j];
  }

  /** The stem `splitext` cuts off in front of an extension is a named component. */
  lemma StemNamed(p: string, dot: int)
    requires RFind(p, Sep) < dot <= |p|
    requires HasNonDot(p, RFind(p, Sep) + 1, dot)
    ensures NamedComponent(p[..dot])
  {
    var sep := RFind(p, Sep);
    RFindPrefix(p, Sep, dot);
    var j :| sep + 1 <= j < dot && p[j] != ExtSep;
    assert p[..dot][j] == p[j];
  }

  /** The last path component of `p` holds a character other than a dot. */
  predicate NamedComponent(p: string)
  {
    HasNonDot(p, RFind(p, Sep) + 1, |p|)
  }

  /** Appending characters other than separators to a named component keeps it named. */
  lemma NamedComponentExtended(stem: string, tail: string)
    requires NamedComponent(stem)
    requires forall i :: 0 <= i < |tail| ==> tail[i] != Sep
    ensures NamedComponent(stem + tail)
  {
    var p := stem + tail;
    assert forall i :: 0 <= i < |stem| ==> p[i] == stem[i];
    assert forall i :: |stem| <= i < |p| ==> p[i] == tail[i - |stem|];
    var sep, sep0 := RFind(p, Sep), RFind(stem, Sep);
    assert sep == sep0;
    var j :| sep0 + 1 <= j < |stem| && stem[j] != ExtSep;
    assert p[j] == stem[j];
  }

  /**
    Appending a dot and an extension free of dots and separators to a path
    whose last component is not all dots gives a path that `splitext`
    splits back into exactly those two parts.
   */
  lemma SplitExtAppended(stem: string, ext: string)
    requires NamedComponent(stem)
    requires forall i :: 0 <= i < |ext| ==> ext[i] != ExtSep && ext[i] != Sep
    ensures SplitExt(stem + [ExtSep] + ext) == (stem, [ExtSep] + ext)
  {
    var p := stem + [ExtSep] + ext;
    assert forall i :: 0 <= i < |stem| ==> p[i] == stem[i];
    assert forall i :: |stem| < i < |p| ==> p[i] == ext[i - |stem| - 1];
    var dot := RFind(p, ExtSep);
    assert p[|stem|] == ExtSep;
    assert dot == |stem|;
    var sep := RFind(p, Sep);
    var sep0 := RFind(stem, Sep);
    assert sep == sep0;
    var j :| sep0 + 1 <= j < |stem| && stem[j] != ExtSep;
    assert p[j] == stem[j];
    assert p[..dot] == stem;
    assert p[dot..] == [ExtSep] + ext;
  }

  /** `os.path.join(a, b)`. */
  function Join(a: string, b: string): (r: string)
    ensures StartsWith(b, [Sep]) ==> r == b
    ensures !StartsWith(b, [Sep]) ==> StartsWith(r, a) && EndsWith(r, b) && |a| + |b| <= |r| <= |a| + |b| + 1
  {
    if StartsWith(b, [Sep]) then b
    else if a == [] || EndsWith(a, [Sep]) then a + b
    else a + [Sep] + b
  }

  /**
    For a relative `b`, `join` inserts one character exactly when `a` is
    non-empty and does not already end in a separator, and that character
    is the separator.
   */
  lemma JoinSeparator(a: string, b: string)
    requires !StartsWith(b, [Sep])
    ensures |Join(a, b)| == |a| + |b| + 1 <==> a != [] && !EndsWith(a, [Sep])
    ensures |Join(a, b)| == |a| + |b| + 1 ==> Join(a, b)[|a|] == Sep
  {
  }

  /** Inside one directory, relative names are joined to equal paths only when they are equal. */
  lemma JoinInjective(dir: string, b1: string, b2: string)
    requires !StartsWith(b1, [Sep]) && !StartsWith(b2, [Sep])
    ensures Join(dir, b1) == Join(dir, b2) <==> b1 == b2
  {
    var k := if dir == [] || EndsWith(dir, [Sep]) then |dir| else |dir| + 1;
    assert Join(dir, b1)[k..] == b1;
    assert Join(dir, b2)[k..] == b2;
  }
}
