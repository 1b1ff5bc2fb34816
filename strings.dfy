/** The handful of JavaScript string operations the core relies on. */
module Strings {

  /** `s.startsWith(p)` */
  predicate StartsWith(s: string, p: string)
  {
    |p| <= |s| && s[..|p|] == p
  }

  /** `s.endsWith(p)` */
  predicate EndsWith(s: string, p: string)
  {
    |p| <= |s| && s[|s| - |p|..] == p
  }

  /** `toLowerCase` restricted to ASCII letters; other characters are kept. */
  function LowerChar(c: char): char
  {
    if 'A' <= c <= 'Z' then (c as int + 32) as char else c
  }

  function ToLower(s: string): (r: string)
    ensures |r| == |s|
    ensures forall i :: 0 <= i < |s| ==> r[i] == LowerChar(s[i])
  {
    seq(|s|, i requires 0 <= i < |s| => LowerChar(s[i]))
  }

  /**
   * The characters matched by `\s` and removed by `trim`: tab through
   * carriage return, space, no-break space, ogham space mark, the spaces
   * U+2000 to U+200A, the line and paragraph separators, narrow no-break
   * space, medium mathematical space, ideographic space and the byte order mark.
   */
  predicate IsJsSpace(c: char)
  {
    || c == ' ' || ('\t' <= c <= '\r') || c == '\U{00A0}' || c == '\U{1680}'
    || ('\U{2000}' <= c <= '\U{200A}') || c == '\U{2028}' || c == '\U{2029}'
    || c == '\U{202F}' || c == '\U{205F}' || c == '\U{3000}' || c == '\U{FEFF}'
  }

  /** Every character of `s` from `lo` up to, not including, `hi` is white space. */
  predicate SpacesIn(s: string, lo: nat, hi: nat)
    requires hi <= |s|
  {
    forall k :: lo <= k < hi ==> IsJsSpace(s[k])
  }

  /** `s` without its leading white space. */
  function TrimStart(s: string): (r: string)
    ensures |r| <= |s| && r == s[|s| - |r|..]
    ensures SpacesIn(s, 0, |s| - |r|)
    ensures r == [] || !IsJsSpace(r[0])
  {
    if s != [] && IsJsSpace(s[0]) then TrimStart(s[1..]) else s
  }

  /** `s` without its trailing white space. */
  function TrimEnd(s: string): (r: string)
    ensures |r| <= |s| && r == s[..|r|]
    ensures SpacesIn(s, |r|, |s|)
    ensures r == [] || !IsJsSpace(r[|r| - 1])
  {
    if s != [] && IsJsSpace(s[|s| - 1]) then TrimEnd(s[..|s| - 1]) else s
  }

  /** `r` is `s[i..i + |r|]`, only white space lies outside it, and it neither starts nor ends with white space. */
  predicate TrimmedFrom(s: string, i: nat, r: string)
  {
    && i + |r| <= |s| && r == s[i..i + |r|]
    && SpacesIn(s, 0, i)
    && SpacesIn(s, i + |r|, |s|)
    && (r == [] || (!IsJsSpace(r[0]) && !IsJsSpace(r[|r| - 1])))
  }

  /** `s.trim()`: the middle part of `s` left once the white space at both ends is cut away. */
  function Trim(s: string): (r: string)
    ensures TrimmedFrom(s, |s| - |TrimStart(s)|, r)
  {
    TrimParts(s);
    TrimEnd(TrimStart(s))
  }

  lemma TrimParts(s: string)
    ensures TrimmedFrom(s, |s| - |TrimStart(s)|, TrimEnd(TrimStart(s)))
  {
    var t := TrimStart(s);
    var r := TrimEnd(t);
    var i := |s| - |t|;
    SliceOfSlice(s, i, t, r);
    TrailingSpaces(s, i, t, |r|);
    FirstKept(t, r);
    TrimmedFromParts(s, i, r);
  }

  lemma TrimmedFromParts(s: string, i: nat, r: string)
    requires i + |r| <= |s| && r == s[i..i + |r|]
    requires SpacesIn(s, 0, i) && SpacesIn(s, i + |r|, |s|)
    requires r == [] || !IsJsSpace(r[0])
    requires r == [] || !IsJsSpace(r[|r| - 1])
    ensures TrimmedFrom(s, i, r)
  {
  }

  lemma FirstKept(t: string, r: string)
    requires t == [] || !IsJsSpace(t[0])
    requires |r| <= |t| && r == t[..|r|]
    ensures r == [] || !IsJsSpace(r[0])
  {
    if r != [] {
      assert r[0] == t[0];
    }
  }

  lemma TrailingSpaces(s: string, i: nat, t: string, n: nat)
    requires i <= |s| && t == s[i..] && n <= |t|
    requires SpacesIn(t, n, |t|)
    ensures SpacesIn(s, i + n, |s|)
  {
    forall k | i + n <= k < |s| ensures IsJsSpace(s[k]) {
      assert s[k] == t[k - i];
    }
  }

  lemma SliceOfSlice(s: string, i: nat, t: string, r: string)
    requires i <= |s| && t == s[i..] && |r| <= |t| && r == t[..|r|]
    ensures i + |r| <= |s| && r == s[i..i + |r|]
  {
  }

  /** A non-empty tail splits off its last character. */
  lemma SplitLast(prefix: string, name: string)
    requires name != []
    ensures prefix + name == (prefix + name[..|name| - 1]) + [name[|name| - 1]]
    ensures name == name[..|name| - 1] + [name[|name| - 1]]
  {
  }

  /** `a` is `b` with some characters deleted. */
  predicate Subseq(a: string, b: string)
    decreases |b|
  {
    a == [] || (b != [] && ((a[0] == b[0] && Subseq(a[1..], b[1..])) || Subseq(a, b[1..])))
  }

  lemma {:induction false} SubseqRefl(a: string)
    ensures Subseq(a, a)
    decreases |a|
  {
    if a != [] {
      SubseqRefl(a[1..]);
    }
  }

  /** Dropping a prefix of the larger string keeps a subsequence of what is left. */
  lemma {:induction false} SubseqOfSuffix(a: string, b: string, k: nat)
    requires k <= |b| && Subseq(a, b[k..])
    ensures Subseq(a, b)
    decreases k
  {
    if k > 0 {
      assert b[k - 1..][1..] == b[k..];
      SubseqOfSuffix(a, b, k - 1);
    }
  }

  lemma {:induction false} SubseqTransitive(a: string, b: string, c: string)
    requires Subseq(a, b) && Subseq(b, c)
    ensures Subseq(a, c)
    decreases |c|
  {
    if a != [] {
      if Subseq(b, c[1..]) {
        SubseqTransitive(a, b, c[1..]);
      } else if Subseq(a, b[1..]) {
        SubseqTransitive(a, b[1..], c[1..]);
      } else {
        SubseqTransitive(a[1..], b[1..], c[1..]);
      }
    }
  }

  /** A substring is a subsequence. */
  lemma {:induction false} SubseqOfSlice(s: string, i: nat, j: nat)
    requires i <= j <= |s|
    ensures Subseq(s[i..j], s)
    decreases |s|
  {
    if i < j {
      if i == 0 {
        SubseqOfSlice(s[1..], 0, j - 1);
        assert s[1..][..j - 1] == s[1..j];
      } else {
        var a := s[i..j];
        SubseqOfSlice(s[1..], i - 1, j - 1);
        assert s[1..][i - 1..j - 1] == a;
        assert a != [] && s != [] && Subseq(a, s[1..]);
      }
    }
  }

  lemma {:induction false} SubseqLength(a: string, b: string)
    requires Subseq(a, b)
    ensures |a| <= |b|
    decreases |b|
  {
    if a != [] {
      if a[0] == b[0] && Subseq(a[1..], b[1..]) {
        SubseqLength(a[1..], b[1..]);
      } else {
        SubseqLength(a, b[1..]);
      }
    }
  }
}
