/**
 * Fetching the tool catalog: a strict JSON parse first and, when that fails,
 * a tolerant parse of a cleaned-up text. Cleaning removes block comments,
 * then line comments, cuts the text down to its outermost brackets and drops
 * commas that stand before a closing bracket. `JSON.parse` is a parameter.
 */
module ToolApi {
  import opened Wrappers
  import opened Strings

  /** The two characters `a` and `b` stand at `i` and `i + 1`. */
  predicate PairAt(s: string, i: int, a: char, b: char)
  {
    0 <= i && i + 1 < |s| && s[i] == a && s[i + 1] == b
  }

  // ---------------------------------------------------------------------------
  // Block comments: /\/\*[\s\S]*?\*\//g

  /** The first comment closer (star, slash) that starts at or after `j`. */
  function CloseFrom(s: string, j: nat): (r: Option<nat>)
    ensures r.Some? ==> j <= r.value && PairAt(s, r.value, '*', '/')
    ensures r.Some? ==> forall m :: j <= m < r.value ==> !PairAt(s, m, '*', '/')
    ensures r.None? ==> forall m :: j <= m ==> !PairAt(s, m, '*', '/')
    decreases |s| - j
  {
    if j + 1 >= |s| then None
    else if s[j] == '*' && s[j + 1] == '/' then Some(j)
    else CloseFrom(s, j + 1)
  }

  // Each comment opener (slash, star) up to the nearest closer (star, slash)
  // after it goes; an opener with no closer after it stays, and the scan goes
  // on one character later.
  function StripBlockComments(s: string): string
    decreases |s|
  {
    if |s| < 2 then s
    else if s[0] == '/' && s[1] == '*' && CloseFrom(s, 2).Some? then StripBlockComments(s[CloseFrom(s, 2).value + 2..])
    else [s[0]] + StripBlockComments(s[1..])
  }

  // ---------------------------------------------------------------------------
  // Line comments: /\/\/.*$/gm

  /** The characters `.` does not match and before which `$` matches under the `m` flag. */
  predicate IsLineTerminator(c: char)
  {
    c == '\n' || c == '\r' || c == '\U{2028}' || c == '\U{2029}'
  }

  /** The first line terminator at or after `j`, or the end of the text. */
  function LineEnd(s: string, j: nat): (k: nat)
    requires j <= |s|
    ensures j <= k <= |s|
    ensures forall m :: j <= m < k ==> !IsLineTerminator(s[m])
    ensures k < |s| ==> IsLineTerminator(s[k])
    decreases |s| - j
  {
    if j == |s| || IsLineTerminator(s[j]) then j else LineEnd(s, j + 1)
  }

  /** Each `//` up to, not including, the next line terminator goes. */
  function StripLineComments(s: string): string
    decreases |s|
  {
    if |s| < 2 then s
    else if s[0] == '/' && s[1] == '/' then StripLineComments(s[LineEnd(s, 2)..])
    else [s[0]] + StripLineComments(s[1..])
  }

  // ---------------------------------------------------------------------------
  // Cutting to the outermost brackets

  predicate IsOpen(c: char) { c == '{' || c == '[' }

  predicate IsClose(c: char) { c == '}' || c == ']' }

  /** `Math.min` of the first `{` and the first `[`. */
  function FirstOpen(s: string): (r: Option<nat>)
    ensures r.Some? ==> r.value < |s| && IsOpen(s[r.value]) && forall m :: 0 <= m < r.value ==> !IsOpen(s[m])
    ensures r.None? ==> forall m :: 0 <= m < |s| ==> !IsOpen(s[m])
  {
    if s == [] then None
    else if IsOpen(s[0]) then Some(0)
    else match FirstOpen(s[1..])
      case None => None
      case Some(i) => Some(i + 1)
  }

  /** `Math.max` of the last `}` and the last `]`. */
  function LastClose(s: string): (r: Option<nat>)
    ensures r.Some? ==> r.value < |s| && IsClose(s[r.value]) && forall m :: r.value < m < |s| ==> !IsClose(s[m])
    ensures r.None? ==> forall m :: 0 <= m < |s| ==> !IsClose(s[m])
  {
    if s == [] then None
    else if IsClose(s[|s| - 1]) then Some(|s| - 1)
    else LastClose(s[..|s| - 1])
  }

  /** From the first opening to the last closing bracket, when both exist in that order; else the text as it is. */
  function SliceToBrackets(s: string): (r: string)
    ensures FirstOpen(s).Some? && LastClose(s).Some? && LastClose(s).value > FirstOpen(s).value ==>
      && r == s[FirstOpen(s).value..LastClose(s).value + 1]
      && IsOpen(r[0]) && IsClose(r[|r| - 1])
    ensures !(FirstOpen(s).Some? && LastClose(s).Some? && LastClose(s).value > FirstOpen(s).value) ==> r == s
  {
    var first, last := FirstOpen(s), LastClose(s);
    if first.Some? && last.Some? && last.value > first.value then s[first.value..last.value + 1] else s
  }

  // ---------------------------------------------------------------------------
  // Trailing commas: /,\s*(?=[}\]])/g

  /** The end of the run of white space starting at `j`. */
  function SpaceEnd(s: string, j: nat): (k: nat)
    requires j <= |s|
    ensures j <= k <= |s|
    ensures forall m :: j <= m < k ==> IsJsSpace(s[m])
    ensures k < |s| ==> !IsJsSpace(s[k])
    decreases |s| - j
  {
    if j == |s| || !IsJsSpace(s[j]) then j else SpaceEnd(s, j + 1)
  }

  /** A comma and the white space after it go when a closing bracket follows; the bracket stays. */
  function StripTrailingCommas(s: string): string
    decreases |s|
  {
    if s == [] then s
    else if s[0] == ',' && SpaceEnd(s, 1) < |s| && IsClose(s[SpaceEnd(s, 1)]) then StripTrailingCommas(s[SpaceEnd(s, 1)..])
    else [s[0]] + StripTrailingCommas(s[1..])
  }

  /** The whole clean-up, in the order the tolerant parse applies it. */
  function Sanitize(text: string): string
  {
    StripTrailingCommas(SliceToBrackets(StripLineComments(StripBlockComments(text))))
  }

  // ---------------------------------------------------------------------------
  // Each step only deletes characters

  lemma {:induction false} BlockStripDeletes(s: string)
    ensures Subseq(StripBlockComments(s), s)
    decreases |s|
  {
    if |s| < 2 {
      SubseqRefl(s);
    } else if s[0] == '/' && s[1] == '*' && CloseFrom(s, 2).Some? {
      var k := CloseFrom(s, 2).value + 2;
      BlockStripDeletes(s[k..]);
      SubseqOfSuffix(StripBlockComments(s[k..]), s, k);
    } else {
      BlockStripDeletes(s[1..]);
    }
  }

  lemma {:induction false} LineStripDeletes(s: string)
    ensures Subseq(StripLineComments(s), s)
    decreases |s|
  {
    if |s| < 2 {
      SubseqRefl(s);
    } else if s[0] == '/' && s[1] == '/' {
      var k := LineEnd(s, 2);
      LineStripDeletes(s[k..]);
      SubseqOfSuffix(StripLineComments(s[k..]), s, k);
    } else {
      LineStripDeletes(s[1..]);
    }
  }

  lemma {:induction false} CommaStripDeletes(s: string)
    ensures Subseq(StripTrailingCommas(s), s)
    decreases |s|
  {
    if s == [] {
    } else if s[0] == ',' && SpaceEnd(s, 1) < |s| && IsClose(s[SpaceEnd(s, 1)]) {
      var k := SpaceEnd(s, 1);
      CommaStripDeletes(s[k..]);
      SubseqOfSuffix(StripTrailingCommas(s[k..]), s, k);
    } else {
      CommaStripDeletes(s[1..]);
    }
  }

  /**
   * The cleaned text is the input with characters deleted, so never longer;
   * when the cut applied it starts with an opening and ends with a closing bracket.
   */
  lemma SanitizeDeletes(text: string)
    ensures Subseq(Sanitize(text), text) && |Sanitize(text)| <= |text|
  {
    var a := StripBlockComments(text);
    var b := StripLineComments(a);
    var c := SliceToBrackets(b);
    BlockStripDeletes(text);
    LineStripDeletes(a);
    if c != b {
      SubseqOfSlice(b, FirstOpen(b).value, LastClose(b).value + 1);
    } else {
      SubseqRefl(b);
    }
    CommaStripDeletes(c);
    SubseqTransitive(c, b, a);
    SubseqTransitive(c, a, text);
    SubseqTransitive(Sanitize(text), c, text);
    SubseqLength(Sanitize(text), text);
  }

  // ---------------------------------------------------------------------------
  // What each step removes

  /** No block-comment opener (slash, star) starts inside `p`. */
  predicate NoBlockOpener(p: string)
  {
    forall m :: 0 <= m < |p| ==> !PairAt(p, m, '/', '*')
  }

  /** Dropping the head keeps a text free of openers. */
  lemma NoBlockOpenerTail(p: string)
    requires p != [] && NoBlockOpener(p)
    ensures NoBlockOpener(p[1..])
  {
    forall m | 0 <= m < |p[1..]| ensures !PairAt(p[1..], m, '/', '*') {
      if m + 1 < |p[1..]| {
        assert p[1..][m] == p[m + 1] && p[1..][m + 1] == p[m + 2];
        assert !PairAt(p, m + 1, '/', '*');
      }
    }
  }

  /**
   * A prefix holding no opener passes unchanged, unless it ends with a slash
   * that a star at the head of the rest would turn into an opener.
   */
  lemma {:induction false} BlockStripKeepsPrefix(p: string, x: string)
    requires NoBlockOpener(p)
    requires p == [] || p[|p| - 1] != '/' || x == [] || x[0] != '*'
    ensures StripBlockComments(p + x) == p + StripBlockComments(x)
    decreases |p|
  {
    if p != [] {
      var t := p[1..];
      NoBlockOpenerTail(p);
      assert t != [] ==> t[|t| - 1] == p[|p| - 1];
      BlockStripKeepsPrefix(t, x);
      assert !PairAt(p, 0, '/', '*');
      PairNotAtHead(p, x, '/', '*');
      ConsAppend(p, x, StripBlockComments(x));
      BlockStripKeepsHead(p[0], t + x);
    } else {
      assert p + x == x;
    }
  }


  // A block comment whose body holds no closer goes entirely, and the text
  // after it is cleaned on its own.
  lemma BlockCommentRemoved(p: string, c: string, q: string)
    requires NoBlockOpener(p)
    requires forall m :: !PairAt(c, m, '*', '/')
    ensures StripBlockComments(p + "/*" + c + "*/" + q) == p + StripBlockComments(q)
  {
    var x := "/*" + c + "*/" + q;
    assert p + "/*" + c + "*/" + q == p + x;
    BlockStripKeepsPrefix(p, x);
    var k := 2 + |c|;
    CommentBodyCloses(c, q);
    BlockStripSkipsComment(x, k);
    assert x[k + 2..] == q;
  }

  /** The first closer after the opener is the one right after a body that holds none. */
  lemma CommentBodyCloses(c: string, q: string)
    requires forall m :: !PairAt(c, m, '*', '/')
    ensures CloseFrom("/*" + c + "*/" + q, 2) == Some(2 + |c|)
  {
    var x := "/*" + c + "*/" + q;
    var k := 2 + |c|;
    assert x[k] == '*' && x[k + 1] == '/';
    forall m | 2 <= m < k ensures !PairAt(x, m, '*', '/') {
      if m + 1 < k {
        assert x[m] == c[m - 2] && x[m + 1] == c[m - 1];
        assert !PairAt(c, m - 2, '*', '/');
      } else {
        assert x[m + 1] == '*';
      }
    }
    CloseAt(x, 2, k);
  }

  lemma {:induction false} CloseAt(x: string, j: nat, k: nat)
    requires j <= k && PairAt(x, k, '*', '/')
    requires forall m :: j <= m < k ==> !PairAt(x, m, '*', '/')
    ensures CloseFrom(x, j) == Some(k)
    decreases k - j
  {
    if j < k {
      CloseAt(x, j + 1, k);
    }
  }

  /** A text that starts with a closed block comment is cleaned from the end of that comment on. */
  lemma BlockStripSkipsComment(x: string, k: nat)
    requires |x| >= 2 && x[0] == '/' && x[1] == '*'
    requires CloseFrom(x, 2) == Some(k)
    ensures StripBlockComments(x) == StripBlockComments(x[k + 2..])
  {
  }

  /** A head character that does not open a comment with the next one stays. */
  lemma BlockStripKeepsHead(t: char, q: string)
    requires t != '/' || q == [] || q[0] != '*'
    ensures StripBlockComments([t] + q) == [t] + StripBlockComments(q)
  {
    var y := [t] + q;
    if q == [] {
      assert y == [t];
    } else {
      assert y[0] == t && y[1..] == q;
    }
  }

  // Text without a block-comment opener passes unchanged.
  lemma {:induction false} BlockStripIdentity(s: string)
    requires forall m :: !PairAt(s, m, '/', '*')
    ensures StripBlockComments(s) == s
    decreases |s|
  {
    if |s| >= 2 {
      assert !PairAt(s, 0, '/', '*');
      forall m ensures !PairAt(s[1..], m, '/', '*') {
        assert !PairAt(s, m + 1, '/', '*');
      }
      BlockStripIdentity(s[1..]);
    }
  }

  /** No `//` starts inside `p`. */
  predicate NoLineOpener(p: string)
  {
    forall m :: 0 <= m < |p| ==> !PairAt(p, m, '/', '/')
  }

  /** Dropping the head keeps a text free of `//`. */
  lemma NoLineOpenerTail(p: string)
    requires p != [] && NoLineOpener(p)
    ensures NoLineOpener(p[1..])
  {
    forall m | 0 <= m < |p[1..]| ensures !PairAt(p[1..], m, '/', '/') {
      if m + 1 < |p[1..]| {
        assert p[1..][m] == p[m + 1] && p[1..][m + 1] == p[m + 2];
        assert !PairAt(p, m + 1, '/', '/');
      }
    }
  }

  /**
   * A prefix holding no `//` passes unchanged, unless it ends with a slash
   * that a slash at the head of the rest would turn into a comment.
   */
  lemma {:induction false} LineStripKeepsPrefix(p: string, x: string)
    requires NoLineOpener(p)
    requires p == [] || p[|p| - 1] != '/' || x == [] || x[0] != '/'
    ensures StripLineComments(p + x) == p + StripLineComments(x)
    decreases |p|
  {
    if p != [] {
      var t := p[1..];
      NoLineOpenerTail(p);
      assert t != [] ==> t[|t| - 1] == p[|p| - 1];
      LineStripKeepsPrefix(t, x);
      assert !PairAt(p, 0, '/', '/');
      PairNotAtHead(p, x, '/', '/');
      ConsAppend(p, x, StripLineComments(x));
      LineStripKeepsHead(p[0], t + x);
    } else {
      assert p + x == x;
    }
  }


  /** A line comment goes up to the line terminator, which stays. */
  lemma LineCommentRemoved(p: string, c: string, t: char, q: string)
    requires NoLineOpener(p) && (p == [] || p[|p| - 1] != '/')
    requires forall m :: 0 <= m < |c| ==> !IsLineTerminator(c[m])
    requires IsLineTerminator(t)
    ensures StripLineComments(p + "//" + c + [t] + q) == p + [t] + StripLineComments(q)
  {
    var x := "//" + c + [t] + q;
    calc {
      StripLineComments(p + "//" + c + [t] + q);
      { assert p + "//" + c + [t] + q == p + x; }
      StripLineComments(p + x);
      { assert x[0] == '/'; LineStripKeepsPrefix(p, x); }
      p + StripLineComments(x);
      { LineCommentSkipped(c, t, q); }
      p + ([t] + StripLineComments(q));
      p + [t] + StripLineComments(q);
    }
  }

  /** A text that starts with a line comment keeps the terminator after it and what follows. */
  lemma LineCommentSkipped(c: string, t: char, q: string)
    requires forall m :: 0 <= m < |c| ==> !IsLineTerminator(c[m])
    requires IsLineTerminator(t)
    ensures StripLineComments("//" + c + [t] + q) == [t] + StripLineComments(q)
  {
    var x := "//" + c + [t] + q;
    var k := 2 + |c|;
    CommentBodyEnds(c, [t] + q);
    assert x == "//" + c + ([t] + q);
    LineStripSkipsComment(x, k);
    calc {
      StripLineComments(x);
      StripLineComments(x[k..]);
      { assert x[k..] == [t] + q; }
      StripLineComments([t] + q);
      { LineStripKeepsHead(t, q); }
      [t] + StripLineComments(q);
    }
  }

  /** The body of a comment with no line terminator in it ends where the text after it begins. */
  lemma CommentBodyEnds(c: string, y: string)
    requires forall m :: 0 <= m < |c| ==> !IsLineTerminator(c[m])
    requires y == [] || IsLineTerminator(y[0])
    ensures LineEnd("//" + c + y, 2) == 2 + |c|
  {
    var x := "//" + c + y;
    var k := 2 + |c|;
    forall m | 2 <= m < k ensures !IsLineTerminator(x[m]) {
      assert x[m] == c[m - 2];
    }
    if y != [] {
      assert x[k] == y[0];
    }
    LineEndAt(x, 2, k);
  }

  lemma {:induction false} LineEndAt(x: string, j: nat, k: nat)
    requires j <= k <= |x|
    requires forall m :: j <= m < k ==> !IsLineTerminator(x[m])
    requires k < |x| ==> IsLineTerminator(x[k])
    ensures LineEnd(x, j) == k
    decreases k - j
  {
    if j < k {
      LineEndAt(x, j + 1, k);
    }
  }

  /** A text that starts with `//` is cleaned from the end of that comment on. */
  lemma LineStripSkipsComment(x: string, k: nat)
    requires |x| >= 2 && x[0] == '/' && x[1] == '/'
    requires LineEnd(x, 2) == k
    ensures StripLineComments(x) == StripLineComments(x[k..])
  {
  }

  /** A head character that does not start `//` with the next one stays. */
  lemma LineStripKeepsHead(t: char, q: string)
    requires t != '/' || q == [] || q[0] != '/'
    ensures StripLineComments([t] + q) == [t] + StripLineComments(q)
  {
    var y := [t] + q;
    if q == [] {
      assert y == [t];
    } else {
      assert y[0] == t && y[1..] == q;
    }
  }

  /** Text without `//` passes unchanged. */
  lemma {:induction false} LineStripIdentity(s: string)
    requires forall m :: !PairAt(s, m, '/', '/')
    ensures StripLineComments(s) == s
    decreases |s|
  {
    if |s| >= 2 {
      assert !PairAt(s, 0, '/', '/');
      forall m ensures !PairAt(s[1..], m, '/', '/') {
        assert !PairAt(s, m + 1, '/', '/');
      }
      LineStripIdentity(s[1..]);
    }
  }

  /** A line comment that runs to the end of the text takes the rest of the text with it. */
  lemma LineCommentToEnd(p: string, c: string)
    requires NoLineOpener(p) && (p == [] || p[|p| - 1] != '/')
    requires forall m :: 0 <= m < |c| ==> !IsLineTerminator(c[m])
    ensures StripLineComments(p + "//" + c) == p
  {
    var x := "//" + c;
    assert p + "//" + c == p + x;
    LineStripKeepsPrefix(p, x);
    CommentRunsToEnd(c);
    assert p + [] == p;
  }

  lemma CommentRunsToEnd(c: string)
    requires forall m :: 0 <= m < |c| ==> !IsLineTerminator(c[m])
    ensures StripLineComments("//" + c) == []
  {
    var x := "//" + c;
    forall m | 2 <= m < |x| ensures !IsLineTerminator(x[m]) {
      assert x[m] == c[m - 2];
    }
    LineEndAt(x, 2, |x|);
    LineStripSkipsComment(x, |x|);
    assert x[|x|..] == [];
  }

  /**
   * The line-comment step does not know about strings: the `//` of a URL
   * inside a JSON string starts a "comment", and the rest of that line goes.
   */
  lemma LineStripCutsUrls()
    ensures StripLineComments("{\"url\":\"https://example.org/a.zip\"}") == "{\"url\":\"https:"
  {
    var p := "{\"url\":\"https:";
    var c := "example.org/a.zip\"}";
    assert "{\"url\":\"https://example.org/a.zip\"}" == p + "//" + c;
    LineCommentToEnd(p, c);
  }

  /** No comma in `p` is followed by white space only and then a closing bracket inside `p`. */
  predicate NoTrailingComma(p: string)
  {
    forall i, k :: 0 <= i < k < |p| && p[i] == ',' && IsClose(p[k]) ==> !SpacesIn(p, i + 1, k)
  }

  /** Dropping the head keeps a text free of trailing commas. */
  lemma NoTrailingCommaTail(p: string)
    requires p != [] && NoTrailingComma(p)
    ensures NoTrailingComma(p[1..])
  {
    var t := p[1..];
    forall i, k | 0 <= i < k < |t| && t[i] == ',' && IsClose(t[k]) ensures !SpacesIn(t, i + 1, k) {
      assert p[i + 1] == ',' && IsClose(p[k + 1]);
      assert !SpacesIn(p, i + 2, k + 1);
      var m :| i + 2 <= m < k + 1 && !IsJsSpace(p[m]);
      assert t[m - 1] == p[m];
    }
  }

  /** A comma at the head of `p + x` stays when `p` has no trailing comma and `x` starts with neither white space nor a closer. */
  lemma CommaHeadKept(p: string, x: string)
    requires p != [] && p[0] == ',' && NoTrailingComma(p)
    requires x == [] || (!IsJsSpace(x[0]) && !IsClose(x[0]))
    ensures var s := p + x;
      !(SpaceEnd(s, 1) < |s| && IsClose(s[SpaceEnd(s, 1)]))
  {
    var s := p + x;
    var k := SpaceEnd(s, 1);
    if x != [] {
      assert s[|p|] == x[0];
    }
    assert k <= |p|;
    if k < |p| {
      forall m | 1 <= m < k ensures IsJsSpace(p[m]) {
        assert s[m] == p[m];
      }
      assert SpacesIn(p, 1, k);
      assert s[k] == p[k];
    }
  }

  /**
   * A prefix with no trailing comma passes unchanged when the rest starts
   * with neither white space nor a closing bracket.
   */
  lemma {:induction false} CommaStripKeepsPrefix(p: string, x: string)
    requires NoTrailingComma(p)
    requires x == [] || (!IsJsSpace(x[0]) && !IsClose(x[0]))
    ensures StripTrailingCommas(p + x) == p + StripTrailingCommas(x)
    decreases |p|
  {
    if p != [] {
      var t := p[1..];
      NoTrailingCommaTail(p);
      CommaStripKeepsPrefix(t, x);
      if p[0] == ',' {
        CommaHeadKept(p, x);
      }
      CommaStripKeptHead(p + x);
      ConsAppend(p, x, StripTrailingCommas(x));
    } else {
      assert p + x == x;
    }
  }


  /** A head that does not start a trailing comma is kept, and the rest is cleaned on its own. */
  lemma CommaStripKeptHead(s: string)
    requires s != []
    requires !(s[0] == ',' && SpaceEnd(s, 1) < |s| && IsClose(s[SpaceEnd(s, 1)]))
    ensures StripTrailingCommas(s) == [s[0]] + StripTrailingCommas(s[1..])
  {
  }

  /**
   * When `p` does not start with the pair `a b` and its last character does
   * not form that pair with the head of `x`, the head of `p` does not form it
   * with the head of the rest of `p + x`.
   */
  lemma PairNotAtHead(p: string, x: string, a: char, b: char)
    requires p != [] && !PairAt(p, 0, a, b)
    requires p[|p| - 1] != a || x == [] || x[0] != b
    ensures p[0] != a || p[1..] + x == [] || (p[1..] + x)[0] != b
  {
    if |p| > 1 {
      assert (p[1..] + x)[0] == p[1];
    } else if x != [] {
      assert (p[1..] + x)[0] == x[0];
    }
  }

  /** The sequence step of the prefix lemmas: the head of `p + x` and the rest. */
  lemma ConsAppend(p: string, x: string, y: string)
    requires p != []
    ensures (p + x)[0] == p[0] && (p + x)[1..] == p[1..] + x
    ensures [p[0]] + (p[1..] + y) == p + y
  {
    assert p == [p[0]] + p[1..];
  }

  /** A comma, the white space after it and nothing else go when a closing bracket follows. */
  lemma TrailingCommaRemoved(p: string, w: string, b: char, q: string)
    requires NoTrailingComma(p)
    requires forall m :: 0 <= m < |w| ==> IsJsSpace(w[m])
    requires IsClose(b)
    ensures StripTrailingCommas(p + "," + w + [b] + q) == p + [b] + StripTrailingCommas(q)
  {
    var x := "," + w + [b] + q;
    assert p + "," + w + [b] + q == p + x;
    CommaStripKeepsPrefix(p, x);
    TrailingCommaSkipped(w, b, q);
    assert p + ([b] + StripTrailingCommas(q)) == p + [b] + StripTrailingCommas(q);
  }

  /** A text that starts with a trailing comma keeps the bracket after it and what follows. */
  lemma TrailingCommaSkipped(w: string, b: char, q: string)
    requires forall m :: 0 <= m < |w| ==> IsJsSpace(w[m])
    requires IsClose(b)
    ensures StripTrailingCommas("," + w + [b] + q) == [b] + StripTrailingCommas(q)
  {
    var x := "," + w + [b] + q;
    var k := 1 + |w|;
    CommaRunEnds(w, b, q);
    assert x[0] == ',' && x[k] == b;
    calc {
      StripTrailingCommas(x);
      StripTrailingCommas(x[k..]);
      { assert x[k..] == [b] + q; }
      StripTrailingCommas([b] + q);
      { CommaStripKeepsHead(b, q); }
      [b] + StripTrailingCommas(q);
    }
  }

  /** The white space after a comma runs up to the first other character. */
  lemma CommaRunEnds(w: string, c: char, q: string)
    requires forall m :: 0 <= m < |w| ==> IsJsSpace(w[m])
    requires !IsJsSpace(c)
    ensures SpaceEnd("," + w + [c] + q, 1) == 1 + |w|
  {
    var x := "," + w + [c] + q;
    var k := 1 + |w|;
    forall m | 1 <= m < k ensures IsJsSpace(x[m]) {
      assert x[m] == w[m - 1];
    }
    assert x[k] == c;
    SpaceEndAt(x, 1, k);
  }

  lemma {:induction false} SpaceEndAt(x: string, j: nat, k: nat)
    requires j <= k < |x|
    requires forall m :: j <= m < k ==> IsJsSpace(x[m])
    requires !IsJsSpace(x[k])
    ensures SpaceEnd(x, j) == k
    decreases k - j
  {
    if j < k {
      SpaceEndAt(x, j + 1, k);
    }
  }

  /** A character other than a comma at the head of the text stays. */
  lemma CommaStripKeepsHead(b: char, q: string)
    requires b != ','
    ensures StripTrailingCommas([b] + q) == [b] + StripTrailingCommas(q)
  {
    var y := [b] + q;
    assert y[0] == b && y[1..] == q;
  }

  /** A comma followed by anything other than white space and a closing bracket stays. */
  lemma CommaBeforeValueKept(w: string, c: char, q: string)
    requires forall m :: 0 <= m < |w| ==> IsJsSpace(w[m])
    requires !IsJsSpace(c) && !IsClose(c)
    ensures StripTrailingCommas("," + w + [c] + q) == [','] + StripTrailingCommas(w + [c] + q)
  {
    var x := "," + w + [c] + q;
    var k := 1 + |w|;
    CommaRunEnds(w, c, q);
    assert x[k] == c;
    assert x[1..] == w + [c] + q;
  }

  /** Text without commas passes unchanged. */
  lemma {:induction false} CommaStripIdentity(s: string)
    requires ',' !in s
    ensures StripTrailingCommas(s) == s
    decreases |s|
  {
    if s != [] {
      CommaStripIdentity(s[1..]);
    }
  }

  /**
   * Text that already is one bracketed block with no `/` and no comma comes
   * out of the clean-up unchanged.
   */
  lemma SanitizeIdentity(text: string)
    requires |text| >= 2 && IsOpen(text[0]) && IsClose(text[|text| - 1])
    requires '/' !in text && ',' !in text
    ensures Sanitize(text) == text
  {
    forall m ensures !PairAt(text, m, '/', '*') && !PairAt(text, m, '/', '/') {
      if 0 <= m < |text| {
        assert text[m] in text;
      }
    }
    BlockStripIdentity(text);
    LineStripIdentity(text);
    assert FirstOpen(text) == Some(0);
    assert LastClose(text) == Some(|text| - 1);
    assert text[0..|text|] == text;
    CommaStripIdentity(text);
  }

  // ---------------------------------------------------------------------------
  // fetchTools

  /**
   * The outcome of `fetch`: the promise rejects (no network, DNS failure),
   * or an HTTP answer arrives with its `res.ok` and its body text.
   */
  datatype Reply = RequestRejected | Reply(ok: bool, body: string)

  datatype FetchError =
    /** `fetch` itself rejected; the error propagates unchanged. */
    | RequestFailed
    | FetchFailed
    /** The tolerant parse rejected the cleaned text (the error rethrown as `err2`). */
    | TolerantParseFailed(cleaned: string)

  /** `fetchTools`: strict parse, then the tolerant parse of the cleaned text. */
  function FetchTools<J>(reply: Reply, parse: string -> Option<J>): Result<J, FetchError>
  {
    if reply.RequestRejected? then Failure(RequestFailed)
    else if !reply.ok then Failure(FetchFailed)
    else match parse(reply.body)
      case Some(j) => Success(j)
      case None =>
        match parse(Sanitize(reply.body))
          case Some(j) => Success(j)
          case None => Failure(TolerantParseFailed(Sanitize(reply.body)))
  }

  /**
   * The variant with a local fallback: only after the tolerant parse fails is
   * the local `tools.json` (`local`, absent when it cannot be read) parsed;
   * if that fails too, the tolerant parse's error is the one thrown.
   */
  function FetchToolsWithLocalFallback<J>(reply: Reply, parse: string -> Option<J>, local: Option<string>): Result<J, FetchError>
  {
    match FetchTools(reply, parse)
      case Failure(TolerantParseFailed(cleaned)) =>
        if local.Some? && parse(local.value).Some? then Success(parse(local.value).value)
        else Failure(TolerantParseFailed(cleaned))
      case other => other
  }

  /**
   * A rejected request or a reply that is not ok fails before any parse; the
   * strict parse wins whenever it succeeds; the cleaned text is parsed only
   * when it fails, and its failure is the error reported.
   */
  lemma FetchToolsOrder<J>(reply: Reply, parse: string -> Option<J>)
    ensures reply.RequestRejected? ==> FetchTools(reply, parse) == Failure(RequestFailed)
    ensures reply.Reply? && !reply.ok ==> FetchTools(reply, parse) == Failure(FetchFailed)
    ensures reply.Reply? && reply.ok && parse(reply.body).Some? ==> FetchTools(reply, parse) == Success(parse(reply.body).value)
    ensures reply.Reply? && reply.ok && parse(reply.body).None? ==>
      FetchTools(reply, parse) == (if parse(Sanitize(reply.body)).Some? then Success(parse(Sanitize(reply.body)).value)
                                   else Failure(TolerantParseFailed(Sanitize(reply.body))))
    ensures FetchTools(reply, parse).Success? <==>
      reply.Reply? && reply.ok && (parse(reply.body).Some? || parse(Sanitize(reply.body)).Some?)
  {
  }

  /**
   * The local file matters only when both remote parses fail; a failed local
   * read or parse reports the tolerant parse's error, and a rejected request
   * or a reply that is not ok never reaches the local file, so an offline
   * start fails even when a local catalog exists.
   */
  lemma LocalFallbackOrder<J>(reply: Reply, parse: string -> Option<J>, local: Option<string>)
    ensures var remote := FetchTools(reply, parse);
      var r := FetchToolsWithLocalFallback(reply, parse, local);
      && (remote.Success? || remote == Failure(FetchFailed) || remote == Failure(RequestFailed) ==> r == remote)
      && (reply.RequestRejected? ==> r == Failure(RequestFailed))
      && (reply.Reply? && !reply.ok ==> r == Failure(FetchFailed))
      && (remote.Failure? && remote.error.TolerantParseFailed? ==>
            (r.Success? <==> local.Some? && parse(local.value).Some?)
            && (r.Failure? ==> r == Failure(TolerantParseFailed(Sanitize(reply.body)))))
  {
  }
}
