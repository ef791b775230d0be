/**
 * The JavaScript string operations the editor relies on, with their
 * ECMAScript meaning: `includes`, `indexOf`, `replaceAll` and `replace`
 * with a string pattern (leftmost, non-overlapping matches; `replace`
 * expands `$` patterns in the replacement), `trim`, `split` on one
 * character, `join`, and the decimal rendering of a non-negative integer.
 */
module JsStrings {

  // ---------------------------------------------------------------------
  // Searching
  // ---------------------------------------------------------------------

  /** p is a prefix of s. */
  predicate StartsWith(s: string, p: string) {
    |p| <= |s| && s[..|p|] == p
  }

  /** p occurs in s starting at position i. */
  predicate OccursAt(s: string, p: string, i: int) {
    0 <= i && i + |p| <= |s| && s[i..i + |p|] == p
  }

  /** `s.includes(p)`. */
  predicate Contains(s: string, p: string)
    decreases |s|
  {
    StartsWith(s, p) || (|s| > 0 && Contains(s[1..], p))
  }

  lemma OccursAtShift(s: string, p: string, i: int)
    requires |s| > 0 && i >= 0
    ensures OccursAt(s, p, i + 1) <==> OccursAt(s[1..], p, i)
  {
    if i + 1 + |p| <= |s| {
      assert s[i + 1..i + 1 + |p|] == s[1..][i..i + |p|];
    }
  }

  /** `includes` holds exactly when there is a position where p occurs. */
  lemma {:induction false} ContainsIff(s: string, p: string)
    ensures Contains(s, p) <==> exists i :: OccursAt(s, p, i)
    decreases |s|
  {
    assert StartsWith(s, p) <==> OccursAt(s, p, 0);
    if |s| > 0 {
      ContainsIff(s[1..], p);
      if Contains(s[1..], p) {
        var i :| OccursAt(s[1..], p, i);
        OccursAtShift(s, p, i);
      }
      if i :| OccursAt(s, p, i) && i > 0 {
        OccursAtShift(s, p, i - 1);
      }
    } else {
      if i :| OccursAt(s, p, i) {
        assert i == 0 && |p| == 0;
      }
    }
  }

  /** `s.indexOf(p)`: the first position where p occurs, or -1. */
  function IndexOf(s: string, p: string): (r: int)
    ensures -1 <= r <= |s|
    ensures r >= 0 ==> OccursAt(s, p, r)
    ensures r >= 0 ==> forall j :: 0 <= j < r ==> !OccursAt(s, p, j)
    ensures r == -1 ==> forall j :: 0 <= j <= |s| ==> !OccursAt(s, p, j)
    decreases |s|
  {
    assert StartsWith(s, p) <==> OccursAt(s, p, 0) by {
      if |p| <= |s| { assert s[0..|p|] == s[..|p|]; }
    }
    if StartsWith(s, p) then 0
    else if |s| == 0 then -1
    else
      var k := IndexOf(s[1..], p);
      assert forall j :: 1 <= j <= |s| ==> (OccursAt(s, p, j) <==> OccursAt(s[1..], p, j - 1)) by {
        forall j | 1 <= j <= |s|
          ensures OccursAt(s, p, j) <==> OccursAt(s[1..], p, j - 1)
        {
          OccursAtShift(s, p, j - 1);
        }
      }
      if k < 0 then -1 else k + 1
  }

  lemma IndexOfIff(s: string, p: string)
    ensures IndexOf(s, p) >= 0 <==> Contains(s, p)
  {
    ContainsIff(s, p);
  }

  /** A text without the pattern's first character does not contain the pattern. */
  lemma {:induction false} ContainsNeedsFirst(s: string, p: string)
    requires |p| > 0 && p[0] !in s
    ensures !Contains(s, p)
    decreases |s|
  {
    if |s| > 0 {
      assert s[0] in s;
      assert s[1..] == s[1..];
      forall ch | ch in s[1..] ensures ch in s { }
      ContainsNeedsFirst(s[1..], p);
    }
  }

  /** A pattern longer than the text does not occur in it. */
  lemma ContainsFits(s: string, p: string)
    requires |p| > |s|
    ensures !Contains(s, p)
  {
    ContainsIff(s, p);
  }

  /** One differing character rules out an occurrence at i. */
  lemma MismatchAt(s: string, p: string, i: nat, k: nat)
    requires k < |p| && i + k < |s| && s[i + k] != p[k]
    ensures !OccursAt(s, p, i)
  {
    if i + |p| <= |s| {
      assert s[i..i + |p|][k] == s[i + k];
    }
  }

  /** A prefix without the pattern's first character only shifts `indexOf`. */
  lemma {:induction false} IndexOfSkipsFree(a: string, b: string, p: string)
    requires |p| > 0 && p[0] !in a
    ensures IndexOf(a + b, p) == if IndexOf(b, p) < 0 then -1 else |a| + IndexOf(b, p)
    decreases |a|
  {
    if |a| == 0 {
      assert a + b == b;
    } else {
      var s := a + b;
      MismatchAt(s, p, 0, 0);
      assert !StartsWith(s, p) by { assert OccursAt(s, p, 0) <==> StartsWith(s, p); }
      assert s[1..] == a[1..] + b;
      assert p[0] !in a[1..] by { forall ch | ch in a[1..] ensures ch in a { } }
      IndexOfSkipsFree(a[1..], b, p);
    }
  }

  /** In a + p + b, where a lacks p's first character, the first match is the one after a. */
  lemma FirstMatchAfter(a: string, p: string, b: string)
    requires |p| > 0 && p[0] !in a
    ensures IndexOf(a + p + b, p) == |a|
  {
    assert a + p + b == a + (p + b);
    assert OccursAt(p + b, p, 0) by { assert (p + b)[0..|p|] == p; }
    IndexOfSkipsFree(a, p + b, p);
  }

  /**
   * p occurs in a + p + b only after a when p's first character is neither
   * in a, nor in b, nor anywhere else in p.
   */
  lemma OnlyMatch(a: string, p: string, b: string)
    requires |p| > 0 && p[0] !in a && p[0] !in b && p[0] !in p[1..]
    ensures forall j :: OccursAt(a + p + b, p, j) <==> j == |a|
  {
    var s := a + p + b;
    forall j | 0 <= j && j != |a| ensures !OccursAt(s, p, j) {
      if j < |a| {
        assert s[j] == a[j];
        MismatchAt(s, p, j, 0);
      } else if j < |a| + |p| {
        assert s[j] == p[1..][j - |a| - 1];
        MismatchAt(s, p, j, 0);
      } else if j < |s| {
        assert s[j] == b[j - |a| - |p|];
        MismatchAt(s, p, j, 0);
      }
    }
    assert OccursAt(s, p, |a|) by { assert s[|a|..|a| + |p|] == p; }
  }

  // ---------------------------------------------------------------------
  // replaceAll and replace
  // ---------------------------------------------------------------------

  /**
   * `s.replaceAll(p, r)` for a non-empty string pattern whose replacement
   * holds no `$` (as at every call site of the editor): matches are found
   * left to right and never overlap.
   */
  function ReplaceAll(s: string, p: string, r: string): (t: string)
    requires |p| > 0
    ensures !Contains(s, p) ==> t == s
    ensures |r| <= |p| ==> |t| <= |s|
    decreases |s|
  {
    if |s| == 0 then ""
    else if StartsWith(s, p) then r + ReplaceAll(s[|p|..], p, r)
    else [s[0]] + ReplaceAll(s[1..], p, r)
  }

  /** Removing a pattern that occurs makes the text strictly shorter. */
  lemma {:induction false} RemoveAllShrinks(s: string, p: string)
    requires |p| > 0 && Contains(s, p)
    ensures |ReplaceAll(s, p, "")| < |s|
    decreases |s|
  {
    if !StartsWith(s, p) {
      RemoveAllShrinks(s[1..], p);
    }
  }

  /** No match starts inside a, so replacing in a + b leaves a as it is. */
  lemma {:induction false} ReplaceAllSkips(a: string, b: string, p: string, r: string)
    requires |p| > 0
    requires forall i :: 0 <= i < |a| ==> !OccursAt(a + b, p, i)
    ensures ReplaceAll(a + b, p, r) == a + ReplaceAll(b, p, r)
    decreases |a|
  {
    if |a| == 0 {
      assert a + b == b;
    } else {
      var s := a + b;
      StartsAtZero(s, p);
      NoMatchInShifted(a, b, p);
      ReplaceAllSkips(a[1..], b, p, r);
      calc {
        ReplaceAll(s, p, r);
        [s[0]] + ReplaceAll(s[1..], p, r);
        { assert s[1..] == a[1..] + b; }
        [a[0]] + ReplaceAll(a[1..] + b, p, r);
        [a[0]] + (a[1..] + ReplaceAll(b, p, r));
        { ConsRegroup(a, ReplaceAll(b, p, r)); }
        a + ReplaceAll(b, p, r);
      }
    }
  }

  lemma StartsAtZero(s: string, p: string)
    ensures StartsWith(s, p) <==> OccursAt(s, p, 0)
  {
    if |p| <= |s| { assert s[0..|p|] == s[..|p|]; }
  }

  lemma NoMatchInShifted(a: string, b: string, p: string)
    requires |a| > 0
    requires forall i :: 0 <= i < |a| ==> !OccursAt(a + b, p, i)
    ensures forall i :: 0 <= i < |a[1..]| ==> !OccursAt(a[1..] + b, p, i)
  {
    assert (a + b)[1..] == a[1..] + b;
    forall i | 0 <= i < |a[1..]|
      ensures !OccursAt(a[1..] + b, p, i)
    {
      OccursAtShift(a + b, p, i);
    }
  }

  lemma ConsRegroup(a: string, t: string)
    requires |a| > 0
    ensures [a[0]] + (a[1..] + t) == a + t
  {
    assert a == [a[0]] + a[1..];
  }

  /** A text without the pattern's first character is left as it is. */
  lemma ReplaceAllSkipsFree(a: string, b: string, p: string, r: string)
    requires |p| > 0 && p[0] !in a
    ensures ReplaceAll(a + b, p, r) == a + ReplaceAll(b, p, r)
  {
    ReplaceAllSkips(a, b, p, r);
  }

  /** A match at the front is replaced, and scanning resumes after it. */
  lemma ReplaceAllFront(p: string, b: string, r: string)
    requires |p| > 0
    ensures ReplaceAll(p + b, p, r) == r + ReplaceAll(b, p, r)
  {
    assert (p + b)[..|p|] == p;
    assert (p + b)[|p|..] == b;
  }

  /**
   * GetSubstitution of ECMAScript for a string pattern (no capture groups):
   * `$$` gives `$`, `$&` the match, `` $` `` the text before it, `$'` the
   * text after it; any other `$` stands for itself.
   */
  function Substitute(rep: string, matched: string, before: string, after: string): (t: string)
    ensures '$' !in rep ==> t == rep
    decreases |rep|
  {
    if |rep| == 0 then ""
    else if rep[0] == '$' && |rep| >= 2 && rep[1] == '$' then "$" + Substitute(rep[2..], matched, before, after)
    else if rep[0] == '$' && |rep| >= 2 && rep[1] == '&' then matched + Substitute(rep[2..], matched, before, after)
    else if rep[0] == '$' && |rep| >= 2 && rep[1] == '`' then before + Substitute(rep[2..], matched, before, after)
    else if rep[0] == '$' && |rep| >= 2 && rep[1] == '\'' then after + Substitute(rep[2..], matched, before, after)
    else [rep[0]] + Substitute(rep[1..], matched, before, after)
  }

  /** `s.replace(p, rep)` for a string pattern: only the first match is replaced. */
  function Replace(s: string, p: string, rep: string): string
  {
    var i := IndexOf(s, p);
    if i < 0 then s
    else s[..i] + Substitute(rep, p, s[..i], s[i + |p|..]) + s[i + |p|..]
  }

  /**
   * With a `$`-free replacement, `replace` cuts out exactly the first match
   * and puts the replacement in its place; without a match it changes nothing.
   */
  lemma ReplaceFirstMatch(s: string, p: string, rep: string)
    requires '$' !in rep
    ensures !Contains(s, p) ==> Replace(s, p, rep) == s
    ensures Contains(s, p) ==>
      var i := IndexOf(s, p);
      0 <= i && OccursAt(s, p, i) && (forall j :: 0 <= j < i ==> !OccursAt(s, p, j)) &&
      Replace(s, p, rep) == s[..i] + rep + s[i + |p|..]
  {
    IndexOfIff(s, p);
  }

  /**
   * `replace` with an empty replacement removes only the first match: every
   * later match survives, moved left by the length of the pattern.
   */
  lemma ReplaceKeepsLater(s: string, p: string, j: int)
    requires Contains(s, p)
    requires j >= IndexOf(s, p) + |p| && OccursAt(s, p, j)
    ensures OccursAt(Replace(s, p, ""), p, j - |p|)
  {
    IndexOfIff(s, p);
    var i := IndexOf(s, p);
    ReplaceEmptyAt(s, p, i);
    CutKeepsLater(s, p, i, j);
  }

  /** Cutting p's first match out at i moves a match at j >= i + |p| left by |p|. */
  lemma CutKeepsLater(s: string, p: string, i: nat, j: nat)
    requires i + |p| <= j && OccursAt(s, p, j)
    ensures OccursAt(s[..i] + s[i + |p|..], p, j - |p|)
  {
    var t := s[..i] + s[i + |p|..];
    assert forall k :: j - |p| <= k < j ==> t[k] == s[k + |p|];
    assert t[j - |p|..j] == s[j..j + |p|];
  }

  /** `replace` with an empty replacement cuts out the first match. */
  lemma ReplaceEmptyAt(s: string, p: string, k: int)
    requires 0 <= k == IndexOf(s, p)
    ensures Replace(s, p, "") == s[..k] + s[k + |p|..]
  {
  }

  lemma ReplaceEmptySkipsFree(a: string, b: string, p: string)
    requires |p| > 0 && p[0] !in a
    ensures Replace(a + b, p, "") == a + Replace(b, p, "")
  {
    IndexOfSkipsFree(a, b, p);
    if IndexOf(b, p) >= 0 {
      ReplaceEmptyShifted(a, b, p, IndexOf(b, p));
    } else {
      ReplaceNoMatch(a + b, p);
      ReplaceNoMatch(b, p);
    }
  }

  lemma ReplaceEmptyShifted(a: string, b: string, p: string, i: nat)
    requires i == IndexOf(b, p) && IndexOf(a + b, p) == |a| + i
    ensures Replace(a + b, p, "") == a + Replace(b, p, "")
  {
    var x, y := b[..i], b[i + |p|..];
    SplitAtMatch(b, p, i);
    Associate(a, x, p, y);
    ReplaceEmptySplit(x, p, y);
    ReplaceEmptySplit(a + x, p, y);
  }

  lemma Associate(a: string, x: string, p: string, y: string)
    ensures a + (x + p + y) == (a + x) + p + y
    ensures (a + x) + y == a + (x + y)
  {
  }

  /** A text split around a match of p. */
  lemma SplitAtMatch(s: string, p: string, i: nat)
    requires OccursAt(s, p, i)
    ensures s == s[..i] + p + s[i + |p|..]
  {
    assert s == s[..i] + s[i..i + |p|] + s[i + |p|..];
  }

  /** `replace` with an empty replacement cuts out the first match, wherever it lies. */
  lemma ReplaceEmptySplit(x: string, p: string, y: string)
    requires IndexOf(x + p + y, p) == |x|
    ensures Replace(x + p + y, p, "") == x + y
  {
    var s := x + p + y;
    ReplaceEmptyAt(s, p, |x|);
    assert s[..|x|] == x && s[|x| + |p|..] == y;
  }

  lemma ReplaceNoMatch(s: string, p: string)
    requires IndexOf(s, p) < 0
    ensures Replace(s, p, "") == s
  {
  }

  /** Cutting b[i..i + n] out of a + b, past a, cuts it out of b. */
  lemma CutAround(a: string, b: string, i: nat, n: nat)
    requires i + n <= |b|
    ensures (a + b)[..|a| + i] + (a + b)[|a| + i + n..] == a + (b[..i] + b[i + n..])
  {
    assert (a + b)[..|a| + i] == a + b[..i];
    assert (a + b)[|a| + i + n..] == b[i + n..];
  }

  /** Replacing the match after a free prefix puts the expanded replacement in its place. */
  lemma ReplaceOnly(a: string, p: string, b: string, rep: string)
    requires |p| > 0 && p[0] !in a
    ensures Replace(a + p + b, p, rep) == a + Substitute(rep, p, a, b) + b
  {
    var s := a + p + b;
    FirstMatchAfter(a, p, b);
    assert s[..|a|] == a;
    assert s[|a| + |p|..] == b;
  }

  /** A text in which p does not occur before its first match is cut at that match. */
  lemma ReplaceAtBoundary(a: string, b: string, p: string)
    requires |p| > 0 && p[0] !in a
    ensures Replace(a + p + b, p, "") == a + b
  {
    var s := a + p + b;
    FirstMatchAfter(a, p, b);
    ReplaceEmptyAt(s, p, |a|);
    assert s[..|a|] == a && s[|a| + |p|..] == b;
  }

  // ---------------------------------------------------------------------
  // Fences: removing "```" never leaves a "```" behind
  // ---------------------------------------------------------------------

  lemma RemoveTripleFront(t: string, c: char)
    requires t != [] && t[0] != c
    ensures ReplaceAll(t, [c, c, c], "") != [] && ReplaceAll(t, [c, c, c], "")[0] == t[0]
  {
  }

  lemma RemoveTripleNoPair(t: string, c: char)
    requires !StartsWith(t, [c, c])
    ensures !StartsWith(ReplaceAll(t, [c, c, c], ""), [c, c])
  {
    if t != [] && t[0] == c {
      assert !StartsWith(t, [c, c, c]);
      if |t| > 1 {
        RemoveTripleFront(t[1..], c);
      }
    } else if t != [] {
      RemoveTripleFront(t, c);
    }
  }

  /**
   * `s.replaceAll(ccc, "")` for a run of three equal characters leaves no
   * such run: what is left of each run is shorter than three and is followed
   * by a different character, so no new match can form.
   */
  lemma {:induction false} RemoveTripleLeavesNone(s: string, c: char)
    ensures !Contains(ReplaceAll(s, [c, c, c], ""), [c, c, c])
    decreases |s|
  {
    var p := [c, c, c];
    var t := ReplaceAll(s, p, "");
    if |s| == 0 {
    } else if StartsWith(s, p) {
      RemoveTripleLeavesNone(s[3..], c);
      assert t == ReplaceAll(s[3..], p, "");
    } else {
      RemoveTripleLeavesNone(s[1..], c);
      var u := ReplaceAll(s[1..], p, "");
      assert t == [s[0]] + u;
      if s[0] == c {
        NoPairAfter(s, c);
        RemoveTripleNoPair(s[1..], c);
      }
      ConsKeepsTripleFree(s[0], u, c);
    }
  }

  lemma NoPairAfter(s: string, c: char)
    requires |s| > 0 && s[0] == c && !StartsWith(s, [c, c, c])
    ensures !StartsWith(s[1..], [c, c])
  {
    if |s| >= 3 {
      assert s[..3] == [s[0]] + s[1..][..2];
    }
  }

  lemma ConsKeepsTripleFree(x: char, u: string, c: char)
    requires !Contains(u, [c, c, c]) && (x == c ==> !StartsWith(u, [c, c]))
    ensures !Contains([x] + u, [c, c, c])
  {
    var t := [x] + u;
    assert t[1..] == u;
    if |t| >= 3 {
      assert t[..3][0] == x && t[..3][1..] == u[..2];
      assert [c, c, c][1..] == [c, c];
    }
    assert !StartsWith(t, [c, c, c]);
  }

  // ---------------------------------------------------------------------
  // trim
  // ---------------------------------------------------------------------

  /** The characters `trim` removes: ECMAScript WhiteSpace and LineTerminator. */
  predicate IsJsSpace(ch: char) {
    ch == '\t' || ch == '\n' || ch == '\U{000B}' || ch == '\U{000C}' || ch == '\r' || ch == ' ' ||
    ch == '\U{00A0}' || ch == '\U{1680}' || ('\U{2000}' <= ch <= '\U{200A}') ||
    ch == '\U{2028}' || ch == '\U{2029}' || ch == '\U{202F}' || ch == '\U{205F}' ||
    ch == '\U{3000}' || ch == '\U{FEFF}'
  }

  /** Leading white space removed: t is a suffix of s and does not start with white space. */
  function TrimStart(s: string): (t: string)
    ensures |t| <= |s| && t == s[|s| - |t|..]
    ensures forall i :: 0 <= i < |s| - |t| ==> IsJsSpace(s[i])
    ensures t == [] || !IsJsSpace(t[0])
    decreases |s|
  {
    if |s| > 0 && IsJsSpace(s[0]) then TrimStart(s[1..]) else s
  }

  /** Trailing white space removed: t is a prefix of s and does not end with white space. */
  function TrimEnd(s: string): (t: string)
    ensures |t| <= |s| && t == s[..|t|]
    ensures forall i :: |t| <= i < |s| ==> IsJsSpace(s[i])
    ensures t == [] || !IsJsSpace(t[|t| - 1])
    decreases |s|
  {
    if |s| > 0 && IsJsSpace(s[|s| - 1]) then TrimEnd(s[..|s| - 1]) else s
  }

  /** `s.trim()`. */
  function Trim(s: string): string {
    TrimEnd(TrimStart(s))
  }

  /** `s.trim() === ""`: a falsy trimmed string. */
  predicate IsBlank(s: string) {
    Trim(s) == ""
  }

  /** A string is blank exactly when every character of it is white space. */
  lemma BlankIff(s: string)
    ensures IsBlank(s) <==> forall i :: 0 <= i < |s| ==> IsJsSpace(s[i])
  {
  }

  /** The result of `trim` neither starts nor ends with white space. */
  lemma TrimEnds(s: string)
    ensures Trim(s) == [] || (!IsJsSpace(Trim(s)[0]) && !IsJsSpace(Trim(s)[|Trim(s)| - 1]))
  {
    var u := TrimStart(s);
    var t := TrimEnd(u);
    if t != [] {
      assert u != [];
      assert !IsJsSpace(u[0]);
      assert t[0] == u[0];
    }
  }

  /** The result of `trim` is a contiguous piece of its input. */
  lemma TrimIsPiece(s: string)
    ensures exists k :: OccursAt(s, Trim(s), k)
  {
    var u := TrimStart(s);
    var t := TrimEnd(u);
    var k := |s| - |u|;
    assert s[k..k + |t|] == u[..|t|];
    assert t == Trim(s);
    assert OccursAt(s, t, k);
  }

  // ---------------------------------------------------------------------
  // split on one character, join
  // ---------------------------------------------------------------------

  /** `xs.join(sep)`. */
  function Join(xs: seq<string>, sep: string): string
    decreases |xs|
  {
    if |xs| == 0 then ""
    else if |xs| == 1 then xs[0]
    else xs[0] + sep + Join(xs[1..], sep)
  }

  /**
   * `s.split(c)` for a one-character separator: the pieces between the
   * separators, at least one, none containing the separator, and joining
   * them back gives s.
   */
  function Split(s: string, c: char): (r: seq<string>)
    ensures |r| >= 1
    ensures forall i :: 0 <= i < |r| ==> c !in r[i]
    ensures Join(r, [c]) == s
    decreases |s|
  {
    if |s| == 0 then [""]
    else
      var rest := Split(s[1..], c);
      if s[0] == c then
        [""] + rest
      else
        var r := [[s[0]] + rest[0]] + rest[1..];
        assert r[1..] == rest[1..];
        r
  }

  lemma {:induction false} SplitFree(x: string, c: char)
    requires c !in x
    ensures Split(x, c) == [x]
    decreases |x|
  {
    if |x| > 0 {
      SplitFree(x[1..], c);
      assert x == [x[0]] + x[1..];
    }
  }

  lemma {:induction false} SplitAtSeparator(x: string, c: char, y: string)
    requires c !in x
    ensures Split(x + [c] + y, c) == [x] + Split(y, c)
    decreases |x|
  {
    var s := x + [c] + y;
    if |x| == 0 {
      assert s[1..] == y;
    } else {
      assert s[1..] == x[1..] + [c] + y;
      SplitAtSeparator(x[1..], c, y);
      assert x == [x[0]] + x[1..];
    }
  }

  /** Splitting a join on the same one-character separator recovers the pieces. */
  lemma {:induction false} SplitJoin(xs: seq<string>, c: char)
    requires |xs| >= 1
    requires forall i :: 0 <= i < |xs| ==> c !in xs[i]
    ensures Split(Join(xs, [c]), c) == xs
    decreases |xs|
  {
    if |xs| == 1 {
      SplitFree(xs[0], c);
    } else {
      SplitJoin(xs[1..], c);
      SplitAtSeparator(xs[0], c, Join(xs[1..], [c]));
      assert xs == [xs[0]] + xs[1..];
    }
  }

  // ---------------------------------------------------------------------
  // Decimal rendering (template literals on integers)
  // ---------------------------------------------------------------------

  function DigitChar(d: nat): char
    requires d < 10
  {
    ('0' as int + d) as char
  }

  /** The decimal digits of n, most significant first, with no leading zero. */
  function NatToString(n: nat): (r: string)
    ensures |r| >= 1 && (n >= 10 ==> |r| >= 2)
    ensures forall i :: 0 <= i < |r| ==> '0' <= r[i] <= '9'
    ensures |r| > 1 ==> r[0] != '0'
    decreases n
  {
    if n < 10 then [DigitChar(n)] else NatToString(n / 10) + [DigitChar(n % 10)]
  }

  /** Different numbers are rendered differently. */
  lemma {:induction false} NatToStringInjective(a: nat, b: nat)
    requires NatToString(a) == NatToString(b)
    ensures a == b
    decreases a
  {
    var sa, sb := NatToString(a), NatToString(b);
    if a >= 10 && b >= 10 {
      assert sa[..|sa| - 1] == NatToString(a / 10);
      assert sb[..|sb| - 1] == NatToString(b / 10);
      NatToStringInjective(a / 10, b / 10);
      assert a % 10 == b % 10 by { assert sa[|sa| - 1] == sb[|sb| - 1]; }
    }
  }
}
