/** The Python string operations the scripts use, on `seq<char>`: `str.isspace`, ASCII
    lower-casing, `in`, `startswith`, `endswith`, `split(sep)[-1]`, `split(sep)[0]`,
    `strip()` and `replace(pat, rep)`. */
module Strings {

  /** `str.isspace()` for one character; the regular-expression class `\s` of a `str`
      pattern is the same set. */
  predicate IsSpace(c: char) {
    ('\t' <= c <= '\r') || ('\U{001C}' <= c <= ' ') || c == '\U{0085}' || c == '\U{00A0}' ||
    c == '\U{1680}' || ('\U{2000}' <= c <= '\U{200A}') || c == '\U{2028}' || c == '\U{2029}' ||
    c == '\U{202F}' || c == '\U{205F}' || c == '\U{3000}'
  }

  /** ASCII lower-casing of one character. */
  function Lower(c: char): (d: char)
    ensures ('A' <= c <= 'Z') ==> 'a' <= d <= 'z'
    ensures !('A' <= c <= 'Z') ==> d == c
  {
    if 'A' <= c <= 'Z' then (c as int - 'A' as int + 'a' as int) as char else c
  }

  function LowerStr(s: string): (r: string)
    ensures |r| == |s|
    ensures forall i :: 0 <= i < |s| ==> r[i] == Lower(s[i])
  {
    seq(|s|, i requires 0 <= i < |s| => Lower(s[i]))
  }

  predicate ContainsAt(s: string, sub: string, i: int) {
    0 <= i && i + |sub| <= |s| && s[i..i + |sub|] == sub
  }

  /** Python `sub in s`. */
  predicate Contains(s: string, sub: string) {
    exists i | 0 <= i <= |s| - |sub| :: ContainsAt(s, sub, i)
  }

  /** Python `s.startswith(p)`. */
  predicate StartsWith(s: string, p: string) {
    |p| <= |s| && s[..|p|] == p
  }

  /** Python `s.endswith(x)`. */
  predicate EndsWith(s: string, x: string) {
    |x| <= |s| && s[|s| - |x|..] == x
  }

  /** Python `s.split(sep)[-1]`: the text after the last `sep`, or all of `s`. */
  function LastSegment(s: string, sep: char): (r: string)
    ensures sep !in r
    ensures EndsWith(s, r)
    ensures |r| == |s| || s[|s| - |r| - 1] == sep
  {
    if s == [] then []
    else if s[|s| - 1] == sep then []
    else LastSegment(s[..|s| - 1], sep) + [s[|s| - 1]]
  }

  /** Python `s.split(sep)[0]`: the text before the first `sep`, or all of `s`. */
  function BeforeFirst(s: string, sep: char): (r: string)
    ensures sep !in r
    ensures StartsWith(s, r)
    ensures |r| == |s| || s[|r|] == sep
  {
    if s == [] then []
    else if s[0] == sep then []
    else [s[0]] + BeforeFirst(s[1..], sep)
  }

  function TrimStart(s: string): (r: string)
    ensures |r| <= |s| && r == s[|s| - |r|..]
    ensures forall i :: 0 <= i < |s| - |r| ==> IsSpace(s[i])
    ensures r != [] ==> !IsSpace(r[0])
  {
    if s == [] || !IsSpace(s[0]) then s else TrimStart(s[1..])
  }

  function TrimEnd(s: string): (r: string)
    ensures |r| <= |s| && r == s[..|r|]
    ensures forall i :: |r| <= i < |s| ==> IsSpace(s[i])
    ensures r != [] ==> !IsSpace(r[|r| - 1])
  {
    if s == [] || !IsSpace(s[|s| - 1]) then s else TrimEnd(s[..|s| - 1])
  }

  /** Python `s.strip()`: the text without leading and trailing whitespace. */
  function Strip(s: string): string {
    TrimEnd(TrimStart(s))
  }

  /** The stripped text is empty exactly when `s` is blank, otherwise begins and ends with a
      non-space, and is found in `s`; it is a slice of `s` outside which every character is
      whitespace, so only leading and trailing whitespace is removed. */
  lemma StripSpec(s: string)
    ensures Strip(s) == [] <==> forall i :: 0 <= i < |s| ==> IsSpace(s[i])
    ensures Strip(s) != [] ==> !IsSpace(Strip(s)[0]) && !IsSpace(Strip(s)[|Strip(s)| - 1])
    ensures Contains(s, Strip(s))
    ensures exists a, b :: 0 <= a <= b <= |s| && Strip(s) == s[a..b] && SpaceOutside(s, a, b)
  {
    StripBlank(s);
    StripEnds(s);
    StripInside(s);
    StripSlice(s);
  }

  lemma StripBlank(s: string)
    ensures Strip(s) == [] <==> forall i :: 0 <= i < |s| ==> IsSpace(s[i])
  {
  }

  lemma StripEnds(s: string)
    ensures Strip(s) != [] ==> !IsSpace(Strip(s)[0]) && !IsSpace(Strip(s)[|Strip(s)| - 1])
  {
    var front := TrimStart(s);
    var r := TrimEnd(front);
    if r != [] {
      assert r[0] == front[..|r|][0] == front[0];
    }
  }

  lemma StripInside(s: string)
    ensures Contains(s, Strip(s))
  {
    var front := TrimStart(s);
    assert ContainsAt(s, TrimEnd(front), |s| - |front|);
  }

  /** Every character of `s` before `a` and from `b` on is whitespace. */
  predicate SpaceOutside(s: string, a: int, b: int) {
    forall i :: 0 <= i < |s| && (i < a || b <= i) ==> IsSpace(s[i])
  }

  lemma StripSlice(s: string)
    ensures exists a, b :: 0 <= a <= b <= |s| && Strip(s) == s[a..b] && SpaceOutside(s, a, b)
  {
    var front := TrimStart(s);
    var r := TrimEnd(front);
    var a := |s| - |front|;
    var b := a + |r|;
    assert r == s[a..b];
    assert forall i :: 0 <= i < a ==> IsSpace(s[i]);
    assert forall i :: |r| <= i < |front| ==> IsSpace(front[i]);
    assert forall i :: b <= i < |s| ==> s[i] == front[i - a];
    assert SpaceOutside(s, a, b);
  }

  /** Python `s.replace(pat, rep)`: every non-overlapping occurrence, scanning left to right. */
  function ReplaceAll(s: string, pat: string, rep: string): string
    requires pat != []
  {
    if s == [] then []
    else if StartsWith(s, pat) then rep + ReplaceAll(s[|pat|..], pat, rep)
    else [s[0]] + ReplaceAll(s[1..], pat, rep)
  }

  /** Replacing one character by one character changes exactly the occurrences of it. */
  lemma {:induction false} ReplaceCharAt(s: string, pat: char, rep: char)
    ensures |ReplaceAll(s, [pat], [rep])| == |s|
    ensures forall i :: 0 <= i < |s| ==>
      ReplaceAll(s, [pat], [rep])[i] == if s[i] == pat then rep else s[i]
  {
    if s != [] {
      ReplaceCharAt(s[1..], pat, rep);
    }
  }

  /** Replacing by a longer text leaves `s` as it is exactly when `pat` does not occur in it. */
  lemma ReplaceAllUnchanged(s: string, pat: string, rep: string)
    requires pat != [] && |rep| > |pat|
    ensures ReplaceAll(s, pat, rep) == s <==> !Contains(s, pat)
  {
    if Contains(s, pat) {
      ReplaceAllGrows(s, pat, rep);
    } else {
      ReplaceAllMissing(s, pat, rep);
    }
  }

  lemma {:induction false} ReplaceAllMissing(s: string, pat: string, rep: string)
    requires pat != [] && !Contains(s, pat)
    ensures ReplaceAll(s, pat, rep) == s
  {
    if s != [] {
      if StartsWith(s, pat) {
        assert ContainsAt(s, pat, 0);
      }
      if Contains(s[1..], pat) {
        var j :| 0 <= j <= |s[1..]| - |pat| && ContainsAt(s[1..], pat, j);
        assert s[j + 1..j + 1 + |pat|] == s[1..][j..j + |pat|];
        assert ContainsAt(s, pat, j + 1);
      }
      ReplaceAllMissing(s[1..], pat, rep);
      assert s == [s[0]] + s[1..];
    }
  }

  lemma {:induction false} ReplaceAllGrows(s: string, pat: string, rep: string)
    requires pat != [] && |rep| > |pat|
    ensures |ReplaceAll(s, pat, rep)| >= |s|
    ensures Contains(s, pat) ==> |ReplaceAll(s, pat, rep)| > |s|
  {
    if s != [] {
      if StartsWith(s, pat) {
        ReplaceAllGrows(s[|pat|..], pat, rep);
      } else {
        ReplaceAllGrows(s[1..], pat, rep);
        if Contains(s, pat) {
          if |pat| <= |s| {
            assert s[..|pat|] == s[0..|pat|];
          }
          var j :| 0 <= j <= |s| - |pat| && ContainsAt(s, pat, j);
          assert s[1..][j - 1..j - 1 + |pat|] == s[j..j + |pat|];
          assert ContainsAt(s[1..], pat, j - 1);
        }
      }
    }
  }

  /** A prefix that does not contain the first character of `pat` passes through unchanged. */
  lemma {:induction false} ReplaceAllSkips(x: string, y: string, pat: string, rep: string)
    requires pat != [] && pat[0] !in x
    ensures ReplaceAll(x + y, pat, rep) == x + ReplaceAll(y, pat, rep)
  {
    if x != [] {
      assert (x + y)[0] == x[0] && x[0] != pat[0];
      assert |pat| <= |x + y| ==> (x + y)[..|pat|][0] != pat[0];
      assert !StartsWith(x + y, pat);
      assert (x + y)[1..] == x[1..] + y;
      calc {
        ReplaceAll(x + y, pat, rep);
        [x[0]] + ReplaceAll(x[1..] + y, pat, rep);
        { ReplaceAllSkips(x[1..], y, pat, rep); }
        [x[0]] + (x[1..] + ReplaceAll(y, pat, rep));
        { assert x == [x[0]] + x[1..]; }
        x + ReplaceAll(y, pat, rep);
      }
    } else {
      assert x + y == y;
    }
  }
}
