/**
 * String operations used to derive a file name from a URL:
 * Python's `str.replace(old, new)` and a search for the first occurrence
 * of a character.
 */
module Text {

  /** `pat` occurs somewhere in `s` as a contiguous substring. */
  predicate Contains(s: string, pat: string)
    decreases |s|
  {
    |pat| <= |s| && (s[..|pat|] == pat || Contains(s[1..], pat))
  }

  /**
   * Python's `s.replace(pat, rep)`: scanning left to right, every
   * occurrence of `pat` is replaced by `rep`; after a replacement the scan
   * resumes behind the replaced occurrence, so occurrences never overlap and
   * the inserted text is never scanned again.
   */
  function ReplaceAll(s: string, pat: string, rep: string): string
    requires pat != []
    decreases |s|
  {
    if |s| < |pat| then s
    else if s[..|pat|] == pat then rep + ReplaceAll(s[|pat|..], pat, rep)
    else [s[0]] + ReplaceAll(s[1..], pat, rep)
  }

  /** Reference definition for a one-character replacement: a character-wise map. */
  function MapChar(s: string, c: char, d: char): (r: string)
    ensures |r| == |s|
  {
    seq(|s|, k requires 0 <= k < |s| => if s[k] == c then d else s[k])
  }

  /** Index of the first `ch` in `s`, or `|s|` when there is none. */
  function FindChar(s: string, ch: char): (k: nat)
    ensures k <= |s|
    ensures ch !in s[..k]
    ensures k < |s| ==> s[k] == ch
    decreases |s|
  {
    if s == [] then 0
    else if s[0] == ch then 0
    else 1 + FindChar(s[1..], ch)
  }

  /** Without an occurrence of the pattern, replacing leaves the string as it is. */
  lemma {:induction false} ReplaceAllAbsent(s: string, pat: string, rep: string)
    requires pat != []
    requires !Contains(s, pat)
    ensures ReplaceAll(s, pat, rep) == s
    decreases |s|
  {
    if |s| >= |pat| {
      ReplaceAllAbsent(s[1..], pat, rep);
      assert [s[0]] + s[1..] == s;
    }
  }

  /** A replacement that is no longer than the pattern never lengthens the string. */
  lemma {:induction false} ReplaceAllNotLonger(s: string, pat: string, rep: string)
    requires pat != []
    requires |rep| <= |pat|
    ensures |ReplaceAll(s, pat, rep)| <= |s|
    decreases |s|
  {
    if |s| >= |pat| {
      if s[..|pat|] == pat {
        ReplaceAllNotLonger(s[|pat|..], pat, rep);
      } else {
        ReplaceAllNotLonger(s[1..], pat, rep);
      }
    }
  }

  /** A character found neither in the input nor in the replacement is not in the output. */
  lemma {:induction false} ReplaceAllKeepsOut(s: string, pat: string, rep: string, c: char)
    requires pat != []
    requires c !in s && c !in rep
    ensures c !in ReplaceAll(s, pat, rep)
    decreases |s|
  {
    if |s| >= |pat| {
      if s[..|pat|] == pat {
        assert forall k :: 0 <= k < |s| - |pat| ==> s[|pat|..][k] == s[|pat| + k];
        ReplaceAllKeepsOut(s[|pat|..], pat, rep, c);
      } else {
        assert forall k :: 0 <= k < |s| - 1 ==> s[1..][k] == s[1 + k];
        ReplaceAllKeepsOut(s[1..], pat, rep, c);
      }
    }
  }

  /** Replacing one character by another is the character-wise map. */
  lemma {:induction false} ReplaceCharIsMap(s: string, c: char, d: char)
    ensures ReplaceAll(s, [c], [d]) == MapChar(s, c, d)
    decreases |s|
  {
    if s != [] {
      ReplaceCharIsMap(s[1..], c, d);
      var head := if s[0] == c then d else s[0];
      assert s[..1] == [c] <==> s[0] == c;
      assert ReplaceAll(s, [c], [d]) == [head] + MapChar(s[1..], c, d);
      assert [head] + MapChar(s[1..], c, d) == MapChar(s, c, d);
    }
  }

  /** Every character of an occurring pattern is a character of the string. */
  lemma {:induction false} ContainsHasChars(s: string, pat: string, j: nat)
    requires Contains(s, pat)
    requires j < |pat|
    ensures pat[j] in s
    decreases |s|
  {
    if s[..|pat|] == pat {
      assert s[j] == pat[j];
    } else {
      ContainsHasChars(s[1..], pat, j);
      assert forall k :: 0 <= k < |s| - 1 ==> s[1..][k] == s[1 + k];
    }
  }

  /** The first `ch` of `p + x` is the head of `x` when `p` has none. */
  lemma {:induction false} FindCharAfter(p: string, x: string, ch: char)
    requires ch !in p
    requires x != [] && x[0] == ch
    ensures FindChar(p + x, ch) == |p|
    decreases |p|
  {
    if p != [] {
      assert (p + x)[1..] == p[1..] + x;
      FindCharAfter(p[1..], x, ch);
    }
  }

  /** Text that cannot start an occurrence of the pattern passes through unchanged. */
  lemma {:induction false} ReplaceAllSkipsPrefix(p: string, r: string, pat: string, rep: string)
    requires pat != []
    requires pat[0] !in p
    ensures ReplaceAll(p + r, pat, rep) == p + ReplaceAll(r, pat, rep)
    decreases |p|
  {
    if p == [] {
      assert p + r == r;
    } else {
      var s := p + r;
      assert s[0] != pat[0];
      if |s| < |pat| {
        assert ReplaceAll(s, pat, rep) == s;
        assert ReplaceAll(r, pat, rep) == r;
      } else {
        assert s[..|pat|] != pat;
        assert s[1..] == p[1..] + r;
        ReplaceAllSkipsPrefix(p[1..], r, pat, rep);
        calc {
          ReplaceAll(s, pat, rep);
          [s[0]] + ReplaceAll(p[1..] + r, pat, rep);
          [p[0]] + (p[1..] + ReplaceAll(r, pat, rep));
          { assert [p[0]] + p[1..] == p; }
          p + ReplaceAll(r, pat, rep);
        }
      }
    }
  }

  /** An occurrence at the very start is replaced, and the scan resumes behind it. */
  lemma ReplaceAllDropsLeading(pat: string, r: string, rep: string)
    requires pat != []
    ensures ReplaceAll(pat + r, pat, rep) == rep + ReplaceAll(r, pat, rep)
  {
  }
}
