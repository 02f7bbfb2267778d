/** The string operations the services rely on: Python's `str.replace`
    (one left-to-right pass over non-overlapping matches), Python's
    `str.strip` and JavaScript's `String.prototype.trim`, with the facts
    about occurrences of a pattern that the services need. */
module Strings {

  /** `pat` occurs in `s` starting at index `i`. */
  predicate OccursAt(s: string, pat: string, i: int) {
    0 <= i && i + |pat| <= |s| && s[i..i + |pat|] == pat
  }

  /** Python's `pat in s`. */
  predicate Contains(s: string, pat: string) {
    exists i | 0 <= i <= |s| - |pat| :: OccursAt(s, pat, i)
  }

  predicate StartsWith(s: string, pat: string) {
    |pat| <= |s| && s[..|pat|] == pat
  }

  lemma StartsWithAt(s: string, pat: string, k: int)
    ensures StartsWith(s, pat) && 0 <= k < |pat| ==> s[k] == pat[k]
  {
    if StartsWith(s, pat) && 0 <= k < |pat| {
      assert s[k] == s[..|pat|][k];
    }
  }

  lemma OccursAtChar(s: string, pat: string, i: int, k: int)
    ensures OccursAt(s, pat, i) && 0 <= k < |pat| ==> s[i + k] == pat[k]
  {
    if OccursAt(s, pat, i) && 0 <= k < |pat| {
      assert s[i + k] == s[i..i + |pat|][k];
    }
  }

  /** An occurrence in a suffix is an occurrence in the whole string,
      shifted by the length of what was cut off. */
  lemma OccursAtShift(s: string, k: int, pat: string, j: int)
    ensures 0 <= k <= |s| && OccursAt(s[k..], pat, j) ==> OccursAt(s, pat, j + k)
  {
    if 0 <= k <= |s| && OccursAt(s[k..], pat, j) {
      assert s[k..][j..j + |pat|] == s[j + k..j + k + |pat|];
    }
  }

  /** Where a pattern occurs, so does each of its prefixes. */
  lemma ContainsPrefix(s: string, pat: string, n: int)
    ensures Contains(s, pat) && 0 <= n <= |pat| ==> Contains(s, pat[..n])
  {
    if Contains(s, pat) && 0 <= n <= |pat| {
      var i :| 0 <= i <= |s| - |pat| && OccursAt(s, pat, i);
      assert s[i..i + n] == s[i..i + |pat|][..n];
      assert OccursAt(s, pat[..n], i);
    }
  }

  /** Python's `s.replace(pat, rep)` for a non-empty `pat`: scan from the
      left; at a match emit `rep` and jump past the match, otherwise keep
      one character and move on by one. */
  function ReplaceAll(s: string, pat: string, rep: string): string
    requires pat != []
    decreases |s|
  {
    if s == [] then []
    else if StartsWith(s, pat) then rep + ReplaceAll(s[|pat|..], pat, rep)
    else [s[0]] + ReplaceAll(s[1..], pat, rep)
  }

  /** An occurrence in a substring is an occurrence in the whole string. */
  lemma ContainsInSlice(s: string, lo: int, hi: int, pat: string)
    requires 0 <= lo <= hi <= |s|
    requires Contains(s[lo..hi], pat)
    ensures Contains(s, pat)
  {
    var i :| 0 <= i <= hi - lo - |pat| && OccursAt(s[lo..hi], pat, i);
    forall j | 0 <= j < |pat| ensures s[lo + i + j] == pat[j] {
      assert s[lo..hi][i..i + |pat|][j] == pat[j];
    }
    assert s[lo + i..lo + i + |pat|] == pat;
    assert OccursAt(s, pat, lo + i);
  }

  /** A string without the pattern is left as it is. */
  lemma {:induction false} ReplaceAbsent(s: string, pat: string, rep: string)
    requires pat != []
    requires !Contains(s, pat)
    ensures ReplaceAll(s, pat, rep) == s
  {
    if s != [] {
      assert !StartsWith(s, pat) by {
        if StartsWith(s, pat) { assert OccursAt(s, pat, 0); }
      }
      assert !Contains(s[1..], pat) by {
        if Contains(s[1..], pat) {
          assert s[1..|s|] == s[1..];
          ContainsInSlice(s, 1, |s|, pat);
        }
      }
      ReplaceAbsent(s[1..], pat, rep);
    }
  }

  /** Deleting a pattern (replacing it by "") shortens the string exactly
      when the pattern occurs. */
  lemma {:induction false} DeleteShortensIff(s: string, pat: string)
    requires pat != []
    ensures |ReplaceAll(s, pat, "")| <= |s|
    ensures |ReplaceAll(s, pat, "")| < |s| <==> Contains(s, pat)
  {
    if s == [] {
    } else if StartsWith(s, pat) {
      DeleteShortensIff(s[|pat|..], pat);
      assert OccursAt(s, pat, 0);
    } else {
      DeleteShortensIff(s[1..], pat);
      if Contains(s, pat) {
        var i :| 0 <= i <= |s| - |pat| && OccursAt(s, pat, i);
        assert i != 0;
        assert s[1..][i - 1..i - 1 + |pat|] == s[i..i + |pat|];
        assert OccursAt(s[1..], pat, i - 1);
      }
      if Contains(s[1..], pat) {
        assert s[1..|s|] == s[1..];
        ContainsInSlice(s, 1, |s|, pat);
      }
    }
  }

  /** A prefix in which the pattern's first character never appears passes
      through untouched, and the scan resumes at its end. */
  lemma {:induction false} ReplaceAfterPlainPrefix(a: string, b: string, pat: string, rep: string)
    requires pat != []
    requires forall k :: 0 <= k < |a| ==> a[k] != pat[0]
    ensures ReplaceAll(a + b, pat, rep) == a + ReplaceAll(b, pat, rep)
  {
    if a != [] {
      StartsWithAt(a + b, pat, 0);
      assert (a + b)[0] == a[0];
      assert (a + b)[1..] == a[1..] + b;
      ReplaceAfterPlainPrefix(a[1..], b, pat, rep);
      calc {
        ReplaceAll(a + b, pat, rep);
        [a[0]] + ReplaceAll(a[1..] + b, pat, rep);
        [a[0]] + (a[1..] + ReplaceAll(b, pat, rep));
        { assert [a[0]] + a[1..] == a; }
        a + ReplaceAll(b, pat, rep);
      }
    } else {
      assert a + b == b;
    }
  }

  /** When the pattern's first character appears nowhere else in it, a
      match cannot straddle a cut made just before that character, so the
      two sides are rewritten independently. */
  lemma {:induction false} ReplaceSplitsAtHead(a: string, b: string, pat: string, rep: string)
    requires pat != []
    requires forall k :: 1 <= k < |pat| ==> pat[k] != pat[0]
    requires b == [] || b[0] == pat[0]
    ensures ReplaceAll(a + b, pat, rep) == ReplaceAll(a, pat, rep) + ReplaceAll(b, pat, rep)
  {
    if a == [] {
      assert a + b == b;
    } else if StartsWith(a + b, pat) {
      if |a| < |pat| {
        StartsWithAt(a + b, pat, |a|);
        assert false;
      }
      assert a[..|pat|] == (a + b)[..|pat|];
      assert StartsWith(a, pat);
      assert (a + b)[|pat|..] == a[|pat|..] + b;
      ReplaceSplitsAtHead(a[|pat|..], b, pat, rep);
    } else {
      assert (a + b)[0] == a[0];
      assert (a + b)[1..] == a[1..] + b;
      ReplaceSplitsAtHead(a[1..], b, pat, rep);
    }
  }

  /** A segment that opens with the pattern's first character, has it
      nowhere else, and does not open with the pattern itself, is kept. */
  lemma SegmentUnchanged(x: string, pat: string, rep: string)
    requires pat != [] && x != []
    requires x[0] == pat[0]
    requires forall k :: 1 <= k < |x| ==> x[k] != pat[0]
    requires !StartsWith(x, pat)
    ensures ReplaceAll(x, pat, rep) == x
  {
    ReplaceAfterPlainPrefix(x[1..], [], pat, rep);
    assert x[1..] + [] == x[1..];
  }

  // ---------------------------------------------------------------------
  // Whitespace trimming

  /** Python's `str.isspace` on one character. */
  predicate PyIsSpace(c: char) {
    ('\t' <= c <= '\r') || ('\U{1C}' <= c <= ' ') || c == '\U{85}' || c == '\U{A0}'
    || c == '\U{1680}' || ('\U{2000}' <= c <= '\U{200A}') || c == '\U{2028}'
    || c == '\U{2029}' || c == '\U{202F}' || c == '\U{205F}' || c == '\U{3000}'
  }

  /** The characters JavaScript's `trim` removes: WhiteSpace and LineTerminator. */
  predicate JsIsSpace(c: char) {
    ('\t' <= c <= '\r') || c == ' ' || c == '\U{A0}' || c == '\U{1680}'
    || ('\U{2000}' <= c <= '\U{200A}') || c == '\U{2028}' || c == '\U{2029}'
    || c == '\U{202F}' || c == '\U{205F}' || c == '\U{3000}' || c == '\U{FEFF}'
  }

  /** The end of the run of whitespace in `s` that starts at `i`. */
  function SpaceRunEnd(s: string, isSpace: char -> bool, i: nat): (j: nat)
    requires i <= |s|
    ensures i <= j <= |s|
    ensures forall k :: i <= k < j ==> isSpace(s[k])
    ensures j < |s| ==> !isSpace(s[j])
    decreases |s| - i
  {
    if i < |s| && isSpace(s[i]) then SpaceRunEnd(s, isSpace, i + 1) else i
  }

  /** The start of the run of whitespace in `s` that ends at `j`, looking
      no further back than `lo`. */
  function SpaceRunStart(s: string, isSpace: char -> bool, lo: nat, j: nat): (i: nat)
    requires lo <= j <= |s|
    ensures lo <= i <= j
    ensures forall k :: i <= k < j ==> isSpace(s[k])
    ensures i > lo ==> !isSpace(s[i - 1])
    decreases j - lo
  {
    if j > lo && isSpace(s[j - 1]) then SpaceRunStart(s, isSpace, lo, j - 1) else j
  }

  /** Python's `strip()` (with `PyIsSpace`) and JavaScript's `trim()` (with
      `JsIsSpace`): the slice of `s` between its leading and its trailing
      whitespace. The result has no whitespace at either end, is empty
      exactly when `s` is all whitespace, and everything in it occurs in `s`. */
  function Strip(s: string, isSpace: char -> bool): (r: string)
    ensures r == [] || (!isSpace(r[0]) && !isSpace(r[|r| - 1]))
    ensures r == [] <==> forall k :: 0 <= k < |s| ==> isSpace(s[k])
    ensures forall pat :: Contains(r, pat) ==> Contains(s, pat)
    ensures exists lo, hi ::
      && 0 <= lo <= hi <= |s| && r == s[lo..hi]
      && (forall k :: 0 <= k < lo ==> isSpace(s[k]))
      && (forall k :: hi <= k < |s| ==> isSpace(s[k]))
  {
    var lo := SpaceRunEnd(s, isSpace, 0);
    var hi := SpaceRunStart(s, isSpace, lo, |s|);
    forall pat | Contains(s[lo..hi], pat) ensures Contains(s, pat) {
      ContainsInSlice(s, lo, hi, pat);
    }
    assert forall k :: hi <= k < |s| ==> isSpace(s[k]);
    s[lo..hi]
  }

  /** A string with no whitespace at either end is its own strip. */
  lemma StripKeepsTrimmed(s: string, isSpace: char -> bool)
    requires s == [] || (!isSpace(s[0]) && !isSpace(s[|s| - 1]))
    ensures Strip(s, isSpace) == s
  {
    if s != [] {
      assert SpaceRunEnd(s, isSpace, 0) == 0;
      assert SpaceRunStart(s, isSpace, 0, |s|) == |s|;
      assert s[0..|s|] == s;
    }
  }
}
