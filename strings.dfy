/** The Python `str` operations the classifier and the extractor use, on ASCII: `isspace`,
 *  `lower`, `strip`, `in` (substring test), `split(sep)[0]`, `split(sep)[-1]` and `sep.join`.
 *  Two more serve the proofs: `IndexOf`, the first occurrence that `split(sep)[0]` cuts at when
 *  the separator is a whole word, and `SplitOn`, the full `split(sep)` used to read a composed
 *  date back into its parts. */
module Strings {

  import opened Basics

  /** Python's `str.isspace` restricted to ASCII: space, \t \n \v \f \r and the separators
      0x1C-0x1F. */
  predicate IsSpace(c: char)
  {
    c == ' ' || '\t' <= c <= '\r' || 28 as char <= c <= 31 as char
  }

  predicate IsUpper(c: char)
  {
    'A' <= c <= 'Z'
  }

  function LowerChar(c: char): (r: char)
  {
    if IsUpper(c) then (c as int - 'A' as int + 'a' as int) as char else c
  }

  /** Python's `str.lower()` on ASCII letters: the length is kept, no capital is left, every
      capital becomes the letter 32 code points later, and every other character is kept. */
  function Lower(s: string): (r: string)
    ensures |r| == |s|
    ensures forall i :: 0 <= i < |r| ==> !IsUpper(r[i])
    ensures forall i :: 0 <= i < |s| && !IsUpper(s[i]) ==> r[i] == s[i]
    ensures forall i :: 0 <= i < |s| && IsUpper(s[i]) ==> r[i] as int == s[i] as int + 32
  {
    seq(|s|, i requires 0 <= i < |s| => LowerChar(s[i]))
  }

  /** Lower-casing twice is lower-casing once. */
  lemma LowerIdempotent(s: string)
    ensures Lower(Lower(s)) == Lower(s)
  {
    assert forall i :: 0 <= i < |s| ==> Lower(Lower(s))[i] == Lower(s)[i];
  }

  function TrimLeft(s: string): (r: string)
    ensures |r| <= |s| && r == s[|s| - |r|..]
    ensures forall k :: 0 <= k < |s| - |r| ==> IsSpace(s[k])
    ensures r != [] ==> !IsSpace(r[0])
  {
    if s != [] && IsSpace(s[0]) then TrimLeft(s[1..]) else s
  }

  function TrimRight(s: string): (r: string)
    ensures |r| <= |s| && r == s[..|r|]
    ensures forall k :: |r| <= k < |s| ==> IsSpace(s[k])
    ensures r != [] ==> !IsSpace(r[|r| - 1])
  {
    if s != [] && IsSpace(s[|s| - 1]) then TrimRight(s[..|s| - 1]) else s
  }

  /** `r` is what is left of `s` after removing whitespace before position `i` and after
      position `i + |r|`. */
  predicate StrippedAt(s: string, r: string, i: int)
  {
    0 <= i && i + |r| <= |s| && r == s[i..i + |r|]
    && (forall k :: 0 <= k < i ==> IsSpace(s[k]))
    && (forall k :: i + |r| <= k < |s| ==> IsSpace(s[k]))
  }

  /** Python's `str.strip()`: the slice left after removing the whitespace at both ends. */
  function Strip(s: string): (r: string)
    ensures r == [] <==> forall k :: 0 <= k < |s| ==> IsSpace(s[k])
    ensures r != [] ==> !IsSpace(r[0]) && !IsSpace(r[|r| - 1])
    ensures exists i :: StrippedAt(s, r, i)
  {
    var left := TrimLeft(s);
    var r := TrimRight(left);
    TrimmedBothEnds(s, |s| - |left|, left, r);
    r
  }

  /** Removing the leading whitespace and then the trailing whitespace leaves the stripped
      slice. */
  lemma TrimmedBothEnds(s: string, i: nat, left: string, r: string)
    requires i <= |s| && left == s[i..] && forall k :: 0 <= k < i ==> IsSpace(s[k])
    requires left != [] ==> !IsSpace(left[0])
    requires |r| <= |left| && r == left[..|r|] && forall k :: |r| <= k < |left| ==> IsSpace(left[k])
    requires r != [] ==> !IsSpace(r[|r| - 1])
    ensures r == [] <==> forall k :: 0 <= k < |s| ==> IsSpace(s[k])
    ensures r != [] ==> !IsSpace(r[0])
    ensures StrippedAt(s, r, i)
  {
    assert forall k :: i <= k < |s| ==> s[k] == left[k - i];
  }

  /** Stripping a string that starts and ends with a non-space character changes nothing. */
  lemma StripUnchanged(s: string)
    requires s != [] && !IsSpace(s[0]) && !IsSpace(s[|s| - 1])
    ensures Strip(s) == s
  {
    assert TrimLeft(s) == s;
    assert TrimRight(s) == s;
  }

  /** A leading space is stripped away with the rest of the leading whitespace. */
  lemma StripLeadingSpace(s: string)
    ensures Strip([' '] + s) == Strip(s)
  {
    assert ([' '] + s)[1..] == s;
  }

  /** Stripping introduces no character. */
  lemma StripKeepsOut(s: string, c: char)
    requires c !in s
    ensures c !in Strip(s)
  {
    var i :| StrippedAt(s, Strip(s), i);
  }

  /** Python's `not s.strip()`. */
  predicate IsBlank(s: string)
  {
    Strip(s) == []
  }

  /** `k` occurs in `s` at position `i`. */
  predicate OccursAt(s: string, k: string, i: int)
  {
    0 <= i && i + |k| <= |s| && s[i..i + |k|] == k
  }

  /** Python's `k in s` for strings. */
  predicate Contains(s: string, k: string)
  {
    |k| <= |s| && (s[..|k|] == k || Contains(s[1..], k))
  }

  /** `k in s` holds exactly when `k` occurs at some position of `s`. */
  lemma {:induction false} ContainsAt(s: string, k: string)
    ensures Contains(s, k) <==> exists i :: OccursAt(s, k, i)
  {
    if |k| <= |s| {
      if s[..|k|] == k {
        assert OccursAt(s, k, 0);
      } else {
        ContainsAt(s[1..], k);
        if i :| OccursAt(s, k, i) {
          assert i != 0;
          assert s[1..][i - 1..i - 1 + |k|] == s[i..i + |k|];
          assert OccursAt(s[1..], k, i - 1);
        }
        if i :| OccursAt(s[1..], k, i) {
          assert s[1..][i..i + |k|] == s[i + 1..i + 1 + |k|];
          assert OccursAt(s, k, i + 1);
        }
      }
    }
  }

  /** A string contains each of its middle pieces. */
  lemma ContainsMiddle(a: string, k: string, b: string)
    ensures Contains(a + k + b, k)
  {
    assert OccursAt(a + k + b, k, |a|);
    ContainsAt(a + k + b, k);
  }

  /** A substring of a substring is a substring. */
  lemma ContainsTransitive(s: string, t: string, k: string)
    requires Contains(s, t) && Contains(t, k)
    ensures Contains(s, k)
  {
    ContainsAt(s, t);
    ContainsAt(t, k);
    ContainsAt(s, k);
    var i :| OccursAt(s, t, i);
    var j :| OccursAt(t, k, j);
    assert forall m :: 0 <= m < |k| ==> s[i + j + m] == t[j + m] == k[m];
    assert OccursAt(s, k, i + j);
  }

  /** A string holding a word with a non-space character is not blank. */
  lemma ContainsNotBlank(s: string, k: string, j: nat)
    requires Contains(s, k) && j < |k| && !IsSpace(k[j])
    ensures !IsBlank(s)
  {
    ContainsAt(s, k);
    var i :| OccursAt(s, k, i);
    assert s[i + j] == k[j];
  }

  /** The first position at which `k` occurs in `s` (Python's `s.find(k)`, None for -1). */
  function IndexOf(s: string, k: string): (r: Option<nat>)
    ensures r.Some? <==> Contains(s, k)
    ensures r.Some? ==> OccursAt(s, k, r.value)
    ensures r.Some? ==> forall j :: 0 <= j < r.value ==> !OccursAt(s, k, j)
  {
    if |k| > |s| then None
    else if s[..|k|] == k then Some(0)
    else
      match IndexOf(s[1..], k)
      case None => None
      case Some(i) =>
        assert forall j :: 1 <= j <= i ==> OccursAt(s, k, j) == OccursAt(s[1..], k, j - 1) by {
          forall j | 1 <= j <= i ensures OccursAt(s, k, j) == OccursAt(s[1..], k, j - 1) {
            if j + |k| <= |s| {
              TailSlice(s, j, j + |k|);
            }
          }
        }
        TailSlice(s, i + 1, i + 1 + |k|);
        Some(i + 1)
  }

  /** Python's `s.split(c)[0]`: the text before the first `c`, or all of `s`. */
  function FirstSegment(s: string, c: char): (r: string)
    ensures |r| <= |s| && r == s[..|r|]
    ensures c !in r
    ensures |r| < |s| ==> s[|r|] == c
  {
    if s == [] || s[0] == c then [] else [s[0]] + FirstSegment(s[1..], c)
  }

  /** Python's `s.split(c)[-1]`: the text after the last `c`, or all of `s`. */
  function LastSegment(s: string, c: char): (r: string)
    ensures |r| <= |s| && r == s[|s| - |r|..]
    ensures c !in r
    ensures |r| < |s| ==> s[|s| - |r| - 1] == c
  {
    if s == [] || s[|s| - 1] == c then [] else LastSegment(s[..|s| - 1], c) + [s[|s| - 1]]
  }

  /** When the last `c` of `s` is followed only by whitespace, the text after it is blank. */
  lemma LastSegmentBlank(s: string, c: char, p: nat)
    requires p < |s| && s[p] == c && !IsSpace(c)
    requires forall k :: p < k < |s| ==> IsSpace(s[k])
    ensures IsBlank(LastSegment(s, c))
  {
    var r := LastSegment(s, c);
    assert forall k :: 0 <= k < |r| ==> r[k] == s[|s| - |r| + k];
  }

  /** Python's `s.split(c)`: the pieces between occurrences of `c`. */
  function SplitOn(s: string, c: char): (parts: seq<string>)
    ensures |parts| >= 1
    ensures forall k :: 0 <= k < |parts| ==> c !in parts[k]
    decreases |s|
  {
    var head := FirstSegment(s, c);
    if |head| == |s| then [s] else [head] + SplitOn(s[|head| + 1..], c)
  }

  /** Splitting undoes gluing with a separator that the first piece does not contain. */
  lemma SplitOnGlued(a: string, c: char, b: string)
    requires c !in a
    ensures SplitOn(a + [c] + b, c) == [a] + SplitOn(b, c)
  {
    var s := a + [c] + b;
    FirstSegmentGlued(a, c, b);
    assert s[|a| + 1..] == b;
  }

  lemma {:induction false} FirstSegmentGlued(a: string, c: char, b: string)
    requires c !in a
    ensures FirstSegment(a + [c] + b, c) == a
  {
    if a != [] {
      assert (a + [c] + b)[1..] == a[1..] + [c] + b;
      FirstSegmentGlued(a[1..], c, b);
    }
  }

  /** A string without the separator is a single piece. */
  lemma SplitOnWhole(s: string, c: char)
    requires c !in s
    ensures SplitOn(s, c) == [s]
  {
    var head := FirstSegment(s, c);
    assert |head| == |s|;
  }

  /** Python's `sep.join(xs)`. */
  function Join(xs: seq<string>, sep: string): string
  {
    if xs == [] then "" else if |xs| == 1 then xs[0] else xs[0] + sep + Join(xs[1..], sep)
  }
}
