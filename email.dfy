/** A scanner for the pattern `[\w.-]+@[\w.-]+\.\w+` with the semantics of Python's `re.search`:
 *  the leftmost start position at which a match exists, and at that position the match the
 *  backtracking engine finds first (greedy runs; the domain run gives back characters until a
 *  `.` followed by a word character is found, the last such `.` in the run). That first match
 *  is the longest address starting at that position, which is how the contracts below state it.
 *  `\w` is taken on ASCII: letters, digits and `_`. */
module Email {

  import opened Basics
  import opened Strings

  predicate IsWordChar(c: char)
  {
    'a' <= c <= 'z' || 'A' <= c <= 'Z' || '0' <= c <= '9' || c == '_'
  }

  /** The character class `[\w.-]`. */
  predicate IsAddressChar(c: char)
  {
    IsWordChar(c) || c == '.' || c == '-'
  }

  predicate AllIn(t: string, inClass: char -> bool)
  {
    forall k :: 0 <= k < |t| ==> inClass(t[k])
  }

  /** `e` is a word of the pattern's language: a non-empty local part, `@`, a non-empty
      domain part, `.` and a non-empty word. */
  predicate SplitsAsAddress(e: string, at: int, dot: int)
  {
    0 < at && at + 1 < dot && dot + 1 < |e| && e[at] == '@' && e[dot] == '.'
    && AllIn(e[..at], IsAddressChar) && AllIn(e[at + 1..dot], IsAddressChar)
    && AllIn(e[dot + 1..], IsWordChar)
  }

  ghost predicate IsAddress(e: string)
  {
    exists at, dot :: SplitsAsAddress(e, at, dot)
  }

  /** The end of the longest run of class characters starting at `i`. */
  function RunEnd(s: string, i: nat, inClass: char -> bool): (e: nat)
    requires i <= |s|
    ensures i <= e <= |s|
    ensures forall k :: i <= k < e ==> inClass(s[k])
    ensures e < |s| ==> !inClass(s[e])
    decreases |s| - i
  {
    if i < |s| && inClass(s[i]) then RunEnd(s, i + 1, inClass) else i
  }

  /** Position `p` holds the `.` of `\.\w`. */
  predicate DotBeforeWord(s: string, p: int)
  {
    0 <= p && p + 1 < |s| && s[p] == '.' && IsWordChar(s[p + 1])
  }

  /** The last `.` followed by a word character in `[lo, hi)`. */
  function LastDot(s: string, lo: nat, hi: nat): (r: Option<nat>)
    requires hi <= |s|
    ensures r.Some? ==> lo <= r.value < hi && DotBeforeWord(s, r.value)
    ensures r.Some? ==> forall p :: r.value < p < hi ==> !DotBeforeWord(s, p)
    ensures r.None? ==> forall p :: lo <= p < hi ==> !DotBeforeWord(s, p)
    decreases hi
  {
    if hi <= lo then None
    else if DotBeforeWord(s, hi - 1) then Some(hi - 1)
    else LastDot(s, lo, hi - 1)
  }

  /** No address of the pattern starts at a position in `[lo, hi)`. */
  ghost predicate NoAddressStartsIn(s: string, lo: int, hi: int)
  {
    forall k, e :: 0 <= lo <= k < hi && k < e <= |s| ==> !IsAddress(s[k..e])
  }

  /** No address of the pattern starting at `i` ends after `e`. */
  ghost predicate NoLongerAddress(s: string, i: int, e: int)
  {
    forall e' :: e < e' <= |s| && 0 <= i < e' ==> !IsAddress(s[i..e'])
  }

  /** The match that starts at `i`, if any: its end. It is the longest address starting at `i`,
      and there is none when no address starts at `i`. */
  function MatchAt(s: string, i: nat): (r: Option<nat>)
    requires i <= |s|
    ensures r.Some? ==> i < r.value <= |s| && IsAddress(s[i..r.value])
    ensures r.Some? ==> NoLongerAddress(s, i, r.value)
    ensures r.None? ==> NoAddressStartsIn(s, i, i + 1)
  {
    var at := RunEnd(s, i, IsAddressChar);
    if at == i || at == |s| || s[at] != '@' then
      NoAddressWhenScanFails(s, i);
      None
    else
      var domainEnd := RunEnd(s, at + 1, IsAddressChar);
      match LastDot(s, at + 2, domainEnd)
      case None =>
        NoAddressWhenScanFails(s, i);
        None
      case Some(dot) =>
        ScanSucceeds(s, i, at, dot);
        Some(RunEnd(s, dot + 1, IsWordChar))
  }

  /** When the scan from `i` succeeds, it spans an address, and no longer one starts at `i`. */
  lemma ScanSucceeds(s: string, i: nat, at: nat, dot: nat)
    requires i < at < |s| && at == RunEnd(s, i, IsAddressChar) && s[at] == '@'
    requires LastDot(s, at + 2, RunEnd(s, at + 1, IsAddressChar)) == Some(dot)
    ensures i < RunEnd(s, dot + 1, IsWordChar)
    ensures IsAddress(s[i..RunEnd(s, dot + 1, IsWordChar)])
    ensures NoLongerAddress(s, i, RunEnd(s, dot + 1, IsWordChar))
  {
    var e := RunEnd(s, dot + 1, IsWordChar);
    assert IsWordChar(s[dot + 1]);
    MatchIsAddress(s, i, at, dot, e);
    NoAddressBeyondScan(s, i, at, dot);
  }

  lemma MatchIsAddress(s: string, i: nat, at: nat, dot: nat, e: nat)
    requires i < at < dot < e <= |s| && at + 1 < dot && dot + 1 < e
    requires s[at] == '@' && s[dot] == '.'
    requires forall k :: i <= k < at ==> IsAddressChar(s[k])
    requires forall k :: at < k < dot ==> IsAddressChar(s[k])
    requires forall k :: dot < k < e ==> IsWordChar(s[k])
    ensures IsAddress(s[i..e])
  {
    var m := s[i..e];
    var a, d := at - i, dot - i;
    assert forall k :: 0 <= k < |m| ==> m[k] == s[i + k];
    assert AllIn(m[..a], IsAddressChar);
    var domain, top := m[a + 1..d], m[d + 1..];
    assert AllIn(domain, IsAddressChar) by {
      forall k | 0 <= k < |domain| ensures IsAddressChar(domain[k]) {
        assert domain[k] == s[at + 1 + k];
      }
    }
    assert AllIn(top, IsWordChar) by {
      forall k | 0 <= k < |top| ensures IsWordChar(top[k]) {
        assert top[k] == s[dot + 1 + k];
      }
    }
    assert SplitsAsAddress(m, a, d);
  }

  /** The positions of the `@` and the `.` of an address `s[i..e]`, read back in `s`. */
  lemma AddressParts(s: string, i: nat, e: nat) returns (at: nat, dot: nat)
    requires i < e <= |s| && IsAddress(s[i..e])
    ensures i < at && at + 1 < dot && dot + 1 < e && s[at] == '@' && s[dot] == '.'
    ensures forall k :: i <= k < at ==> IsAddressChar(s[k])
    ensures forall k :: at < k < dot ==> IsAddressChar(s[k])
    ensures forall k :: dot < k < e ==> IsWordChar(s[k])
  {
    var m := s[i..e];
    var a, d :| SplitsAsAddress(m, a, d);
    at, dot := i + a, i + d;
    assert m[a] == s[at] && m[d] == s[dot];
    forall k | i <= k < at ensures IsAddressChar(s[k]) {
      assert m[..a][k - i] == m[k - i] == s[k];
    }
    forall k | at < k < dot ensures IsAddressChar(s[k]) {
      assert m[a + 1..d][k - at - 1] == m[k - i] == s[k];
    }
    forall k | dot < k < e ensures IsWordChar(s[k]) {
      assert m[d + 1..][k - dot - 1] == m[k - i] == s[k];
    }
  }

  /** A run stops at the first character outside the class. */
  lemma RunEndAt(s: string, i: nat, p: nat, inClass: char -> bool)
    requires i <= p < |s| && !inClass(s[p])
    requires forall k :: i <= k < p ==> inClass(s[k])
    ensures RunEnd(s, i, inClass) == p
  {
  }

  /** Any address `s[i..e]` is seen by the scan from `i`: the local run stops at its `@`, the
      domain run reaches past its `.`, so a last `.` before a word character exists, and the
      word run from that `.` reaches at least to `e`. */
  lemma AddressScanned(s: string, i: nat, e: nat)
    requires i < e <= |s| && IsAddress(s[i..e])
    ensures var at := RunEnd(s, i, IsAddressChar);
      at != i && at < |s| && s[at] == '@'
      && var dot := LastDot(s, at + 2, RunEnd(s, at + 1, IsAddressChar));
      dot.Some? && e <= RunEnd(s, dot.value + 1, IsWordChar)
  {
    var at, dot := AddressParts(s, i, e);
    RunEndAt(s, i, at, IsAddressChar);
    var domainEnd := RunEnd(s, at + 1, IsAddressChar);
    assert dot < domainEnd;
    assert DotBeforeWord(s, dot);
    var last := LastDot(s, at + 2, domainEnd);
    assert last.Some?;
    var wordEnd := RunEnd(s, last.value + 1, IsWordChar);
    if last.value > dot {
      // the word run of the address stops before the later `.`
      assert !IsWordChar(s[last.value]);
      assert e <= last.value;
    } else {
      assert last.value == dot;
    }
  }

  /** When the scan from `i` fails, no address starts at `i`. */
  lemma NoAddressWhenScanFails(s: string, i: nat)
    requires i <= |s|
    requires var at := RunEnd(s, i, IsAddressChar);
      at == i || at == |s| || s[at] != '@'
      || LastDot(s, at + 2, RunEnd(s, at + 1, IsAddressChar)).None?
    ensures NoAddressStartsIn(s, i, i + 1)
  {
    forall k, e | 0 <= i <= k < i + 1 && k < e <= |s| ensures !IsAddress(s[k..e]) {
      if IsAddress(s[k..e]) {
        AddressScanned(s, k, e);
      }
    }
  }

  /** When the scan from `i` succeeds, no address starting at `i` ends after the word run. */
  lemma NoAddressBeyondScan(s: string, i: nat, at: nat, dot: nat)
    requires i <= at < |s| && at == RunEnd(s, i, IsAddressChar)
    requires LastDot(s, at + 2, RunEnd(s, at + 1, IsAddressChar)) == Some(dot)
    ensures NoLongerAddress(s, i, RunEnd(s, dot + 1, IsWordChar))
  {
    forall e' | i < e' <= |s| && IsAddress(s[i..e'])
      ensures e' <= RunEnd(s, dot + 1, IsWordChar)
    {
      AddressEndBound(s, i, e', at, dot);
    }
  }

  lemma AddressEndBound(s: string, i: nat, e: nat, at: nat, dot: nat)
    requires i < e <= |s| && IsAddress(s[i..e])
    requires i <= at < |s| && at == RunEnd(s, i, IsAddressChar)
    requires LastDot(s, at + 2, RunEnd(s, at + 1, IsAddressChar)) == Some(dot)
    ensures e <= RunEnd(s, dot + 1, IsWordChar)
  {
    AddressScanned(s, i, e);
  }

  /** `m` is the longest address starting at `j`, and no address starts in `[lo, j)`. */
  ghost predicate FirstLongestAt(s: string, lo: int, m: string, j: int)
  {
    OccursAt(s, m, j) && IsAddress(m) && NoAddressStartsIn(s, lo, j) && NoLongerAddress(s, j, j + |m|)
  }

  /** `m` is the longest address at the leftmost position at or after `lo` where one starts. */
  ghost predicate FoundFrom(s: string, lo: int, m: string)
  {
    exists j :: lo <= j && FirstLongestAt(s, lo, m, j)
  }

  /** The match at the leftmost position at or after `i` where an address starts: the longest
      address starting there. None exactly when no address starts at or after `i`. */
  function SearchFrom(s: string, i: nat): (r: Option<string>)
    requires i <= |s|
    ensures r.Some? ==> Contains(s, r.value) && IsAddress(r.value)
    ensures r.Some? ==> FoundFrom(s, i, r.value)
    ensures r.None? ==> NoAddressStartsIn(s, i, |s|)
    decreases |s| - i
  {
    if i == |s| then None
    else
      match MatchAt(s, i)
      case Some(e) =>
        assert OccursAt(s, s[i..e], i);
        assert FirstLongestAt(s, i, s[i..e], i);
        assert FoundFrom(s, i, s[i..e]);
        ContainsAt(s, s[i..e]);
        Some(s[i..e])
      case None =>
        var r := SearchFrom(s, i + 1);
        SearchStep(s, i, r);
        r
  }

  /** A position where no address starts can be added in front of the searched range. */
  lemma SearchStep(s: string, i: nat, r: Option<string>)
    requires i < |s| && NoAddressStartsIn(s, i, i + 1)
    requires r.Some? ==> FoundFrom(s, i + 1, r.value)
    requires r.None? ==> NoAddressStartsIn(s, i + 1, |s|)
    ensures r.Some? ==> FoundFrom(s, i, r.value)
    ensures r.None? ==> NoAddressStartsIn(s, i, |s|)
  {
    if r.Some? {
      var j :| i + 1 <= j && FirstLongestAt(s, i + 1, r.value, j);
      assert FirstLongestAt(s, i, r.value, j);
      assert FoundFrom(s, i, r.value);
    }
  }

  /** `re.search(r'[\w\.-]+@[\w\.-]+\.\w+', s)`, giving the matched text: the longest address
      starting at the leftmost position where one starts, and None when the text holds none. */
  function FindEmail(s: string): (r: Option<string>)
    ensures r.Some? ==> Contains(s, r.value) && IsAddress(r.value)
    ensures r.Some? ==> FoundFrom(s, 0, r.value)
    ensures r.None? ==> NoAddressStartsIn(s, 0, |s|)
    ensures '@' !in s ==> r.None?
  {
    NoAtNoMatch(s, 0);
    SearchFrom(s, 0)
  }

  lemma {:induction false} NoAtNoMatch(s: string, i: nat)
    requires i <= |s|
    ensures '@' !in s ==> SearchFrom(s, i).None?
    decreases |s| - i
  {
    if '@' !in s && i < |s| {
      NoAtNoMatch(s, i + 1);
    }
  }
}
