/**
 * The title sanitiser `sanitize_filename` of app.py: keep only alphanumeric
 * characters, space, '.', '_' and '-', then strip the ends.
 */
module Sanitize {

  /** Letters and digits; only the ASCII ones are covered by this model. */
  predicate IsAlnum(c: char)
    ensures '0' <= c <= '9' || 'a' <= c <= 'z' || 'A' <= c <= 'Z' ==> IsAlnum(c)
    ensures c == ' ' || c == '.' || c == '_' || c == '-' || c == '/' || c == '\\' ==> !IsAlnum(c)
  {
    ('a' <= c <= 'z') || ('A' <= c <= 'Z') || ('0' <= c <= '9')
  }

  /** A character that survives the sanitiser's filter. */
  predicate IsKept(c: char)
    ensures IsAlnum(c) || c == ' ' ==> IsKept(c)
    ensures c == '/' || c == '\\' || c == ':' || c == '\n' ==> !IsKept(c)
  {
    IsAlnum(c) || c == ' ' || c == '.' || c == '_' || c == '-'
  }

  /** Every character of `s` is a space. */
  predicate AllSpaces(s: string) {
    forall k :: 0 <= k < |s| ==> s[k] == ' '
  }

  /** `r` is the slice of `s` that starts at `i`, and only spaces lie outside it. */
  predicate IsTrimmedAt(r: string, s: string, i: nat) {
    i + |r| <= |s| && s[i..i + |r|] == r && AllSpaces(s[..i]) && AllSpaces(s[i + |r|..])
  }

  /** `r` is a contiguous slice of `s` with only spaces cut from either end. */
  ghost predicate IsTrimmedSlice(r: string, s: string) {
    exists i: nat :: IsTrimmedAt(r, s, i)
  }

  /** `a` can be obtained from `b` by deleting characters. */
  predicate IsSubsequence(a: string, b: string)
    decreases |b|
  {
    if b == [] then a == []
    else IsSubsequence(a, b[1..]) || (a != [] && a[0] == b[0] && IsSubsequence(a[1..], b[1..]))
  }

  /** The generator-and-join part of the sanitiser: drop every character that is not kept. */
  function KeepAllowed(s: string): (r: string)
    ensures |r| <= |s|
    ensures forall i :: 0 <= i < |r| ==> IsKept(r[i])
  {
    if s == [] then []
    else (if IsKept(s[0]) then [s[0]] else []) + KeepAllowed(s[1..])
  }

  /** Each kept character occurs in the filtered string as often as in the input; no other character occurs. */
  lemma {:induction false} KeepAllowedCounts(s: string, c: char)
    ensures multiset(KeepAllowed(s))[c] == if IsKept(c) then multiset(s)[c] else 0
    decreases |s|
  {
    if s != [] {
      KeepAllowedCounts(s[1..], c);
      assert s == [s[0]] + s[1..];
    }
  }

  /** Number of spaces at the start of `s`. */
  function LeadingSpaces(s: string): (n: nat)
    ensures n <= |s|
    ensures AllSpaces(s[..n])
    ensures n < |s| ==> s[n] != ' '
  {
    if s != [] && s[0] == ' ' then 1 + LeadingSpaces(s[1..]) else 0
  }

  /** Number of spaces at the end of `s`. */
  function TrailingSpaces(s: string): (n: nat)
    ensures n <= |s|
    ensures AllSpaces(s[|s| - n..])
    ensures forall k :: |s| - n <= k < |s| ==> s[k] == ' '
    ensures n < |s| ==> s[|s| - n - 1] != ' '
  {
    if s != [] && s[|s| - 1] == ' ' then 1 + TrailingSpaces(s[..|s| - 1]) else 0
  }

  /**
   * Python's `str.strip()` applied to a string whose only whitespace
   * character is the space, which is all the filter lets through.
   */
  function Strip(s: string): (r: string)
    ensures |r| <= |s|
    ensures r == [] || (r[0] != ' ' && r[|r| - 1] != ' ')
    ensures IsTrimmedSlice(r, s)
  {
    var lead := LeadingSpaces(s);
    if lead == |s| then
      TrimmedSliceBetweenSpaces(s, lead, 0);
      []
    else
      var trail := TrailingSpaces(s);
      assert s[lead] != ' ';
      TrimmedSliceBetweenSpaces(s, lead, trail);
      s[lead..|s| - trail]
  }

  /** Cutting a run of spaces from each end of `s` leaves a trimmed slice. */
  lemma TrimmedSliceBetweenSpaces(s: string, lead: nat, trail: nat)
    requires lead + trail <= |s|
    requires AllSpaces(s[..lead]) && AllSpaces(s[|s| - trail..])
    ensures IsTrimmedSlice(s[lead..|s| - trail], s)
  {
    var r := s[lead..|s| - trail];
    assert s[lead..lead + |r|] == r;
    assert s[lead + |r|..] == s[|s| - trail..];
    assert IsTrimmedAt(r, s, lead);
  }

  /** Stripping keeps the count of every character other than the space. */
  lemma StripCounts(s: string, c: char)
    requires c != ' '
    ensures multiset(Strip(s))[c] == multiset(s)[c]
  {
    var r := Strip(s);
    var i := StripStart(s);
    var pre, post := s[..i], s[i + |r|..];
    assert s == pre + r + post;
    SpacesHaveNoOther(pre, c);
    SpacesHaveNoOther(post, c);
  }

  /** A string of spaces holds no other character. */
  lemma SpacesHaveNoOther(s: string, c: char)
    requires AllSpaces(s) && c != ' '
    ensures multiset(s)[c] == 0
  {
    assert forall k :: 0 <= k < |s| ==> s[k] != c;
    assert c !in s;
  }

  /** `sanitize_filename(name)`. */
  function SanitizeFilename(name: string): (r: string)
    ensures |r| <= |name|
    ensures forall i :: 0 <= i < |r| ==> IsKept(r[i])
    ensures r == [] || (r[0] != ' ' && r[|r| - 1] != ' ')
    ensures IsTrimmedSlice(r, KeepAllowed(name))
  {
    Strip(KeepAllowed(name))
  }

  /**
   * Sanitising drops exactly the characters outside the kept set: every kept
   * character other than the space occurs as often as in the input.
   */
  lemma SanitizeCounts(name: string, c: char)
    requires c != ' '
    ensures multiset(SanitizeFilename(name))[c] == if IsKept(c) then multiset(name)[c] else 0
  {
    KeepAllowedCounts(name, c);
    StripCounts(KeepAllowed(name), c);
  }

  /** The empty string is a subsequence of every string. */
  lemma {:induction false} EmptyIsSubsequence(b: string)
    ensures IsSubsequence([], b)
    decreases |b|
  {
    if b != [] {
      EmptyIsSubsequence(b[1..]);
    }
  }

  /** Every contiguous slice of `t` is a subsequence of `t`. */
  lemma {:induction false} SliceIsSubsequence(t: string, i: nat, j: nat)
    requires i <= j <= |t|
    ensures IsSubsequence(t[i..j], t)
    decreases |t|
  {
    if t == [] {
    } else if i > 0 {
      var u := t[1..];
      assert |t[i..j]| == |u[i - 1..j - 1]|;
      assert forall k :: 0 <= k < j - i ==> t[i..j][k] == u[i - 1..j - 1][k];
      assert t[i..j] == u[i - 1..j - 1];
      SliceIsSubsequence(t[1..], i - 1, j - 1);
    } else if j > 0 {
      var u := t[1..];
      assert t[i..j][0] == t[0];
      assert forall k :: 0 <= k < j - 1 ==> t[i..j][1..][k] == u[0..j - 1][k];
      assert t[i..j][1..] == u[0..j - 1];
      SliceIsSubsequence(t[1..], 0, j - 1);
    } else {
      EmptyIsSubsequence(t);
    }
  }

  /** Being a subsequence is transitive. */
  lemma {:induction false} SubsequenceTransitive(a: string, b: string, c: string)
    requires IsSubsequence(a, b) && IsSubsequence(b, c)
    ensures IsSubsequence(a, c)
    decreases |c|
  {
    if c == [] {
    } else if IsSubsequence(b, c[1..]) {
      SubsequenceTransitive(a, b, c[1..]);
    } else if b == [] {
      EmptyIsSubsequence(c);
    } else if IsSubsequence(a, b[1..]) {
      SubsequenceTransitive(a, b[1..], c[1..]);
    } else {
      SubsequenceTransitive(a[1..], b[1..], c[1..]);
    }
  }

  /** The filter keeps the surviving characters in their original order. */
  lemma {:induction false} KeepAllowedIsSubsequence(s: string)
    ensures IsSubsequence(KeepAllowed(s), s)
    decreases |s|
  {
    if s != [] {
      KeepAllowedIsSubsequence(s[1..]);
      var rest := KeepAllowed(s[1..]);
      if IsKept(s[0]) {
        assert KeepAllowed(s) == [s[0]] + rest;
        assert KeepAllowed(s)[1..] == rest;
        assert IsSubsequence(rest, s[1..]);
      } else {
        assert KeepAllowed(s) == rest;
        assert IsSubsequence(rest, s[1..]);
      }
    }
  }

  /** The sanitised name is obtained from the input by deleting characters only. */
  lemma SanitizeIsSubsequence(name: string)
    ensures IsSubsequence(SanitizeFilename(name), name)
  {
    var f := KeepAllowed(name);
    var i := StripStart(f);
    SliceIsSubsequence(f, i, i + |Strip(f)|);
    KeepAllowedIsSubsequence(name);
    SubsequenceTransitive(Strip(f), f, name);
  }

  /** Where the stripped string starts in its input. */
  lemma StripStart(s: string) returns (i: nat)
    ensures i + |Strip(s)| <= |s| && s[i..i + |Strip(s)|] == Strip(s)
    ensures AllSpaces(s[..i]) && AllSpaces(s[i + |Strip(s)|..])
  {
    var r := Strip(s);
    assert IsTrimmedSlice(r, s);
    i :| IsTrimmedAt(r, s, i);
  }

  /** The filter leaves a string of kept characters unchanged. */
  lemma {:induction false} KeepAllowedFixesKept(s: string)
    requires forall i :: 0 <= i < |s| ==> IsKept(s[i])
    ensures KeepAllowed(s) == s
    decreases |s|
  {
    if s != [] {
      KeepAllowedFixesKept(s[1..]);
      assert s == [s[0]] + s[1..];
    }
  }

  /** Stripping a string that neither starts nor ends with a space changes nothing. */
  lemma StripFixesTrimmed(s: string)
    requires s == [] || (s[0] != ' ' && s[|s| - 1] != ' ')
    ensures Strip(s) == s
  {
    if s != [] {
      assert LeadingSpaces(s) == 0;
      assert TrailingSpaces(s) == 0;
      assert s[0..|s|] == s;
    }
  }

  /** Sanitising an already sanitised name changes nothing. */
  lemma SanitizeIdempotent(name: string)
    ensures SanitizeFilename(SanitizeFilename(name)) == SanitizeFilename(name)
  {
    var r := SanitizeFilename(name);
    KeepAllowedFixesKept(r);
    StripFixesTrimmed(r);
  }
}
