/**
 * The format selector handed to the downloader (app.py line 100): a video
 * format id is paired with the best audio stream, with `best` as a fallback,
 * unless the id already asks for `+bestaudio`.
 */
module Selector {

  /** The marker whose presence leaves a selector unchanged. */
  const BestAudio: string := "+bestaudio"

  /** What is appended to a format id that lacks the marker. */
  const AudioSuffix: string := "+bestaudio/best"

  /** `pat` occurs in `s` as a contiguous block: Python's `pat in s` on strings. */
  ghost predicate Occurs(pat: string, s: string) {
    exists i :: 0 <= i <= |s| && pat <= s[i..]
  }

  /** Executable substring test, scanning `s` from the left. */
  predicate HasSubstring(s: string, pat: string)
    ensures pat <= s ==> HasSubstring(s, pat)
    ensures HasSubstring(s, pat) ==> |pat| <= |s|
    decreases |s|
  {
    pat <= s || (s != [] && HasSubstring(s[1..], pat))
  }

  /** The scan agrees with the definition of occurrence, in both directions. */
  lemma {:induction false} HasSubstringIffOccurs(s: string, pat: string)
    ensures HasSubstring(s, pat) <==> Occurs(pat, s)
    decreases |s|
  {
    assert s[0..] == s;
    if s != [] {
      HasSubstringIffOccurs(s[1..], pat);
      if HasSubstring(s[1..], pat) {
        var i :| 0 <= i <= |s[1..]| && pat <= s[1..][i..];
        assert s[1..][i..] == s[i + 1..];
      }
      if Occurs(pat, s) && !(pat <= s) {
        var i :| 0 <= i <= |s| && pat <= s[i..];
        assert i != 0;
        assert s[1..][i - 1..] == s[i..];
      }
    }
  }

  /** `pat` occurs in `s + t` at position `|s|` when it is a prefix of `t`. */
  lemma OccursAfter(s: string, t: string, pat: string)
    requires pat <= t
    ensures Occurs(pat, s + t)
  {
    assert (s + t)[|s|..] == t;
  }

  /** The `format` option built from the requested format id. */
  function BuildSelector(formatId: string): (r: string)
    ensures Occurs(BestAudio, r)
    ensures formatId <= r
    ensures r == formatId <==> Occurs(BestAudio, formatId)
    ensures r != formatId ==> r[|formatId|..] == AudioSuffix
  {
    HasSubstringIffOccurs(formatId, BestAudio);
    if HasSubstring(formatId, BestAudio) then formatId
    else
      OccursAfter(formatId, AudioSuffix, BestAudio);
      assert (formatId + AudioSuffix)[..|formatId|] == formatId;
      formatId + AudioSuffix
  }

  /** Building the selector from a selector returns it unchanged. */
  lemma BuildSelectorIdempotent(formatId: string)
    ensures BuildSelector(BuildSelector(formatId)) == BuildSelector(formatId)
  {
    var r := BuildSelector(formatId);
    assert Occurs(BestAudio, r);
  }
}
