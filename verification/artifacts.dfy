/**
 * The temporary files of `stream_download_generator` (app.py): the
 * downloader picks the extension of its output, so the streamer looks for
 * `<temp_path>.<ext>` over a fixed list of extensions, and the cleanup in
 * the `finally` block removes every one of them that exists. The file
 * system is a set of existing paths.
 */
module Artifacts {
  import opened Wrappers

  /** The candidate extensions, in the order both loops try them. */
  const Extensions: seq<string> := ["mp4", "mkv", "webm", "flv"]

  /** `f"{temp_path}.{ext}"` for the `i`-th extension. */
  function Candidate(tempPath: string, i: nat): (r: string)
    requires i < |Extensions|
    ensures tempPath <= r
    ensures |r| == |tempPath| + 1 + |Extensions[i]|
    ensures r[|tempPath|] == '.' && r[|tempPath| + 1..] == Extensions[i]
  {
    tempPath + "." + Extensions[i]
  }

  /** The candidate paths of the first `n` extensions. */
  function CandidatesBefore(tempPath: string, n: nat): (r: set<string>)
    requires n <= |Extensions|
    ensures forall i :: 0 <= i < n ==> Candidate(tempPath, i) in r
  {
    set i | 0 <= i < n :: Candidate(tempPath, i)
  }

  /** Distinct extensions give distinct paths for the same temporary path. */
  lemma CandidatesDistinct(tempPath: string, i: nat, j: nat)
    requires i < |Extensions| && j < |Extensions| && i != j
    ensures Candidate(tempPath, i) != Candidate(tempPath, j)
  {
    var n := |tempPath|;
    var a := Candidate(tempPath, i);
    var b := Candidate(tempPath, j);
    if |a| == |b| {
      assert a[n + 1..] == Extensions[i];
      assert b[n + 1..] == Extensions[j];
    }
  }

  /** The index of the first extension from `from` on whose candidate is in `paths`. */
  function FirstCandidate(tempPath: string, paths: set<string>, from: nat): (r: Option<nat>)
    requires from <= |Extensions|
    ensures r.Some? ==> from <= r.value < |Extensions| && Candidate(tempPath, r.value) in paths
    ensures r.Some? ==> forall j :: from <= j < r.value ==> Candidate(tempPath, j) !in paths
    ensures r.None? <==> forall j :: from <= j < |Extensions| ==> Candidate(tempPath, j) !in paths
    decreases |Extensions| - from
  {
    if from == |Extensions| then None
    else if Candidate(tempPath, from) in paths then Some(from)
    else FirstCandidate(tempPath, paths, from + 1)
  }

  /** The discovery scan of lines 135-142, taken once against `existing`. */
  function Discover(tempPath: string, existing: set<string>): (r: Option<string>)
    ensures r.Some? ==> r.value in existing
    ensures r.Some? ==> (exists i :: 0 <= i < |Extensions| && r.value == Candidate(tempPath, i)
                                    && forall j :: 0 <= j < i ==> Candidate(tempPath, j) !in existing)
    ensures r.None? <==> forall i :: 0 <= i < |Extensions| ==> Candidate(tempPath, i) !in existing
  {
    match FirstCandidate(tempPath, existing, 0)
    case Some(i) => Some(Candidate(tempPath, i))
    case None => None
  }

  /** How the cleanup loop ended: every removal done, or aborted by the removal of `path` raising. */
  datatype CleanupOutcome = Clean | Aborted(path: string)

  /**
   * The cleanup loop of lines 184-190. Removing a path in `failing` raises;
   * the `try` around the whole loop catches it, logs it, and skips the rest.
   */
  method Cleanup(tempPath: string, existing: set<string>, failing: set<string>)
    returns (remaining: set<string>, outcome: CleanupOutcome)
    ensures remaining <= existing
    ensures match FirstCandidate(tempPath, existing * failing, 0)
      case None => outcome == Clean && remaining == existing - CandidatesBefore(tempPath, |Extensions|)
      case Some(i) => outcome == Aborted(Candidate(tempPath, i)) && remaining == existing - CandidatesBefore(tempPath, i)
    ensures outcome.Clean? ==> Discover(tempPath, remaining).None?
    ensures outcome.Clean? && Discover(tempPath, existing).Some? ==> Discover(tempPath, existing).value !in remaining
  {
    remaining := existing;
    outcome := Clean;
    var i := 0;
    while i < |Extensions| && outcome.Clean?
      invariant 0 <= i <= |Extensions|
      invariant outcome.Clean? ==> remaining == existing - CandidatesBefore(tempPath, i)
      invariant outcome.Clean? ==> FirstCandidate(tempPath, existing * failing, 0) == FirstCandidate(tempPath, existing * failing, i)
      invariant outcome.Aborted? ==> (0 < i && FirstCandidate(tempPath, existing * failing, 0) == Some(i - 1)
                                      && outcome == Aborted(Candidate(tempPath, i - 1))
                                      && remaining == existing - CandidatesBefore(tempPath, i - 1))
    {
      var path := Candidate(tempPath, i);
      forall j | 0 <= j < i
        ensures Candidate(tempPath, j) != path
      {
        CandidatesDistinct(tempPath, j, i);
      }
      assert CandidatesBefore(tempPath, i + 1) == CandidatesBefore(tempPath, i) + {path};
      if path in remaining {
        if path in failing {
          outcome := Aborted(path);
        } else {
          remaining := remaining - {path};
        }
      }
      i := i + 1;
    }
  }
}
