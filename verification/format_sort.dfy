/**
 * The sort of the `/api/video-info` response (app.py line 228): a stable
 * sort keyed on the numeric part of each record's resolution label, and the
 * whole filter-then-sort pipeline of lines 211-228.
 */
module FormatSort {
  import opened Wrappers
  import Decimal
  import opened Formats
  import StableSorting

  /** `s.endswith('p')`. */
  predicate EndsWithP(s: string)
    ensures EndsWithP(s) <==> |s| >= 1 && s[|s| - 1..] == "p"
  {
    |s| > 0 && s[|s| - 1] == 'p'
  }

  /** `s.replace('p', '')`: every 'p' removed, every other character kept in order. */
  function RemoveP(s: string): (r: string)
    ensures |r| <= |s|
    ensures forall i :: 0 <= i < |r| ==> r[i] != 'p'
    ensures (forall i :: 0 <= i < |s| ==> s[i] != 'p') ==> r == s
    ensures forall c :: c != 'p' ==> multiset(r)[c] == multiset(s)[c]
  {
    if s == [] then []
    else
      assert s == [s[0]] + s[1..];
      (if s[0] == 'p' then [] else [s[0]]) + RemoveP(s[1..])
  }

  /**
   * The sort key: the integer left after removing every 'p' from a label that
   * ends in 'p', and 0 for any other label. `None` is the `ValueError` that
   * `int` raises on text that is not a run of digits.
   */
  function SortKey(resolution: string): (r: Option<int>)
    ensures !EndsWithP(resolution) ==> r == Some(0)
    ensures EndsWithP(resolution) ==>
      (r.Some? <==> RemoveP(resolution) != [] && Decimal.AllDigits(RemoveP(resolution)))
    ensures r.Some? ==> r.value >= 0
  {
    if EndsWithP(resolution) then
      match Decimal.ParseNat(RemoveP(resolution))
      case Some(n) => Some(n)
      case None => None
    else Some(0)
  }

  /**
   * Removing the 'p's of a concatenation removes them from each part: the
   * characters other than 'p' keep their order.
   */
  lemma {:induction false} RemovePConcat(a: string, b: string)
    ensures RemoveP(a + b) == RemoveP(a) + RemoveP(b)
    decreases |a|
  {
    if a == [] {
      assert a + b == b;
    } else {
      assert (a + b)[0] == a[0];
      assert (a + b)[1..] == a[1..] + b;
      RemovePConcat(a[1..], b);
      var h := if a[0] == 'p' then [] else [a[0]];
      assert h + (RemoveP(a[1..]) + RemoveP(b)) == (h + RemoveP(a[1..])) + RemoveP(b);
    }
  }

  /** A single character is dropped when it is 'p' and kept otherwise. */
  lemma RemovePChar(c: char)
    ensures RemoveP([c]) == if c == 'p' then [] else [c]
  {
    assert [c][1..] == [];
  }

  /** The label `"<n>p"` is keyed on `n`. */
  lemma HeightLabelKey(n: nat)
    ensures SortKey(Decimal.NatToString(n) + "p") == Some(n)
  {
    var digits := Decimal.NatToString(n);
    assert digits + "p" == digits + ['p'];
    RemovePAppend(digits);
    Decimal.ParseNatToString(n);
  }

  /** Removing the 'p's of a digit string followed by one 'p' gives the digits back. */
  lemma {:induction false} RemovePAppend(digits: string)
    requires Decimal.AllDigits(digits)
    ensures RemoveP(digits + ['p']) == digits
    decreases |digits|
  {
    if digits == [] {
      assert [] + ['p'] == ['p'];
      assert ['p'][1..] == [];
    } else {
      assert (digits + ['p'])[1..] == digits[1..] + ['p'];
      assert Decimal.AllDigits(digits[1..]);
      RemovePAppend(digits[1..]);
      assert digits == [digits[0]] + digits[1..];
    }
  }

  /** The numeric heights of the allow-list, in its own order. */
  const AllowListHeights: seq<nat> := [360, 480, 720, 1080, 1440, 2160]

  /** Each allow-list label is keyed on its height, and the allow-list is in ascending key order. */
  lemma AllowListKeys(i: nat)
    requires i < |TargetResolutions|
    ensures SortKey(TargetResolutions[i]) == Some(AllowListHeights[i])
  {
    if i == 0 {
      assert Decimal.NatToString(3) == "3";
      assert Decimal.NatToString(36) == "36";
      assert Decimal.NatToString(360) == "360";
      assert TargetResolutions[0] == Decimal.NatToString(360) + "p";
      HeightLabelKey(360);
    } else if i == 1 {
      assert Decimal.NatToString(4) == "4";
      assert Decimal.NatToString(48) == "48";
      assert Decimal.NatToString(480) == "480";
      assert TargetResolutions[1] == Decimal.NatToString(480) + "p";
      HeightLabelKey(480);
    } else if i == 2 {
      assert Decimal.NatToString(7) == "7";
      assert Decimal.NatToString(72) == "72";
      assert Decimal.NatToString(720) == "720";
      assert TargetResolutions[2] == Decimal.NatToString(720) + "p";
      HeightLabelKey(720);
    } else if i == 3 {
      assert Decimal.NatToString(1) == "1";
      assert Decimal.NatToString(10) == "10";
      assert Decimal.NatToString(108) == "108";
      assert Decimal.NatToString(1080) == "1080";
      assert TargetResolutions[3] == Decimal.NatToString(1080) + "p";
      HeightLabelKey(1080);
    } else if i == 4 {
      assert Decimal.NatToString(1) == "1";
      assert Decimal.NatToString(14) == "14";
      assert Decimal.NatToString(144) == "144";
      assert Decimal.NatToString(1440) == "1440";
      assert TargetResolutions[4] == Decimal.NatToString(1440) + "p";
      HeightLabelKey(1440);
    } else {
      assert Decimal.NatToString(2) == "2";
      assert Decimal.NatToString(21) == "21";
      assert Decimal.NatToString(216) == "216";
      assert Decimal.NatToString(2160) == "2160";
      assert TargetResolutions[5] == Decimal.NatToString(2160) + "p";
      HeightLabelKey(2160);
    }
  }

  /**
   * The key a record is sorted on. A label whose key would raise is given 0,
   * which is never observed: the pipeline reports such a label as an error
   * before it sorts.
   */
  function Rank(o: OutFormat): (r: int)
    ensures r >= 0
    ensures o.resolution in TargetResolutions ==> SortKey(o.resolution) == Some(r)
  {
    if o.resolution in TargetResolutions then
      AllowListKeysDistinct(o.resolution, o.resolution);
      SortKey(o.resolution).value
    else SortKey(o.resolution).GetOr(0)
  }

  /** The records of `s` whose resolution label is `res`, in their order in `s`. */
  function WithResolution(s: seq<OutFormat>, res: string): (r: seq<OutFormat>)
    ensures forall o :: o in r ==> o in s && o.resolution == res
  {
    if s == [] then []
    else (if s[0].resolution == res then [s[0]] else []) + WithResolution(s[1..], res)
  }

  /** Two allow-list labels have the same key exactly when they are the same label. */
  lemma AllowListKeysDistinct(a: string, b: string)
    requires a in TargetResolutions && b in TargetResolutions
    ensures SortKey(a).Some? && SortKey(b).Some?
    ensures SortKey(a) == SortKey(b) <==> a == b
  {
    var i := AllowListIndex(a);
    var j := AllowListIndex(b);
    AllowListKeys(i);
    AllowListKeys(j);
    if i < j {
      HeightsAscending(i, j);
    } else if j < i {
      HeightsAscending(j, i);
    }
  }

  /** The position of an allow-list label in the list. */
  lemma AllowListIndex(a: string) returns (i: nat)
    requires a in TargetResolutions
    ensures i < |TargetResolutions| && TargetResolutions[i] == a
  {
    if a == TargetResolutions[0] {
      i := 0;
    } else if a == TargetResolutions[1] {
      i := 1;
    } else if a == TargetResolutions[2] {
      i := 2;
    } else if a == TargetResolutions[3] {
      i := 3;
    } else if a == TargetResolutions[4] {
      i := 4;
    } else {
      i := 5;
    }
  }

  /** The allow-list is in strictly ascending order of height. */
  lemma HeightsAscending(i: nat, j: nat)
    requires i < j < |AllowListHeights|
    ensures AllowListHeights[i] < AllowListHeights[j]
  {
  }

  /** Over allow-list labels, selecting by label is selecting by that label's key. */
  lemma {:induction false} WithResolutionIsWithKey(s: seq<OutFormat>, res: string)
    requires res in TargetResolutions
    requires forall o :: o in s ==> o.resolution in TargetResolutions
    ensures WithResolution(s, res) == StableSorting.WithKey(s, Rank, SortKey(res).GetOr(0))
    decreases |s|
  {
    if s != [] {
      assert s[0] in s;
      AllowListKeysDistinct(s[0].resolution, res);
      assert forall o :: o in s[1..] ==> o in s;
      WithResolutionIsWithKey(s[1..], res);
    }
  }

  /** Records with equal resolution labels keep their input order through the sort. */
  lemma SortStableByResolution(s: seq<OutFormat>)
    requires forall o :: o in s ==> o.resolution in TargetResolutions
    ensures forall res :: res in TargetResolutions ==> WithResolution(StableSorting.Sort(s, Rank), res) == WithResolution(s, res)
  {
    StableSorting.SortStable(s, Rank);
    var t := StableSorting.Sort(s, Rank);
    assert forall o :: o in t ==> o in multiset(s);
    forall res | res in TargetResolutions
      ensures WithResolution(t, res) == WithResolution(s, res)
    {
      WithResolutionIsWithKey(t, res);
      WithResolutionIsWithKey(s, res);
    }
  }

  /** Every allow-list label has a key, so the sort never raises on the filtered list. */
  lemma FilteredAllKeyed(out: seq<OutFormat>)
    requires forall o :: o in out ==> o.resolution in TargetResolutions
    ensures forall o :: o in out ==> SortKey(o.resolution).Some?
  {
    forall o | o in out
      ensures SortKey(o.resolution).Some?
    {
      AllowListKeysDistinct(o.resolution, o.resolution);
    }
  }

  /**
   * The `formats` list of the `/api/video-info` response (lines 211-228):
   * filter, then stable sort on the numeric part of the label.
   */
  function VideoInfoFormats(fs: seq<Format>): (r: Result<seq<OutFormat>, FormatError>)
    ensures r.Failure? <==> exists f :: f in fs && Kept(f) && f.formatId.None?
    ensures r.Failure? ==> r.error == MissingFormatId
    ensures r.Success? ==> FilterFormats(fs).Success?
    ensures r.Success? ==> multiset(r.value) == multiset(FilterFormats(fs).value)
    ensures r.Success? ==> StableSorting.Sorted(r.value, Rank)
    ensures r.Success? ==> forall o :: o in r.value ==> o.resolution in TargetResolutions
    ensures r.Success? ==> forall k :: StableSorting.WithKey(r.value, Rank, k) == StableSorting.WithKey(FilterFormats(fs).value, Rank, k)
    ensures r.Success? ==> forall res :: res in TargetResolutions ==>
      WithResolution(r.value, res) == WithResolution(FilterFormats(fs).value, res)
  {
    match FilterFormats(fs)
    case Failure(e) => Failure(e)
    case Success(out) =>
      FilteredAllKeyed(out);
      if exists o :: o in out && SortKey(o.resolution).None? then Failure(BadSortKey)
      else
        StableSorting.SortStable(out, Rank);
        SortStableByResolution(out);
        var sorted := StableSorting.Sort(out, Rank);
        assert forall o :: o in sorted ==> o in multiset(out);
        Success(sorted)
  }

  /**
   * Three records that carry only an integer height: none has a note, so
   * none matches a string of the allow-list and the list comes back empty.
   */
  lemma HeightOnlyScenario()
    ensures VideoInfoFormats([
      Format(Some(Some("136")), None, Some(720), Some("avc1"), Some("mp4"), None, None),
      Format(Some(Some("160")), None, Some(144), Some("avc1"), Some("mp4"), None, None),
      Format(Some(Some("140")), None, Some(720), Some("none"), Some("m4a"), None, None)]) == Success([])
  {
    var a := Format(Some(Some("136")), None, Some(720), Some("avc1"), Some("mp4"), None, None);
    var b := Format(Some(Some("160")), None, Some(144), Some("avc1"), Some("mp4"), None, None);
    var c := Format(Some(Some("140")), None, Some(720), Some("none"), Some("m4a"), None, None);
    HeightOnlyNeverKept(a);
    HeightOnlyNeverKept(b);
    HeightOnlyNeverKept(c);
    assert [a, b, c][0] == a && [a, b, c][1..] == [b, c];
    assert [b, c][0] == b && [b, c][1..] == [c];
    assert [c][0] == c && [c][1..] == [];
    assert FilterFormats([c]) == Success([]);
    assert FilterFormats([b, c]) == Success([]);
    assert FilterFormats([a, b, c]) == Success([]);
  }

  /**
   * The same records with notes: only the 720p video record is returned, and
   * its size falls back to the approximate size because the exact one is 0.
   */
  lemma NoteScenario()
    ensures VideoInfoFormats([
      Format(Some(Some("136")), Some("720p"), Some(720), Some("avc1"), Some("mp4"), Some(0), Some(5000)),
      Format(Some(Some("160")), Some("144p"), Some(144), Some("avc1"), Some("mp4"), None, None),
      Format(Some(Some("140")), Some("720p"), Some(720), Some("none"), Some("m4a"), None, None)])
      == Success([OutFormat(Some("136"), "720p", Some("mp4"), Some(5000))])
  {
    var a := Format(Some(Some("136")), Some("720p"), Some(720), Some("avc1"), Some("mp4"), Some(0), Some(5000));
    var b := Format(Some(Some("160")), Some("144p"), Some(144), Some("avc1"), Some("mp4"), None, None);
    var c := Format(Some(Some("140")), Some("720p"), Some(720), Some("none"), Some("m4a"), None, None);
    var o := OutFormat(Some("136"), "720p", Some("mp4"), Some(5000));
    assert TargetResolutions[2] == "720p";
    assert Kept(a) && !Kept(c);
    assert !Kept(b);
    assert [a, b, c][1..] == [b, c] && [b, c][1..] == [c] && [c][1..] == [];
    assert FilterFormats([b, c]) == Success([]);
    assert Emit(a) == o;
    assert [a, b, c][0] == a;
    assert [Emit(a)] + [] == [o];
    assert FilterFormats([a, b, c]) == Success([o]);
    assert StableSorting.Sort([o], Rank) == [o];
  }

  /**
   * A kept record whose `format_id` key holds `None` is returned with a
   * `None` id: the subscript finds the key, so nothing raises.
   */
  lemma NoneIdScenario()
    ensures VideoInfoFormats([Format(Some(None), Some("720p"), None, Some("avc1"), None, None, None)])
      == Success([OutFormat(None, "720p", None, None)])
  {
    var a := Format(Some(None), Some("720p"), None, Some("avc1"), None, None, None);
    var o := OutFormat(None, "720p", None, None);
    assert TargetResolutions[2] == "720p";
    assert Kept(a);
    assert [a][0] == a && [a][1..] == [];
    assert Emit(a) == o;
    assert [Emit(a)] + [] == [o];
    assert FilterFormats([a]) == Success([o]);
    assert StableSorting.Sort([o], Rank) == [o];
  }

  /** The same record without a `format_id` key raises the `KeyError`. */
  lemma MissingIdScenario()
    ensures VideoInfoFormats([Format(None, Some("720p"), None, Some("avc1"), None, None, None)])
      == Failure(MissingFormatId)
  {
    var a := Format(None, Some("720p"), None, Some("avc1"), None, None, None);
    assert TargetResolutions[2] == "720p";
    assert Kept(a) && a in [a];
  }
}
