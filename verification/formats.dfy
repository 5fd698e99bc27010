/**
 * The format filter of the `/api/video-info` handler (app.py lines 211-225),
 * lifted out of the handler into a function from the format records the
 * extraction library reports to the records the API returns.
 */
module Formats {
  import opened Wrappers
  import Decimal

  /**
   * One entry of the extraction library's `formats` list. Each field is a
   * dictionary key the filter reads. The filter reads `format_id` by
   * subscript, so for that key `None` is a missing key and `Some(None)` a key
   * holding `None`; every other key is read with `get`, for which the two are
   * the same and `None` stands for both.
   */
  datatype Format = Format(
    formatId: Option<Option<string>>,
    formatNote: Option<string>,
    height: Option<int>,
    vcodec: Option<string>,
    ext: Option<string>,
    filesize: Option<int>,
    filesizeApprox: Option<int>)

  /** The value of `f.get('format_note') or f.get('height')`: a note, a height, or `None`. */
  datatype Label = NoLabel | Note(text: string) | Height(pixels: int)

  /**
   * One record of the response's `formats` list. `formatId` is copied from
   * the input, `None` included; `size` is the value handed to `format_size`,
   * whose text rendering is not part of this model.
   */
  datatype OutFormat = OutFormat(formatId: Option<string>, resolution: string, ext: Option<string>, size: Option<int>)

  /** Exceptions the handler can raise while building the list; both end in a 500 response. */
  datatype FormatError =
    | MissingFormatId            // KeyError from `f['format_id']` on a record without the key
    | BadSortKey                 // ValueError from `int(...)` in the sort key

  /** `TARGET_RESOLUTIONS` of config.py: strings only. */
  const TargetResolutions: seq<string> := ["360p", "480p", "720p", "1080p", "1440p", "2160p"]

  /** The label of a record: the note when it is a non-empty string, otherwise the height. */
  function LabelOf(f: Format): (l: Label)
    ensures l.Note? <==> f.formatNote.Some? && f.formatNote.value != ""
    ensures l.Note? ==> f.formatNote == Some(l.text)
    ensures l.Height? ==> f.height == Some(l.pixels)
    ensures l.NoLabel? <==> (f.formatNote.None? || f.formatNote == Some("")) && f.height.None?
  {
    if f.formatNote.Some? && f.formatNote.value != "" then Note(f.formatNote.value)
    else if f.height.Some? then Height(f.height.value)
    else NoLabel
  }

  /**
   * `label in TARGET_RESOLUTIONS`. Python compares an int with a str as
   * unequal, so only a note can be a member of the string list.
   */
  predicate InAllowList(l: Label)
    ensures InAllowList(l) ==> l.Note? && l.text != "" && l.text[|l.text| - 1] == 'p'
    ensures l.Height? || l.NoLabel? ==> !InAllowList(l)
  {
    match l
    case Note(t) => t in TargetResolutions
    case _ => false
  }

  /** The record passes the filter: its codec is not `'none'` and its label is allowed. */
  predicate Kept(f: Format)
    ensures f.vcodec == Some("none") ==> !Kept(f)
    ensures Kept(f) ==> f.formatNote.Some? && f.formatNote.value in TargetResolutions
  {
    f.vcodec != Some("none") && InAllowList(LabelOf(f))
  }

  /** `f.get('filesize') or f.get('filesize_approx')`: a zero or missing size falls through. */
  function SizeArg(f: Format): (r: Option<int>)
    ensures f.filesize.Some? && f.filesize.value != 0 ==> r == f.filesize
    ensures f.filesize.None? || f.filesize == Some(0) ==> r == f.filesizeApprox
  {
    if f.filesize.Some? && f.filesize.value != 0 then f.filesize else f.filesizeApprox
  }

  /**
   * The normalisation of lines 217-222: an integer height becomes `"<n>p"`,
   * and a falsy value becomes `'Unknown'`.
   */
  function Normalize(l: Label): (r: string)
    ensures r != []
    ensures l.Note? && l.text != "" ==> r == l.text
    ensures l.NoLabel? || l == Note("") ==> r == "Unknown"
    ensures l.Height? ==> r[|r| - 1] == 'p' && r[..|r| - 1] == Decimal.IntToString(l.pixels)
  {
    match l
    case Height(n) =>
      var s := Decimal.IntToString(n) + "p";
      assert s[..|s| - 1] == Decimal.IntToString(n);
      s
    case Note(t) => if t == "" then "Unknown" else t
    case NoLabel => "Unknown"
  }

  /** `o` is the output record built from the kept input record `f`, field by field. */
  ghost predicate Produces(f: Format, o: OutFormat) {
    && Kept(f)
    && f.formatId == Some(o.formatId)
    && LabelOf(f) == Note(o.resolution)
    && o.ext == f.ext
    && o.size == SizeArg(f)
  }

  /** The dictionary appended for a kept record (lines 220-225). */
  function Emit(f: Format): (o: OutFormat)
    requires Kept(f) && f.formatId.Some?
    ensures Produces(f, o)
    ensures o.resolution in TargetResolutions
  {
    OutFormat(f.formatId.value, Normalize(LabelOf(f)), f.ext, SizeArg(f))
  }

  /** The filtering loop of lines 212-225, before the sort. */
  function FilterFormats(fs: seq<Format>): (r: Result<seq<OutFormat>, FormatError>)
    ensures r.Failure? <==> exists f :: f in fs && Kept(f) && f.formatId.None?
    ensures r.Failure? ==> r.error == MissingFormatId
    ensures r.Success? ==> |r.value| <= |fs|
    ensures r.Success? ==> forall o :: o in r.value ==> o.resolution in TargetResolutions
    decreases |fs|
  {
    if fs == [] then Success([])
    else
      var f := fs[0];
      var rest := FilterFormats(fs[1..]);
      assert fs == [f] + fs[1..];
      if !Kept(f) then rest
      else if f.formatId.None? then Failure(MissingFormatId)
      else if rest.Failure? then rest
      else Success([Emit(f)] + rest.value)
  }

  /** Every output record is built from some kept input record. */
  lemma {:induction false} FilterProvenance(fs: seq<Format>)
    requires FilterFormats(fs).Success?
    ensures forall o :: o in FilterFormats(fs).value ==> exists f :: f in fs && Produces(f, o)
    decreases |fs|
  {
    if fs != [] {
      FilterProvenance(fs[1..]);
      assert fs == [fs[0]] + fs[1..];
    }
  }

  /** Every kept input record has its output record in the result. */
  lemma {:induction false} FilterComplete(fs: seq<Format>)
    requires FilterFormats(fs).Success?
    ensures forall f :: f in fs && Kept(f) ==> exists o :: o in FilterFormats(fs).value && Produces(f, o)
    decreases |fs|
  {
    if fs != [] {
      FilterComplete(fs[1..]);
      assert fs == [fs[0]] + fs[1..];
      if Kept(fs[0]) {
        assert Emit(fs[0]) in FilterFormats(fs).value;
      }
    }
  }

  /** Combines the filter results of two consecutive slices of the input. */
  function JoinResults(a: Result<seq<OutFormat>, FormatError>, b: Result<seq<OutFormat>, FormatError>): Result<seq<OutFormat>, FormatError> {
    if a.Success? && b.Success? then Success(a.value + b.value) else Failure(MissingFormatId)
  }

  /**
   * Filtering a concatenation is filtering each part and concatenating the
   * results: kept records appear in input order.
   */
  lemma {:induction false} FilterAppend(fs: seq<Format>, gs: seq<Format>)
    ensures FilterFormats(fs + gs) == JoinResults(FilterFormats(fs), FilterFormats(gs))
    decreases |fs|
  {
    if fs == [] {
      assert fs + gs == gs;
      if FilterFormats(gs).Success? {
        assert [] + FilterFormats(gs).value == FilterFormats(gs).value;
      }
    } else {
      assert (fs + gs)[0] == fs[0];
      assert (fs + gs)[1..] == fs[1..] + gs;
      FilterAppend(fs[1..], gs);
      var f := fs[0];
      if Kept(f) && f.formatId.Some? && FilterFormats(fs[1..]).Success? && FilterFormats(gs).Success? {
        var a := FilterFormats(fs[1..]).value;
        var b := FilterFormats(gs).value;
        assert [Emit(f)] + (a + b) == ([Emit(f)] + a) + b;
      }
    }
  }

  /** A single record yields its output record when kept and nothing otherwise. */
  lemma FilterSingle(f: Format)
    ensures !Kept(f) ==> FilterFormats([f]) == Success([])
    ensures Kept(f) && f.formatId.None? ==> FilterFormats([f]) == Failure(MissingFormatId)
    ensures Kept(f) && f.formatId.Some? ==>
      FilterFormats([f]).Success? && |FilterFormats([f]).value| == 1 && Produces(f, FilterFormats([f]).value[0])
  {
    assert [f][1..] == [];
  }

  /**
   * The keep rule in terms of the raw fields: the codec is not the string
   * `'none'` (a missing codec passes) and the note is an allow-list label;
   * the height never decides.
   */
  lemma KeepRule(f: Format)
    ensures Kept(f) <==> f.vcodec != Some("none") && f.formatNote.Some? && f.formatNote.value in TargetResolutions
  {
    assert "" !in TargetResolutions;
  }

  /**
   * A record without a non-empty note is never kept, even when its integer
   * height matches an allowed resolution: the allow-list holds only strings.
   */
  lemma HeightOnlyNeverKept(f: Format)
    requires f.formatNote.None? || f.formatNote == Some("")
    ensures !Kept(f)
  {
  }
}
