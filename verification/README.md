# Flask YouTube downloader API: the pure rules of `app.py`

The service wraps yt-dlp behind a Flask API. Most of `app.py` is HTTP routing, a
background download thread and a polling file streamer. Four sequential rules sit inside
that plumbing, and this project models them as pure Dafny functions:

- **Title sanitiser** (`sanitize_filename`). It keeps letters, digits, space, `.`, `_`
  and `-`, then strips the ends (module `Sanitize`).
- **Format selector** (the `format` option given to yt-dlp). It appends
  `+bestaudio/best` to a format id unless the id already contains `+bestaudio`
  (module `Selector`).
- **The `formats` list of `/api/video-info`**:
  - The inline filter loop is lifted into a function over immutable format records
    (module `Formats`).
  - The sort key follows it (module `FormatSort`). The sort itself is a stable
    insertion sort with the key as a parameter (module `StableSorting`), as Python's
    `list.sort` is stable.
  - `FormatSort.VideoInfoFormats` is the whole filter-then-sort pipeline.
  - On the records this model admits, the block can raise two exceptions, and both
    become `Result` errors. Both end in a 500 response: `KeyError` from
    `f['format_id']` and `ValueError` from `int(...)`. Input of other shapes (a
    `formats` key holding `None`, a non-numeric size) would raise `TypeError`; such
    records are not part of this model.
  - `format_id` is read by subscript, so the model keeps a missing key apart from a key
    that holds `None`. Only the first raises. The second is copied into the response as a
    `None` id (`FormatSort.NoneIdScenario`, `FormatSort.MissingIdScenario`).
- **Temporary-file discovery and cleanup** in `stream_download_generator`. This is
  modelled over an abstract set of existing paths (module `Artifacts`).
  - Discovery picks the first of `mp4, mkv, webm, flv` whose `<temp_path>.<ext>`
    exists.
  - Cleanup removes every candidate that exists. A removal that raises aborts the rest
    of the loop, because the `try` wraps the whole loop.

Two small modules support these. `Wrappers` holds `Option` and `Result`. `Decimal`
holds the decimal rendering used by `f"{n}p"` and the digit parsing used by `int(...)`,
with their round trip.

The filter follows the code, not its apparent intent:
- A record's label is `format_note` when that is a non-empty string, and its integer
  `height` otherwise.
- Config.py's allow-list holds only strings, and Python's `==` between an `int` and a
  `str` is false. So a record that carries only a height is never kept
  (`Formats.HeightOnlyNeverKept`, `Formats.KeepRule`).
- `Formats.Normalize` keeps the int-to-`"<n>p"` and `'Unknown'` branches anyway, and
  `Formats.Emit` proves that a kept record's resolution is its note unchanged.

Two consequences of the code as written:
- Lines 216-218 normalise an integer resolution to the string `"<n>p"`. A record that
  carries only a height never passes the test at app.py:215, so lines 217-218 and the
  `'Unknown'` fallback at app.py:222 are unreachable (`Formats.HeightOnlyNeverKept`).
  Three height-only records (720/avc1, 144/avc1, 720/none) give an empty list
  (`FormatSort.HeightOnlyScenario`). The same records with notes give one `"720p"` entry
  (`FormatSort.NoteScenario`).
- The sort key at app.py:228 is `int(label.replace('p', ''))` for a label ending in `p`,
  and 0 for any other label. A label that ends in `p` but is not a number after the `p`s
  are removed would raise `ValueError`. That cannot happen, because every kept label is
  an allow-list member (`FormatSort.FilteredAllKeyed`).

## Model

| member | source | states |
|---|---|---|
| Sanitize.IsAlnum | app.py:55 | `str.isalnum` holds for every ASCII letter and digit, and never for the space, `.`, `_`, `-`, `/` or `\` |
| Sanitize.IsKept | app.py:55 | the generator's condition keeps every alphanumeric character and the space, and drops path separators, `:` and newlines |
| Sanitize.KeepAllowed | app.py:55 | the generator's output is no longer than its input and holds only letters, digits, space, `.`, `_` and `-` |
| Sanitize.KeepAllowedCounts | app.py:55 | each kept character occurs in the filtered string exactly as often as in the input, and every other character not at all |
| Sanitize.Strip | app.py:55 | `strip()` on a string whose only whitespace is the space (all the filter lets through) returns a contiguous slice of its input with only spaces cut from either end, and neither end of the result is a space |
| Sanitize.StripCounts | app.py:55 | stripping keeps the count of every character other than the space |
| Sanitize.SanitizeFilename | app.py:53-55 | the sanitised name is no longer than the input, holds only allowed characters, has no leading or trailing space, and is the filtered string with only spaces cut from its ends |
| Sanitize.SanitizeCounts | app.py:53-55 | every allowed character other than the space occurs in the sanitised name as often as in the input; every other character is dropped |
| Sanitize.KeepAllowedIsSubsequence | app.py:55 | the filtered characters appear in the order they had in the input |
| Sanitize.SanitizeIsSubsequence | app.py:53-55 | the sanitised name is a subsequence of the input |
| Sanitize.StripFixesTrimmed | app.py:55 | stripping a string that neither starts nor ends with a space returns it unchanged |
| Sanitize.SanitizeIdempotent | app.py:53-55 | sanitising a sanitised name changes nothing |
| Selector.HasSubstring | app.py:100 | the scan for `'+bestaudio' in format_id` succeeds when the id starts with the marker and only when the id is at least as long as the marker |
| Selector.HasSubstringIffOccurs | app.py:100 | the executable scan for `'+bestaudio' in format_id` holds exactly when the marker occurs as a contiguous block |
| Selector.BuildSelector | app.py:100 | the selector always contains `+bestaudio`, has the format id as a prefix, equals the id exactly when the id already contains `+bestaudio`, and otherwise continues with `+bestaudio/best` |
| Selector.BuildSelectorIdempotent | app.py:100 | building a selector from a selector returns it unchanged |
| Formats.LabelOf | app.py:214 | `format_note or height` is the note exactly when the note is a non-empty string, the height when the note is missing or empty, and nothing when both are missing |
| Formats.InAllowList | app.py:215 | only a note can be in the string allow-list; a height or a missing label never is, and an allowed label is non-empty and ends in `p` |
| Formats.Kept | app.py:215 | a record whose codec is `'none'` is dropped, and a kept record has a note from the allow-list |
| Formats.SizeArg | app.py:224 | `filesize or filesize_approx` is the exact size when present and non-zero, and the approximate size when the exact one is missing or 0 |
| Formats.KeepRule | app.py:214-215 | a record is kept exactly when its codec is not `'none'` (a missing codec passes) and its note is an allow-list label; the height never decides |
| Formats.HeightOnlyNeverKept | app.py:214-215 | a record with no note, or an empty note, is dropped whatever its height, because the allow-list holds only strings |
| Formats.Normalize | app.py:216-222 | an integer height becomes its decimal digits followed by `p`, a non-empty note is unchanged, a missing label or an empty note becomes `'Unknown'`, and the result is never empty |
| Formats.Emit | app.py:220-225 | the output record of a kept record that has a `format_id` key copies the key's value (`None` included) and the extension, takes `filesize` unless it is missing or 0 and then `filesize_approx`, and its resolution is the note, an allow-list member |
| Formats.FilterFormats | app.py:211-225 | the filter fails with the `format_id` KeyError exactly when some kept record has no `format_id` key; otherwise the output is no longer than the input and every resolution is in the allow-list |
| Formats.FilterProvenance | app.py:212-225 | every output record is the record built from some kept input record |
| Formats.FilterComplete | app.py:213-225 | every kept input record has its output record in the result |
| Formats.FilterAppend | app.py:212-225 | filtering a concatenation concatenates the filtered parts, so kept records keep their input order |
| Formats.FilterSingle | app.py:213-225 | one record yields nothing when dropped, the KeyError when kept without a `format_id` key, and exactly its output record otherwise |
| Decimal.NatToString | app.py:218 | `str(n)` of a natural number is a non-empty digit string with no leading zero, and is `"0"` for 0 |
| Decimal.IntToString | app.py:218 | `f"{n}"` is `str(n)` of the natural number when `n` is not negative, and a minus sign before the digits of `-n` otherwise |
| Decimal.ParseNat | app.py:228 | `int(s)` succeeds exactly on a non-empty digit string and then gives the number it denotes; otherwise it is the ValueError |
| Decimal.ParseNatToString | app.py:218 | parsing the decimal rendering of a natural number gives the number back |
| FormatSort.RemoveP | app.py:228 | `replace('p', '')` is no longer than its input, leaves no `p`, keeps every other character's count, and changes nothing in a string without `p` |
| FormatSort.RemovePConcat | app.py:228 | removing the `p`s of a concatenation removes them from each part, so the remaining characters keep their order |
| FormatSort.RemovePChar | app.py:228 | one character is removed when it is `p` and kept otherwise |
| FormatSort.EndsWithP | app.py:228 | `endswith('p')` holds exactly when the one-character suffix of the label is `p` |
| FormatSort.SortKey | app.py:228 | a label not ending in `p` has key 0; a label ending in `p` has a key exactly when what is left after removing the `p`s is a non-empty digit string; every key is non-negative |
| FormatSort.HeightLabelKey | app.py:228 | the label `"<n>p"` has sort key `n` |
| FormatSort.AllowListKeys | config.py:12 | each allow-list label has the sort key 360, 480, 720, 1080, 1440 or 2160, in list order |
| FormatSort.AllowListKeysDistinct | config.py:12 | allow-list labels always have a key, and two of them have equal keys exactly when they are the same label |
| FormatSort.FilteredAllKeyed | app.py:228 | the sort key never raises on a list of allow-list labels |
| FormatSort.Rank | app.py:228 | the key the sort uses is never negative and, on every allow-list label, is exactly the value of the key expression, which does not raise there |
| StableSorting.Insert | app.py:228 | inserting into a sorted list keeps it sorted and adds exactly the inserted element |
| StableSorting.Sort | app.py:228 | the sorted list is a permutation of its input in non-decreasing key order |
| StableSorting.InsertStable | app.py:228 | inserting an element puts it first among the elements of its key, and the others keep their order |
| StableSorting.SortStable | app.py:228 | for every key, the elements with that key appear in the same order before and after the sort |
| StableSorting.SortedUnique | app.py:228 | two lists that are sorted by the key and hold the same elements in the same order for every key are equal |
| StableSorting.StableSortIsSort | app.py:228 | any key-sorted list that keeps each key's elements in input order is exactly the model's sort, so the model agrees with every stable sort |
| FormatSort.SortStableByResolution | app.py:228 | records with the same resolution label keep their input order through the sort |
| FormatSort.VideoInfoFormats | app.py:211-228 | the response list fails, with the KeyError, exactly when a kept record has no `format_id` key; otherwise it holds the filtered records sorted by numeric resolution, as a permutation that keeps the input order of equal labels |
| FormatSort.HeightOnlyScenario | app.py:213-225 | three height-only records (720/avc1, 144/avc1, 720/none) give an empty list |
| FormatSort.NoteScenario | app.py:211-228 | the same records with notes give the single 720p record, with the approximate size standing in for a zero exact size |
| FormatSort.NoneIdScenario | app.py:211-228 | a kept record whose `format_id` key holds `None` is returned with a `None` id and no error |
| FormatSort.MissingIdScenario | app.py:211-228 | the same record without a `format_id` key gives the KeyError |
| Artifacts.Candidate | app.py:136 | `f"{temp_path}.{ext}"` is the temporary path, a dot, then the extension |
| Artifacts.CandidatesDistinct | app.py:135-136 | the four candidate paths of one temporary path are pairwise distinct |
| Artifacts.FirstCandidate | app.py:135-139 | the scan returns the first extension whose candidate path is in the set, or none when no candidate is in it |
| Artifacts.Discover | app.py:135-142 | discovery returns an existing candidate path with no earlier candidate existing, and returns nothing exactly when no candidate exists |
| Artifacts.Cleanup | app.py:182-190 | when no removal raises, every candidate is gone and nothing else changes, so the discovered file is among those removed; when one raises, the earlier candidates are removed and that one and later ones are left |

## Left out

- Flask routing, request and JSON handling, CORS, error handlers and the health
  endpoint (app.py:192-210 and app.py:229-316). These are HTTP plumbing. The `title` default and the 400
  responses are left out with them.
- yt-dlp calls: `get_video_info`, `download_worker` and the YoutubeDL options other than
  `format`. This is a foreign library whose behaviour is not visible.
- The background thread and the error queues. Also the 0.5-second discovery polling,
  bounded by `MAX_WAIT_TIME` (config.py:18), and the chunked read-and-yield loop
  (app.py:109-180). These are concurrency and file I/O. `Artifacts.Discover` models one
  pass of the scan inside the polling loop.
- Cookie-file probing, `print` and `logging` (app.py:73-95). These are I/O side effects.
- The timestamp in the temporary path (app.py:71). It depends on the wall clock, so
  `tempPath` is an opaque parameter.
- `format_size` (app.py:43-51). It does float division and two-decimal rendering. The
  model keeps the value passed to it (`OutFormat.size`) and not its text.
- config.py's environment reading and configuration lookup. Only `TARGET_RESOLUTIONS`
  (config.py:12) is used, as the constant `Formats.TargetResolutions`.
  gunicorn.conf.py and wsgi.py are deployment settings and are not part of this model.
- Sanitize.IsAlnum: treats only ASCII letters and digits as alphanumeric, and so does
  Sanitize.SanitizeFilename, which uses it.
  Python's `str.isalnum` also accepts other Unicode letters and digits, which the model
  drops.
- Decimal.ParseNat: accepts only a non-empty run of ASCII digits. Python's `int` also
  accepts surrounding whitespace, a sign, underscores and other Unicode digits. The
  difference is never reached, because only allow-list labels are parsed.
- Artifacts.Cleanup: the file system is a fixed set for the length of the loop.
  Concurrent creation by the still-running download and failures of `os.path.exists`
  are not modelled. A raising removal is given by the `failing` set.
- Format records hold integer sizes and heights. yt-dlp can report a float size, which
  only `format_size` would see.
