# Subtitle app core in Dafny

This project models the logic of `app.py`, a small Flask application. The application takes an uploaded video and transcribes it with Whisper. It writes the transcription as an SRT subtitle file and shows a paginated list of the subtitle files produced so far. The model covers the parts of `app.py` that compute things. It does not cover the web, model and filesystem glue around them.

- **Timestamp** models `format_timestamp`. It turns a duration into an SRT time stamp `str(timedelta(whole seconds)) + "," + mmm`.
  - A duration is a non-negative number of microseconds, because Python's `timedelta` first rounds to microseconds.
  - Hours are written the way `str(timedelta)` writes them: not zero-padded.
  - From one day on, the stamp gets a `"N day(s), "` prefix.
  - The `"00:"` branch of the source can never fire. The model keeps the branch and proves that it is dead.
  - The module also has a parser for stamps. It proves that parsing a formatted stamp gives back the duration in whole milliseconds.
- **Srt** models `generate_srt`. It is a method with the source's loop, proved equal to the specification function `Document`.
  - `Document` numbers one block per segment from 1.
  - Lemmas about `Document`:
    - the document is exactly its blocks, in order;
    - a shorter list's document is a prefix of the longer list's;
    - whitespace around a text never reaches the document;
    - times only matter to the millisecond.
- **Catalog** models `get_srt_files`.
  - The SRT folder is an input: the names the directory listing returns (None when the listing fails) and a map from name to modification time and size. A name missing from the map is one whose stat fails.
  - The method `GetSrtFiles` keeps the source's collecting loop and is proved equal to the specification function `Listing`.
  - `Listing` covers the `.srt` filter, Python's stable `sorted(key=mtime, reverse=True)`, the page slice and the page count.
  - Every source exception gives `([], 0)`.
  - The sort is proved newest first, a permutation, and stable. It is also proved to be the only order with those three properties.
  - The page is proved to be:
    - a contiguous slice of at most `perPage` records;
    - empty exactly past the last page;
    - part of a set of pages that together list every file.
- **Upload** models `allowed_file`, `os.path.splitext` and the name of the subtitle file an upload writes.
  - `allowed_file` is proved equivalent to "the lower-cased name ends with `.` plus an allowed extension".
  - The file name is proved to be one the listing shows, and to differ whenever the uid differs.
- **Text** models the Python string builtins the source relies on: `str.strip` with Python's full whitespace set, `str.lower` on the characters that matter here, `str.endswith`, `str.rfind` and `str(int)`.
- **Wrappers** holds `Option`.

Behaviour of `app.py` worth noting, which the model follows:
- Hours are not zero-padded: a duration of zero gives `0:00:00,000`, not `00:00:00,000`.
- The listing sort has no tie-break by name. Records with equal times keep the directory order, because `sorted` is stable.
- A `.srt` entry that cannot be stat'ed is not skipped. The stat error aborts the whole listing, which returns `([], 0)`.
- A folder that cannot be listed is not reported to the caller. The result is `([], 0)`, the same as for an empty folder.
- The upload route makes no check of its own on the sanitised name. The subtitle file's stem is whatever `splitext` leaves of it. The model takes the sanitised name as a parameter, so it also allows an empty stem, which an accepted upload does not produce.

## Model

| member | source | states |
|---|---|---|
| Timestamp.FormatTimestamp | app.py:45-52 | The stamp always has exactly two colons (three fields), so the `"00:"` prefix is never added. The result is the rendering of the whole seconds, a comma and the milliseconds. |
| Timestamp.Rendered | app.py:49 | The string built before the `"00:"` test: `str(timedelta)` of the whole seconds, a comma, and the sub-second part truncated to milliseconds as three digits. |
| Timestamp.DurationString | app.py:49 | `str(timedelta(seconds=n))` for whole n: the clock of the seconds within the day, preceded by the day prefix from one day on. |
| Timestamp.Clock | app.py:49 | `H:MM:SS` for the seconds within a day: the hours not padded, minutes and seconds padded to two digits. |
| Timestamp.DayPrefix | app.py:49 | The `"D day, "` or `"D days, "` prefix of `str(timedelta)`, singular only for exactly one day. |
| Timestamp.FieldCount | app.py:50 | `len(s.split(sep))`: one more than the number of separators, so at least 1. |
| Timestamp.RenderedColons | app.py:49-50 | The string built before the `"00:"` test splits on `:` into exactly three fields, for every duration, days included. |
| Timestamp.MillisecondField | app.py:47-49 | The last four characters are `,` and three digits. Their value is the sub-second part truncated, not rounded, to milliseconds, and lies in 0..999. |
| Timestamp.StampNoDay | app.py:46-49 | Below one day the stamp is the unpadded hour count, then `:MM:SS,mmm`. |
| Timestamp.StampDays | app.py:46-49 | From one day on the stamp is `"D day, "` or `"D days, "`, then the hours within the day, then `:MM:SS,mmm`. |
| Timestamp.StampParts | app.py:46-49 | The stamp is its day prefix when it has one, followed by the unpadded hours and a ten-character tail starting with `:`. |
| Timestamp.DurationParts | app.py:49 | `str(timedelta)` of whole seconds is the day prefix, if there is one, followed by the clock of the seconds within the day. |
| Timestamp.SingleDigitHours | app.py:49 | Below ten hours the stamp is eleven characters long with its first colon at index 1: hours are not padded. |
| Timestamp.Zero | app.py:45-52 | A zero duration gives `0:00:00,000`. |
| Timestamp.Pad2 | app.py:49 | The two-digit minute and second fields are two digits whose value is the number. |
| Timestamp.Pad3 | app.py:49 | The `{ms:03d}` field is three digits whose value is the number of milliseconds. |
| Timestamp.ClockTail | app.py:49 | The `:MM:SS,mmm` tail has ten characters and starts with a colon. |
| Timestamp.ClockColons | app.py:49 | The `H:MM:SS` clock contains exactly two colons. |
| Timestamp.DurationColons | app.py:49 | `str(timedelta)` of whole seconds contains exactly two colons, with or without the day prefix. |
| Timestamp.TailRoundTrip | app.py:49 | The tail reads back as the minutes and seconds within the hour and the milliseconds. |
| Timestamp.ParseFormatNoDay | app.py:45-52 | Below one day, parsing the stamp gives the duration in whole milliseconds. |
| Timestamp.ParseFormatDays | app.py:45-52 | From one day on, parsing the stamp gives the duration in whole milliseconds. |
| Timestamp.ParseFormat | app.py:45-52 | Round trip: for every duration, parsing the stamp gives back the duration truncated to whole milliseconds. |
| Timestamp.SameStamp | app.py:45-52 | Two durations get the same stamp if and only if they agree to the millisecond. |
| Timestamp.MillisEnough | app.py:47-48 | Durations that agree to the millisecond get the same stamp. |
| Srt.GenerateSrt | app.py:54-61 | The string the loop builds is `Document(segments)`: block i (from 1) for segment i, in order. The loop invariant is that after i segments it holds their blocks. |
| Srt.Cue | app.py:57-60 | The block of one segment: its number, a newline, the start and end stamps joined by ` --> `, a newline, the stripped text and a blank line. |
| Srt.Document | app.py:54-61 | The blocks of all segments, numbered from 1, one after the other in input order. No segments give the empty string. |
| Srt.DocumentIsBlocks | app.py:55-61 | The document is the concatenation of one block per segment, `Cue(k + 1, segs[k])`, in input order. No segments give the empty string. |
| Srt.NumberedBlocks | app.py:56-60 | The first n numbered blocks are the concatenation of the first n entries of the block list. |
| Srt.Blocks | app.py:56-60 | The block list has one entry per segment, entry k being the block numbered k + 1. The clauses only expose the definition; the facts used are in `NumberedBlocks` and `DocumentIsBlocks`. |
| Srt.DocumentAppend | app.py:55-61 | No segments give `""`. Appending a segment appends its block, numbered `|segs| + 1`, to the document of the others and alters nothing already emitted. |
| Srt.DocumentPrefix | app.py:55-61 | The document for the first i segments is a prefix of the document for all of them: later segments only append. |
| Srt.NumberedPrefix | app.py:55-61 | The first i numbered blocks are a prefix of the first n, for i <= n. |
| Srt.NumberedTake | app.py:56-60 | The first n blocks depend only on the first n segments. |
| Srt.NumberedPointwise | app.py:56-60 | Segment lists whose blocks are equal position by position give equal documents. |
| Srt.CueStripped | app.py:59-60 | A block does not change when the segment's text is stripped beforehand. |
| Srt.DocumentIgnoresSurroundingSpace | app.py:59 | Stripping every text beforehand leaves the document unchanged: surrounding whitespace never reaches it. |
| Srt.CueMillis | app.py:57-58 | Segments with the same text whose times agree to the millisecond give the same block. |
| Srt.AllCuesMillis | app.py:57-58 | The same, for every block number and every pair of segments. |
| Srt.DocumentMillis | app.py:54-61 | Segment lists that agree segment by segment to the millisecond give the same document. |
| Srt.StripTexts | app.py:59 | Stripping the texts keeps the number of segments. |
| Text.Strip | app.py:59 | `str.strip()`: the result is the slice of the input after its leading whitespace. Everything outside the slice is whitespace, and the result neither starts nor ends with whitespace. |
| Text.IsSpace | app.py:59 | `str.isspace` of one code point: tab to carriage return, the separators U+001C to U+001F, space, U+0085, no-break space, the line separator U+2028, the paragraph separator U+2029, and the Unicode space separators U+1680, U+2000 to U+200A, U+202F, U+205F and U+3000: 29 code points in all. |
| Text.EndsWith | app.py:66 | `str.endswith`: the suffix is no longer than the string and equals its last characters. |
| Text.StripIdempotent | app.py:59 | Stripping twice gives the same as stripping once. |
| Text.LeadingSpaces | app.py:59 | The count of leading whitespace: all of those characters are whitespace, and the next one is not. |
| Text.TrailingSpaces | app.py:59 | The count of trailing whitespace: all of those characters are whitespace, and the one before them is not. |
| Text.LowerChar | app.py:42 | `str.lower` on one character: A-Z go to a-z, the Kelvin sign goes to `k`, and every other character is unchanged. The clauses only spell out the cases of the definition. |
| Text.Lower | app.py:66 | The model's lower keeps the length and lowers position by position with `LowerChar`. The clauses only expose the definition; the facts used are in `LowerKeepsPunctuation`, `DotsOfLower` and `AllowedFileIff`. |
| Text.LowerKeepsPunctuation | app.py:42 | Lower-casing neither creates nor removes a `.` or a `/`. |
| Text.RFind | app.py:42 | The index of the last occurrence of a character, or -1 when there is none; no occurrence lies after it. |
| Text.Count | app.py:50 | The number of occurrences is at most the length, and is 0 exactly when the character is absent. |
| Text.CountConcat | app.py:50 | Occurrences in a concatenation add up. |
| Text.CountMultiset | app.py:50 | The occurrence count behind `len(split(':'))` is the multiplicity of the character in the multiset of the string. |
| Text.Decimal | app.py:60 | `str(n)`: at least one digit, no leading zero unless n is 0, and digits whose value is n. |
| Text.DigitChar | app.py:60 | A digit below ten becomes a character whose digit value is that number. |
| Text.RangeValueShift | app.py:60 | Equal digits at corresponding positions give the same number. |
| Text.ThreeDigits | app.py:49 | Three digits denote hundreds, tens and units. |
| Text.DigitRunDigits | app.py:49 | The maximal run of digits at an index is made of digits and ends at a non-digit or at the end. |
| Text.DigitRunExact | app.py:49 | A run of m digits followed by a non-digit or the end is the maximal run. |
| Catalog.GetSrtFiles | app.py:63-93 | The method's result is `Listing(dir, stats, page, perPage)` on every path, the error paths included. |
| Catalog.Listing | app.py:63-93 | The result of `get_srt_files`: `([], 0)` when the folder cannot be listed, a `.srt` name has no stat or the page size is 0; otherwise the requested page of the sorted records and the page count. |
| Catalog.IsSrtName | app.py:66 | The filter test: the name, lower-cased, ends with `.srt`. |
| Catalog.SrtNames | app.py:66 | The names of the listing that pass `IsSrtName`, in listing order. |
| Catalog.Infos | app.py:68-77 | The record (name, mtime, size) of each name, in order, or None as soon as one name has no stat. |
| Catalog.Insert | app.py:79 | Puts a record after the leading run of records at least as new as it, before the first older one. In a newest-first list that is after every record at least as new. |
| Catalog.SortByMtime | app.py:79 | `sorted(key=mtime, reverse=True)` as a stable insertion sort: the records are inserted one by one in input order. |
| Catalog.PageCount | app.py:88 | `(total + per_page - 1) // per_page`, the number of pages of per_page records that hold total records. |
| Catalog.CollectInfos | app.py:68-77 | The collecting loop gives one record per name, in order, holding that name's time and size. It gives None when a stat fails. |
| Catalog.ListingFails | app.py:63-93 | An unreadable folder, a `.srt` entry whose stat fails, or a page size of 0 (a division by zero at the page count) gives `([], 0)`. |
| Catalog.ListingRecords | app.py:66-85 | Every listed record is a `.srt` name (case-insensitively) from the folder with that file's own time and size. The page is newest first. |
| Catalog.ListingPage | app.py:82-88 | The page is the slice of the sorted records from `(page-1)*perPage` and has at most `perPage` records. The page count is `(total + perPage - 1) / perPage` of the `.srt` names. The page is empty exactly when page > the page count. |
| Catalog.ListingCovers | app.py:82-88 | Every `.srt` file of the folder is on one of the counted pages. |
| Catalog.SortedRecordsCount | app.py:66-79 | There is exactly one sorted record per `.srt` name. |
| Catalog.ListingValue | app.py:79-90 | When nothing fails, the result is the page of the sorted records and the page count. |
| Catalog.InfosMember | app.py:69-77 | A collected record belongs to one of the names and holds that name's time and size. |
| Catalog.Filter | app.py:66 | The filtered list is no longer than the input, and holds only input elements that pass the test. |
| Catalog.FilterMultiset | app.py:66 | The filter keeps each passing element exactly as often as it occurs and drops the others. |
| Catalog.FilterConcat | app.py:66 | Filtering a concatenation filters each part. |
| Catalog.SortDescending | app.py:79 | The sorted list is in non-increasing order of modification time. |
| Catalog.SortPermutes | app.py:79 | The sorted list is a permutation of the input (equal multisets). |
| Catalog.SortStable | app.py:79 | Stability: for every time, the records with that time appear in the same order as in the input. |
| Catalog.SortUnique | app.py:79 | Any newest-first, stable permutation of the input equals the sort, so the reference definition is the only one. |
| Catalog.SortMembers | app.py:79 | A record is in the sorted list exactly when it is in the input. |
| Catalog.DescendingDetermined | app.py:79 | Two newest-first lists of equal length whose records of every time are in the same order are equal. |
| Catalog.HeadTimes | app.py:79 | Two such lists start with records of the same time. |
| Catalog.InsertDescending | app.py:79 | Inserting into a newest-first list keeps it newest first. |
| Catalog.InsertMultiset | app.py:79 | Insertion adds exactly the inserted record. |
| Catalog.InsertTied | app.py:79 | The inserted record comes after every record of its own time, and other records keep their order. |
| Catalog.InsertHead | app.py:79 | The first record after an insertion is the old first record when that one is at least as new, else the inserted one. |
| Catalog.NoneTied | app.py:79 | A list with only older records has no record of a given time. |
| Catalog.TiedCons | app.py:79 | The records of a given time in a list are the first record, when it has that time, followed by those of the rest. |
| Catalog.TiedSnoc | app.py:79 | Appending a record adds it to the records of its own time only. |
| Catalog.Page | app.py:83-85 | Python's clamped slice `s[start:start+perPage]`: its length is 0 past the end, otherwise the smaller of perPage and what remains, and item k is `s[start + k]`. |
| Catalog.PageDescending | app.py:79-85 | A page of a newest-first list is newest first. |
| Catalog.PageCountLeast | app.py:88 | The page count is the least number of pages of perPage that holds all records, and is 0 exactly when there are none. |
| Catalog.PageEmpty | app.py:85-88 | A page is empty if and only if its number exceeds the page count. |
| Catalog.PageCovers | app.py:83-88 | Record k is item `k % perPage` of page `k / perPage + 1`, which is within the page count. |
| Upload.AllowedFileIff | app.py:41-42 | `allowed_file` holds if and only if the lower-cased name ends with `.` followed by mp4, avi, mov or mkv. |
| Upload.AllowedFile | app.py:41-42 | `allowed_file`: the name holds a `.`, and the text after its last `.`, lower-cased, is in `AllowedExtensions`, the set {mp4, avi, mov, mkv} of app.py:29. |
| Upload.AllowedHasSuffix | app.py:41-42 | An accepted name ends, lower-cased, with `.` and an allowed extension. |
| Upload.SuffixAllowed | app.py:41-42 | A name that ends, lower-cased, with `.` and an allowed extension is accepted. |
| Upload.ExtensionAt | app.py:42 | In such a name the `.` four from the end is its last `.`, and the three characters after it lower-case to the extension. |
| Upload.LastDotAllowed | app.py:42 | A name whose last `.` is followed by text lowering to an allowed extension is accepted. |
| Upload.ExtensionShape | app.py:29 | Every member of `AllowedExtensions`, the constant ALLOWED_EXTENSIONS, has three characters and no `.`. |
| Upload.LastDot | app.py:42 | A `.` with no `.` after it is where `rsplit('.', 1)` splits. |
| Upload.LowerFromDot | app.py:42 | Lower-cased, the name from a `.` on is that `.` followed by the lower-cased rest. |
| Upload.DotsOfLower | app.py:42 | A lower-cased suffix holds a `.` exactly when the original suffix does. |
| Upload.NoDotRefused | app.py:42 | A name without a `.` is refused. |
| Upload.BareExtensionAccepted | app.py:42 | `".mp4"` is accepted. |
| Upload.UpperCaseAccepted | app.py:42 | `"Clip.MKV"` is accepted: the comparison ignores case. |
| Upload.LastExtensionCounts | app.py:42 | `"clip.mp4.txt"` is refused: only the text after the last `.` counts. |
| Upload.SplitExt | app.py:120 | `os.path.splitext`: root and extension concatenate back to the name. The extension is non-empty exactly when the part after the last `/` holds a `.` with some character other than `.` before it in that part. A non-empty extension starts at the last `.` and holds no other `.` and no `/`. |
| Upload.SplitExtLastDot | app.py:120 | `"talk.tar.mkv"` splits into `"talk.tar"` and `".mkv"`. |
| Upload.SplitExtLeadingDot | app.py:120 | A leading dot does not start an extension: `".hidden"` has none. |
| Upload.SrtFileName | app.py:120-122 | `f"{base}_{timestamp}_{uid}.srt"`, where base is the sanitised name without the extension `splitext` finds. |
| Upload.SrtFileNameListed | app.py:118-122 | The name of the subtitle file an upload writes passes the listing's `.srt` test: the file is listed. |
| Upload.SrtFileNameUnique | app.py:119-122 | For the same file and timestamp, different uids give different subtitle file names. |
| Upload.SrtFileNameSplit | app.py:120-122 | Splitting the extension off the subtitle file name gives `.srt` and `base_timestamp_uid`, when the uid holds no `/`. |

## Left out

- Flask routing, templates, `flash`, `redirect`, `send_from_directory` and CORS are web glue around the core.
- Whisper and torch model loading and `model.transcribe` are an external call; the model takes its segments as input.
- Filesystem effects are not modelled:
  - `os.makedirs`, `file.save`, writing the SRT file and `os.remove` are omitted;
  - `os.listdir`, `getmtime` and `getsize` are taken as inputs, read as one snapshot, so concurrent changes to the folder are not modelled;
  - the order of `os.listdir` is whatever the input sequence says.
- Printing the error message in `get_srt_files` is I/O and is left out. The error result itself is modelled.
- `secure_filename`, `uuid.uuid4().hex` and `datetime.now().strftime` are foreign or nondeterministic, so their results are parameters. The `datetimeformat` template filter is left out.
- Floating point is not modelled:
  - durations are integer microseconds and modification times are integers;
  - `timedelta`'s rounding of a float to microseconds happens before the model's input;
  - the millisecond difference at app.py:48 is computed exactly. In binary floating point, 1.001 − 1 is slightly below 0.001, so the source writes `0:00:01,000` for 1.001 s where the model writes `0:00:01,001`.
- Timestamp.FormatTimestamp: does not model `timedelta`'s limit of 999999999 days, beyond which the source raises OverflowError; nor negative durations, which are outside the model's `nat` input.
- Catalog.GetSrtFiles: the default arguments `page=1, per_page=10` of app.py:63 are not modelled; the one call, at app.py:154, passes both.
- Catalog.GetSrtFiles: requires page >= 1. A page of 0 or below would make Python slice from a negative index, which is outside the source's intended use. A page size of 0 is modelled, as the division-by-zero error it causes.
- Text.LowerChar: lowers only A-Z and the Kelvin sign. Other characters are left as they are. That is enough for comparisons against the lower-case ASCII texts `.srt`, `mp4`, `avi`, `mov` and `mkv`: no other character lowers to one that could complete such a match. U+0130 lowers to `i` followed by U+0307 COMBINING DOT ABOVE. A lowered text that holds U+0307 can never equal an allowed extension, and since `.srt` has no `i`, a name with U+0130 in its last four characters can never end with `.srt` either. So leaving U+0130 unchanged gives the same answers.
- Text.Lower: keeps the length of its input. Python's `str.lower` does not: it turns U+0130 into two code points. The `Text.LowerChar` line gives the reason this changes no result of the model.
