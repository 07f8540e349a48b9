# overdrive2opus, modelled in Dafny

`overdrive2opus.py` turns a folder of OverDrive MP3 files into one Opus
audiobook. It reads each file's tags and OverDrive chapter markers with
ffprobe. It then orders the files by track number and joins their chapters
into one timeline. Finally it pipes `ffmpeg` into `opusenc`, with chapter
comments, a cover picture and a filter graph.

This project models the script's metadata and timeline logic. It does not
model the process plumbing. Everything modelled is deterministic over
plain data: strings, sequences, maps and exact `real` numbers.

| file | module | what it models |
|---|---|---|
| `wrappers.dfy` | `Wrappers` | `Option` and `Result`, for values that may be missing and calls that may raise |
| `text.dfy` | `Text` | the Python built-ins the script relies on: `str.isspace`, `str.split`, `int()`, `float()`, `%0wd`, `%0w.pf` and `str()`; `Text.Strip` stands for the whitespace that `int()` and `float()` skip around a number |
| `timestamps.dfy` | `Timestamps` | `_ts_from_time` (base-60 parsing) and `_time2str` (clock formatting), and how the two round-trip |
| `patterns.dfy` | `Patterns` | the three regular expressions, written as explicit matchers: `-\s*Part\s*(\d+)`, `\s*-?\s*Part\s*\d+\s*$` and `\s+\([0-9:]+\)\s*$` |
| `probe.dfy` | `Probe` | `_int`, and `get_metadata`: track-number resolution, text fields, duration and marker extraction |
| `folder.dfy` | `Folder` | `_list_files`, the cover choice, the stable sort by track, the timeline loop, `_get_field` and the title guess of `get_folder_metadata` |
| `encode.dfy` | `Encode` | `encode` up to starting the programs: speed clamp, opusenc arguments, chapter filter and numbering, ffmpeg inputs and filter graph |
| `progress.dfy` | `Progress` | the `time=` regex on ffmpeg's stats lines and the progress loop |

## How the model is shaped

Wherever the script mutates state in a loop, the model has a `method` with
that loop. Each such method is proved equal to a recursive specification
function, and the properties are proved about that function as lemmas.
These methods are:

- `Timestamps.ReadClock`, the `ret` loop of `_ts_from_time`;
- `Probe.ExtractMarkers`, the marker loop of `get_metadata`;
- `Folder.Aggregate`, the `chapters`/`delta` loop of `get_folder_metadata`;
- `Encode.AddChapters`, the chapter-comment loop of `encode`;
- `Encode.AddInputs`, the input loop of `encode`;
- `Encode.FfmpegArgs` and `Encode.AddStages`, the command and the filter-graph accumulation of `encode`;
- `Progress.FollowProgress`, the progress loop.

The code that only computes values is modelled as functions: `_time2str`,
`_int`, `_get_field`, the comprehensions of `_list_files` and the regexes.

An exception the script raises is an `Err` value (`ProbeError`,
`EncodeError`). In the progress loop it is the `failure` field of
`Outcome`. The library calls are parameters:

- `json.load` gives the `format` object as a `Format` value (`None` when
  it is missing);
- `ET.fromstring` is `parse: string -> Option<Element>`;
- `html.unescape` is `unescape: string -> string`;
- the directory listing is a sequence of `FileEntry` records (path, suffix,
  size).

Times are exact reals. A float's digits under `%0w.pf` are modelled as
round-half-even of the exact value. That is what Python does on the binary
value it holds.

Three behaviours of the code are kept as written:

- A speed below -99 becomes -50 (`Encode.ClampSpeed`), although the
  warning says -99.
- `_get_field` tests `is not None`, so an empty value is returned as it is
  (`Folder.EmptyValueWins`).
- Nothing sorts a file's markers by time. The folder timeline is in time
  order only when every file's markers are, and lie within the file
  (`Folder.TimelineSorted`). Markers out of order inside one file stay out
  of order in the timeline.

Two error paths are kept as the code has them:

- A marker whose `Time` text `float()` rejects raises `ValueError` out of
  `get_metadata`, so the file fails (`ProbeError.BadTime`). The marker is
  not skipped.
- A `time=` value on a stats line that `_ts_from_time` rejects raises out
  of the progress loop. The model records the failure and reads nothing
  after it (`Progress.FailureStays`).

## Model

| member | source | states |
|---|---|---|
| Text.SplitSpec | overdrive2opus.py:87 | every piece of `s.split(':')` is free of ':', and joining the pieces with ':' gives back `s` |
| Text.SplitJoin | overdrive2opus.py:87 | splitting the ':'-join of colon-free pieces gives back exactly those pieces, so split inverts join |
| Text.IntRoundTrip | overdrive2opus.py:113-117 | `int()` reads back what `%0wd` writes, for every integer and width |
| Text.FormatIntShape | overdrive2opus.py:57-60 | `%0wd` writes at least `w` characters, all digits except an optional leading '-', ending in a digit, and starting with a digit exactly when the number is not negative |
| Text.DecimalDigits | overdrive2opus.py:286 | `str(n)` of a natural number is a non-empty run of digits whose value is `n` |
| Text.RoundHalfEven | overdrive2opus.py:62 | the rounding of `%.pf` lands within one half of the exact value, and on an exact tie it lands on the even integer |
| Text.FormatFixedChars | overdrive2opus.py:62 | `%0w.pf` writes at least `w` characters, each a digit or '.', except an optional leading '-' |
| Text.FloatOfFormatFixed | overdrive2opus.py:62 | `float()` reads back exactly the number `%0w.pf` wrote, for every number with at most `p` decimal places |
| Text.FloatOfFormatInt | overdrive2opus.py:60 | `float()` reads back exactly the integer `%0wd` wrote |
| Text.StripUnpadded | overdrive2opus.py:89 | `float()` skips no whitespace around a text that neither starts nor ends with whitespace: it reads the text whole |
| Text.TrimStartSpec | overdrive2opus.py:89 | the leading-whitespace trim removes exactly a maximal run of whitespace and nothing else |
| Text.TrimEndSpec | overdrive2opus.py:89 | the trailing-whitespace trim removes exactly a maximal run of whitespace and nothing else |
| Timestamps.TsFromTime | overdrive2opus.py:85-91 | `_ts_from_time(s)` is the base-60 left fold `ret * 60 + float(piece)` over the ':'-separated pieces of `s`, and fails when `float()` rejects a piece |
| Timestamps.ReadClock | overdrive2opus.py:86-90 | the loop over the pieces computes the base-60 fold of their readings, for any reading function |
| Timestamps.Base60Fails | overdrive2opus.py:89 | one piece that `float()` rejects makes the whole parse fail, wherever it stands |
| Timestamps.Base60Three | overdrive2opus.py:85-91 | three readings x, y, z give x * 3600 + y * 60 + z |
| Timestamps.ThreeFields | overdrive2opus.py:85-91 | "H:M:S" with colon-free fields that `float()` reads as x, y, z parses to x * 3600 + y * 60 + z |
| Timestamps.SplitThree | overdrive2opus.py:87 | "a:b:c" with colon-free fields splits into exactly [a, b, c] |
| Timestamps.ClockParts | overdrive2opus.py:53-55 | after the two `divmod`s, minutes lie in [0, 60), seconds in [0, 60), and hours * 3600 + minutes * 60 + seconds is the input |
| Timestamps.UnderAMinute | overdrive2opus.py:53-55 | a time under a minute has zero hours and zero minutes and keeps all of itself as seconds |
| Timestamps.FormatIntNoColon | overdrive2opus.py:57-60 | a `%02d` field never contains ':' |
| Timestamps.FormatFixedNoColon | overdrive2opus.py:62 | a `%0w.pf` field never contains ':' |
| Timestamps.ClockRoundTrip | overdrive2opus.py:52-64 | when the seconds field reads back as the seconds, `_ts_from_time(_time2str(t))` is `t` |
| Timestamps.WholeRoundTrip | overdrive2opus.py:52-64 | every whole number of seconds written at precision 0 parses back to itself |
| Timestamps.MilliRoundTrip | overdrive2opus.py:52-64 | every time with whole milliseconds written at precision 3 parses back to itself |
| Timestamps.MinuteNotCarried | overdrive2opus.py:53-64 | a time in [59.9995, 60) prints as "00:00:60.000": seconds rounded up to 60 are not carried into the minutes |
| Patterns.FirstFromSpec | overdrive2opus.py:144 | the leftmost search returns the first position that matches, with none before it, or no position when none matches |
| Patterns.FirstFromAt | overdrive2opus.py:144 | a matching position with no match before it is what the search returns |
| Patterns.PartGroupSpec | overdrive2opus.py:143 | a match of `-\s*Part\s*(\d+)` at `i` is '-', whitespace, "part" in any case, whitespace, then a maximal run of digits forming the group |
| Patterns.PartNumberSpec | overdrive2opus.py:143-147 | a part number exists iff the pattern matches somewhere, and then it is the value of the digits of the leftmost match |
| Patterns.MyBookPartNumber | overdrive2opus.py:143-147 | "My Book - Part 3" yields part 3 |
| Patterns.StripPartSpec | overdrive2opus.py:232 | the stripped title is a prefix of the title, shorter iff `\s*-?\s*Part\s*\d+\s*$` matches somewhere, cut at the leftmost match, with no match before the cut |
| Patterns.MyBookStripPart | overdrive2opus.py:232 | "My Book - Part 3" becomes "My Book" |
| Patterns.StampSuffixIsSearch | overdrive2opus.py:314 | searching `\s+\([0-9:]+\)\s*$` succeeds iff the name, without trailing whitespace, ends in whitespace, '(', digits and colons, then ')' |
| Patterns.StampSuffixFound | overdrive2opus.py:314 | a name with such an ending is found by the search |
| Patterns.StampSuffixOfMatch | overdrive2opus.py:314 | a match anywhere means the name has such an ending |
| Probe.IntOfFormatted | overdrive2opus.py:113-117 | `_int` reads back every integer written in decimal, at any width |
| Probe.ResolveTrackSpec | overdrive2opus.py:135-152 | an integer `track` tag wins; otherwise a missing title is `KeyError`; otherwise the leftmost `- Part N` gives N; and `LookupError` comes exactly when no position of the title matches |
| Probe.TrackFromTitle | overdrive2opus.py:135-152 | with no track tag, the title "My Book - Part 3" gives track 3 |
| Probe.ExtractMarkers | overdrive2opus.py:161-177 | the marker loop computes the chapter list `Probe.Chapters` defines, or fails exactly when it does |
| Probe.NoTimeAfterFailure | overdrive2opus.py:170-171 | once a `Time` child fails to parse, the marker fails whatever children follow |
| Probe.NoChaptersAfterFailure | overdrive2opus.py:170-171 | once a marker fails, the whole extraction fails whatever markers follow |
| Probe.LastNameWins | overdrive2opus.py:165-169 | the name is the text of the last `Name` child that has text |
| Probe.NameDefault | overdrive2opus.py:165 | without such a child the name is 'Unknown name' |
| Probe.LastTimeWins | overdrive2opus.py:166-171 | a marker that parses takes its time from the last `Time` child that has text |
| Probe.TimeDefault | overdrive2opus.py:166 | without such a child the time is 0 |
| Probe.TimeFails | overdrive2opus.py:170-171 | a marker fails iff one of its `Time` children has text that `_ts_from_time` rejects |
| Probe.Markers | overdrive2opus.py:164 | every element of the marker list is a `Marker` element |
| Probe.MarkersPlaces | overdrive2opus.py:164 | the marker list is all the `Marker` elements in their order: each lands at the place the elements before it had reached, places grow strictly from a marker to any later element, and every place holds a marker put there |
| Probe.OthersSkipped | overdrive2opus.py:163-175 | non-`Marker` elements change nothing: extraction over all elements equals extraction over the `Marker` elements |
| Probe.ChaptersFail | overdrive2opus.py:163-177 | extraction over markers succeeds iff every marker's time parses |
| Probe.ChapterPerMarker | overdrive2opus.py:163-177 | a successful extraction yields one chapter per marker, in document order, each with that marker's name and time |
| Probe.Fields | overdrive2opus.py:126-133 | the record has exactly the seven text fields as keys |
| Probe.GetMetadata | overdrive2opus.py:120-179 | running the marker loop gives the record or error that `get_metadata` specifies |
| Probe.MetadataOk | overdrive2opus.py:120-179 | a record exists only when tags and duration do; it names the file it was read from, its track is the resolved track, its duration is `float(duration)`, each field is the unescaped tag or `None`, and its chapters are one per `Marker` in order |
| Probe.NoMarkersNoChapters | overdrive2opus.py:157-160 | without the media-markers tag, the file succeeds iff its track and duration resolve, and then it has no chapters |
| Probe.BadTimeSpec | overdrive2opus.py:170-171 | once track, duration and XML are fine, the file fails with `ValueError` iff some marker has a `Time` text that does not parse |
| Folder.NormalizeExtSpec | overdrive2opus.py:68-72 | the normalized extension is empty iff none or an empty one was given, otherwise starts with '.' and ends with the given text, equals it iff it already starts with '.', and is at most one character longer; normalizing again changes nothing |
| Folder.WithExtSpec | overdrive2opus.py:76-81 | the filter keeps exactly the files whose suffix matches, case-sensitively or after lower-casing |
| Folder.WithExtPlaces | overdrive2opus.py:76-81 | the filter keeps the matching files in listing order: each matching file sits at the place counted by the matching files before it, later files sit later, and every place holds a matching file |
| Folder.ListFilesSpec | overdrive2opus.py:67-82 | `_list_files` returns exactly the files matching the normalized extension, or all of them when there is no extension, in listing order (same placement, strict order and cover as for the filter) |
| Folder.UpperCaseSuffix | overdrive2opus.py:80-81 | a ".MP3" file is listed for the extension "mp3" |
| Folder.LexLessTransitive | overdrive2opus.py:189 | path comparison is transitive |
| Folder.LexLessIrreflexive | overdrive2opus.py:189 | no path is smaller than itself |
| Folder.SmallerTransitive | overdrive2opus.py:189 | the (size, path) order is transitive |
| Folder.LargestSpec | overdrive2opus.py:189 | `max` returns a member of the list that no member exceeds in (size, path) |
| Folder.ChooseImageSpec | overdrive2opus.py:188-191 | there is no image iff no file is a jpg; otherwise the image is a jpg of the folder that no jpg exceeds in (size, path) |
| Folder.InsertPermutes | overdrive2opus.py:198 | one insertion step adds exactly the inserted track |
| Folder.InsertSorted | overdrive2opus.py:198 | one insertion step keeps the list ordered by track |
| Folder.InsertStable | overdrive2opus.py:198 | one insertion step puts the new track after the tracks with the same number |
| Folder.SortSpec | overdrive2opus.py:198 | `files_meta.sort` leaves the tracks ordered by track number and a permutation of the input |
| Folder.SortStable | overdrive2opus.py:198 | tracks with equal numbers keep their input order (the sort is stable) |
| Folder.SortSorted | overdrive2opus.py:198 | an already ordered list is left as it is |
| Folder.SortCounts | overdrive2opus.py:198 | sorting keeps the total duration and the total chapter count |
| Folder.Aggregate | overdrive2opus.py:202-213 | the loop computes `Folder.Timeline` and the sum of the durations |
| Folder.TimelineLength | overdrive2opus.py:205-207 | the timeline has exactly as many chapters as the tracks together |
| Folder.TimelineAt | overdrive2opus.py:205-209 | chapter i of track k sits at position (chapters before track k) + i, with its time offset by the durations of all earlier tracks |
| Folder.TimelineBounded | overdrive2opus.py:205-213 | when every chapter lies within its track, every timeline time lies between 0 and the total duration |
| Folder.TimelineSorted | overdrive2opus.py:205-213 | when every track's chapters are in time order and within the track, the folder timeline is in time order |
| Folder.AllMetadataSpec | overdrive2opus.py:195 | reading the files succeeds iff every file reads, and then gives one record per file in listing order; otherwise it fails with the error of the first file that fails |
| Folder.GetFieldFirst | overdrive2opus.py:217-224 | `_get_field` returns the value of the first track whose field is not `None` |
| Folder.GetFieldUnknown | overdrive2opus.py:224 | with no such track it returns 'Unknown' |
| Folder.EmptyValueWins | overdrive2opus.py:221 | an empty value on the first track is returned, not skipped |
| Folder.FolderTitleSpec | overdrive2opus.py:226-235 | a known album is the title; otherwise the title is the title field with its trailing `Part N` cut at the leftmost match |
| Folder.GuessedTitle | overdrive2opus.py:226-235 | with no album and the first title "My Book - Part 3", the title is "My Book" |
| Folder.GetFolderMetadata | overdrive2opus.py:182-243 | running the timeline loop gives the record or error `Folder.FolderMetadata` defines |
| Folder.FolderMetadataSpec | overdrive2opus.py:182-243 | the folder's tracks are ordered by number, a stable permutation of the files read; it has their chapter count and total duration; and the album is the title + " - Overdrive" |
| Encode.ClampSpeed | overdrive2opus.py:257-259 | the speed used is at least -99, unchanged from -99 up, -50 below -99, and zero exactly when the given speed is zero |
| Encode.SpeedFactor | overdrive2opus.py:260 | `speed_float` is at least 0.01, so it is always positive, and it is 1 exactly when the speed is 0 |
| Encode.OpusArgs | overdrive2opus.py:275-335 | the opusenc command is the fixed head, three comments, the chapter comments, the picture and the output, in that order |
| Encode.AddChapters | overdrive2opus.py:306-329 | the chapter loop appends exactly the comment pairs of the selected chapters, numbered from 1 |
| Encode.KeptLast | overdrive2opus.py:306-328 | `prev_name` after the first n chapters is the name of the last clean chapter (neither indented nor stamped) among them, and `None` iff there is none |
| Encode.KeptStep | overdrive2opus.py:307-328 | chapter i is kept iff it is clean and the nearest clean chapter before it, if any, has another name; a kept chapter goes at the end |
| Encode.KeptPlaces | overdrive2opus.py:306-328 | the kept chapters are exactly the chapters with a new name, in input order: each lands at the place its predecessors had reached, places grow strictly, and every place holds such a chapter |
| Encode.KeptClean | overdrive2opus.py:309-319 | the kept chapters come from the input, none is indented or stamped, and no two neighbours share a name |
| Encode.KeptNames | overdrive2opus.py:317-319 | every chapter that is not indented or stamped keeps its name in the output, through itself or an equal neighbour |
| Encode.CleanKept | overdrive2opus.py:309-319 | an input that is already clean is kept whole |
| Encode.KeptIdempotent | overdrive2opus.py:306-329 | filtering the kept chapters again drops nothing |
| Encode.CommentsNumbered | overdrive2opus.py:321-327 | kept chapter i fills exactly comments 4i to 4i+3, numbered i+1, with no gaps |
| Encode.CommentsLength | overdrive2opus.py:322-327 | each kept chapter contributes exactly four arguments |
| Encode.ChapterKeys | overdrive2opus.py:323 | `%02d` is a minimum width, so the 100th chapter is "CHAPTER100", and the number always reads back from the key |
| Encode.ScaledWithinTotal | overdrive2opus.py:318-323 | a folder with files gets both commands; in the opusenc command every i-th chapter written gets `CHAPTERnn=` followed by `_time2str` of its time divided by `speed_float`, and a chapter that starts within the book has its scaled start within the progress total `duration / speed_float` of line 419 |
| Encode.ClampPercent | overdrive2opus.py:363-366 | the normalisation target lies in [0, 100] and is unchanged inside it |
| Encode.PeakReadsBack | overdrive2opus.py:369-374 | the peak written into `dynaudnorm` reads back as the clamped target / 100, a value in [0, 1] |
| Encode.AtempoReadsBack | overdrive2opus.py:378 | the `atempo` value written with `%f` reads back as `speed_float` |
| Encode.AddInputs | overdrive2opus.py:349-353 | the input loop appends `-i file` for every file and the labels `[0:a]` to `[n-1:a]` |
| Encode.InputArgsSpec | overdrive2opus.py:350-352 | arguments 2i and 2i+1 are "-i" and the path of file i |
| Encode.FfmpegArgs | overdrive2opus.py:339-386 | the ffmpeg command is the head, the inputs, and the filter graph made of labels, concat, arnndn, dynaudnorm, atempo and the user filter in that order, then the wav output |
| Encode.AddStages | overdrive2opus.py:355-382 | appending the stages in turn to the input labels gives `Encode.FilterGraph`: concat, then arnndn, dynaudnorm, atempo and the user filter, each only when its option asks for it |
| Encode.Encode | overdrive2opus.py:257-273 | an empty folder is `FileNotFoundError`; otherwise both commands and the progress total `duration / speed_float` are the ones `Encode.EncodePlan` defines |
| Progress.TimeGroupSpec | overdrive2opus.py:424 | a match of `\s*time\s*=\s*(\S+)\s*` is whitespace, "time", whitespace, '=', whitespace, then a maximal non-empty run of non-space characters forming the group |
| Progress.TimeFieldWord | overdrive2opus.py:433-435 | the captured time text is non-empty and has no whitespace |
| Progress.TimeFieldNone | overdrive2opus.py:433-434 | a line gives no match iff the pattern matches at no position |
| Progress.TimeFieldFirst | overdrive2opus.py:433-435 | the group comes from the leftmost position where the pattern matches |
| Progress.NoTimeWord | overdrive2opus.py:433 | a line without a 't' gives no match |
| Progress.TimeFieldOfStats | overdrive2opus.py:424-435 | on a stats line "... time=T ..." whose prefix has no 't', the captured text is exactly T |
| Progress.FollowProgress | overdrive2opus.py:426-440 | the loop over the lines computes the outcome `Progress.Follow` defines, and with progress off nothing moves |
| Progress.FailureStays | overdrive2opus.py:436 | after a time the parser rejects, no later line changes the outcome |
| Progress.FailureIffBad | overdrive2opus.py:436 | the loop fails iff some line's time text does not parse |
| Progress.CursorIsMax | overdrive2opus.py:437-439 | the cursor is the larger of 0 and every time read before a failure: at least each of them, and 0 or one of them |
| Progress.AdvancesPositive | overdrive2opus.py:438-440 | every advance given to the bar is positive |
| Progress.AdvancesSum | overdrive2opus.py:437-440 | the advances add up to the final cursor |
| Progress.CursorMonotone | overdrive2opus.py:437-439 | the cursor never decreases from one line to the next |

## Left out

- Process I/O is not modelled: launching ffprobe, ffmpeg and opusenc, the pipe between them, `poll`/`wait`, and the end of the read loop (overdrive2opus.py:94-110, 392-408, 427, 441-442). The stats lines are given as a finite sequence.
- `json.load`, `ET.fromstring` and `html.unescape` are library calls. The `format` object is a given `Format` value, and the other two are function parameters.
- Directory iteration, `is_file` and `stat` are not modelled. A folder is a given sequence of (path, suffix, size) records of regular files.
- Paths are compared as strings. Files of one folder share their parent, so comparing `Path`s reduces to comparing names.
- `_get_noise_model` downloads a file. Its path is an optional input of the filter-graph builder.
- `folder.with_suffix('.opus')` is not modelled. The output name is an input.
- `_str2bytes` is not modelled. Arguments stay strings.
- Logging, the rich progress bar, `bar.update`, the `TextIOWrapper` line splitting and argparse are not modelled (overdrive2opus.py:402, 410-422, 443-509). The progress loop yields the sequence of advances that would be passed to the bar.
- Floating-point rounding is not modelled. Times are exact reals, so `ret * 60 + float(n)`, `time + delta`, `time / speed_float` and `duration / speed_float` are exact.
- `%f` formatting is modelled on the exact real with round-half-even. That is how Python rounds the value it holds.
- `float()` parsing is partial. The model accepts surrounding whitespace, an optional sign and `digits[.digits]` or `.digits`. It does not accept exponents, `inf`, `nan`, underscores or non-ASCII digits.
- `int()` parsing is partial. It does not accept underscores or non-ASCII digits. The regex `\d` is likewise ASCII only.
- `str.lower` and the `IGNORECASE` flag are modelled for ASCII letters only.
- Folder.SortByTrack: `list.sort` sorts in place with Timsort. The model is a stable insertion sort on a sequence, proved ordered, a permutation and stable. The in-place update is not captured.
- Encode.Encode: the `bitrate` argument is an integer, as argparse delivers it.
