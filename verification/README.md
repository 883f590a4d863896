# google-photos-cleaner, the per-file step, in Dafny

google-photos-cleaner copies every photo and video found under a scan
directory into an output directory. Each file is sorted into one of six
buckets: `safe`, `unsafe`, `corrupted`, `warnings`, `duplicates` and
`changed-extensions`. The copy gets a canonical name
`YYYY-MM-DD-HH-mm-ss.<size>.<extension>`, and its capture date is written
back into it with ExifTool. This project models the callback that
`eachSeries` runs on each file in `index.js`, and proves what it does. The
callback does five things:

- **Validation** (`validation.dfy`) folds the report of `exiftool -validate
  -error -warning` line by line into a status (`ok`, `error`, `warning`,
  `change extensions`) and a final extension. The last line that assigns a
  status wins. A "wrong extension" line takes its new extension from the
  `be (\w+), not (\w+)` pattern. `ClassifyReport` is the loop of the source,
  proved equal to the fold `Classify`.
- **Date resolution** (`resolver.dfy`, `dates.dfy`) turns the `exiftool
  -time:all -a -s` report into a tag map. It then resolves the date. The
  first of `CreateDate`, `DateTimeOriginal`, `DateCreated` and
  `FileCreateDate` with a value is parsed with `YYYY:MM:DD HH:mm:ss`. Failing
  that, the `photoTakenTime.timestamp` of the Google Takeout JSON sidecar is
  used. Failing both, the earlier of the file's change and modification
  times is used. Only the first two count as safe.
- **Identity** (`identity.dfy`) builds the output name and picks the bucket
  from the status and the safe flag.
- **Placement** (`placement.dfy`) models the output directory as a map
  from each file path written under it to the source file copied there.
  The class `Organizer` holds this map together with `currentFileIndex`,
  the ExifTool write calls issued and the two console streams. `CopyTo`
  copies a file to its target when the target is free. Otherwise
  `Duplicate` copies it to `duplicates/<name>/<index>_<name>`. The date is
  written only into a file copied to its own target. `next` echoes the raw
  report for errors and warnings, advances the index and prints the
  progress line.
- `text.dfy` and `reports.dfy` hold the string operations the source leans
  on. These are `trim`, `toLowerCase`, `split`/`join`, `includes`,
  `startsWith` and decimal rendering, plus the shared "drop blank lines,
  split at the first colon" reading of ExifTool reports.

A run is also described as a value. `Step` gives the state after one file:
its tree, index, writes and both console streams. `RunAll` chains these
steps over the files in order. `ProcessFile`, `ProcessAll` and `Clean` each
prove that the object ends in exactly the state this fold describes. The
main invariant of the placement is `Organizer.Valid`: every duplicate path
already in the tree carries an index below `currentFileIndex`. From it, the
methods prove two things. Each file lands at exactly one new path, its target
or the duplicate path of its position. Nothing already copied is ever
overwritten. Lemmas about the fold add more: the progress lines count from 1
to the number of files, and every date written stamps a copy at its own
target. A file seen twice leaves one copy at its target, stamped when the file has
a date, and one duplicate.

Two behaviours of the code are easy to miss:

- Duplicate copies are numbered by the process-wide `currentFileIndex`, not
  by a counter per file name. That index is incremented in `next`, after the
  copy, so the `k`-th file (counting from 0) gets the prefix `k`.
- Only the first date tag that has a value is parsed. A later tag that would
  parse is ignored when the first one does not (`Resolver.FirstTagOnly`).

## Model

| member | source | states |
|---|---|---|
| Text.TrimStartShape | index.js:118 | trimming the front removes exactly a run of leading whitespace and leaves a suffix that starts with a non-space |
| Text.TrimEndShape | index.js:118 | trimming the end removes exactly a run of trailing whitespace and leaves a prefix that ends with a non-space |
| Text.TrimEmptyIffBlank | index.js:115 | `s.trim().length > 0` fails exactly for lines made only of whitespace |
| Text.TrimUnchanged | index.js:118 | a string with no whitespace at either end is its own trim |
| Text.IndexOf | index.js:117 | the position of the first occurrence: the character is there and not before it |
| Text.LastIndexOf | index.js:74-77 | the position of the last occurrence: the character is there and not after it |
| Text.SplitOnPieces | index.js:117 | no piece of `split(c)` contains `c` |
| Text.SplitOnJoin | index.js:119-121 | joining the pieces of a split with the same separator gives the string back, so `slice(1).join(":")` is all the text after the first colon |
| Text.SplitJoin | index.js:117 | splitting a join of separator-free pieces gives the pieces back |
| Text.FirstSeparator | index.js:117 | in `a + c + b` with `c` not in `a`, the first `c` is at position `|a|` |
| Text.NatToString | index.js:151 | the decimal text of a number is non-empty and made only of digits |
| Text.DecimalRoundTrip | index.js:198-200 | reading the decimal text of `n` back gives `n` |
| Text.NatToStringInjective | index.js:198-200 | different numbers have different decimal texts |
| Reports.KeepNonBlankAppend | index.js:115 | filtering a concatenation filters each part and keeps their order |
| Reports.KeepNonBlankSingle | index.js:115 | a single line is kept exactly when it is not blank; with the previous row, the filter keeps every non-blank line, in order, and nothing else |
| Reports.KeepNonBlankMembers | index.js:115 | a line is among the kept lines exactly when it is one of the input lines and not blank |
| Reports.NonBlankLinesOfJoin | index.js:113-115 | a report written as lines joined by line feeds reads back as exactly its non-blank lines, in order |
| Reports.BlankReportHasNoLines | index.js:113-115 | a report made only of whitespace has no lines |
| Reports.AllBlankDropped | index.js:115 | the filter drops every blank line |
| Reports.KeyValueAtFirstColon | index.js:117-122 | the key is the trimmed text before the first ':' and the value the trimmed text after it, later colons included; a line without ':' has an empty value |
| Reports.KeyValueOfPair | index.js:167-172 | a `key:value` line whose key has no colon reads back as the trimmed key and the trimmed value |
| Validation.WordEnd | index.js:134 | `\w+` runs greedily: every character up to the end is a word character and the next one is not |
| Validation.ClassifyReport | index.js:104-144 | the loop over the report lines computes exactly the status and extension of the fold `Classify`, starting from `ok` and the file's own extension |
| Validation.ClassifyLine | index.js:116-143 | one run of the `forEach` callback updates the status and extension exactly as one step `StepLine` of the fold on the line's key and value |
| Validation.CorrectExtension | index.js:133-137 | the extension becomes the lowercased first group of the last `be X, not Y` match, and stays as it was when there is none |
| Validation.NoDiagnostics | index.js:104-144 | a blank report leaves the file `ok` with its own extension |
| Validation.LastWriteWins | index.js:116-143 | the final status is the one assigned by the last line that assigns any |
| Validation.NothingAssigned | index.js:124-127 | lines that assign no status leave status and extension as they were |
| Validation.ValidateLine | index.js:124-127 | a `Validate` line sets `ok` exactly when its value is `ok` or contains `all minor`, and never sets `error` |
| Validation.ErrorLine | index.js:128-132 | any other line whose key or value contains "error" in any case sets `error` |
| Validation.ExtensionIsLastCorrection | index.js:133-138 | the final extension is the lowercased last capture over all wrong-extension lines, or the file's own extension when there is none |
| Validation.SkipNoMatch | index.js:134-137 | positions without a match add no capture |
| Validation.NoMatchAfter | index.js:134-137 | a tail without `be ` yields no capture |
| Validation.WordRun | index.js:134 | the end of the `\w+` run is the first non-word character |
| Validation.MatchOfCorrection | index.js:134 | `be X, not Y`, with word runs X and Y and a non-word character after Y, matches and captures X |
| Validation.MatchShape | index.js:134 | conversely, every match is such an occurrence: `be `, the captured group as a whole non-empty word run, `, not `, and a second non-empty word run that ends where the match ends and is not followed by a word character |
| Validation.CorrectionCaptures | index.js:133-137 | a message with one `be X, not Y` in it captures exactly `[X]` |
| Validation.WrongExtensionLine | index.js:133-138 | ExifTool's "File has wrong extension, should be MOV, not mp4" line turns the verdict into `change extensions` with extension `mov` |
| Dates.PadFits | index.js:198-200 | a zero-padded field has the width of the format and reads back as its number |
| Dates.ScanRender | index.js:177-183 | parsing a formatted date with the same pattern gives its fields back, whatever follows |
| Dates.RenderScan | index.js:177-183 | a parsed prefix, formatted again, is exactly the text it was read from |
| Dates.ExifRoundTrip | index.js:177-203 | for years 0 to 9999, a date formatted for ExifTool parses back to the same date |
| Dates.ExifCanonical | index.js:177-183 | a parsed date formats back to the first 19 characters of the tag it came from |
| Dates.StampInjective | index.js:198-200 | two dates with four-digit years have the same name stamp exactly when they are equal |
| Dates.YearOf | index.js:188 | a day count splits into a year and a day within that year |
| Dates.MonthOf | index.js:188 | a day of the year splits into a month and a day within that month |
| Dates.FromEpochMs | index.js:188 | `moment(ms)` in a fixed-offset zone always gives a valid calendar date |
| Dates.CalendarOf | index.js:188 | a day number and a second of the day give a valid calendar date |
| Dates.EpochRoundTrip | index.js:188 | the date of an instant lies on the instant's second, shifted to local time |
| Dates.EpochOfDate | index.js:188 | every valid date is the date of some instant |
| Resolver.TimeFieldsKeys | index.js:166-175 | the tag map holds exactly the keys of the report lines |
| Resolver.LastValueWins | index.js:173 | a tag reported twice keeps the value of its last line |
| Resolver.FirstNonEmptyChoice | index.js:177-181 | the `||` chain yields nothing exactly when all four tags are empty or missing, and otherwise the first one with a value |
| Resolver.Resolve | index.js:177-196 | the resolved date is always a valid calendar date |
| Resolver.ResolveCases | index.js:177-196 | the embedded date wins, then the sidecar date; the date is safe exactly when one of them exists, and otherwise it is the earlier file time |
| Resolver.EmbeddedCanonical | index.js:177-203 | an embedded date is written back exactly as its tag's first 19 characters, with local time a fixed offset (see Left out) |
| Resolver.CreateDateDecides | index.js:177-183 | a `CreateDate` that parses decides a safe date, whatever the other sources say |
| Resolver.FirstTagOnly | index.js:177-192 | whichever of the four tags is the first with a value, when its text does not parse the date is safe exactly when the sidecar gives one, and is then the sidecar date |
| Resolver.SidecarSecond | index.js:185-190 | a sidecar date lies on the sidecar's second, shifted to local time |
| Resolver.FallbackIsEarlier | index.js:194-196 | an unsafe date is the second of the earlier file time, never later than either time |
| Identity.BucketFor | index.js:205-223 | the switch finds a bucket for every status except `error`, which reaches the throwing default |
| Identity.BucketRouting | index.js:205-218 | `ok` goes to safe exactly when the date is safe and to unsafe otherwise; `warning` goes to warnings and `change extensions` to changed-extensions; no status goes to corrupted or duplicates |
| Identity.DirNamesDistinct | index.js:19-24 | the six bucket names are distinct and contain no '/' |
| Identity.BucketPathInjective | index.js:19-24 | two bucket paths are equal exactly when bucket and name are |
| Identity.OutputFileNameInjective | index.js:198-200 | two output names are equal exactly when date, size and extension are |
| Identity.SameOutputPath | index.js:198-223 | for dates with four-digit years only (see Left out), two files collide exactly when they share bucket, date, size and extension |
| Placement.LastSegment | index.js:81-82 | the last piece of `split("/")` contains no '/' |
| Placement.LastSegmentOf | index.js:81-82 | the last segment of `dir/name` is `name` for any directory |
| Placement.ExtensionAfterLastDot | index.js:74-77 | for a name `stem.ext` whose `ext` has no '.', the extension is `ext` lowercased; it is empty when the stem is empty (a dotfile) or the name is ".." |
| Placement.ExtensionWithoutDot | index.js:74-77 | a name without '.' has no extension |
| Placement.DuplicateInDuplicates | index.js:83-88 | every duplicate copy lies under `duplicates/` |
| Placement.BucketOutsideDuplicates | index.js:19-24 | no other bucket's path lies under `duplicates/` |
| Placement.DuplicatePathInjective | index.js:83-88 | two duplicate paths are equal exactly when name and index are |
| Placement.PlanFile | index.js:104-223 | the classification, dating, naming and bucket switch of the callback compute exactly the plan `PlanFor` |
| Placement.PlanTargets | index.js:156-223 | a corrupted file keeps its name in `corrupted/` and gets no date; every other file gets a date and a target in the bucket of its status; no target lies under `duplicates/` |
| Placement.Organizer.constructor | index.js:60-61 | an empty output tree, index 0, no writes and no output, satisfying the invariant |
| Placement.Organizer.Duplicate | index.js:79-89 | the file goes to the duplicate path of the current index, which was free; a "Duplicate" line is warned; the invariant moves one index on |
| Placement.Organizer.CopyTo | index.js:91-99 | the file is copied to the target exactly when the target is free, else to a free duplicate path; nothing is overwritten |
| Placement.Organizer.Next | index.js:146-154 | the raw report is echoed for errors and warnings, the index advances by one and the progress line carries the new index |
| Placement.Organizer.Place | index.js:225-234 | the copy, then the four-tag ExifTool write on the target, only when the copy went to the target and a date is given |
| Placement.Organizer.ProcessFile | index.js:65-236 | the whole callback: tree, index, writes, stdout and stderr become exactly `Step` of the old state; the file lands at one new path, its target when free and otherwise the duplicate path of the old index |
| Placement.Organizer.ProcessAll | index.js:63-237 | over a run the state becomes exactly `RunAll` of the old state; each file lands at its own new path, either its target or the duplicate path of its position; nothing present before changes |
| Placement.RunAllCounts | index.js:146-154 | a run advances the index by one per file; the k-th progress line carries the k-th file and the number start+k+1; there is at most one write per file |
| Placement.RunStampsCopies | index.js:225-234 | every ExifTool write of a run stamps a copy in the tree at a path outside `duplicates/`, never a duplicate copy |
| Placement.SameFileTwice | index.js:79-99 | the same file found twice: the first copy goes to its target and is stamped when the plan has a date; the second goes to `duplicates/<name>/1_<name>`, is warned about and not stamped |
| Placement.Clean | index.js:56-244 | from an empty output directory, the end state is exactly `RunAll` over the files; the tree holds one path per file and every source path is copied; there is one progress line per file, numbered from 1; there are at most as many writes as files, each stamping a copy at its own target |

## Left out

- Reading the files is left out: the ExifTool processes, `statSync` and the JSON sidecar. What they return becomes the fields of `MediaFile`. The copy is modelled by its effect on the tree; the bytes copied are not.
- The command-line handling, the bootstrap of the output directory and the glob search (index.js:1-59) are not modelled. Neither is the final error callback of `eachSeries` (index.js:238-243). `Clean` starts from an empty output tree.
- Directories are implicit in the tree. `mkdirpSync` of a duplicates sub-directory has no separate effect.
- The ExifTool write is recorded as its argument list. What it does to the copy, and its output, which the source ignores, are not modelled.
- Dates.ParseExif: accepts exactly `YYYY:MM:DD HH:mm:ss` in the first 19 characters, with any text after it. It is stricter than moment's forgiving parser, which also takes other separators, shorter fields, hour 24 and a date with no time part. Moment reads IPTC `DateCreated` text such as "2021:05:01" as midnight, so the source files that picture as safe. The model returns no date for it and falls through to the sidecar or the file times.
- Dates.FromEpochMs: local time is a fixed offset from UTC (`offsetMs`). Daylight-saving changes are not modelled.
- Dates.ParseExif: a tag's text is read as a local date-time with no time zone attached. In a zone with daylight saving, moment shifts a time that falls in a spring-forward gap. For example, "2021:03:28 02:30:00" in Europe/Paris becomes 03:30:00. The model does not shift it.
- Resolver.EmbeddedCanonical: it says the written date is exactly the tag's first 19 characters. That holds only where local time is a fixed offset. A tag inside a daylight-saving gap is written back shifted by the source.
- Resolver.SidecarDate: the sidecar date exists only when its time lies within 8.64e15 ms of the epoch (`EpochInRange`), the range of ECMAScript dates. A timestamp is whole seconds or not a number. A sidecar without `photoTakenTime` makes the source throw, and that crash is not modelled. Neither are fractional or numeric-string timestamps.
- Identity.OutputFileNameInjective: proved for four-digit years only. Other years format to another width.
- Identity.SameOutputPath: proved for four-digit years only, because it rests on `OutputFileNameInjective`.
- The output tree compares paths as exact strings. On a case-insensitive file system, `pathExistsSync` (index.js:92) treats `corrupted/IMG.JPG` and `corrupted/img.jpg` as one path. The source then sends the second file to the duplicates directory. The model copies both to their own targets.
- Text.Lower: lowercases ASCII letters only. No other character lowercases to a letter of "error", so the error checks are exact.
- Resolver.TimeFields: a tag named `__proto__` or another `Object.prototype` name is an ordinary key here.
- Placement.LastSegment: `path.basename(file)` is taken to be the text after the last '/'. Paths ending in '/' do not occur among globbed files.
- The process-wide `throw` of the switch's default branch is unreachable: `error` returns earlier. It is modelled as the `None` of `Identity.BucketFor`.
