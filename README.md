# excommunicado — a Dafny model of the media sorter

`excommunicado_refactor.py` walks a directory tree of photos and videos. For
each file it finds a capture date and a device name, and moves the file to
`<directory>/<device>/Y<YYYY>-M<MM>-D<DD>_h<HH>-m<MM>-s<SS>_IMG<ext>`. If that
name is taken it adds a `-1`, `-2`, ... suffix.

The date comes from the first source that has one:

1. exiftool's `Date/Time Original`;
2. otherwise mdls's `kMDItemFSCreationDate`;
3. otherwise ffprobe's creation time;
4. otherwise the file is skipped.

The date text is read by `parse_date`, which tries four `strptime` formats in
order. The device name is exiftool's `Camera Model Name`, or `Unknown Device`
when that entry is missing. The walk does not descend into sub-directories
named `Unknown`.

The model has six modules:

- `Wrappers`: `Option`.
- `Text`: the parts of Python's `str` the program relies on. These are
  `strip`, `splitlines`, `in`, `split(sep, 1)`, ASCII `lower`, `str(n)` and
  zero-padded `%02d`/`%04d`.
- `Providers`: the parsers of the three tools' output. Each is a
  specification function, and `get_exif_data` and `get_creation_date` are
  also methods with loops proved equal to that function.
- `Dates`: `parse_date` as a first-match loop over the four formats. Each
  format is read as fixed-width digit fields with range checks.
- `Naming`:
  - `os.path.join` and `os.path.splitext`;
  - the base name and the device default;
  - `create_unique_filename`, as a `while` loop proved against the least
    free suffix.
- `Orchestrator`: the body of `process_files`. This covers:
  - the fallback chain and its exception handling;
  - the placement decision;
  - a `FileTree` class whose `listing` (directory to names) is changed by
    `MakeDirs` and `Move`;
  - a `WalkStep` class whose `dirs` is pruned in place;
  - the loop over one walk step's files.

Nothing outside the program is modelled as running. A `Probe` records, for
one file, each tool's printed output or raised exception, and whether
`os.makedirs` or `shutil.move` fails. The file system is a map from each
directory path to the set of names in it.

## Model

| member | source | states |
|---|---|---|
| `Text.Strip` | excommunicado_refactor.py:30 | Definition of `str.strip()` (also at lines 38 and 43); its meaning is given by `Text.StripSpec` and `Text.StripIsUnique`. |
| `Text.StripSpec` | excommunicado_refactor.py:30 | `strip()` leaves a piece of the text with no whitespace at either end, and everything it removed is whitespace. |
| `Text.StripIsUnique` | excommunicado_refactor.py:30 | Only one such piece exists, so `Strip` is exactly Python's `strip()`. |
| `Text.SplitLines` | excommunicado_refactor.py:27 | No line `splitlines()` returns holds a line break. |
| `Text.SplitJoinLines` | excommunicado_refactor.py:27 | Lines without breaks, joined with `\n`, split back into the same lines. |
| `Text.FirstIndex` | excommunicado_refactor.py:29 | `split(':', 1)` cuts at the first occurrence: the character there is the separator and none comes before it. |
| `Text.HasSubstring` | excommunicado_refactor.py:36 | Definition of Python's `p in s` on strings, as in `'kMDItemFSCreationDate' in line`; it is used by `Providers.CreationDateFirstMarker` to say which lines are marker lines. |
| `Text.LowerAscii` | excommunicado_refactor.py:115 | `lower()` keeps the length, leaves no upper-case letter, and changes only upper-case letters, each to its lower-case form. |
| `Text.LowerAsciiIdempotent` | excommunicado_refactor.py:115 | Lowering an already lowered extension changes nothing. |
| `Text.Digits` | excommunicado_refactor.py:111-112 | `%Y` and `%m`…`%S` write a field in exactly 4 (or 2) digits that read back as the field. |
| `Text.NatToString` | excommunicado_refactor.py:50 | `str(counter)` is a run of digits with no leading zero that reads back as `counter`. |
| `Text.NatToStringInjective` | excommunicado_refactor.py:50 | Different counters give different suffixes. |
| `Text.DigitsValueInjective` | excommunicado_refactor.py:111-112 | A digit run of a given width is determined by its value. |
| `Providers.EntryKey` | excommunicado_refactor.py:29-30 | Definition of `key.strip()` after `line.split(':', 1)`; `Text.FirstIndex` states where the split cuts and `Text.StripSpec` what the strip keeps. |
| `Providers.EntryValue` | excommunicado_refactor.py:29-30 | Definition of `value.strip()` after `line.split(':', 1)`; `Text.FirstIndex` states where the split cuts and `Text.StripSpec` what the strip keeps. |
| `Providers.ExifMap` | excommunicado_refactor.py:26-31 | Definition of the dictionary `get_exif_data` builds; its meaning is given by `Providers.ExifMapHasKey` and `Providers.ExifMapValue`. |
| `Providers.ExifData` | excommunicado_refactor.py:24-31 | The loop over exiftool's lines builds exactly `ExifMap` of them. |
| `Providers.ExifMapHasKey` | excommunicado_refactor.py:27-30 | A key is in the dictionary iff some line containing `:` has that stripped key; lines without `:` add nothing. |
| `Providers.ExifMapValue` | excommunicado_refactor.py:27-30 | A key's value is the stripped text after the first `:` of the last line with that key, so later lines overwrite earlier ones. |
| `Providers.ExifMapSnoc` | excommunicado_refactor.py:28-30 | Each further line changes the dictionary through its own key only. |
| `Providers.CreationDateOf` | excommunicado_refactor.py:35-39 | Definition of what `get_creation_date` returns or raises; its meaning is given by `Providers.CreationDateFirstMarker`. |
| `Providers.FfprobeDate` | excommunicado_refactor.py:41-43 | Definition: `get_ffprobe_data` returns ffprobe's output stripped; what `strip()` keeps is given by `Text.StripSpec` and `Text.StripIsUnique`. |
| `Providers.CreationDate` | excommunicado_refactor.py:33-39 | The first-match loop over mdls's lines, with early return, gives exactly `CreationDateOf` of them. |
| `Providers.CreationDateFirstMarker` | excommunicado_refactor.py:35-39 | `None` iff no line holds `kMDItemFSCreationDate`. Otherwise the first such line alone decides: the stripped text after its first `=`, or the `ValueError` of the unpacking when it has no `=`. |
| `Dates.Strptime` | excommunicado_refactor.py:58 | Definition of one format's match; its meaning is given by `Dates.ParsedFields`, `Dates.OffsetOnlyFromZoneFormats`, `Dates.AtMostOneFormat` and the example lemmas. |
| `Dates.ParseUtcOffset` | excommunicado_refactor.py:56 | Definition of the `%z` directive; `Dates.OffsetPlus0200` and `Dates.OffsetOnlyFromZoneFormats` state what it gives. |
| `Dates.Fraction` | excommunicado_refactor.py:56 | Definition of the `%f` directive; `Dates.Fraction123456` and `Dates.ParsesIsoUtc` state what it gives. |
| `Dates.FirstMatch` | excommunicado_refactor.py:56-61 | Definition of the first-match loop over the formats; its meaning is given by `Dates.FirstMatchSpec` and `Dates.FirstMatchValid`. |
| `Dates.ParsedDate` | excommunicado_refactor.py:55-61 | A parsed date is a valid `datetime` (year 1–9999, a real day of its month, time to the second, offset under a day). |
| `Dates.ParseDate` | excommunicado_refactor.py:55-61 | The loop over the formats returns exactly `ParsedDate`, or `None` where the source raises `ValueError`. |
| `Dates.FirstMatchSpec` | excommunicado_refactor.py:56-61 | Trying formats in order fails iff every format fails; otherwise it returns what the first matching format returns. |
| `Dates.ParsedDateCases` | excommunicado_refactor.py:56 | The four formats are tried in the listed order. |
| `Dates.AtMostOneFormat` | excommunicado_refactor.py:56 | No text matches two of the four formats. |
| `Dates.ParsedFields` | excommunicado_refactor.py:55-61 | Year, month, day, hour, minute and second are the digits at fixed positions 0–3, 5–6, 8–9, 11–12, 14–15, 17–18, whichever format matched. |
| `Dates.OffsetOnlyFromZoneFormats` | excommunicado_refactor.py:56 | Only the two `%z` formats give a UTC offset. |
| `Dates.ParsesColonDate` | excommunicado_refactor.py:56 | `2023:05:01 10:15:22` gives 2023-05-01 10:15:22, with no microseconds and no offset. |
| `Dates.ExampleStampParses` | excommunicado_refactor.py:58 | The stamp `2023?05?01?10:15:22` with either date separator, and with a space or a `T`, reads as 2023-05-01 10:15:22 with the given fraction and offset. |
| `Dates.ParsesDashDateOffset` | excommunicado_refactor.py:56 | `2023-05-01 10:15:22 +0200` gives the same fields with offset +120 minutes. |
| `Dates.ParsesIsoUtc` | excommunicado_refactor.py:56 | `2023-05-01T10:15:22.123456Z` gives the same fields with 123456 microseconds and no offset. |
| `Dates.ParsesColonDateOffset` | excommunicado_refactor.py:56 | The fourth format, with its offset glued to the seconds, gives the same fields and the offset. |
| `Dates.RejectsNonDate` | excommunicado_refactor.py:61 | `not-a-date` matches no format. |
| `Naming.SplitExt` | excommunicado_refactor.py:115 | Definition of `os.path.splitext(...)[1]`; its meaning is given by `Naming.SplitExtShape`, `Naming.ExtOfJoin` and `Naming.ExtOfStem`. |
| `Naming.Join` | excommunicado_refactor.py:70 | Definition of POSIX `os.path.join` (also at lines 48, 116 and 120); `Naming.ExtOfJoin` states that joining keeps the file's extension. |
| `Naming.LastIndexOf` | excommunicado_refactor.py:115 | `rfind`: the position of the last occurrence, or -1. |
| `Naming.SplitExtShape` | excommunicado_refactor.py:115 | `splitext(...)[1]` is empty or a `.` followed by neither `.` nor `/`, and is a suffix of the path. |
| `Naming.ExtOfJoin` | excommunicado_refactor.py:70 | The extension of `os.path.join(root, file)` is that of the bare name `file`. |
| `Naming.ExtOfStem` | excommunicado_refactor.py:47 | A name made of a dot-free stem and an extension has that extension. |
| `Naming.LowerExtension` | excommunicado_refactor.py:115 | A lowered extension is still an extension. |
| `Naming.BaseName` | excommunicado_refactor.py:111-113 | Definition of `base_name`; its meaning is given by `Naming.BaseNameDecodes`, `Naming.BaseNameSameFields`, `Naming.BaseNameCopiesDigits` and `Naming.BaseNameIsStem`. |
| `Naming.DateStr` | excommunicado_refactor.py:111 | Definition of `strftime('Y%Y-M%m-D%d')`; its layout is given by `Naming.DateStrPieces`. |
| `Naming.HourStr` | excommunicado_refactor.py:112 | Definition of `strftime('h%H-m%M-s%S')`; its layout is given by `Naming.HourStrPieces`. |
| `Naming.DateStrPieces` | excommunicado_refactor.py:111 | `strftime('Y%Y-M%m-D%d')` is 13 characters with the year, month and day digits at positions 1–4, 7–8 and 11–12. |
| `Naming.HourStrPieces` | excommunicado_refactor.py:112 | `strftime('h%H-m%M-s%S')` is 11 characters with the hour, minute and second digits at positions 1–2, 5–6 and 9–10. |
| `Naming.BaseNameDecodes` | excommunicado_refactor.py:111-113 | The base name is 29 characters, with year, month, day, hour, minute and second as zero-padded digits at fixed places. |
| `Naming.BaseNameSameFields` | excommunicado_refactor.py:111-113 | Two date-times get the same base name iff their six calendar fields agree; microseconds and offset play no part. |
| `Naming.BaseNameCopiesDigits` | excommunicado_refactor.py:111-113 | The base name of a parsed date copies the date text's digits. |
| `Naming.BaseNameIsStem` | excommunicado_refactor.py:113 | The base name starts with `Y` and holds no `.` or `/`. |
| `Naming.DateStrNoSeparator` | excommunicado_refactor.py:111 | The `Y%Y-M%m-D%d` text holds no `.` or `/`. |
| `Naming.HourStrNoSeparator` | excommunicado_refactor.py:112 | The `h%H-m%M-s%S` text holds no `.` or `/`. |
| `Naming.DeviceLabel` | excommunicado_refactor.py:109 | Definition of `exif_data.get('Camera Model Name', 'Unknown Device')`; its meaning in terms of exiftool's lines is given by `Orchestrator.DeviceLabelOfLines` and `Orchestrator.DeviceDirectory`. |
| `Naming.Candidate` | excommunicado_refactor.py:47-50 | Definition of the name tried with a given counter value; its meaning is given by `Naming.CandidateInjective` and `Orchestrator.CandidateExt`. |
| `Naming.LeastFreeSuffix` | excommunicado_refactor.py:45-53 | Definition of the counter `create_unique_filename` stops at; its meaning is given by `Naming.LeastFreeSuffixSpec` and `Naming.LeastFreeSuffixIsLeast`. |
| `Naming.CandidateInjective` | excommunicado_refactor.py:47-50 | Different suffixes give different candidate names. |
| `Naming.CandidatesBelowSpec` | excommunicado_refactor.py:47-50 | The candidates for suffixes below `n` are `n` distinct names. |
| `Naming.TakenBound` | excommunicado_refactor.py:49 | If every candidate below `n` exists, the directory holds at least `n` names. This bounds the loop. |
| `Naming.LeastFreeFromSpec` | excommunicado_refactor.py:49-52 | Searching on from `k` ends at a free name with every earlier candidate taken. |
| `Naming.LeastFreeSuffixSpec` | excommunicado_refactor.py:45-53 | The chosen suffix gives a name not in the directory, every smaller suffix gives a taken name, and the suffix is at most the number of names. |
| `Naming.LeastFreeSuffixIsLeast` | excommunicado_refactor.py:45-53 | Those two properties determine the suffix. |
| `Naming.CreateUniqueFilename` | excommunicado_refactor.py:45-53 | The loop terminates. It returns `base+ext` when that is free, otherwise `base-k+ext` for the least free `k`; the result is never an existing name. |
| `Naming.ArrivalsFillSuffixes` | excommunicado_refactor.py:45-53 | Into a directory holding none of the candidates, `n` arrivals with one base name (as `Arrivals` counts them) take `base`, `base-1`, …, `base-(n-1)`: all distinct, and the next file would get `-n`. `Orchestrator.SameInstantFill` and `Orchestrator.SameInstantSuffixes` prove that the loop over `files` fills the device directory this way. |
| `Naming.ArrivalsAfterFirst` | excommunicado_refactor.py:45-53 | Arrivals counted after a first arrival are arrivals counted from the start. |
| `Naming.ArrivalNameShift` | excommunicado_refactor.py:45-53 | The name the i-th arrival gets in a directory that already took one arrival is the name the (i+1)-th gets counted from the start. |
| `Orchestrator.RaisedOutcome` | excommunicado_refactor.py:96-105 | Definition of the two `except` clauses; `Orchestrator.ProviderErrorsStop` states that only a `ValueError` is a bad-date skip. |
| `Orchestrator.FfprobeStep` | excommunicado_refactor.py:85-92 | Definition of the ffprobe branch; its meaning is given by `Orchestrator.FfprobeLast` and `Orchestrator.NoMetadataExactly`. |
| `Orchestrator.MdlsStep` | excommunicado_refactor.py:81-92 | Definition of the mdls branch; its meaning is given by `Orchestrator.CreationDateBeforeFfprobe`, `Orchestrator.MarkerWithoutEqualsSkips`, `Orchestrator.FfprobeLast` and `Orchestrator.ProviderErrorsStop`. |
| `Orchestrator.ParseStep` | excommunicado_refactor.py:83-100 | A date that leaves the chain is a valid date-time. |
| `Orchestrator.DateFor` | excommunicado_refactor.py:79-105 | The whole date chain yields only valid date-times. |
| `Orchestrator.DateChain` | excommunicado_refactor.py:79-105 | The loop body's date steps, run one after the other with their early `continue`s, give exactly the step `DateFor` defines. |
| `Orchestrator.ExifDateDecides` | excommunicado_refactor.py:80-95 | With a `Date/Time Original` entry, only that value is parsed, and mdls and ffprobe never matter. A failed parse skips the file as a bad date. |
| `Orchestrator.CreationDateBeforeFfprobe` | excommunicado_refactor.py:81-83 | Otherwise a non-empty creation date is parsed, the date produced is its parsed value, and ffprobe is not consulted; a failed parse is a bad-date skip. |
| `Orchestrator.MarkerWithoutEqualsSkips` | excommunicado_refactor.py:36-37 | Otherwise a creation-date line without `=` makes the unpacking raise `ValueError`: the file is skipped for a bad date and ffprobe is not consulted. |
| `Orchestrator.FfprobeLast` | excommunicado_refactor.py:84-92 | When the earlier sources gave nothing, ffprobe's stripped output is parsed and its value is the date. Empty output skips the file for missing metadata; a failed parse skips it as a bad date. The other cases, where ffprobe is not consulted, are `Orchestrator.CreationDateBeforeFfprobe` and `Orchestrator.MarkerWithoutEqualsSkips`. |
| `Orchestrator.NoMetadataExactly` | excommunicado_refactor.py:79-92 | A file is skipped for missing metadata iff there is no entry, no non-empty creation date, and ffprobe printed only whitespace. |
| `Orchestrator.ProviderErrorsStop` | excommunicado_refactor.py:96-105 | An exception from mdls or ffprobe ends the chain: a `ValueError` skips the file, anything else is reported. |
| `Orchestrator.Placement` | excommunicado_refactor.py:107-137 | Definition of the naming and moving block, as written; its meaning is given by `Orchestrator.PlacementNeverInPlace`, `Orchestrator.PlacementName` and `Orchestrator.PlacementChanges`. |
| `Orchestrator.FileOutcome` | excommunicado_refactor.py:69-137 | Definition of the loop body for one file; its meaning is given by `Orchestrator.AlreadyInPlaceUnreachable`, `Orchestrator.MovedName`, `Orchestrator.DeviceDirectory` and `Orchestrator.FileOutcomeChanges`. |
| `Orchestrator.PlacementNeverInPlace` | excommunicado_refactor.py:119-127 | For a file present where the walk found it, the "already satisfies" branch is never taken. |
| `Orchestrator.AlreadyInPlaceUnreachable` | excommunicado_refactor.py:69-137 | The same for the whole loop body, whatever the tools report. |
| `Orchestrator.PlacementName` | excommunicado_refactor.py:109-120 | A moved file goes to `directory/<device>` under the candidate with the least suffix free there: a name that was free, starts with the base name and ends in the lowered extension. |
| `Orchestrator.ChosenName` | excommunicado_refactor.py:45-53 | The name `create_unique_filename` returns is not among the existing names, starts with the base name and ends in the extension. |
| `Orchestrator.MovedName` | excommunicado_refactor.py:69-132 | The same for the whole loop body, including the least free suffix: a move means exiftool answered and the chain gave a date. |
| `Orchestrator.DeviceLabelOfLines` | excommunicado_refactor.py:109 | The device is `Unknown Device` when no exiftool line is a `Camera Model Name` entry, and otherwise the value of the last such line. |
| `Orchestrator.DeviceDirectory` | excommunicado_refactor.py:69-132 | A moved file goes under `directory/Unknown Device` when exiftool printed no `Camera Model Name` line, and otherwise under `directory/<value of the last such line>`. |
| `Orchestrator.CandidateExt` | excommunicado_refactor.py:47-50 | Every candidate name has the extension it was built with, and no `/`. |
| `Orchestrator.Names` | excommunicado_refactor.py:49 | Definition of the `os.path.exists` test: a name exists in a directory when it is in that directory's listing. `Orchestrator.WithDirNames` and `Orchestrator.WithMoveNames` state how the listing changes. |
| `Orchestrator.WithDir` | excommunicado_refactor.py:117 | Definition of `os.makedirs(model_dir, exist_ok=True)` on the listing; its meaning is given by `Orchestrator.WithDirNames`. |
| `Orchestrator.WithMove` | excommunicado_refactor.py:129 | Definition of `shutil.move` on the listing; its meaning is given by `Orchestrator.WithMoveNames`. |
| `Orchestrator.WithDirNames` | excommunicado_refactor.py:117 | `makedirs` adds no name to any directory. |
| `Orchestrator.WithMoveNames` | excommunicado_refactor.py:129 | The move takes the name out of its directory and adds the new name to the target, and changes nothing else. |
| `Orchestrator.PlacementChanges` | excommunicado_refactor.py:107-137 | Placing a file changes the listing by its own move and nothing else. |
| `Orchestrator.FileOutcomeChanges` | excommunicado_refactor.py:69-137 | The same for the whole loop body: any outcome but a move leaves every directory as it was. |
| `Orchestrator.IntendedPlacement` | excommunicado_refactor.py:119-127 | Definition of the corrected decision, where the file's own name does not count as taken; its meaning is given by `Orchestrator.IntendedPlacementIdempotent` and `Orchestrator.IntendedDiffersOnlyInPlace`. |
| `Orchestrator.IntendedPlacementIdempotent` | excommunicado_refactor.py:119-127 | With the test the comment describes, a file just placed is found already in place when handled again, and nothing changes (see Findings). |
| `Orchestrator.IntendedDiffersOnlyInPlace` | excommunicado_refactor.py:119-123 | That corrected test differs from the code only for files already in their device directory. |
| `Orchestrator.PlacedNameKeepsExt` | excommunicado_refactor.py:115-119 | The name chosen for a file carries its lowered extension, so handling it again finds the same extension. |
| `Orchestrator.MovedInto` | excommunicado_refactor.py:117-129 | After the move, the target directory exists and holds exactly the counted names plus the new name. |
| `Orchestrator.SoleFileMoves` | excommunicado_refactor.py:119-129 | As written, a file alone in its device directory is moved within it, to the least suffix free once its own name counts as taken. |
| `Orchestrator.AsWrittenFlipFlop` | excommunicado_refactor.py:119-129 | As written, a file sitting alone at `base+ext` in its device directory is moved to `base-1+ext`, and handled again it moves back (see Findings). |
| `Orchestrator.FileTree.MakeDirs` | excommunicado_refactor.py:117 | `os.makedirs(exist_ok=True)` makes an absent directory appear empty and leaves a present one alone. |
| `Orchestrator.FileTree.Move` | excommunicado_refactor.py:129 | `shutil.move` updates the listing exactly as `WithMove`. |
| `Orchestrator.ProcessFile` | excommunicado_refactor.py:69-137 | The loop body, with its early `continue`s and the calls to the modelled parsers, gives exactly `FileOutcome`'s outcome and listing. |
| `Orchestrator.MovedDir` | excommunicado_refactor.py:109-116 | A moved file was described by exiftool, and its new directory is `directory` joined with the model name that exiftool reported (or `Unknown Device`). |
| `Orchestrator.ArrivalOutcomes` | excommunicado_refactor.py:45-53 | A first arrival's outcome, followed by the outcomes counted from the directory it leaves behind, gives the outcomes counted from the start. |
| `Orchestrator.Pruned` | excommunicado_refactor.py:67 | Definition of the list comprehension over `dirs`; its meaning is given by `Orchestrator.PrunedCounts`, `Orchestrator.PrunedAppend`, `Orchestrator.PrunedKeeps` and `Orchestrator.PrunedIdempotent`. |
| `Orchestrator.PrunedCounts` | excommunicado_refactor.py:67 | After pruning, every entry not in `IGNORE_SUBDIRS` appears as often as before, and the ignored ones not at all. |
| `Orchestrator.PrunedAppend` | excommunicado_refactor.py:67 | Pruning works piece by piece, so the kept entries stay in their original order. |
| `Orchestrator.PrunedKeeps` | excommunicado_refactor.py:67 | A list with no ignored entry is unchanged. |
| `Orchestrator.PrunedIdempotent` | excommunicado_refactor.py:67 | Pruning twice is pruning once. |
| `Orchestrator.WalkStep.PruneIgnored` | excommunicado_refactor.py:67 | The in-place `dirs[:] = ...` leaves `dirs` equal to the pruned list. |
| `Orchestrator.WalkFiles` | excommunicado_refactor.py:69 | One walk step gives one outcome per file. |
| `Orchestrator.DatedOutcome` | excommunicado_refactor.py:79-107 | Once exiftool answered and the date chain gave a date, the loop body is the naming and moving block, with a valid date. |
| `Orchestrator.FirstArrival` | excommunicado_refactor.py:69-132 | The whole loop body, for a file whose date chain gave a date and whose tools do not fail, moves it from `root` to the first free name in the device directory. |
| `Orchestrator.PlacementArrival` | excommunicado_refactor.py:107-132 | A file of `root`, moved to a device directory other than `root`, lands under the least free candidate. The device directory gains exactly that name, and `root` loses exactly the file. |
| `Orchestrator.SameInstantFill` | excommunicado_refactor.py:69-132 | Distinct files of `root` with one probe (one date, one device) and one lowered extension fill the device directory as `Arrivals` says. The i-th file moves under the least candidate free after the first i. |
| `Orchestrator.SameInstantSuffixes` | excommunicado_refactor.py:69-132 | When none of the candidate names stands yet in the device directory, the i-th of those files is moved to `base-i` (`base` for the first) and the device directory gains exactly the first `n` candidates. |
| `Orchestrator.NoFileLeftInPlace` | excommunicado_refactor.py:69-127 | For distinct files all present in `root`, no outcome of the step is "already in place". |
| `Orchestrator.ProcessWalkStep` | excommunicado_refactor.py:65-137 | One walk step prunes `dirs` in place, then handles the files in order, giving exactly `WalkFiles`'s outcomes and final listing. |

## Left out

- Running exiftool, mdls and ffprobe is not modelled. What each printed or
  raised for a file is an input (`Probe`), and exceptions are told apart
  only as `ValueError` or other. `subprocess.run` is called with no
  timeout, so a tool that never returns stalls the whole run; a `Probe`
  cannot express that.
- The log file set-up at module level, `datetime.now()`, and every `logging`
  and `print` call are not modelled. They are output only.
- `os.walk` itself is not modelled: neither its top-down order nor which
  directories it has already listed. Only one step `(root, dirs, files)` is
  modelled: its in-place pruning and its loop over `files`.
- The file system is modelled only as names per directory path. Two
  spellings of one directory (`a//b`, `a/./b`) are different keys. Symbolic
  links and the entry `os.makedirs` would add to the parent directory are
  not modelled. A failing `makedirs` or `move` is an input flag.
- Names are compared case-sensitively (`Names`, and the `name in taken`
  test of `Naming.CreateUniqueFilename`). On a case-insensitive volume,
  the default on macOS where mdls exists, `os.path.exists` also reports a
  case variant as present: with `base.JPG` alone in its device directory
  the program picks `base-1.jpg`, while the model picks `base.jpg`.
- There is no concurrency. Nothing else changes the tree between the
  existence check and the move.
- Dates.Strptime: narrower than Python's `strptime`. The differences:
  - every field must have its full width (`strptime` also takes one-digit
    months, days, hours and so on);
  - single spaces are literal (`strptime` matches any run of whitespace);
  - `%z` is `Z`, `±HHMM` or `±HH:MM`, with no seconds part;
  - offsets are kept as minutes, not as `timezone` objects;
  - a digit is only `0`–`9` (`strptime`'s `\d` accepts any Unicode decimal
    digit);
  - `%d` needs two digits (`strptime` also accepts a space-padded day such
    as `" 1"`).
- Text.LowerAscii: lowers only the ASCII letters A–Z. Python's `lower()`
  also lowers other cased Unicode letters.
- Naming.BaseName: writes the year with four digits. For years below 1000,
  `%Y` is platform-dependent: macOS pads with zeros, glibc does not.
- The comment at `excommunicado_refactor.py:122` says the test is for a
  file that already has the desired name. The test runs after the suffix
  search at line 119, so it can never succeed (see Findings). The model
  follows the code.

## Findings

| source | as written | input that shows it | evidently intended | confidence | as-written member | corrected member |
|---|---|---|---|---|---|---|
| excommunicado_refactor.py:119-127 | The unique-name search counts the file's own name as taken, so `file == new_file_name` never holds when `root == model_dir`. | `media/Unknown Device/Y2023-M05-D01_h10-m15-s22_IMG.jpg` alone in its directory, with exiftool printing `Date/Time Original: 2023:05:01 10:15:22` and no model. It is moved to `..._IMG-1.jpg`; the next run moves it back. | A file whose name is the one it would get, ignoring itself, is left in place, so a second run moves nothing. | not executed | `Orchestrator.AsWrittenFlipFlop` | `Orchestrator.IntendedPlacementIdempotent` |

The processing model (`Placement`, `FileOutcome`, `ProcessFile`) follows the
code as written. `Orchestrator.PlacementNeverInPlace` is the unreachability
property of the code. `IntendedPlacement` is the corrected decision, beside
it, with its idempotence proved.
