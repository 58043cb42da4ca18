# Apache access-log reports, modelled in Dafny

Two small Python scripts read an Apache access log and report on it. The model covers both.

- **Filename report** (`chapter4/apache2_access_filename.py`). Each line is stripped and matched against the combined-log pattern. Each `HTTP/1.1` is deleted from the request path of a matching line. The leftmost `\w+\.\w+` in what remains is the line's filename. A `Counter` counts the filenames. The `(filename, count)` pairs are then sorted by descending count.
- **Upload timeline** (`chapter4/apache2_plugin_upload_directory.py`, `parse_log_file`). A matching line is kept only if its path contains the path of the plugin's upload handler. For each such line the script does three things:
  - it parses the timestamp with `strptime('%d/%b/%Y:%H:%M:%S %z')`;
  - it reformats it as `%Y/%m/%d %H:%M:%S`;
  - it records the time, the raw status and the cleaned path.

  Lines whose timestamp `strptime` rejects are skipped. The records are sorted by time.

## Modules

| module | file | contents |
|---|---|---|
| `Wrappers` | `wrappers.dfy` | the `Option` type; `Somes`, the list built by a loop that appends at most one value per element |
| `Text` | `text.dfy` | Python's whitespace and the ASCII `\d` and `\w` classes, `str.strip()`, substring containment, and deletion of every occurrence of a literal |
| `LogLine` | `log_line.dfy` | the log-line pattern both scripts share, as a recogniser that follows the regular-expression engine's choices |
| `StableSort` | `stable_sort.dfy` | a stable sort by an integer key, proved to be the only stable sort |
| `Timestamp` | `timestamp.dfy` | `strptime` for the Apache format, `strftime` for the report format, and the sort key |
| `FilenameReport` | `filename_report.dfy` | the filename search, the `Counter` class and the report |
| `UploadTimeline` | `upload_timeline.dfy` | `parse_log_file` and its timeline |

Both scripts are loops that update state, so each is a method with a loop and invariants:

- `FilenameReport.CountFilenames`, whose `Counter` is a class with an insertion-ordered key list and a count map;
- `UploadTimeline.ParseLogFile`.

Each method is proved equal to a function on the input lines. The report's properties are lemmas about those functions.

## Model

| member | source | states |
|---|---|---|
| Wrappers.Somes | chapter4/apache2_plugin_upload_directory.py:12-44 | a loop that appends at most one record per line never collects more records than there are lines |
| Wrappers.SomesAppend | chapter4/apache2_plugin_upload_directory.py:40-44 | one more line appends its record at the end, if it has one, and changes nothing else |
| Wrappers.SomesStep | chapter4/apache2_access_filename.py:25-40 | the same step, for the prefixes a loop walks through |
| Wrappers.SomesMembers | chapter4/apache2_plugin_upload_directory.py:14-25 | sound and complete filter: a value is collected exactly when some line yields it |
| Text.TrimLeft | chapter4/apache2_access_filename.py:26 | removes a whitespace prefix, and the result does not start with whitespace |
| Text.TrimRight | chapter4/apache2_access_filename.py:26 | removes a whitespace suffix, and the result does not end with whitespace |
| Text.Strip | chapter4/apache2_access_filename.py:26 | `line.strip()` has no whitespace at either end and is no longer than the line |
| Text.StripUnique | chapter4/apache2_access_filename.py:26 | whitespace, then a core with no whitespace at its ends, then whitespace, strips to exactly that core |
| Text.StripIgnoresPadding | chapter4/apache2_access_filename.py:26 | extra leading and trailing whitespace never changes what a line strips to |
| Text.StripNoSpace | chapter4/apache2_plugin_upload_directory.py:28 | a string with no whitespace is left unchanged by `strip()` |
| Text.Contains | chapter4/apache2_plugin_upload_directory.py:24 | `pat in s` holds exactly when `pat` occurs in `s` at some index |
| Text.RemoveAll | chapter4/apache2_access_filename.py:34 | deleting occurrences never makes a path longer |
| Text.RemoveAllAbsent | chapter4/apache2_access_filename.py:34 | a path without `HTTP/1.1` is left unchanged |
| Text.RemoveAllLeftmost | chapter4/apache2_access_filename.py:34 | the leftmost occurrence is deleted, the text before it is kept, and deletion resumes right after it |
| Text.RemoveAllSinglePass | chapter4/apache2_access_filename.py:34 | deletion is one pass: `HTTP/HTTP/1.11.1` becomes `HTTP/1.1` |
| Text.RemoveAllChars | chapter4/apache2_plugin_upload_directory.py:28 | every character of the cleaned path comes from the original path |
| Text.RemoveAllKeepsNoSpace | chapter4/apache2_plugin_upload_directory.py:28 | the cleaned path of a matched line has no whitespace, so its `.strip()` changes nothing |
| LogLine.ParseLine | chapter4/apache2_access_filename.py:26-27 | a recognised line's segments are well formed and reassemble into the stripped line |
| LogLine.MatchLine | chapter4/apache2_access_filename.py:6-8 | soundness: a match's segments satisfy their classes (`\S+`, `\d+`, `.*?`) and reassemble into exactly the line |
| LogLine.MatchLeast | chapter4/apache2_access_filename.py:6-8 | completeness and laziness: every line written from well-formed segments matches; the forced groups come back unchanged; the timestamp found is the shortest possible, and so is the referrer with it |
| LogLine.MatchExact | chapter4/apache2_access_filename.py:6-8 | round trip: if the timestamp has no `]` and the referrer has no `"`, the line is cut back into exactly the segments it was written from |
| LogLine.MatchIffWellFormed | chapter4/apache2_plugin_upload_directory.py:14-16 | a line is matched exactly when some cut of it into well-formed segments exists; every other line is skipped, e.g. one with a non-digit size or a malformed request |
| LogLine.ParseLineIgnoresPadding | chapter4/apache2_access_filename.py:26-27 | whitespace around a line never changes whether it matches or what is captured |
| LogLine.LazyTimestampFinds | chapter4/apache2_access_filename.py:7 | the lazy timestamp search succeeds, and stops no later than any timestamp the line could have been written with |
| LogLine.LazySeparatorFinds | chapter4/apache2_access_filename.py:7 | the lazy referrer search succeeds, and stops no later than the referrer the text was written with |
| LogLine.LazyTimestamp | chapter4/apache2_access_filename.py:7 | the timestamp tried is a newline-free prefix at least as long as where the search started, and the rest of the pattern matches after it |
| LogLine.AfterTimestamp | chapter4/apache2_access_filename.py:7 | what follows the timestamp is accepted only as well-formed request and trailer segments that reassemble into it |
| LogLine.AfterRequest | chapter4/apache2_access_filename.py:7 | `(\d+) \d+ ".*?" ".*?"`: status and size are digit strings, the quoted fields hold no newline, and they reassemble into the text |
| LogLine.QuotedPair | chapter4/apache2_access_filename.py:7 | `".*?" ".*?"`: two newline-free quoted fields that reassemble into the text |
| LogLine.LazySeparator | chapter4/apache2_access_filename.py:7 | the referrer found is no shorter than where the search started, and both quoted fields are newline-free and reassemble into the text |
| LogLine.AfterTimestampOf | chapter4/apache2_access_filename.py:7 | after the timestamp, the method, path, protocol, status and size are forced |
| StableSort.SortBy | chapter4/apache2_access_filename.py:43 | the sorted list is a permutation of its input |
| StableSort.SortBySorted | chapter4/apache2_access_filename.py:43 | the sorted list is in ascending key order |
| StableSort.SortByStable | chapter4/apache2_plugin_upload_directory.py:47 | stability: for every key, the elements with that key keep their input order |
| StableSort.SortByUnique | chapter4/apache2_plugin_upload_directory.py:47 | any sorted arrangement that keeps every key's order equals `SortBy`, so the sort algorithm does not matter |
| Timestamp.DaysInMonth | chapter4/apache2_plugin_upload_directory.py:32-35 | month lengths are 28 to 31, and 29 exactly for February of a Gregorian leap year |
| Timestamp.DayNumber | chapter4/apache2_plugin_upload_directory.py:32-35 | `%d` accepts exactly one digit 1-9, a space then 1-9, or two digits worth 1 to 31; the day read is the one the text spells, zero-padded, as one digit, or as a space and one digit |
| Timestamp.DayTextReads | chapter4/apache2_plugin_upload_directory.py:32-35 | conversely, every such spelling of a day 1 to 31 reads as that day, and holds no `/` |
| Timestamp.SmallNumber | chapter4/apache2_plugin_upload_directory.py:32-35 | `%H`, `%M` and `%S` accept exactly one digit, or two digits worth at most 23, 59 or 61; the number read is the one the text spells, zero-padded or as one digit |
| Timestamp.SmallTextReads | chapter4/apache2_plugin_upload_directory.py:32-35 | conversely, every such spelling of a number in range reads as that number, and holds no separator or whitespace |
| Timestamp.YearNumber | chapter4/apache2_plugin_upload_directory.py:32-35 | `%Y` accepts exactly four digits, and reads the number whose zero-padded spelling they are |
| Timestamp.YearNumberPad4 | chapter4/apache2_plugin_upload_directory.py:32-35 | conversely, the zero-padded spelling of a year reads as that year |
| Timestamp.MonthNumber | chapter4/apache2_plugin_upload_directory.py:32-35 | `%b` accepts exactly the three-letter English abbreviations in any ASCII letter case, and gives that month |
| Timestamp.MonthNumberOf | chapter4/apache2_plugin_upload_directory.py:32-35 | every abbreviation reads as its own month |
| Timestamp.MonthTextReads | chapter4/apache2_plugin_upload_directory.py:32-35 | every spelling of a month's abbreviation, in any letter case, reads as that month and holds no `/` |
| Timestamp.OffsetMinutes | chapter4/apache2_plugin_upload_directory.py:32-35 | `%z` accepts exactly a sign, two hour digits worth at most 23 and two minute digits worth at most 59; the text is Apache's spelling of the offset read, or `-0000` for 0, and the offset is less than a day either way |
| Timestamp.OffsetSpelledReads | chapter4/apache2_plugin_upload_directory.py:32-35 | conversely, Apache's spelling of an offset under a day, and `-0000`, read as that offset |
| Timestamp.CutAt | chapter4/apache2_plugin_upload_directory.py:34 | a text is cut at its first separator, and `None` means there is none |
| Timestamp.CutZone | chapter4/apache2_plugin_upload_directory.py:34 | the space of the format matches `\s+`: the text is cut into the characters before its first whitespace, the whitespace run, and the rest; `None` means the text has no whitespace |
| Timestamp.CutZoneParts | chapter4/apache2_plugin_upload_directory.py:34 | the second, the whitespace run and the zone put the text back together, and the run is all whitespace |
| Timestamp.ParseZone | chapter4/apache2_plugin_upload_directory.py:32-35 | `%S %z` reads seconds of at most 61 and an offset under a day |
| Timestamp.ParseZoneOf | chapter4/apache2_plugin_upload_directory.py:32-35 | a seconds spelling, any non-empty whitespace run and an offset spelling are read as those seconds and that offset |
| Timestamp.ParseClock | chapter4/apache2_plugin_upload_directory.py:32-35 | `%H:%M:%S %z` reads an hour, minute, second and offset in range |
| Timestamp.ParseClockOf | chapter4/apache2_plugin_upload_directory.py:32-35 | every spelling of a clock reads as that clock |
| Timestamp.ClockPieces | chapter4/apache2_plugin_upload_directory.py:32-35 | every text `%H:%M:%S %z` accepts is a spelling of the clock it reads |
| Timestamp.ParseClockSpelled | chapter4/apache2_plugin_upload_directory.py:32-35 | `%H:%M:%S %z` reads a clock exactly from the texts that spell it |
| Timestamp.ParseTimestamp | chapter4/apache2_plugin_upload_directory.py:31-38 | a parsed timestamp is a valid `datetime` with a valid `timezone` offset |
| Timestamp.ParseTimestampSpelled | chapter4/apache2_plugin_upload_directory.py:31-38 | `strptime` succeeds with a time and offset exactly when they are valid and the text spells them field by field in a way the format reads; every other text raises, and its line is skipped |
| Timestamp.ParseSpelling | chapter4/apache2_plugin_upload_directory.py:32-35 | every spelling of a valid time and offset parses to them |
| Timestamp.StampPieces | chapter4/apache2_plugin_upload_directory.py:32-35 | every text that parses spells the time and offset it parses to |
| Timestamp.ReadStamp | chapter4/apache2_plugin_upload_directory.py:32-35 | fields that read but name an impossible date or second give `None` |
| Timestamp.ReadStampSpelled | chapter4/apache2_plugin_upload_directory.py:32-38 | the fields give a stamp exactly when the stamp is valid and each text spells its field |
| Timestamp.SpelledOfReadStamp | chapter4/apache2_plugin_upload_directory.py:32-38 | a stamp the fields give is valid, and each text spells its field of that stamp |
| Timestamp.ReadStampOfSpelled | chapter4/apache2_plugin_upload_directory.py:32-38 | texts that spell the fields of a valid stamp, with a clock that reads, give back that stamp |
| Timestamp.ParseApacheText | chapter4/apache2_plugin_upload_directory.py:32-35 | round trip: parsing any valid time and offset written in Apache's format gives them back |
| Timestamp.ParseExample | chapter4/apache2_plugin_upload_directory.py:32-35 | `01/Jan/2024:00:00:00 +0000` parses to midnight on 1 January 2024, offset 0 |
| Timestamp.RejectExample | chapter4/apache2_plugin_upload_directory.py:31-38 | `30/Feb/2024:00:00:00 +0000` is rejected, so its line is skipped |
| Timestamp.FormatTime | chapter4/apache2_plugin_upload_directory.py:36 | the formatted time is always 19 characters |
| Timestamp.FormatExample | chapter4/apache2_plugin_upload_directory.py:36 | midnight on 1 January 2024 is written `2024/01/01 00:00:00`, zero-padded |
| Timestamp.Pad2 | chapter4/apache2_plugin_upload_directory.py:36 | two digits whose value is the number |
| Timestamp.Pad4 | chapter4/apache2_plugin_upload_directory.py:36 | four digits whose value is the number |
| Timestamp.DecodeTime | chapter4/apache2_plugin_upload_directory.py:47 | a time is read back only from 19-character text with `/`, `/`, space, `:` and `:` at the places the format puts them |
| Timestamp.DecodeFormatTime | chapter4/apache2_plugin_upload_directory.py:47 | reading a formatted time back gives the time that was formatted |
| Timestamp.TimeKey | chapter4/apache2_plugin_upload_directory.py:47 | the key of a valid time counts seconds: its seconds, minutes and hours are the time's own |
| Timestamp.TimeKeyOrder | chapter4/apache2_plugin_upload_directory.py:47 | the integer key orders valid times as Python orders `datetime`s, and equal keys mean equal times |
| FilenameReport.WordEnd | chapter4/apache2_access_filename.py:18 | the greedy `\w+` run ends where the word characters end |
| FilenameReport.NoMatchAt | chapter4/apache2_access_filename.py:18 | no match starts at an index whose greedy word run is not followed by a dot and a word character |
| FilenameReport.SearchFrom | chapter4/apache2_access_filename.py:37 | the hit found is a match, no earlier start matches, and its second word run cannot be extended |
| FilenameReport.FindFilename | chapter4/apache2_access_filename.py:37-38 | `search` fails exactly when no `\w+\.\w+` occurs anywhere in the path; otherwise the filename is one such match |
| FilenameReport.LineFilename | chapter4/apache2_access_filename.py:26-39 | a line contributes a filename only if it matches; the filename is a `\w+\.\w+` match in the path with `HTTP/1.1` deleted, and a matched line contributes none only if that path has no match |
| FilenameReport.Extractions | chapter4/apache2_access_filename.py:24-40 | at most one filename per line; a filename is extracted exactly when some line contributes it |
| FilenameReport.FilenameMaximal | chapter4/apache2_access_filename.py:37-39 | the filename is the leftmost match, and no word character touches it on either side |
| FilenameReport.FindFilenameExample | chapter4/apache2_access_filename.py:37-39 | in `a.b.c` the filename is `a.b` |
| FilenameReport.FirstSeen | chapter4/apache2_access_filename.py:40 | the counter's keys are exactly the filenames counted, each once, so there are no more keys than filenames |
| FilenameReport.FirstSeenOrder | chapter4/apache2_access_filename.py:40 | the counter's keys come in the order of their filenames' first appearance |
| FilenameReport.FirstIndex | chapter4/apache2_access_filename.py:40 | the first position of a filename holds it, and no earlier position does |
| FilenameReport.Tally | chapter4/apache2_access_filename.py:43 | `items()` has one record per key |
| FilenameReport.CountPresent | chapter4/apache2_access_filename.py:40 | incrementing a present key keeps the counter's invariant with the filename appended |
| FilenameReport.CountNew | chapter4/apache2_access_filename.py:40 | incrementing a new key appends it to the key order with count 1 |
| FilenameReport.MultiplicitiesAppend | chapter4/apache2_access_filename.py:40 | counting one more filename raises its count by one, from 0 when it is new, and leaves every other count alone |
| FilenameReport.FirstSeenAppend | chapter4/apache2_access_filename.py:40 | one more filename extends the first-seen key order only when the filename is new |
| FilenameReport.CountStep | chapter4/apache2_access_filename.py:40 | `counter[f] += 1` keeps the invariant whether or not `f` is already a key, with a missing key read as 0 |
| FilenameReport.Counter.constructor | chapter4/apache2_access_filename.py:21 | a new counter is empty |
| FilenameReport.Counter.Increment | chapter4/apache2_access_filename.py:40 | `counter[f] += 1` keeps the keys in first-seen order and each count equal to the number of times the key was added |
| FilenameReport.Counter.Items | chapter4/apache2_access_filename.py:43 | `items()` gives each key with its count, in first-seen order |
| FilenameReport.CountFilenames | chapter4/apache2_access_filename.py:23-46 | the script's loop and sort produce `Report(lines)` |
| FilenameReport.CountLines | chapter4/apache2_access_filename.py:25-40 | the loop leaves a fresh counter holding exactly the filenames the lines yield, in order |
| FilenameReport.ExtractionsAppend | chapter4/apache2_access_filename.py:37-40 | one more line adds at most one count, to its own filename, and changes nothing else |
| FilenameReport.TallyFacts | chapter4/apache2_access_filename.py:43 | each record's count is its filename's number of occurrences (at least 1); records are distinct; every filename has a record |
| FilenameReport.Ranked | chapter4/apache2_access_filename.py:43 | the sorted list is a permutation of the counter's items, one per distinct filename |
| FilenameReport.Report | chapter4/apache2_access_filename.py:24-46 | the report has at most one record per line |
| FilenameReport.RankedCounts | chapter4/apache2_access_filename.py:46 | each reported count equals the number of lines that contributed that filename |
| FilenameReport.RankedDistinct | chapter4/apache2_access_filename.py:46 | each filename is reported once |
| FilenameReport.RankedComplete | chapter4/apache2_access_filename.py:46 | a filename is reported exactly when some line contributed it, with its count |
| FilenameReport.RankedDescending | chapter4/apache2_access_filename.py:43 | the counts are non-increasing |
| FilenameReport.RankedTies | chapter4/apache2_access_filename.py:43 | records with equal counts keep the counter's key order, which `FirstSeenOrder` shows is the order of first appearance |
| FilenameReport.RankedIsPythonSort | chapter4/apache2_access_filename.py:43 | any arrangement with non-increasing counts that keeps the order within every count is the report |
| FilenameReport.RankedTotal | chapter4/apache2_access_filename.py:43-46 | the counts add up to the number of extracted filenames |
| FilenameReport.ReportTotal | chapter4/apache2_access_filename.py:24-46 | the counts add up to no more than the number of lines |
| FilenameReport.TotalSortBy | chapter4/apache2_access_filename.py:43 | sorting does not change the total count |
| FilenameReport.CountOfFirstSeen | chapter4/apache2_access_filename.py:40 | the per-key counts add up to the number of additions |
| UploadTimeline.EntryOf | chapter4/apache2_plugin_upload_directory.py:13-44 | a line gives a record exactly when it matches, its path contains the handler's path and its timestamp parses; the record's status is the raw digit string, its path is the path with `HTTP/1.1` deleted (the strip changes nothing), and its time is the reformatted timestamp |
| UploadTimeline.Accepted | chapter4/apache2_plugin_upload_directory.py:12-44 | at most one record per line; a record is collected exactly when some line yields it |
| UploadTimeline.Timeline | chapter4/apache2_plugin_upload_directory.py:47-49 | the returned list is a permutation of the collected records |
| UploadTimeline.EntryKey | chapter4/apache2_plugin_upload_directory.py:47 | the sort key of a record is the key of the time its `time` reads back as |
| UploadTimeline.TimeOf | chapter4/apache2_plugin_upload_directory.py:47 | the sort key's time is always a valid `datetime` |
| UploadTimeline.EntryKeyOrder | chapter4/apache2_plugin_upload_directory.py:47 | records' keys compare as their times do |
| UploadTimeline.ParseLogFile | chapter4/apache2_plugin_upload_directory.py:5-49 | `parse_log_file` returns `Timeline(lines)` |
| UploadTimeline.TimelineMembers | chapter4/apache2_plugin_upload_directory.py:14-38 | sound and complete: a record is in the timeline exactly when some line passes all three checks and yields it |
| UploadTimeline.TimelineTimed | chapter4/apache2_plugin_upload_directory.py:36-47 | every record's time reads back as the valid time it was formatted from, which is the time it is sorted by |
| UploadTimeline.SortedByTime | chapter4/apache2_plugin_upload_directory.py:47 | sorting by the key puts records in chronological order |
| UploadTimeline.TimelineChronological | chapter4/apache2_plugin_upload_directory.py:47 | no record is earlier than one before it |
| UploadTimeline.TimelineStable | chapter4/apache2_plugin_upload_directory.py:47 | records with the same time keep their line order |
| UploadTimeline.TimelineIsPythonSort | chapter4/apache2_plugin_upload_directory.py:47 | any chronological arrangement that keeps line order among equal times is the timeline |

## Left out

- Reading the log file, `json.dump` and the final `print` are not modelled. The model works on the log's lines as a sequence of strings and returns the records that are dumped.
- Iterating over a file yields lines with their newline. The model takes lines as given; `strip()` removes a trailing newline either way.
- The `$` of the pattern also matches before a final newline. The model matches `$` only at the end of the text. A stripped line never ends in a newline, so nothing is lost.
- `\w` and `\d` are the ASCII classes here. In a Python `str` pattern they also match non-ASCII letters and digits. `\s`, `\S` and `str.strip()` use Python's full whitespace set.
- `strptime` `%d`, `%H`, `%M`, `%S` and `%Y` read ASCII digits only. Python's `\d` also accepts other Unicode decimal digits there.
- `%b` uses the English (C-locale) month abbreviations. A different `LC_TIME` locale is not modelled.
- Timestamp.OffsetMinutes: accepts only `+HHMM` and `-HHMM`. The `Z`, `+HH:MM` and seconds forms that newer Pythons also accept for `%z` are not modelled.
- Timestamp.FormatTime: always pads `%Y` to four digits. C libraries that write years below 1000 without padding are not modelled.
- Timestamp.DecodeTime: reads back only fixed-width text. It is applied only to text that `FormatTime` wrote, which is the only text the sort key ever parses.
- The offset is parsed and checked, but it does not enter the formatted time or the sort key. The timeline script drops it: `strftime` of an aware `datetime` and the naive re-parse of the sort key ignore it. The filename script never reads the timestamp.
- `chapter8` and the other scripts of the repository are not part of this model.
