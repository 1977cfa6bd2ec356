# tgrp task-log engine, modelled in Dafny

This project models the text-processing core of `tgrp`. `tgrp` groups and sums
the time recorded in weekly plain-text task logs. Each log line has the form
`<date and time span> <task text>`, where the time span is two `HH:MM` fields,
for example `Saturday (2022-01-08) 12:01 → 14:00 cleaning sink pipes`.

The core does the following:

- parses such a text into task records (`parse_tasks`, and its chunked parallel variant);
- computes the time spent between the two fields, with midnight rollover;
- finds the week files (`week-WW-YYYY.txt`) for a date or a span of dates;
- cuts the concatenated week files to the requested dates;
- filters lines;
- computes statistics;
- merges tasks with the same text into one main task with sub-tasks.

The modules follow the source files:

| module | file | models |
|---|---|---|
| `Wrappers` | wrappers.dfy | `Option` and `Result`. A C++ `exit(76)`/`exit(77)` becomes an `Err`. |
| `Text` | text.dfy | `std::string::find`/`rfind`, `std::getline` splitting, `std::stoi`, zero-padded number formatting |
| `Str` | str.dfy | `tgrp/str.cpp`: trimming, `resplit`, `split_on_words`, `lines_between`, `fnl_substr`, `remove_lines_before`/`after` |
| `TimeSpan` | timespan.dfy | `split_vi`, `calculate_time_spent`, `time_spent`, `sec_to_hm_t` |
| `Tasks` | tasks.dfy | `dt_and_task`, `projects_of_task`, `parse_tasks`, `tasks_to_mulstr` |
| `Parallel` | parallel.dfy | the chunking of `parse_tasks_parallel` |
| `Calendar` | calendar.dfy | the proleptic Gregorian calendar that `mktime`, `%V` and `%Y-%m-%d` rely on |
| `WeekFiles` | weekfiles.dfy | `find_week_files`, `week_file_name`, `vslice`, `item_index`, `find_week_file_by_date`, `find_week_files_in_span` |
| `Concat` | concat.dfy | `remove_lines_before_date`/`after_date`, `concat_week_files`, `filter_find` |
| `Sums`, `Stats` | stats.dfy | `calculate_stats`, `calculate_stats_human` |
| `OrderedSets`, `Filters`, `Grouping`, `Merge` | merge.dfy | `merge_tasks`, `getID`, and the id-ordered `std::set<task_t>` |

Regular expressions are modelled as scanners that find the same match as the
ECMAScript search the source performs. That search is leftmost-first, and a
greedy `.*` backtracks from the longest stretch it can take; for the fixed
patterns of the core this picks the leftmost start and the furthest end. In
that grammar `.` matches neither `\n` nor `\r`, and the model carries this
rule.

`hm_t` is modelled as `(h, m, in_sec, str)`, the shape every function of the
core builds and reads. The declaration in `tgrp/structs.hpp:18-29` has other
fields that nothing in the core uses. The model follows the functions.

`size_t` arithmetic is written out modulo 2^64 where a sum can wrap. The
`uint32_t` id counter is written out modulo 2^32 in `Merge.GetIds`. C++'s
truncating `/` and `%` appear as `CDiv`/`CMod` wherever an operand can be
negative.

## Model

| member | source | states |
|---|---|---|
| Text.Find | tgrp/str.cpp:41-44 | `find` succeeds exactly when the needle occurs, and it returns the leftmost occurrence |
| Text.RFind | tgrp/str.cpp:114-130 | `rfind` succeeds exactly when the needle occurs, and it returns the rightmost occurrence |
| Text.JoinLinesOfLines | tgrp/tgrp.cpp:115-124 | rejoining the `getline` pieces with `'\n'` gives back the text, plus one newline if the text lacked a final one |
| Text.LinesOfJoinLines | tgrp/tgrp.cpp:115-124 | reading back newline-free lines that were joined with `'\n'` gives exactly those lines |
| Text.LinesCount | tgrp/tgrp.cpp:142-156 | `getline` yields as many lines as there are newlines, plus one when the text is non-empty and does not end in a newline |
| Text.StoiPad2 | tgrp/tgrp.cpp:29-38 | `stoi` reads a zero-padded number back as its value |
| Text.Pad2Injective | tgrp/stats.cpp:43-49 | two numbers with the same `{:02}` rendering are equal |
| Str.Trim | tgrp/str.cpp:20-39 | the result is a contiguous piece of the input that neither starts nor ends with white space, and everything cut off on either side is white space |
| Str.TrimIdempotent | tgrp/str.cpp:36-39 | trimming twice is trimming once |
| Str.Resplit | tgrp/str.cpp:69-79 | every token is non-blank and free of separators |
| Str.ResplitAppend | tgrp/str.cpp:69-79 | splitting at a separator splits the two sides independently |
| Str.SplitOnWords | tgrp/str.cpp:81-85 | the words contain no spaces or punctuation and none is blank |
| Str.LinesBetween | tgrp/str.cpp:98-108 | the result is the lines from the clamped begin to the clamped end, each followed by a newline, and it is empty when the range is empty |
| Str.FnlSubstr | tgrp/str.cpp:114-130 | found exactly when the needle occurs; with `including_last` the position is the first newline at or after the last occurrence, or the end of the text; otherwise it is the last newline at or before the first occurrence, or 0 |
| Str.RemoveLinesBefore | tgrp/str.cpp:136-142 | returns the text unchanged with `false` exactly when the needle is absent. Otherwise it returns the suffix starting at the line break before the first occurrence's line (or the whole text when that line is the first), or, with `including_last`, at the line break ending the last occurrence's line (or the empty rest); no line break lies between the cut and that occurrence. Without `including_last` the suffix still holds an occurrence; with it, the suffix holds none (for a needle without newlines) |
| Str.RemoveLinesAfter | tgrp/str.cpp:148-154 | returns the text unchanged with `false` exactly when the needle is absent. Otherwise it returns the prefix ending at the line break that ends the last occurrence's line (or the whole text), or, without `including_last`, at the line break before the first occurrence's line (or the empty prefix); no line break lies between the cut and that occurrence. With `including_last` the prefix keeps an occurrence (for a needle without newlines); without it, the prefix holds none |
| Str.RemoveLinesBeforeOld | tgrp/tgrp.h:397-403 | the older helper leaves the text unchanged exactly when the needle is absent, and otherwise keeps a proper suffix |
| Str.RemoveLinesBeforeOldDropsOne | tgrp/tgrp.h:397-403 | the older helper keeps one character fewer than the current one |
| Str.RemoveLinesBeforeOldFirstLine | tgrp/tgrp.h:397-403 | when the first occurrence is on the first line, the older helper loses the text's first character |
| TimeSpan.SecToHmT | tgrp/stats.cpp:43-49 | the hours and minutes are the whole hours and the remaining whole minutes of the seconds, and the string is their `HH:MM` rendering |
| TimeSpan.FormatHmSplitVi | tgrp/stats.cpp:43-49 | `split_vi` on an `HH:MM` rendering reads back the hours and the minutes |
| TimeSpan.SplitViOfDigits | tgrp/tgrp.cpp:29-38 | `split_vi` of `d d : d d` is the two two-digit values |
| TimeSpan.CalculateTimeSpentValid | tgrp/tgrp.cpp:40-73 | for clock times within a day: equal times give `00:00`, a later end gives the difference, an earlier end gives the difference plus one day; the result is under a day and agrees with `sec_to_hm_t` |
| TimeSpan.MidnightRollover | tgrp/tgrp.cpp:61-72 | 23:53 to 00:07 is 840 seconds, `00:14` |
| TimeSpan.OutOfRangeHourWraps | tgrp/tgrp.cpp:40-73 | an hour field of 25 is not rejected: the hours print as `-1` and the `size_t` seconds wrap |
| TimeSpan.CalculateTimeSpentStrAgrees | tgrp/tgrp.h:76-109 | the header's string-returning version gives the same string as the field `str` |
| TimeSpan.TimeSpent | tgrp/tgrp.cpp:75-84 | it fails, with the line as the error, exactly when no two `HH:MM` fields lie on one line |
| TimeSpan.TimeSpentFields | tgrp/tgrp.cpp:75-84 | on a line without terminators, a span exists exactly when two non-overlapping fields do; the start is the first field and the end is the last |
| TimeSpan.TimeSpentTwoFields | tgrp/tgrp.cpp:75-84 | a line with exactly two clock fields and no other colons spends the time between those two fields |
| TimeSpan.TimeSpentStr | tgrp/tgrp.h:111-120 | the header's `time_spent` succeeds exactly when the other one does, and returns its `str` |
| TimeSpan.TimeSpentExample | tgrp.cpp:66-72 | `Saturday (2022-01-08) 12:01 → 14:00 cleaning sink pipes` spends `01:59` |
| Tasks.DtAndTask | tgrp/tgrp.cpp:86-95 | it succeeds exactly when the line has no terminator and a split point after a time span; the two parts rejoined with a space give the line back; the split is the last one possible |
| Tasks.DtAndTaskTimeSpent | tgrp/tgrp.cpp:116-119 | the date part of a split line always holds a time span, so `time_spent` on it succeeds |
| Tasks.ProjectsOfTask | tgrp/tgrp.cpp:97-105 | no brackets give no projects; every project is non-blank and free of brackets |
| Tasks.ProjectsOfLine | tgrp/tgrp.cpp:97-105 | on a line without line ends, the projects are the text from the first `[` to the last `]` split on brackets with blank pieces dropped, when that `[` comes before that `]`; otherwise there are none |
| Tasks.ProjectsOfTwoTags | tgrp/tgrp.cpp:97-105 | `[a][b]` gives the projects `a` and `b` |
| Tasks.ParseLine | tgrp/tgrp.cpp:116-123 | a line parses exactly when `dt_and_task` succeeds; the task rejoins to the line, carries the given id and has the `time_spent` of its date part |
| Tasks.ParseLinesSpec | tgrp/tgrp.cpp:110-137 | all lines parse or the first failing line's error is returned; on success the k-th task is line k's task, numbered `id + k` |
| Tasks.ParseTasksSpec | tgrp/tgrp.cpp:110-137 | one task per `getline` line, in order, each rejoining to its line and numbered consecutively |
| Tasks.ParseTasksAllOrNothing | tgrp/tgrp.cpp:110-137 | the parse succeeds exactly when every line splits; an empty line makes it fail |
| Tasks.ParseTasksIdsIncrease | tgrp/structs.hpp:13-16 | the ids of parsed tasks strictly increase |
| Tasks.TasksToMulstrLines | tgrp/tgrp.cpp:187-194 | reading the rendering back by lines gives one `dt <hh:mm> text` line per task, so it holds exactly one newline per task |
| Tasks.TasksToMulstrHasText | tgrp/str.cpp:156-163 | every task's text occurs in the rendering |
| Tasks.TasksToMulstrOldTexts | tgrp/tgrp.h:189-196 | the header's rendering is the task texts, one per line |
| Parallel.ChunkTextsCover | tgrp/tgrp.cpp:142-185 | the runs cover every line, in order, unless the text lacks a final newline and the newline count is a multiple of `T - 1`; in that case they cover all lines but the last |
| Parallel.ChunkTextsFixedCover | tgrp/tgrp.cpp:157-177 | the corrected chunking covers every line, in order |
| Parallel.ParallelFixedAgrees | tgrp/tgrp.cpp:142-185 | with ids numbered as a single thread would number them, the corrected parallel parse equals the sequential parse |
| Parallel.ParallelAgreesWhenCovered | tgrp/tgrp.cpp:142-185 | the parallel parse as written equals the sequential parse whenever its runs cover the last line |
| Parallel.ParseChunksFresh | tgrp/structs.hpp:13-16 | when the runs draw disjoint id ranges from the shared counter, the joined runs' tasks have no sub-tasks, pairwise distinct ids, and each id lies in its own run's range |
| Parallel.ParallelDropsLastLine | tgrp/tgrp.cpp:157-177 | with two threads, 101 or more newlines and no final newline, the parallel parse as written parses every line but the last |
| Parallel.DropLastParse | tgrp/tgrp.cpp:179-184 | when the full parse succeeds, the parse without the last line succeeds with one task fewer |
| Calendar.NextDayWeekday | tgrp/tgrp.cpp:358-362 | the day after a date falls on the next weekday, Sunday wrapping to Monday |
| Calendar.IsoWeek | tgrp/tgrp.cpp:236-257 | the `%V` week number is between 1 and 53 |
| Calendar.IsoWeekThursday | tgrp/tgrp.cpp:236-257 | a date's `%V` week is the position of its week's Thursday in the year holding that Thursday, counted in blocks of seven days from January 1 |
| Calendar.IsoWeekSharedByWeek | tgrp/tgrp.cpp:236-257 | all seven days from Monday to Sunday have the `%V` week of any one of them |
| Calendar.IsoWeekExamples | tgrp/tgrp.cpp:236-257 | 2022-01-08 is in week 1, and 2022-01-02 is in week 52 of the previous year |
| Calendar.ParseDate | tgrp/tgrp.cpp:246-249 | a parsed date is valid, has a four-digit year and renders back to the input |
| Calendar.ParseFormatDate | tgrp/tgrp.cpp:346-367 | parsing the `%Y-%m-%d` rendering of a date gives the date back |
| Calendar.FormatDateInjective | tgrp/tgrp.cpp:346-367 | distinct dates render distinctly, whatever the number of digits in their years |
| Calendar.WeekDatesSpec | tgrp/tgrp.cpp:346-367 | the seven dates are consecutive days from Monday to Sunday, and the input date sits at its ISO weekday position, with Sunday last |
| Calendar.WeekDatesYears | tgrp/tgrp.cpp:346-367 | every date of the week is within one year of the input |
| Calendar.DatesOfWeek | tgrp/tgrp.cpp:346-367 | there are seven dates |
| WeekFiles.VSlice | tgrp/tgrp.cpp:262-276 | an in-range slice is the sub-sequence from start to end, with `-1` or an overlong end meaning the rest; an end before the start, or a negative start, gives no slice |
| WeekFiles.VSliceIsSlice | tgrp/tgrp.cpp:262-276 | in-range bounds give the plain slice |
| WeekFiles.VSliceInclusive | tgrp/tgrp.cpp:262-276 | slicing from `i` to `j + 1` is the inclusive run from `i` to `j`, and is absent when `j + 1 < i` |
| WeekFiles.ItemIndex | tgrp/tgrp.cpp:278-284 | the result is `-1` exactly when the item is absent, and is otherwise its first position |
| WeekFiles.ReadDateArg | tgrp/tgrp.cpp:241-249 | `now` is read as the current date; any other accepted argument is a valid date rendering back to it |
| WeekFiles.WeekFileName | tgrp/tgrp.cpp:236-257 | `now`, or a date later than now, gives the current week's name; otherwise it gives the week name of the date |
| WeekFiles.WeekNameFields | tgrp/tgrp.cpp:236-257 | a week name is 16 characters, starts with `week-`, and its sort key is the year and the padded week |
| WeekFiles.WeekNameOrder | tgrp/tgrp.cpp:298-306 | the sort comparator orders week names by year, then by ISO week |
| WeekFiles.SortByKeySorted | tgrp/tgrp.cpp:298-306 | the sort returns the names ordered by the comparator |
| WeekFiles.SortByKey | tgrp/tgrp.cpp:298-306 | the sort is a permutation |
| WeekFiles.FakeIndex | tgrp/tgrp.cpp:298-312 | after sorting, the requested name sits after exactly the names whose key is smaller |
| WeekFiles.FallbackIndex | tgrp/tgrp.cpp:286-316 | the fallback is the path at that index, or nothing when the index is past the end |
| WeekFiles.FallbackIsNextWeek | tgrp/tgrp.cpp:286-316 | for paths in week order, the fallback is the first week file after the requested week |
| WeekFiles.FindWeekFiles | tgrp/tgrp.cpp:214-231 | the result keeps exactly the listed paths that contain the pattern |
| WeekFiles.FindWeekFilesAppend | tgrp/tgrp.cpp:214-231 | searching a listing in two parts searches each part and joins the results, so listing order and repeated paths are kept |
| WeekFiles.FindWeekFilesSubseq | tgrp/tgrp.cpp:214-231 | the found paths are the listing with some paths left out, in listing order |
| WeekFiles.FoundIsWeekFile | tgrp/tgrp.cpp:286-316 | the path found for a date is a week file |
| WeekFiles.SpanInclusive | tgrp/tgrp.cpp:323-340 | the span runs from the first file to the second, both included |
| WeekFiles.InSpanInclusive | tgrp/tgrp.cpp:323-340 | both found files are week files, and the span is the run between them |
| WeekFiles.EmptySpanReachable | tgrp/tgrp.cpp:323-340 | from 2021-01-01 (file `week-53-2021.txt`) to 2021-01-04 (file `week-01-2021.txt`) the span is empty |
| Concat.RemoveLinesBeforeDate | tgrp/tgrp.cpp:374-387 | a date present in the text cuts at it; the result is a suffix of the text and is the whole text when nothing is cut |
| Concat.BeforeFromSpec | tgrp/tgrp.cpp:374-387 | the fallback cuts at the latest earlier weekday present, and cuts nothing if none is present |
| Concat.BeforeDateFallback | tgrp/tgrp.cpp:374-387 | an absent date falls back to the earlier dates of its week, starting from its own weekday |
| Concat.WeekIndex | tgrp/tgrp.cpp:379-380 | a date's position among its week's dates is its ISO weekday minus one |
| Concat.RemoveLinesAfterDate | tgrp/tgrp.cpp:394-407 | a date present in the text cuts after its last line; the result is a prefix of the text |
| Concat.AfterFromSpec | tgrp/tgrp.cpp:394-407 | the fallback cuts at the earliest later weekday present, and cuts nothing if none is present |
| Concat.AfterDateFallback | tgrp/tgrp.cpp:394-407 | an absent date falls back to the later dates of its week |
| Concat.ConcatWeekFiles | tgrp/tgrp.cpp:412-432 | the result is trimmed at both ends |
| Concat.ConcatShape | tgrp/tgrp.cpp:412-432 | with two or more files, the result before trimming is a tail of the first file, every middle file verbatim and in order, then a head of the last file |
| Concat.ConcatSingle | tgrp/tgrp.h:460-481 | a single file yields a piece of that file |
| Concat.ConcatUncut | tgrp/tgrp.cpp:412-432 | when neither date cuts, the result before trimming is all the files concatenated |
| Filters.KeepIdempotent | tgrp/tgrp.cpp:444-456 | filtering lines twice with the same test is filtering once |
| Concat.FilterFindLines | tgrp/tgrp.cpp:444-456 | the output read back by lines is the matching input lines, in order |
| Concat.FilterFindIdempotent | tgrp/tgrp.cpp:444-456 | `filter_find` applied to its own output changes nothing |
| Sums.SumOfPermutation | tgrp/structs.hpp:45-46 | a sum over a permutation is the same sum |
| Stats.Accumulate | tgrp/stats.cpp:15-28 | the loop yields the sum modulo 2^64, the largest duration and the smallest one |
| Stats.CalculateStats | tgrp/stats.cpp:13-32 | counts the records; the sum is the total modulo 2^64 and the average is the floor of sum over count; min and max are attained and bound every duration; without wrap the average lies between them |
| Stats.RangeFacts | tgrp/stats.cpp:13-32 | the minimum and maximum bound every duration and are attained, and the average lies between them |
| Stats.AverageBetween | tgrp/stats.cpp:30 | the floor average of values in `[lo, hi]` lies in `[lo, hi]` |
| Stats.CalculateStatsHuman | tgrp/stats.cpp:34-41 | every field is the `HH:MM` rendering of the matching field, and the count is kept |
| Stats.StatsHumanReadsBack | tgrp/stats.cpp:34-41 | `split_vi` reads each rendering back as the whole hours and the remaining minutes |
| OrderedSets.SetInsertSorted | tgrp/structs.hpp:41-46 | inserting into an id-ordered set keeps it ordered |
| OrderedSets.SetInsertPresent | tgrp/structs.hpp:41-46 | inserting an element whose id is present changes nothing |
| OrderedSets.SetInsertAllNew | tgrp/structs.hpp:41-46 | inserting elements with distinct, new ids adds exactly those elements |
| Filters.SkipWalkSubseq | tgrp/stats.cpp:57-60 | the erase loop keeps a subsequence of its input |
| Filters.KeepMembers | tgrp/stats.cpp:57-60 | the intended filter keeps exactly the elements that pass |
| Filters.SubseqDistinct | tgrp/stats.cpp:57-60 | a subsequence of a list with distinct ids has distinct ids |
| Grouping.FirstKeysDistinct | tgrp/stats.cpp:62-80 | the texts of the groups are distinct |
| Grouping.FirstKeysMembers | tgrp/stats.cpp:62-80 | every text of the input leads exactly one group |
| Grouping.BucketsSpec | tgrp/stats.cpp:62-80 | group `k` is every task with the `k`-th distinct text, in input order |
| Grouping.BucketsSum | tgrp/stats.cpp:82-89 | the groups' sums add up to the sum over the whole list |
| Merge.GetIds | tgrp/structs.hpp:13-16 | the counter hands out values below 2^32 |
| Merge.GetIdsIncrease | tgrp/structs.hpp:13-16 | without wrap the ids are consecutive and increasing |
| Merge.GetIdsWrap | tgrp/structs.hpp:13-16 | after 2^32 - 1 the next id is 0 |
| Merge.ParseTasksIds | tgrp/structs.hpp:37 | the parsed tasks carry the ids the counter would hand out |
| Merge.ParseTasksFresh | tgrp/structs.hpp:37-38 | parsed tasks have distinct ids and no sub-tasks |
| Merge.ParallelFresh | attila/mainwindow.cpp:143-156 | the parallel parse whose result the main window merges yields tasks with distinct ids and no sub-tasks, on one thread or, with several, when the runs' id ranges are disjoint |
| Merge.TaskSetOrder | tgrp/structs.hpp:41-46 | inserting tasks one at a time into an empty set, in any order, leaves them ascending by `operator<` |
| Merge.Reconcile | tgrp/stats.cpp:57-60 | the loop keeps a subsequence of the input that contains every task whose text occurs |
| Merge.Present | tgrp/stats.cpp:57-60 | the intended filter keeps only tasks whose text occurs |
| Merge.PresentMembers | tgrp/stats.cpp:57-60 | a task is kept exactly when it is in the input and its text occurs |
| Merge.ReconcileIdentity | tgrp/stats.cpp:57-60 | against the list's own rendering, nothing is erased |
| Merge.ReconcileSkips | tgrp/stats.cpp:57-60 | for `a, b, c` with rendering `c`, the loop keeps `b` although `b` is absent |
| Merge.GroupTexts | tgrp/stats.cpp:62-80 | the main tasks have distinct texts, in first-occurrence order, and the same set of texts as the input |
| Merge.MainTaskSubtasks | tgrp/stats.cpp:62-80 | the sub-tasks of a main task are exactly its group, ordered by id |
| Merge.MergeSubtasks | tgrp/stats.cpp:62-89 | each merged task keeps its group's first id, has its group as sub-tasks, and has the group's total as its time |
| Merge.MergeTexts | tgrp/stats.cpp:62-80 | the merged texts are distinct, in first-occurrence order, and are the input's texts |
| Merge.SizeSumTotal | tgrp/stats.cpp:82-89 | the `size_t` sum is the total seconds modulo 2^64 |
| Merge.MergeConserves | tgrp/stats.cpp:82-89 | without wrap, merging preserves the total time |
| Merge.MergeSingle | tgrp/stats.cpp:51-92 | a task whose text is unique keeps its id and its time |
| Merge.MergeTasks | tgrp/stats.cpp:51-92 | the string returned is the rendering of the merged list |
| Merge.MergeTasksFixed | tgrp/stats.cpp:51-92 | the corrected merge also returns the rendering of its merged list |
| Merge.MergeTasksTexts | tgrp/stats.cpp:51-92 | every text of the input that occurs survives the merge, and nothing else is invented |
| Merge.MergeFixedTexts | tgrp/stats.cpp:51-92 | after the corrected merge, a text is present exactly when it is in the input and occurs |
| Merge.MergeTasksOwnRendering | attila/mainwindow.cpp:133 | merging against the list's own rendering groups the whole list, and the as-written merge agrees with the corrected one |

## Left out

- The Qt windows, key bindings and actions are not modelled; they only call the core.
- Filesystem access is not modelled. The directory listing (`get_all_files_recursive`, `POMODORO_DIR`) and the file contents are parameters.
- Threads, `std::async` and `hardware_concurrency` are not modelled. The thread count is a parameter and the chunks are parsed in turn. The ids depend on how the threads interleave their `getID` calls, so the first id of each run is a function parameter, `base`. Within a run the model numbers the ids consecutively from `base`, whereas the shared counter lets other runs' calls leave gaps. Across runs the counter keeps ids distinct; Parallel.RangesDisjoint states this, and Merge.ParallelFresh assumes it.
- Parallel.ParseChunks reports the first failing run's line when several runs fail. In the source, `dt_and_task` calls `exit(76)` inside the worker thread, so the line printed is whichever thread reaches a bad line first, and `future.get()` never sees the failure. Parallel.ParallelAgreesWhenCovered and Parallel.ParallelFixedAgrees therefore equate one possible error outcome with the sequential one; their success cases are unaffected.
- `std::time`, `localtime`, `mktime`, time zones, DST and locales are not modelled. The current date is a parameter and the calendar is proleptic Gregorian.
- `get_time` on a string that is not a canonical `YYYY-MM-DD` date is not modelled; such input is rejected.
- Years outside 1000 to 9999 are left out. `%Y` would then render a different number of digits, and the week-name sort key would break.
- The regex engine is not modelled. `filter_find` takes the line predicate as a parameter, and the fixed regexes of `time_spent`, `dt_and_task`, `projects_of_task` and `resplit` are modelled as scanners.
- `group_t`, the `#if 0` blocks, and functions that are only declared in headers are left out.
- `std::sort` breaking ties among names with equal (year, week) keys is unspecified. WeekFiles.FallbackIndex and WeekFiles.FakeIndex exclude ties through `NoTie`.
- Merge.Reconcile requires `WalkDefined`. Erasing the last element and then incrementing past `end()` is undefined behaviour in the source, and the model does not assign it a meaning.
- Merge.MergeSubtasks, Merge.MergeConserves and Merge.MergeSingle assume input tasks with distinct ids and no sub-tasks. Merge.ParseTasksFresh and Merge.ParallelFresh show that the sequential and the parallel parse produce such tasks when ids do not wrap.
- Tasks.ParseTasksIdsIncrease and Merge.GetIdsIncrease do not cover the `uint32_t` wrap. Merge.GetIdsWrap exhibits the wrap separately.
- TimeSpan.SecToHmT does not model the truncation of the hour count to `int` for durations of 2^31 hours or more.
- Concat.ConcatWeekFiles, Concat.ConcatWeekFilesOld and Concat.ConcatCut require at least one file. `concat_span` can hand `concat_week_files` none: WeekFiles.EmptySpanReachable exhibits an empty span. Reading `fpaths[0]` and `back()` of an empty vector is then undefined behaviour, and the model does not assign it a meaning.
- Tasks.ProjectsOfLine covers strings without line ends. That is what the task text of one parsed line is. For other strings only the contract of Tasks.ProjectsOfTask applies.
- Text is modelled per character, while the source's `std::string` holds bytes: a Dafny `char` stands for what is one byte in ASCII text, and a multi-byte UTF-8 character such as `→` counts as one position here and as three there. Positions and lengths therefore differ from the source's on non-ASCII text. The returned texts do not, for well-formed UTF-8: every scanner tests only ASCII characters, every cut falls at a newline or at an occurrence of the needle, and UTF-8 is self-synchronising, so a byte search finds the same occurrences as a character search.
- Text.Find, Text.RFind and Str.FnlSubstr use unbounded positions in place of `size_t`. `npos` becomes `None`, so an out-of-range position cannot arise.
- The index loop of the grouping step in `merge_tasks` (erase and `j--`) is modelled as its result, a partition by text in first-occurrence order, rather than as a loop.

## Findings

| source | as written | input that shows it | evidently intended | confidence | as-written member | corrected member |
|---|---|---|---|---|---|---|
| tgrp/tgrp.cpp:157-177 | the runs cover lines `0 .. lpt*(T-1)` plus a remainder run only when `nl % (T-1) != 0` | a text with 101 or more newlines that does not end in a newline, with `T = 2`: the last line is in no run | every line is parsed, as `parse_tasks` does | not executed | Parallel.ParallelDropsLastLine | Parallel.ParallelFixedAgrees |
| tgrp/stats.cpp:57-60 | after `erase(it)` the loop still runs `++it`, so the element after an erased one is never examined | tasks with texts `a`, `b`, `c` and mulstr `c`: `b` is kept | keep only the tasks whose text occurs | not executed | Merge.ReconcileSkips | Merge.MergeFixedTexts |
