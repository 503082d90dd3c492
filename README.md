# ddl-management: a verified model of the task tracker core

`main.cpp` keeps a personal list of tasks, each one a name and a count of remaining
days. On every start it works out how many calendar days have passed since the last run,
lowers every count by that many days (never below 0), and records today's date. Then it
reads commands: `list`, `add`, `score`, `exit` and `<name> done`. The list is stored
as a text file with one `name deadline` line per task. The run date is stored in
`date.txt` as `YYYY-MM-DD`.

This project models that core in Dafny and proves what it promises. There are five
modules, one file each:

- text.dfy (`Text`) models the C++ stream operations the program relies on:
  - whitespace skipping, and `operator>>` into a `std::string` (`ReadWord`);
  - `%d` / `operator>>` into an `int` (`ScanInt`);
  - `getline` (`Lines`, `FirstLine`);
  - decimal integer output (`IntToString`).
- calendar.dfy (`Calendar`) covers dates:
  - dates as (year, month, day) triples, with proleptic-Gregorian day numbers;
  - `daysBetween` as the difference of day numbers (`DaysBetween`, and `DaysBetweenTexts` on the date texts);
  - the `%Y-%m-%d` text written by `getCurrentDate` (`FormatDate`) and read by `sscanf("%d-%d-%d")` (`ParseDate`).
- tasks.dfy (`Tasks`) covers the task list:
  - the `Task` record;
  - the decay rule (`Decayed`);
  - the stable removal by name that `remove_if` + `erase` perform (`Removed`);
  - the running minimum of `computeDeadlineScore` (`MinDeadline`);
  - the task-file text written by `saveTasks` (`SerialiseTasks`, `WriteTasks`) and read by `loadTasks` (`ParseTasks`, `LoadTasks`).
- commands.dfy (`Commands`) classifies one command line, as `main`'s loop does (`Classify`).
- tracker.dfy (`Session`) holds the `Tracker` class.
  - Its fields are the task list in memory, the text of the task file and the text of `date.txt`.
  - Its methods are the in-place operations: loading, the deadline update at startup, saving, adding, deleting and one pass of the command loop.
  - `Valid()` says that the task file's text reads back as the list in memory. `Load` establishes it. `SaveTasks`, `UpdateDeadlines`, `Startup`, `AddTask`, `DeleteTask` and `Execute` keep it.
  - `DecayDeadlines` and `RemoveIf` are inner steps of `UpdateDeadlines` and `DeleteTask`. They neither need nor keep `Valid()`.
  - Files are represented by their contents. Writing a file is an assignment to the matching field.

## Model

| member | source | states |
|---|---|---|
| Text.ScanIntOfIntToString | main.cpp:89 | an integer written in decimal reads back as the same integer, and reading stops right after its last digit |
| Text.ReadWordSpec | main.cpp:89 | reading a word from a line fails exactly when the line is blank; otherwise the word is non-empty, has no whitespace, and ends where whitespace or the text ends |
| Text.ReadWordOf | main.cpp:254 | a word that is followed by whitespace or by the end of the text is read whole |
| Text.LinesOf | main.cpp:86 | a line ended by '\n' is returned by one `getline`, and reading resumes after the '\n' |
| Text.ReadWordAfterBlank | main.cpp:89 | leading whitespace of any length is skipped before a word is read |
| Text.FirstLineWhole | main.cpp:46 | text with no line break is read whole by one `getline` |
| Calendar.DaysBetweenAlgebra | main.cpp:30-39 | the same date gives 0 days; swapping the arguments negates the count; counts add up along a chain a, b, c |
| Calendar.DaysBetweenSign | main.cpp:30-39 | the day count is positive iff the first date is earlier, 0 iff the dates are equal, and negative iff the first date is later |
| Calendar.NextDayIsOneLater | main.cpp:30-39 | a date and the next calendar day are 1 day apart, across month, year and leap-day boundaries |
| Calendar.DaysBetweenAddDays | main.cpp:30-39 | stepping `k` calendar days forward from a date gives a date `k` days later by the day count, and strictly later when k > 0 |
| Calendar.DaysBetweenFormatted | main.cpp:30-39 | on two date texts written by `getCurrentDate`, `daysBetween` reads both back and returns the calendar distance between the dates |
| Calendar.Pad2 | main.cpp:25 | `%m` and `%d` write exactly two digits, and those digits read back as the number written |
| Calendar.FormatDateLength | main.cpp:24-25 | a date with a four-digit year is exactly 10 characters long, so it fits the 11-byte buffer |
| Calendar.FormatDateNoBreak | main.cpp:53-57 | a written date holds no line break, so the next `getline` reads it whole |
| Calendar.ParseFormatDate | main.cpp:25 | `sscanf("%d-%d-%d")` on a date written with `%Y-%m-%d` gives back the same year, month and day |
| Tasks.DecayNoElapsedDays | main.cpp:111-115 | when the elapsed day count is ≤ 0, no task changes |
| Tasks.DecayShape | main.cpp:118-121 | when days have passed, length, order and names are unchanged, and each deadline becomes `max(0, d - k)`, which is never negative |
| Tasks.DecayCompose | main.cpp:118-121 | decaying by k1 and then by k2 days equals one decay by k1 + k2 days |
| Tasks.RemovedAppend | main.cpp:202-204 | removal by name works piece by piece over a concatenation, so the kept tasks keep their relative order |
| Tasks.RemovedContents | main.cpp:202-206 | no task with the name is left, and every other task keeps its number of occurrences |
| Tasks.RemovedShorter | main.cpp:205 | the list gets shorter iff some task has the name, which is when `it != tasks.end()` |
| Tasks.RemovedNothing | main.cpp:205-211 | when no task has the name, the list is unchanged |
| Tasks.RemovedTwice | main.cpp:201-211 | deleting a name twice is the same as deleting it once |
| Tasks.MinDeadline | main.cpp:137-143 | the empty list takes the separate branch; otherwise the result is ≤ 10000 and ≤ every deadline; it is some task's deadline or 10000, and it is 10000 when every deadline is at least 10000 |
| Tasks.SerialiseSnoc | main.cpp:99-101 | writing one more task appends its `name deadline\n` line at the end of the text |
| Tasks.WriteTasks | main.cpp:97-103 | the save loop produces one `name deadline\n` line per task, in list order |
| Tasks.ParseTaskLineSpec | main.cpp:87-90 | a line yields no task iff it holds no word, or one word with only whitespace around it (the deadline is then never set); a parsed name is a single whitespace-free word |
| Tasks.OneWordLine | main.cpp:88-89 | a line with a name and nothing after it yields no task, because the deadline read stops at the end of the line |
| Tasks.ParseUnreadableDeadline | main.cpp:89 | a name followed by text that is not an integer yields that name with deadline 0 |
| Tasks.ParseTaskText | main.cpp:89 | a written task line parses back to the same name and deadline |
| Tasks.LinesOfSerialised | main.cpp:86 | the lines of a saved file are the tasks' lines, one per task |
| Tasks.TaskFileRoundTrip | main.cpp:86-103 | saving a list whose names are single words and loading it back gives the same tasks in the same order |
| Tasks.ParsedTasksWellNamed | main.cpp:86-91 | every task loaded from a file has a single-word name |
| Tasks.LoadTasks | main.cpp:86-91 | the load loop pushes one task per line, in file order, as the line format defines |
| Commands.ClassifyKeywords | main.cpp:243-250 | `list`, `add`, `score` and `exit` are recognised iff the whole line is exactly that keyword |
| Commands.ClassifyTwoWords | main.cpp:252-258 | with any whitespace before and between two words, and anything after a further whitespace character, the line deletes the first word when the second is `done` and is unknown otherwise, even when the first word is a keyword |
| Commands.DoneShape | main.cpp:252-256 | a line classified as a delete has `done` as its second word and the deleted name as its first |
| Commands.ClassifyDoneIff | main.cpp:252-256 | a line deletes `name` iff its first word is `name` and its second word is `done` |
| Commands.ClassifyUnknownIff | main.cpp:243-258 | a line is unknown iff it is no keyword and its second word is not `done` (or it has no second word) |
| Commands.ClassifySingleWord | main.cpp:252-258 | a single word that is not a keyword is unknown, and so is a bare `done` |
| Commands.ClassifyBlank | main.cpp:252-258 | an empty or blank line is unknown |
| Session.FirstRunElapsesNothing | main.cpp:42-50 | an empty or missing stored date defaults to today, so the first run counts 0 elapsed days |
| Session.ElapsedSinceSaved | main.cpp:108-112 | a date saved on day d and read on a later start gives the calendar days from d to today, which are positive iff today is later than d |
| Session.SameDayRerunElapsesNothing | main.cpp:216-218 | after a start stores today, another start on the same day counts 0 days, so decay is not applied twice |
| Session.Tracker.Load | main.cpp:78-94 | the list in memory is the list the task file holds, and the file reads back as that list |
| Session.Tracker.SaveTasks | main.cpp:97-103 | the task file becomes the saved text of the list, and the list is unchanged |
| Session.Tracker.DecayDeadlines | main.cpp:118-121 | each deadline is lowered in place to `max(0, d - daysPassed)`, and nothing else changes |
| Session.Tracker.UpdateDeadlines | main.cpp:107-125 | the day count comes from the stored date and today; the list decays by it; the list and today's date are saved only when the count is positive |
| Session.Tracker.Startup | main.cpp:215-218 | after startup the stored date is today, whether or not decay was applied |
| Session.Tracker.AddTask | main.cpp:189-198 | the entered task is appended at the end, with no check on its deadline, and the list is saved |
| Session.Tracker.RemoveIf | main.cpp:202-204 | the kept tasks are moved in order to the front; the list keeps its length; the returned end marks them off |
| Session.Tracker.DeleteTask | main.cpp:201-212 | every task with the name is removed and all others keep their order; "found" holds iff one matched; the file is saved only then |
| Session.Tracker.Execute | main.cpp:240-261 | one pass of the loop adds, deletes or changes nothing, according to the classified line; the task file is rewritten after an add and after a delete that matched, and is untouched otherwise; the loop continues unless the line is `exit` |

## Left out

- The task-count and deadline scores (logistic curves, `exp`/`log`, the weighted geometric mean) and the score tiers (main.cpp:129-174) are floating point. Only the integer running minimum of `computeDeadlineScore` is modelled.
- Reading the clock (`time`, `localtime`, `strftime`) is not modelled. Today's date is a parameter of `Startup` and `UpdateDeadlines`. The source reads the clock three times (main.cpp:49, 109 and 217), and the single parameter assumes all three reads give the same day. So a run that straddles midnight is not modelled: on a first run the source then counts 1 elapsed day, where Session.FirstRunElapsesNothing counts 0.
- mktime's time-zone handling and its normalisation of out-of-range fields are not modelled. Day counts are exact calendar arithmetic on real dates.
- Session.Tracker.UpdateDeadlines requires the stored date to be empty or to read as a real calendar date. A malformed `date.txt` is not modelled.
- Calendar.FormatDate covers years 1000 to 9999 only. Other years do not fit the `YYYY` shape that main.cpp's 11-byte buffer expects.
- File handling is not modelled: opening, closing, failure to open, and the separate file that names the task file's path. So the first-run path prompt (main.cpp:219-225) is left out too. A file is represented by its text, and a missing file by empty text.
- Session.Tracker.Load requires a task file in which every line holds a name and something after it. On a blank line, or a line holding only a name, `loadTasks` pushes a task whose deadline is never set: `>> task.deadline` stops at the end of the line and stores nothing. The model rejects such a file (`ParseTasks` gives None).
- On a line where text follows the name but is not an integer, the model gives deadline 0. That is what C++11 `operator>>` stores when it fails to read a number.
- Text.ScanInt does not model the clamping of out-of-range numbers to `INT_MAX`/`INT_MIN`.
- Tasks.Decayed does not model 32-bit overflow of `task.deadline - daysPassed`. Integers are unbounded here, and the subtraction overflows only for deadlines near `INT_MIN`.
- Console output, the `cin.ignore()` before the loop, and the reading of console input are not modelled. The line typed at the prompt and the task `addTask` reads are parameters of `Execute`, and `list` and `score` only print.
- Session.Tracker.AddTask requires the entered name to be a single whitespace-free word. That is what `cin >> task.name` reads; a failed read at end of input is not modelled.
